/** Who owns which page: insertion moves pages from the allocator into the tree and loses none. */
module TreePages {
  import opened Wrappers
  import opened ByteStrings
  import opened NodeFormat
  import opened SortedEntries
  import opened PageAllocation
  import opened Trees
  import opened TreeShape

  /** Pages the file gained between two allocator states. */
  function Gained(a: Alloc, b: Alloc, p: u32): nat {
    if a.count <= p < b.count then 1 else 0
  }

  /** held is how often p occurs in the subtree that went in. */
  ghost predicate Conserves(held: nat, a: Alloc, r: Ins, p: u32) {
    match r
    case Failed(t, b) => Ids(t)[p] + FreeTimes(b, p) <= held + FreeTimes(a, p) + Gained(a, b, p)
    case Done(t, b) => Ids(t)[p] + FreeTimes(b, p) == held + FreeTimes(a, p) + Gained(a, b, p)
    case Split(l, _, rt, b) => Ids(l)[p] + Ids(rt)[p] + FreeTimes(b, p) == held + FreeTimes(a, p) + Gained(a, b, p)
  }

  /** At most n pages were taken. */
  predicate TookAtMost(a: Alloc, b: Alloc, n: nat) {
    a.count <= b.count <= a.count + n
  }

  lemma ReplacedIds(kids: seq<Tree>, i: nat, c: Tree)
    requires i < |kids|
    ensures KidIds(kids[i := c]) == KidIds(kids[..i]) + Ids(c) + KidIds(kids[i + 1..])
  {
    KidIdsAround(kids[i := c], i);
    assert kids[i := c][..i] == kids[..i] && kids[i := c][i + 1..] == kids[i + 1..];
  }

  lemma SplicedIds(kids: seq<Tree>, i: nat, l: Tree, r: Tree)
    requires i < |kids|
    ensures KidIds(InsertAt(kids[i := l], i + 1, r))
            == KidIds(kids[..i]) + Ids(l) + Ids(r) + KidIds(kids[i + 1..])
  {
    var ks := InsertAt(kids[i := l], i + 1, r);
    SplicedSlices(kids, i, l, r);
    KidIdsAround(ks, i);
    KidIdsCons(ks[i + 1..], r, kids[i + 1..]);
  }

  lemma NodeIdsAt(t: Tree, p: u32)
    ensures Ids(t)[p] == (if p == t.id then 1 else 0) + (if t.Node? then KidIds(t.kids)[p] else 0)
  {
  }

  lemma SplitLeafConserves(t: Tree, ents: seq<Entry>, a: Alloc, p: u32)
    requires t.Leaf? && ents != [] && a.count < MAX_U32
    ensures Conserves(Ids(t)[p], a, SplitLeaf(t, ents, a), p)
    ensures TookAtMost(a, SplitLeaf(t, ents, a).a, 1)
  {
    PopConserves(a, p);
  }

  /** before and the new children each hold p at most, and together exactly, held times besides the root page. */
  lemma SplitNodeConserves(before: Tree, seps: seq<bytes>, kids: seq<Tree>, a: Alloc, held: nat, p: u32)
    requires before.Node? && seps != [] && |kids| == |seps| + 1 && a.count < MAX_U32
    requires KidIds(kids)[p] == held && KidIds(before.kids)[p] <= held
    ensures Conserves(held + (if p == before.id then 1 else 0), a, SplitNode(before, seps, kids, a), p)
    ensures TookAtMost(a, SplitNode(before, seps, kids, a).a, 1)
  {
    hide Ids, FreeTimes;
    PopConserves(a, p);
    var mid := |seps| / 2;
    assert kids == kids[..mid + 1] + kids[mid + 1..];
    KidIdsConcat(kids[..mid + 1], kids[mid + 1..]);
    NodeIdsAt(before, p);
    NodeIdsAt(Node(before.id, seps[..mid], kids[..mid + 1]), p);
    NodeIdsAt(Node(Pop(a).0, seps[mid + 1..], kids[mid + 1..]), p);
  }

  lemma AdoptChildConserves(t: Tree, i: nat, r: Ins, a: Alloc, h: nat, p: u32)
    requires t.Node? && |t.kids| == |t.seps| + 1 && i < |t.kids|
    requires Conserves(Ids(t.kids[i])[p], a, r, p) && TookAtMost(a, r.a, h) && a.count + h < MAX_U32
    ensures Conserves(Ids(t)[p], a, AdoptChild(t, i, r), p)
    ensures TookAtMost(a, AdoptChild(t, i, r).a, h + 1)
  {
    hide KidIds, Ids, FreeTimes, SplitNode, InnerSize;
    KidIdsAround(t.kids, i);
    NodeIdsAt(t, p);
    match r
    case Failed(c, _) =>
      ReplacedIds(t.kids, i, c);
      NodeIdsAt(t.(kids := t.kids[i := c]), p);
    case Done(c, _) =>
      ReplacedIds(t.kids, i, c);
      NodeIdsAt(t.(kids := t.kids[i := c]), p);
    case Split(l, s, rt, b) =>
      SplicedIds(t.kids, i, l, rt);
      var before := t.(kids := t.kids[i := l]);
      var seps, kids := InsertAt(t.seps, i, s), InsertAt(t.kids[i := l], i + 1, rt);
      NodeIdsAt(Node(t.id, seps, kids), p);
      if InnerSize(seps) > CELL_AREA_SIZE {
        ReplacedIds(t.kids, i, l);
        SplitNodeConserves(before, seps, kids, b, KidIds(kids)[p], p);
      }
  }

  /** No path has more than h nodes. */
  ghost predicate AtMostDeep(t: Tree, h: nat)
    decreases h
  {
    if t.Leaf? then h >= 1 else h >= 2 && forall j :: 0 <= j < |t.kids| ==> AtMostDeep(t.kids[j], h - 1)
  }

  lemma {:induction false} WFAtMostDeep(t: Tree, lo: Bound, hi: Bound, h: nat, end: End, minSeps: nat)
    requires WF(t, lo, hi, h, end, minSeps)
    ensures AtMostDeep(t, h)
    decreases h
  {
    if t.Node? {
      forall j | 0 <= j < |t.kids|
        ensures AtMostDeep(t.kids[j], h - 1)
      {
        assert KidOk(t.seps, t.kids, j, lo, hi, end, WFAt(h - 1));
        WFAtMostDeep(t.kids[j], LoOf(t.seps, j, lo), HiOf(t.seps, j, hi), h - 1, EndOf(t.kids, j, end), MIN_SEPS);
      }
    }
  }

  /** Over a whole insertion, page p is neither lost nor doubled. */
  lemma {:induction false} InsertConserves(t: Tree, k: bytes, v: bytes, a: Alloc, h: nat, p: u32)
    requires Shaped(t) && AtMostDeep(t, h) && a.count + h <= MAX_U32
    ensures Conserves(Ids(t)[p], a, Insert(t, k, v, a), p)
    ensures TookAtMost(a, Insert(t, k, v, a).a, h)
    decreases h
  {
    match t
    case Leaf(_, _, _) =>
      if LeafSize(Upsert(t.ents, k, v)) > CELL_AREA_SIZE && !Present(t.ents, k) {
        SplitLeafConserves(t, Upsert(t.ents, k, v), a, p);
      }
    case Node(_, seps, kids) =>
      var i := ChildIndex(seps, k);
      InsertConserves(kids[i], k, v, a, h - 1, p);
      AdoptChildConserves(t, i, Insert(kids[i], k, v, a), a, h - 1, p);
  }

  /** Pages only ever leave the free list. */
  ghost predicate FreesNone(a: Alloc, b: Alloc) {
    a.count <= b.count && forall p: u32 :: FreeTimes(b, p) <= FreeTimes(a, p)
  }

  lemma PopFreesNone(a: Alloc)
    requires a.count < MAX_U32
    ensures FreesNone(a, Pop(a).1)
  {
    forall p: u32
      ensures FreeTimes(Pop(a).1, p) <= FreeTimes(a, p)
    {
      PopConserves(a, p);
    }
  }

  lemma {:induction false} InsertFreesNone(t: Tree, k: bytes, v: bytes, a: Alloc, h: nat)
    requires Shaped(t) && AtMostDeep(t, h) && a.count + h <= MAX_U32
    ensures FreesNone(a, Insert(t, k, v, a).a)
    decreases h
  {
    hide FreeTimes, Pop;
    match t
    case Leaf(_, _, _) =>
      PopFreesNone(a);
    case Node(_, seps, kids) =>
      var i := ChildIndex(seps, k);
      InsertFreesNone(kids[i], k, v, a, h - 1);
      InsertConserves(kids[i], k, v, a, h - 1, 0);
      PopFreesNone(Insert(kids[i], k, v, a).a);
  }

  /** The subtree stays rooted at its page. */
  lemma {:induction false} InsertKeepsRoot(t: Tree, k: bytes, v: bytes, a: Alloc)
    requires Shaped(t)
    ensures match Insert(t, k, v, a)
            case Failed(t', _) => t'.id == t.id
            case Done(t', _) => t'.id == t.id
            case Split(l, _, _, _) => l.id == t.id
  {
    hide Pop, Upsert, InsertAt, Present;
  }

  /** Tree pages and free pages are distinct pages of the file, page 0 not among them. */
  ghost predicate Owned(t: Tree, a: Alloc) {
    forall p: u32 :: Ids(t)[p] + FreeTimes(a, p) <= if 1 <= p < a.count then 1 else 0
  }

  /** Every page of the file but the header is a tree page or a free page. */
  ghost predicate NoLeak(t: Tree, a: Alloc) {
    forall p: u32 :: Ids(t)[p] + FreeTimes(a, p) == if 1 <= p < a.count then 1 else 0
  }

  /** Page numbers are left for one split per level and a new root. */
  predicate Room(a: Alloc, h: nat) {
    a.count + h < MAX_U32
  }

  /** Page numbers for a split on each of at most twelve levels and a new root. */
  predicate Roomy(a: Alloc) {
    a.count < MAX_U32 - 12
  }

  lemma PutConserves(t: Tree, h: nat, k: bytes, v: bytes, a: Alloc, p: u32)
    requires SearchTree(t, h) && Shaped(t) && Legal(k, v) && Room(a, h)
    ensures Conserves(Ids(t)[p], a, PutTree(t, k, v, a), p)
    ensures TookAtMost(a, PutTree(t, k, v, a).a, h + 1)
  {
    hide Ids, KidIds, FreeTimes, Insert, WF;
    WFAtMostDeep(t, None, None, h, None, 1);
    InsertConserves(t, k, v, a, h, p);
    match Insert(t, k, v, a)
    case Failed(_, _) =>
    case Done(_, _) =>
    case Split(l, s, r, b) =>
      PopConserves(b, p);
      NewRootIds(Pop(b).0, s, l, r, p);
  }

  lemma NewRootIds(id: u32, s: bytes, l: Tree, r: Tree, p: u32)
    ensures Ids(Node(id, [s], [l, r]))[p] == (if p == id then 1 else 0) + Ids(l)[p] + Ids(r)[p]
  {
    NodeIdsAt(Node(id, [s], [l, r]), p);
    PairIds(l, r);
  }

  /** Put keeps pages apart, and a successful Put leaks none. */
  lemma PutKeepsPages(t: Tree, h: nat, k: bytes, v: bytes, a: Alloc)
    requires SearchTree(t, h) && Shaped(t) && Legal(k, v) && Room(a, h) && Owned(t, a)
    ensures var r := PutTree(t, k, v, a);
            && Owned(r.t, r.a)
            && (r.Done? && NoLeak(t, a) ==> NoLeak(r.t, r.a))
  {
    var r := PutTree(t, k, v, a);
    forall p: u32
      ensures Conserves(Ids(t)[p], a, r, p) && TookAtMost(a, r.a, h + 1)
      ensures Ids(r.t)[p] + FreeTimes(r.a, p) <= if 1 <= p < r.a.count then 1 else 0
      ensures r.Done? && NoLeak(t, a) ==> Ids(r.t)[p] + FreeTimes(r.a, p) == if 1 <= p < r.a.count then 1 else 0
    {
      PutConserves(t, h, k, v, a, p);
      assert Ids(t)[p] + FreeTimes(a, p) <= if 1 <= p < a.count then 1 else 0;
      assert Ids(t)[0] + FreeTimes(a, 0) <= if 1 <= 0 < a.count then 1 else 0;
      if a.count == 0 {
        RootHeld(t);
        assert false;
      }
    }
  }

  lemma RootHeld(t: Tree)
    ensures Ids(t)[t.id] >= 1
  {
  }

  /** Delete moves no page. */
  lemma {:induction false} DeleteKeepsPages(t: Tree, k: bytes)
    requires Shaped(t)
    ensures Ids(DeleteTree(t, k)) == Ids(t)
    decreases t
  {
    if t.Node? {
      var i := ChildIndex(t.seps, k);
      DeleteKeepsPages(t.kids[i], k);
      ReplacedIds(t.kids, i, DeleteTree(t.kids[i], k));
      KidIdsAround(t.kids, i);
    }
  }

  /** A leaf that must split takes the first page of all. */
  lemma {:induction false} InsertPopsFirst(t: Tree, k: bytes, v: bytes, a: Alloc, h: nat)
    requires Shaped(t) && AtMostDeep(t, h) && a.count + h <= MAX_U32
    requires var ents := LeafFor(t, k).ents; LeafSize(Upsert(ents, k, v)) > CELL_AREA_SIZE && !Present(ents, k)
    ensures FreesNone(Pop(a).1, Insert(t, k, v, a).a)
    decreases h
  {
    hide FreeTimes, Pop, LeafSize, Upsert, Present;
    match t
    case Leaf(_, _, _) =>
    case Node(_, seps, kids) =>
      var i := ChildIndex(seps, k);
      InsertPopsFirst(kids[i], k, v, a, h - 1);
      InsertConserves(kids[i], k, v, a, h - 1, 0);
      PopFreesNone(Insert(kids[i], k, v, a).a);
  }

  lemma PutFreesNone(t: Tree, h: nat, k: bytes, v: bytes, a: Alloc)
    requires Shaped(t) && AtMostDeep(t, h) && Room(a, h)
    ensures FreesNone(a, PutTree(t, k, v, a).a)
    ensures var ents := LeafFor(t, k).ents;
            LeafSize(Upsert(ents, k, v)) > CELL_AREA_SIZE && !Present(ents, k) ==>
              FreesNone(Pop(a).1, PutTree(t, k, v, a).a)
  {
    hide FreeTimes, Insert, LeafSize, Upsert, Present, LeafFor, Pop;
    InsertFreesNone(t, k, v, a, h);
    if LeafSize(Upsert(LeafFor(t, k).ents, k, v)) > CELL_AREA_SIZE && !Present(LeafFor(t, k).ents, k) {
      InsertPopsFirst(t, k, v, a, h);
    }
    InsertConserves(t, k, v, a, h, 0);
    if Insert(t, k, v, a).Split? {
      PopFreesNone(Insert(t, k, v, a).a);
    }
  }

  /** Taking free pages and growing the file takes nothing away from a tree. */
  lemma OwnedStill(t: Tree, a: Alloc, b: Alloc)
    requires Owned(t, a) && FreesNone(a, b)
    ensures Owned(t, b)
  {
    forall p: u32
      ensures Ids(t)[p] + FreeTimes(b, p) <= if 1 <= p < b.count then 1 else 0
    {
      assert Ids(t)[p] + FreeTimes(a, p) <= if 1 <= p < a.count then 1 else 0;
    }
  }
}
