/** When Put reports an overflow, what it costs, and what is left of the tree. */
module TreeFailure {
  import opened Wrappers
  import opened ByteStrings
  import opened NodeFormat
  import opened SortedEntries
  import opened PageAllocation
  import opened Trees
  import opened TreeShape
  import opened TreeContents
  import opened TreePages
  import opened TreeChain
  import TreeCapacity

  // ---------- when Put fails ----------

  /** What becomes of a node that is given one more cell. */
  datatype Fate = Fits | Breaks | Promotes(sep: bytes)

  /** An overfull leaf breaks when it took an update, or when one of its halves by count is over a page. */
  function LeafFate(ents: seq<Entry>, k: bytes, v: bytes): Fate {
    var all := Upsert(ents, k, v);
    var mid := |all| / 2;
    if LeafSize(all) <= CELL_AREA_SIZE then Fits
    else if Present(ents, k) then Breaks
    else if LeafSize(all[..mid]) > CELL_AREA_SIZE || LeafSize(all[mid..]) > CELL_AREA_SIZE then Breaks
    else Promotes(all[mid].key)
  }

  /** An overfull internal node breaks when a half beside its middle separator is over a page. */
  function NodeFate(seps: seq<bytes>, i: nat, sep: bytes): Fate
    requires i <= |seps|
  {
    var all := InsertAt(seps, i, sep);
    var mid := |all| / 2;
    if InnerSize(all) <= CELL_AREA_SIZE then Fits
    else if InnerSize(all[..mid]) > CELL_AREA_SIZE || InnerSize(all[mid + 1..]) > CELL_AREA_SIZE then Breaks
    else Promotes(all[mid])
  }

  /** Only sizes on the way from k's leaf up to the root decide, and not which pages are free. */
  function FateOf(t: Tree, k: bytes, v: bytes): Fate
    requires Shaped(t)
    decreases t
  {
    match t
    case Leaf(_, ents, _) => LeafFate(ents, k, v)
    case Node(_, seps, kids) =>
      var i := ChildIndex(seps, k);
      match FateOf(kids[i], k, v)
      case Fits => Fits
      case Breaks => Breaks
      case Promotes(sep) => NodeFate(seps, i, sep)
  }

  ghost predicate MeetsFate(r: Ins, f: Fate) {
    match f
    case Fits => r.Done?
    case Breaks => r.Failed?
    case Promotes(sep) => r.Split? && r.sep == sep
  }

  lemma {:induction false} InsertMeetsFate(t: Tree, k: bytes, v: bytes, a: Alloc)
    requires Shaped(t)
    ensures MeetsFate(Insert(t, k, v, a), FateOf(t, k, v))
    decreases t
  {
    hide MeetsFate, Upsert, Present, LeafSize, LeafFate, InsertLeaf, AdoptChild, NodeFate;
    if t.Leaf? {
      LeafMeetsFate(t, k, v, a);
    } else {
      var i := ChildIndex(t.seps, k);
      InsertMeetsFate(t.kids[i], k, v, a);
      NodeMeetsFate(t, i, Insert(t.kids[i], k, v, a), FateOf(t.kids[i], k, v));
    }
  }

  lemma LeafMeetsFate(t: Tree, k: bytes, v: bytes, a: Alloc)
    requires t.Leaf?
    ensures MeetsFate(InsertLeaf(t, k, v, a), LeafFate(t.ents, k, v))
  {
    hide Upsert, LeafSize, Pop;
    assert Upsert(t.ents, k, v) != [] by {
      UpsertIsNotEmpty(t.ents, k, v);
    }
  }

  lemma UpsertIsNotEmpty(ents: seq<Entry>, k: bytes, v: bytes)
    ensures Upsert(ents, k, v) != []
  {
  }

  lemma NodeMeetsFate(t: Tree, i: nat, r: Ins, f: Fate)
    requires t.Node? && |t.kids| == |t.seps| + 1 && i < |t.kids| && MeetsFate(r, f)
    ensures MeetsFate(AdoptChild(t, i, r), if f.Promotes? then NodeFate(t.seps, i, f.sep) else f)
  {
    hide InnerSize, Pop;
  }

  /** Put fails exactly when the leaf or a node above it breaks; a new root always fits its page. */
  lemma PutFailsIff(t: Tree, h: nat, k: bytes, v: bytes, a: Alloc)
    requires SearchTree(t, h) && Shaped(t) && Legal(k, v)
    ensures PutTree(t, k, v, a).Failed? <==> FateOf(t, k, v).Breaks?
  {
    InsertMeetsFate(t, k, v, a);
    PutKeepsShape(t, h, k, v, a);
  }

  // ---------- what a failure costs ----------

  /** Pages of the file that are neither free nor in the tree. */
  ghost function LostPages(t: Tree, a: Alloc): int {
    a.count - 1 - |a.free| - |Ids(t)|
  }

  lemma LostPagesMeaning(t: Tree, a: Alloc)
    requires Owned(t, a)
    ensures LostPages(t, a) >= 0
    ensures LostPages(t, a) == 0 <==> NoLeak(t, a)
  {
    var m := Ids(t) + multiset(a.free);
    forall p: u32
      ensures m[p] == Ids(t)[p] + FreeTimes(a, p)
      ensures m[p] <= if 1 <= p < a.count then 1 else 0
    {
      assert Ids(t)[p] + FreeTimes(a, p) <= if 1 <= p < a.count then 1 else 0;
    }
    RootHeld(t);
    assert m[t.id] <= if 1 <= t.id < a.count then 1 else 0;
    DistinctPages(m, a.count);
  }

  /** Pages handed out so far. */
  function Taken(a: Alloc): int {
    a.count - |a.free|
  }

  /** held pages went in; every page taken is in the tree afterwards, unless the insertion of a new key failed. */
  ghost predicate Balances(held: nat, a: Alloc, r: Ins, absent: bool) {
    match r
    case Failed(t, b) => |Ids(t)| + Taken(a) + (if absent then 1 else 0) <= held + Taken(b)
    case Done(t, b) => |Ids(t)| + Taken(a) == held + Taken(b)
    case Split(l, _, rt, b) => |Ids(l)| + |Ids(rt)| + Taken(a) == held + Taken(b)
  }

  lemma PopTakes(a: Alloc)
    requires a.count < MAX_U32
    ensures Taken(Pop(a).1) == Taken(a) + 1
  {
  }

  lemma NodeIdsCount(t: Tree)
    requires t.Node?
    ensures |Ids(t)| == 1 + |KidIds(t.kids)|
  {
  }

  lemma SplitNodeBalances(before: Tree, seps: seq<bytes>, kids: seq<Tree>, a: Alloc, held: nat)
    requires before.Node? && seps != [] && |kids| == |seps| + 1 && a.count < MAX_U32
    requires |KidIds(kids)| == held && |KidIds(before.kids)| <= held
    ensures Balances(held + 1, a, SplitNode(before, seps, kids, a), true)
  {
    hide Ids, KidIds, Taken;
    PopTakes(a);
    var mid := |seps| / 2;
    assert kids == kids[..mid + 1] + kids[mid + 1..];
    KidIdsConcat(kids[..mid + 1], kids[mid + 1..]);
    NodeIdsCount(before);
    NodeIdsCount(Node(before.id, seps[..mid], kids[..mid + 1]));
    NodeIdsCount(Node(Pop(a).0, seps[mid + 1..], kids[mid + 1..]));
  }

  lemma AdoptChildBalances(t: Tree, i: nat, r: Ins, a: Alloc, absent: bool)
    requires t.Node? && |t.kids| == |t.seps| + 1 && i < |t.kids|
    requires Balances(|Ids(t.kids[i])|, a, r, absent) && r.a.count < MAX_U32
    ensures Balances(|Ids(t)|, a, AdoptChild(t, i, r), absent)
  {
    hide KidIds, Ids, Taken, SplitNode;
    KidIdsAround(t.kids, i);
    NodeIdsCount(t);
    match r
    case Failed(c, _) =>
      ReplacedIds(t.kids, i, c);
      NodeIdsCount(t.(kids := t.kids[i := c]));
    case Done(c, _) =>
      ReplacedIds(t.kids, i, c);
      NodeIdsCount(t.(kids := t.kids[i := c]));
    case Split(l, s, rt, b) =>
      SplicedIds(t.kids, i, l, rt);
      var before := t.(kids := t.kids[i := l]);
      var seps, kids := InsertAt(t.seps, i, s), InsertAt(t.kids[i := l], i + 1, rt);
      NodeIdsCount(Node(t.id, seps, kids));
      if InnerSize(seps) > CELL_AREA_SIZE {
        ReplacedIds(t.kids, i, l);
        SplitNodeBalances(before, seps, kids, b, |KidIds(kids)|);
      }
  }

  lemma {:induction false} InsertBalances(t: Tree, k: bytes, v: bytes, a: Alloc, h: nat)
    requires Shaped(t) && AtMostDeep(t, h) && a.count + h <= MAX_U32
    ensures Balances(|Ids(t)|, a, Insert(t, k, v, a), !Present(LeafFor(t, k).ents, k))
    decreases h
  {
    hide AdoptChild, Taken, Balances, Conserves, Present, InsertLeaf, Ids, LeafFor;
    if t.Leaf? {
      InsertLeafBalances(t, k, v, a);
    } else {
      var i := ChildIndex(t.seps, k);
      SameLeaf(t, k);
      InsertBalances(t.kids[i], k, v, a, h - 1);
      InsertConserves(t.kids[i], k, v, a, h - 1, 0);
      AdoptChildBalances(t, i, Insert(t.kids[i], k, v, a), a, !Present(LeafFor(t, k).ents, k));
    }
  }

  lemma InsertLeafBalances(t: Tree, k: bytes, v: bytes, a: Alloc)
    requires t.Leaf? && a.count < MAX_U32
    ensures LeafFor(t, k) == t && Balances(|Ids(t)|, a, InsertLeaf(t, k, v, a), !Present(t.ents, k))
  {
    hide Upsert, Present, LeafSize;
    PopTakes(a);
  }

  /** A failed Put of a new key loses at least a page; no other outcome loses any. */
  lemma PutLosesPages(t: Tree, h: nat, k: bytes, v: bytes, a: Alloc)
    requires SearchTree(t, h) && Shaped(t) && Legal(k, v) && Room(a, h)
    ensures var r := PutTree(t, k, v, a);
            if r.Failed? && k !in Contents(t) then LostPages(r.t, r.a) > LostPages(t, a)
            else LostPages(r.t, r.a) == LostPages(t, a)
  {
    hide Insert, Ids, Taken, WF, Shaped, LeafFor, Present, Contents, FirstLeaf, Conserves, Pop;
    WFAtMostDeep(t, None, None, h, None, 1);
    StoredKeyIsPresent(t, h, k);
    PutKeepsShape(t, h, k, v, a);
    InsertBalances(t, k, v, a, h);
    InsertConserves(t, k, v, a, h, 0);
    LostByTaken(t, a);
    LostByTaken(PutTree(t, k, v, a).t, PutTree(t, k, v, a).a);
    if Present(LeafFor(t, k).ents, k) {
      TreeCapacity.UpdateStaysPut(t, k, v, a);
    }
    match Insert(t, k, v, a)
    case Failed(_, _) =>
    case Done(_, _) =>
    case Split(l, s, r, b) =>
      PopTakes(b);
      NodeIdsCount(Node(Pop(b).0, [s], [l, r]));
      PairIds(l, r);
  }

  lemma LostByTaken(t: Tree, a: Alloc)
    ensures LostPages(t, a) == Taken(a) - 1 - |Ids(t)|
  {
  }

  /**
   "A failed Put changes nothing" holds exactly when the key was there
   already. Of a new key even a failure that leaves the tree alone costs a
   page, which no later operation gives back.
   */
  lemma FailedPutUnchangedIff(t: Tree, h: nat, k: bytes, v: bytes, a: Alloc)
    requires SearchTree(t, h) && Shaped(t) && Legal(k, v) && Room(a, h)
    requires PutTree(t, k, v, a).Failed?
    ensures PutTree(t, k, v, a) == Failed(t, a) <==> k in Contents(t)
  {
    PutLosesPages(t, h, k, v, a);
    PutKeepsShape(t, h, k, v, a);
    StoredKeyIsPresent(t, h, k);
    if k in Contents(t) {
      TreeCapacity.UpdateStaysPut(t, k, v, a);
    }
  }

  /** In particular, what was free of leaks no longer is. */
  lemma FailedPutLeaks(t: Tree, h: nat, k: bytes, v: bytes, a: Alloc)
    requires SearchTree(t, h) && Shaped(t) && Legal(k, v) && Room(a, h) && Owned(t, a) && NoLeak(t, a)
    requires PutTree(t, k, v, a).Failed?
    ensures NoLeak(PutTree(t, k, v, a).t, PutTree(t, k, v, a).a) <==> k in Contents(t)
  {
    hide Insert, PutTree, WF, Owned, NoLeak, Contents, LostPages, Shaped, FirstLeaf;
    PutKeepsPages(t, h, k, v, a);
    PutLosesPages(t, h, k, v, a);
    LostPagesMeaning(t, a);
    LostPagesMeaning(PutTree(t, k, v, a).t, PutTree(t, k, v, a).a);
  }

  // ---------- what is left of the tree ----------

  /**
   What the caller of a failing Put could check beforehand: the key is already
   there, or the lower half of the leaf it would split is too large already.
   */
  predicate FailsBeforeWriting(t: Tree, k: bytes, v: bytes)
    requires Shaped(t)
  {
    var was := LeafFor(t, k).ents;
    var ents := Upsert(was, k, v);
    Present(was, k) || LeafSize(ents[..|ents| / 2]) > CELL_AREA_SIZE
  }

  /** The new right half is what does not fit: the shortened leaf is written, the page it links to never is. */
  predicate UpperHalfBreaks(ents: seq<Entry>, k: bytes, v: bytes) {
    var all := Upsert(ents, k, v);
    var mid := |all| / 2;
    && !Present(ents, k) && LeafSize(all) > CELL_AREA_SIZE
    && LeafSize(all[..mid]) <= CELL_AREA_SIZE && LeafSize(all[mid..]) > CELL_AREA_SIZE
  }

  lemma {:induction false} UpperHalfFails(t: Tree, k: bytes, v: bytes)
    requires Shaped(t) && UpperHalfBreaks(LeafFor(t, k).ents, k, v)
    ensures FateOf(t, k, v).Breaks?
    decreases t
  {
    if t.Node? {
      UpperHalfFails(t.kids[ChildIndex(t.seps, k)], k, v);
    }
  }

  lemma {:induction false} FirstLeafHeld(t: Tree, lo: Bound, hi: Bound, h: nat, end: End, minSeps: nat)
    requires WF(t, lo, hi, h, end, minSeps)
    ensures Ids(t)[FirstLeaf(t)] >= 1
    decreases h
  {
    if t.Node? {
      assert KidOk(t.seps, t.kids, 0, lo, hi, end, WFAt(h - 1));
      FirstLeafHeld(t.kids[0], LoOf(t.seps, 0, lo), HiOf(t.seps, 0, hi), h - 1, EndOf(t.kids, 0, end), MIN_SEPS);
      KidIdsAround(t.kids, 0);
    }
  }

  /** A page about to be allocated is neither in a child nor where the child's chain leads. */
  lemma NewIsNewToKid(seps: seq<bytes>, kids: seq<Tree>, lo: Bound, hi: Bound, h: nat, end: End, i: nat, p: u32)
    requires Body(seps, kids, lo, hi, end, WFAt(h)) && i < |kids| && KidIds(kids)[p] == 0
    requires end.Some? && end.value != p
    ensures Ids(kids[i])[p] == 0 && EndOf(kids, i, end).Some? && EndOf(kids, i, end).value != p
  {
    KidIdsAround(kids, i);
    if i + 1 < |kids| {
      assert KidOk(seps, kids, i + 1, lo, hi, end, WFAt(h));
      FirstLeafHeld(kids[i + 1], LoOf(seps, i + 1, lo), HiOf(seps, i + 1, hi), h, EndOf(kids, i + 1, end), MIN_SEPS);
      KidIdsAround(kids, i + 1);
    }
  }

  ghost predicate TellsFailure(r: Ins, t: Tree, before: bool) {
    match r
    case Failed(t', _) => t' == t <==> before
    case Done(_, _) => true
    case Split(l, _, _, _) => l != t && !before
  }

  lemma AdoptChildTells(t: Tree, i: nat, r: Ins, before: bool)
    requires t.Node? && |t.kids| == |t.seps| + 1 && i < |t.kids|
    requires TellsFailure(r, t.kids[i], before)
    requires r.Split? ==> InnerSize(InsertAt(t.seps, i, r.sep)) <= CELL_AREA_SIZE || |t.seps| >= 2
    ensures TellsFailure(AdoptChild(t, i, r), t, before)
  {
    match r
    case Failed(c, _) =>
      assert t.kids[i := c][i] == c;
      if c == t.kids[i] {
        assert t.kids[i := c] == t.kids;
      }
    case Done(_, _) =>
    case Split(l, s, rt, _) =>
      assert t.kids[i := l][i] == l;
      var seps := InsertAt(t.seps, i, s);
      assert |seps[..|seps| / 2]| < |t.seps| || |t.seps| < 2;
  }

  lemma InsertLeafTells(t: Tree, k: bytes, v: bytes, a: Alloc)
    requires t.Leaf? && LeafSize(t.ents) <= CELL_AREA_SIZE && t.next != Pop(a).0
    ensures TellsFailure(InsertLeaf(t, k, v, a), t, FailsBeforeWriting(t, k, v))
  {
  }

  lemma {:induction false} InsertTells(t: Tree, k: bytes, v: bytes, a: Alloc,
                                       lo: Bound, hi: Bound, h: nat, end: End, minSeps: nat)
    requires WF(t, lo, hi, h, end, minSeps) && Shaped(t) && Legal(k, v) && AtLeast(k, lo) && Below(k, hi)
    requires Ids(t)[Pop(a).0] == 0 && end.Some? && end.value != Pop(a).0
    ensures TellsFailure(Insert(t, k, v, a), t, FailsBeforeWriting(t, k, v))
    decreases h
  {
    match t
    case Leaf(_, _, _) =>
      InsertLeafTells(t, k, v, a);
    case Node(_, seps, kids) =>
      var i := ChildIndex(seps, k);
      ChildRange(seps, k, lo, hi);
      NewIsNewToKid(seps, kids, lo, hi, h - 1, end, i, Pop(a).0);
      assert KidOk(seps, kids, i, lo, hi, end, WFAt(h - 1));
      InsertTells(kids[i], k, v, a, LoOf(seps, i, lo), HiOf(seps, i, hi), h - 1, EndOf(kids, i, end), MIN_SEPS);
      OverfullParent(t, k, v, a, lo, hi, h, end);
      AdoptChildTells(t, i, Insert(kids[i], k, v, a), FailsBeforeWriting(t, k, v));
  }

  lemma OverfullParent(t: Tree, k: bytes, v: bytes, a: Alloc, lo: Bound, hi: Bound, h: nat, end: End)
    requires t.Node? && h >= 2 && Body(t.seps, t.kids, lo, hi, end, WFAt(h - 1)) && Shaped(t)
    requires Legal(k, v) && AtLeast(k, lo) && Below(k, hi)
    ensures var i := ChildIndex(t.seps, k);
            var r := Insert(t.kids[i], k, v, a);
            r.Split? ==> InnerSize(InsertAt(t.seps, i, r.sep)) <= CELL_AREA_SIZE || |t.seps| >= 2
  {
    var i := ChildIndex(t.seps, k);
    var r := Insert(t.kids[i], k, v, a);
    ChildRange(t.seps, k, lo, hi);
    assert KidOk(t.seps, t.kids, i, lo, hi, end, WFAt(h - 1));
    InsertOk(t.kids[i], k, v, a, LoOf(t.seps, i, lo), HiOf(t.seps, i, hi), h - 1, EndOf(t.kids, i, end), MIN_SEPS);
    if r.Split? && InnerSize(InsertAt(t.seps, i, r.sep)) > CELL_AREA_SIZE {
      SepsSpliced(t.seps, i, r.sep, lo, hi);
      OverfullHasSixteen(InsertAt(t.seps, i, r.sep));
    }
  }

  /**
   The tree itself, free and lost pages aside: a failed Put leaves it as it
   was exactly when the key was there already or the lower half of the leaf
   did not fit.
   */
  lemma FailedPutKeepsTreeIff(t: Tree, h: nat, k: bytes, v: bytes, a: Alloc)
    requires WholeTree(t, h) && Shaped(t) && Legal(k, v) && Owned(t, a) && Room(a, h)
    requires PutTree(t, k, v, a).Failed?
    ensures PutTree(t, k, v, a).t == t <==> FailsBeforeWriting(t, k, v)
  {
    var p := Pop(a).0;
    PopConserves(a, p);
    assert Ids(t)[p] + FreeTimes(a, p) <= if 1 <= p < a.count then 1 else 0;
    assert Ids(t)[0] + FreeTimes(a, 0) <= if 1 <= 0 < a.count then 1 else 0;
    RootHeld(t);
    assert Ids(t)[t.id] + FreeTimes(a, t.id) <= if 1 <= t.id < a.count then 1 else 0;
    InsertTells(t, k, v, a, None, None, h, Some(0), 1);
    WholeIsSearch(t, h);
    PutKeepsShape(t, h, k, v, a);
  }

  // ---------- what may be lost, and what may not ----------

  ghost predicate OnlyFrom(part: seq<Entry>, all: seq<Entry>) {
    forall e :: e in part ==> e in all
  }

  lemma AdoptChildOnlyFrom(t: Tree, i: nat, r: Ins, ents: seq<Entry>)
    requires t.Node? && |t.kids| == |t.seps| + 1 && i < |t.kids|
    requires InsEntries(r, ents) && (r.Failed? ==> OnlyFrom(Entries(r.t), ents))
    ensures var all := Flat(t.kids[..i]) + ents + Flat(t.kids[i + 1..]);
            AdoptChild(t, i, r).Failed? ==> OnlyFrom(Entries(AdoptChild(t, i, r).t), all)
  {
    match r
    case Failed(c, _) =>
      ReplacedEntries(t.kids, i, c);
    case Done(_, _) =>
    case Split(l, s, rt, b) =>
      ReplacedEntries(t.kids, i, l);
      SplicedEntries(t.kids, i, l, rt);
      var seps, kids := InsertAt(t.seps, i, s), InsertAt(t.kids[i := l], i + 1, rt);
      var mid := |seps| / 2;
      assert kids == kids[..mid + 1] + kids[mid + 1..];
      FlatConcat(kids[..mid + 1], kids[mid + 1..]);
  }

  lemma LeafOnlyLoses(t: Tree, k: bytes, v: bytes, a: Alloc)
    requires t.Leaf? && InsertLeaf(t, k, v, a).Failed? && !Present(t.ents, k)
    ensures OnlyFrom(Entries(InsertLeaf(t, k, v, a).t), Upsert(t.ents, k, v))
  {
    hide LeafSize;
    forall e | e in t.ents
      ensures e in Upsert(t.ents, k, v)
    {
      InsertAtMembers(t.ents, Position(t.ents, k), Entry(k, v), e);
    }
  }

  lemma {:induction false} InsertOnlyLoses(t: Tree, k: bytes, v: bytes, a: Alloc,
                                           lo: Bound, hi: Bound, h: nat, end: End, minSeps: nat)
    requires WF(t, lo, hi, h, end, minSeps) && Shaped(t) && Insert(t, k, v, a).Failed?
    requires !Present(LeafFor(t, k).ents, k)
    ensures OnlyFrom(Entries(Insert(t, k, v, a).t), Upsert(Entries(t), k, v))
    decreases h, 1
  {
    hide WF, Upsert, OnlyFrom, Present, AdoptChild, InsertLeaf, Flat;
    if t.Leaf? {
      LeafOnlyLoses(t, k, v, a);
    } else {
      NodeOnlyLoses(t, k, v, a, lo, hi, h, end, minSeps);
    }
  }

  lemma {:induction false} NodeOnlyLoses(t: Tree, k: bytes, v: bytes, a: Alloc,
                                         lo: Bound, hi: Bound, h: nat, end: End, minSeps: nat)
    requires t.Node? && WF(t, lo, hi, h, end, minSeps) && Shaped(t) && !Present(LeafFor(t, k).ents, k)
    requires AdoptChild(t, ChildIndex(t.seps, k), Insert(t.kids[ChildIndex(t.seps, k)], k, v, a)).Failed?
    ensures var r := AdoptChild(t, ChildIndex(t.seps, k), Insert(t.kids[ChildIndex(t.seps, k)], k, v, a));
            OnlyFrom(Entries(r.t), Upsert(Flat(t.kids), k, v))
    decreases h, 0
  {
    hide WF, Body, Upsert, OnlyFrom, Present, AdoptChild, Flat, Entries, InsEntries, LeafFor, Shaped, Insert;
    SameLeaf(t, k);
    var seps, kids, i := t.seps, t.kids, ChildIndex(t.seps, k);
    var r := Insert(kids[i], k, v, a);
    KidFacts(t, i, lo, hi, h, end, minSeps);
    InsertEntries(kids[i], k, v, a, LoOf(seps, i, lo), HiOf(seps, i, hi), h - 1, EndOf(kids, i, end), MIN_SEPS);
    if r.Failed? {
      InsertOnlyLoses(kids[i], k, v, a, LoOf(seps, i, lo), HiOf(seps, i, hi), h - 1, EndOf(kids, i, end), MIN_SEPS);
    }
    InsertNodeOnlyLoses(t, r, k, v, lo, hi, h, end);
  }

  lemma SameLeaf(t: Tree, k: bytes)
    requires t.Node? && Shaped(t)
    ensures ChildIndex(t.seps, k) < |t.kids| && Shaped(t.kids[ChildIndex(t.seps, k)])
    ensures LeafFor(t, k) == LeafFor(t.kids[ChildIndex(t.seps, k)], k)
  {
  }

  /** What a node's invariant says about child i. */
  lemma KidFacts(t: Tree, i: nat, lo: Bound, hi: Bound, h: nat, end: End, minSeps: nat)
    requires t.Node? && WF(t, lo, hi, h, end, minSeps) && Shaped(t) && i < |t.kids|
    ensures h >= 2 && Body(t.seps, t.kids, lo, hi, end, WFAt(h - 1)) && i <= |t.seps|
    ensures Shaped(t.kids[i])
    ensures WF(t.kids[i], LoOf(t.seps, i, lo), HiOf(t.seps, i, hi), h - 1, EndOf(t.kids, i, end), MIN_SEPS)
  {
    assert KidOk(t.seps, t.kids, i, lo, hi, end, WFAt(h - 1));
  }

  lemma InsertNodeOnlyLoses(t: Tree, r: Ins, k: bytes, v: bytes, lo: Bound, hi: Bound, h: nat, end: End)
    requires t.Node? && h >= 2 && Body(t.seps, t.kids, lo, hi, end, WFAt(h - 1))
    requires var ents := Upsert(Entries(t.kids[ChildIndex(t.seps, k)]), k, v);
             InsEntries(r, ents) && (r.Failed? ==> OnlyFrom(Entries(r.t), ents))
    requires AdoptChild(t, ChildIndex(t.seps, k), r).Failed?
    ensures OnlyFrom(Entries(AdoptChild(t, ChildIndex(t.seps, k), r).t), Upsert(Flat(t.kids), k, v))
  {
    var i := ChildIndex(t.seps, k);
    WorkOnChild(t.seps, t.kids, lo, hi, h - 1, end, k, v);
    AdoptChildOnlyFrom(t, i, r, Upsert(Entries(t.kids[i]), k, v));
  }

  lemma AbsentIsNotPresent(ents: seq<Entry>, k: bytes)
    requires Lookup(ents, k) == None
    ensures !Present(ents, k)
  {
  }

  /** A failed Put of a new key may lose bindings, but makes up none beside k's and alters none. */
  lemma FailedPutOnlyLoses(t: Tree, h: nat, k: bytes, v: bytes, a: Alloc, e: Entry)
    requires SearchTree(t, h) && Shaped(t) && Legal(k, v) && PutTree(t, k, v, a).Failed?
    requires k !in Contents(t) && e in Entries(PutTree(t, k, v, a).t)
    ensures e == Entry(k, v) || Binds(Contents(t), e)
  {
    GetIsMapLookup(t, h, k);
    AbsentIsNotPresent(LeafFor(t, k).ents, k);
    PutKeepsShape(t, h, k, v, a);
    InsertOnlyLoses(t, k, v, a, None, None, h, None, 1);
    EntriesSorted(t, None, None, h, None, 1);
    UpsertMembers(Entries(t), k, v, e);
    ToMapMeaning(Entries(t));
  }

  /** m' has no binding but old ones and k's new one. */
  ghost predicate OnlyLoses(m: map<bytes, bytes>, m': map<bytes, bytes>, k: bytes, v: bytes) {
    forall x :: x in m' ==> (x == k && m'[x] == v) || (x in m && m'[x] == m[x])
  }

  lemma FailedPutLoses(t: Tree, h: nat, k: bytes, v: bytes, a: Alloc)
    requires SearchTree(t, h) && Shaped(t) && Legal(k, v) && PutTree(t, k, v, a).Failed? && k !in Contents(t)
    ensures OnlyLoses(Contents(t), Contents(PutTree(t, k, v, a).t), k, v)
  {
    var t' := PutTree(t, k, v, a).t;
    PutKeepsShape(t, h, k, v, a);
    EntriesSorted(t', None, None, h, None, 1);
    ToMapMeaning(Entries(t'));
    forall x | x in Contents(t')
      ensures (x == k && Contents(t')[x] == v) || (x in Contents(t) && Contents(t')[x] == Contents(t)[x])
    {
      var e := Entry(x, Contents(t')[x]);
      assert Binds(Contents(t'), e);
      FailedPutOnlyLoses(t, h, k, v, a, e);
    }
  }

  // ---------- a Put that loses data ----------

  const LOSING_TREE := Leaf(1, [Entry([1], []), Entry([2], []), Entry([3], [])], 0)
  const HUGE_KEY: bytes := seq(255, i => 9)
  const HUGE_VALUE: bytes := Zeros(3840)

  lemma LosingOrder()
    ensures Sorted(LOSING_TREE.ents) && Position(LOSING_TREE.ents, HUGE_KEY) == 3
    ensures FindKey(LOSING_TREE.ents, [3]) == 2 && FindKey(LOSING_TREE.ents[..2], [3]) == 2
  {
    var ents := LOSING_TREE.ents;
    assert Less([1], [2]) && Less([2], [3]) && Less([1], [3]);
    assert Less([1], HUGE_KEY) && Less([2], HUGE_KEY) && Less([3], HUGE_KEY);
    PositionUnique(ents, HUGE_KEY, 3);
    FindKeyUnique(ents, [3], 2);
    FindKeyUnique(ents[..2], [3], 2);
  }

  lemma LosingSizes()
    ensures LeafSize(LOSING_TREE.ents) <= CELL_AREA_SIZE
    ensures var all := Upsert(LOSING_TREE.ents, HUGE_KEY, HUGE_VALUE);
            && all == LOSING_TREE.ents + [Entry(HUGE_KEY, HUGE_VALUE)] && all[..2] == LOSING_TREE.ents[..2]
            && LeafSize(all) > CELL_AREA_SIZE
            && LeafSize(all[..2]) <= CELL_AREA_SIZE && LeafSize(all[2..]) > CELL_AREA_SIZE
  {
    hide Less;
    LosingOrder();
    var ents, huge := LOSING_TREE.ents, Entry(HUGE_KEY, HUGE_VALUE);
    var all := Upsert(ents, HUGE_KEY, HUGE_VALUE);
    assert all == ents + [huge];
    assert all[..2] == ents[..2] && all[2..] == [ents[2]] + [huge];
    assert ents[..2] == [ents[0]] + [ents[1]] && ents == ents[..2] + [ents[2]];
    LeafSizeConcat([ents[0]], [ents[1]]);
    LeafSizeConcat(ents[..2], [ents[2]]);
    LeafSizeConcat(ents, [huge]);
    LeafSizeConcat([ents[2]], [huge]);
    OneCell(ents[0]);
    OneCell(ents[1]);
    OneCell(ents[2]);
    OneCell(huge);
  }

  /** The lower two entries fit and are written, the upper one and the new one do not. */
  lemma LosingOverflow()
    ensures LeafSize(LOSING_TREE.ents) <= CELL_AREA_SIZE
    ensures InsertLeaf(LOSING_TREE, HUGE_KEY, HUGE_VALUE, Alloc([], 2))
            == Failed(Leaf(1, LOSING_TREE.ents[..2], 2), Alloc([], 3))
  {
    hide Less, LeafSize, Upsert;
    LosingOrder();
    LosingSizes();
  }

  /**
   Within the documented limits on keys and values: this failed Put takes key
   3, which has nothing to do with it, out of a sound three-entry database.
   */
  lemma FailedPutCanLoseData()
    ensures WholeTree(LOSING_TREE, 1) && Shaped(LOSING_TREE) && NoLeak(LOSING_TREE, Alloc([], 2))
    ensures Legal(HUGE_KEY, HUGE_VALUE)
    ensures PutTree(LOSING_TREE, HUGE_KEY, HUGE_VALUE, Alloc([], 2)).Failed?
    ensures Get(LOSING_TREE, [3]) == Some([])
    ensures Get(PutTree(LOSING_TREE, HUGE_KEY, HUGE_VALUE, Alloc([], 2)).t, [3]) == None
  {
    hide Less, LeafSize, Position, Upsert;
    LosingOrder();
    LosingOverflow();
  }

  /** It is the upper half of the leaf that does not fit. */
  lemma LosingUpperHalf()
    ensures UpperHalfBreaks(LOSING_TREE.ents, HUGE_KEY, HUGE_VALUE)
  {
    hide Less, LeafSize;
    LosingOrder();
    LosingSizes();
  }

  lemma OneCell(e: Entry)
    ensures LeafSize([e]) == EntrySize(e)
  {
    assert LeafSize([e]) == EntrySize(e) + LeafSize([]);
  }
}
