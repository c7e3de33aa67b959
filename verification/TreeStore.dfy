/**
 When the pages of a file hold a given tree, and what writing elsewhere leaves
 alone. Every page of a tree says what its node says, so pages determine the
 tree; writing one node, adopting a child and splitting keep the other
 subtrees because trees and new pages do not share pages.
 */
module TreeStore {
  import opened Wrappers
  import opened ByteStrings
  import opened FileHeaders
  import opened NodeFormat
  import opened SortedEntries
  import opened PageAllocation
  import opened Trees
  import opened TreeShape
  import opened TreePages

  /** Every node of t is on its page. */
  ghost predicate Stored(view: seq<Page>, t: Tree)
    decreases t, 1
  {
    t.id < |view| && DecodeNode(view[t.id]) == Success(NodeOf(t)) && (t.Node? ==> StoredAll(view, t.kids))
  }

  ghost predicate StoredAll(view: seq<Page>, kids: seq<Tree>)
    decreases kids, 0
  {
    forall j :: 0 <= j < |kids| ==> Stored(view, kids[j])
  }

  lemma StoredKid(view: seq<Page>, t: Tree, i: nat)
    requires Stored(view, t) && t.Node? && i < |t.kids|
    ensures Stored(view, t.kids[i])
  {
  }

  /** Pages determine the tree below a page. */
  lemma {:induction false} StoredUnique(view: seq<Page>, t: Tree, u: Tree)
    requires Stored(view, t) && Stored(view, u) && t.id == u.id
    requires Shaped(t) && Shaped(u)
    ensures t == u
    decreases t
  {
    if t.Node? {
      assert RootIds(t.kids) == RootIds(u.kids);
      forall j | 0 <= j < |t.kids|
        ensures t.kids[j] == u.kids[j]
      {
        assert RootIds(t.kids)[j] == RootIds(u.kids)[j];
        StoredUnique(view, t.kids[j], u.kids[j]);
      }
      assert t.kids == u.kids;
    }
  }

  /** Pages in neither ids nor the free list read as before. */
  ghost predicate Untouched(view: seq<Page>, view': seq<Page>, ids: multiset<u32>, a: Alloc) {
    && |view| <= |view'|
    && forall p: u32 :: 1 <= p < |view| && ids[p] == 0 && FreeTimes(a, p) == 0 ==> view'[p] == view[p]
  }

  /** The children's pages are distinct pages of the file, none of them free. */
  ghost predicate KidsOwned(kids: seq<Tree>, a: Alloc) {
    forall p: u32 :: KidIds(kids)[p] + FreeTimes(a, p) <= if 1 <= p < a.count then 1 else 0
  }

  lemma {:induction false} StoredFrame(view: seq<Page>, view': seq<Page>, t: Tree)
    requires Stored(view, t) && |view| <= |view'|
    requires forall p: u32 :: Ids(t)[p] >= 1 && p < |view| ==> view'[p] == view[p]
    ensures Stored(view', t)
    decreases t
  {
    assert Ids(t)[t.id] >= 1;
    if t.Node? {
      forall j | 0 <= j < |t.kids|
        ensures Stored(view', t.kids[j])
      {
        KidIdsAround(t.kids, j);
        StoredFrame(view, view', t.kids[j]);
      }
    }
  }

  lemma StoredAllFrame(view: seq<Page>, view': seq<Page>, kids: seq<Tree>)
    requires StoredAll(view, kids) && |view| <= |view'|
    requires forall p: u32 :: KidIds(kids)[p] >= 1 && p < |view| ==> view'[p] == view[p]
    ensures StoredAll(view', kids)
  {
    forall j | 0 <= j < |kids|
      ensures Stored(view', kids[j])
    {
      KidIdsAround(kids, j);
      StoredFrame(view, view', kids[j]);
    }
  }

  /** Writing the root of t on its own page completes t. */
  lemma RootWritten(view: seq<Page>, view': seq<Page>, t: Tree)
    requires |view| == |view'| && t.id < |view|
    requires forall p :: 0 <= p < |view| && p != t.id ==> view'[p] == view[p]
    requires DecodeNode(view'[t.id]) == Success(NodeOf(t))
    requires t.Node? ==> StoredAll(view, t.kids) && KidIds(t.kids)[t.id] == 0
    ensures Stored(view', t)
  {
    if t.Node? {
      StoredAllFrame(view, view', t.kids);
    }
  }

  lemma KidHeld(kids: seq<Tree>, i: nat, p: u32)
    requires i < |kids|
    ensures Ids(kids[i])[p] <= KidIds(kids)[p]
  {
    KidIdsAround(kids, i);
  }

  lemma TwoKidsHeld(kids: seq<Tree>, i: nat, j: nat, p: u32)
    requires i < |kids| && j < |kids| && i != j
    ensures Ids(kids[i])[p] + Ids(kids[j])[p] <= KidIds(kids)[p]
  {
    KidIdsAround(kids, i);
    HeldOnOneSide(kids[..i], kids[i + 1..], kids[j], if j < i then j else j - i - 1, p);
  }

  lemma HeldOnOneSide(left: seq<Tree>, right: seq<Tree>, t: Tree, j: nat, p: u32)
    requires (j < |left| && left[j] == t) || (j < |right| && right[j] == t)
    ensures Ids(t)[p] <= KidIds(left)[p] + KidIds(right)[p]
  {
    if j < |left| && left[j] == t {
      KidHeld(left, j, p);
    } else {
      KidHeld(right, j, p);
    }
  }

  lemma KidOwned(t: Tree, i: nat, a: Alloc)
    requires t.Node? && i < |t.kids| && Owned(t, a)
    ensures Owned(t.kids[i], a) && KidsOwned(t.kids, a)
    ensures KidIds(t.kids)[t.id] == 0 && 1 <= t.id < a.count && FreeTimes(a, t.id) == 0
  {
    forall p: u32
      ensures Ids(t.kids[i])[p] <= KidIds(t.kids)[p] <= Ids(t)[p]
    {
      KidHeld(t.kids, i, p);
      NodeIdsAt(t, p);
    }
    NodeIdsAt(t, t.id);
    assert Ids(t)[t.id] + FreeTimes(a, t.id) <= if 1 <= t.id < a.count then 1 else 0;
  }

  /** Working inside child i leaves its siblings stored. */
  lemma SiblingStored(view: seq<Page>, view': seq<Page>, kids: seq<Tree>, i: nat, j: nat, a: Alloc)
    requires StoredAll(view, kids) && KidsOwned(kids, a) && |view| == a.count
    requires i < |kids| && j < |kids| && i != j && Untouched(view, view', Ids(kids[i]), a)
    ensures Stored(view', kids[j])
  {
    forall p: u32 | Ids(kids[j])[p] >= 1
      ensures p < |view| ==> view'[p] == view[p]
    {
      TwoKidsHeld(kids, i, j, p);
      assert KidIds(kids)[p] + FreeTimes(a, p) <= if 1 <= p < a.count then 1 else 0;
    }
    StoredFrame(view, view', kids[j]);
  }

  lemma ReplacedStored(view: seq<Page>, view': seq<Page>, kids: seq<Tree>, i: nat, c: Tree, a: Alloc)
    requires StoredAll(view, kids) && KidsOwned(kids, a) && |view| == a.count
    requires i < |kids| && Untouched(view, view', Ids(kids[i]), a) && Stored(view', c)
    ensures StoredAll(view', kids[i := c])
  {
    var ks := kids[i := c];
    forall j | 0 <= j < |ks|
      ensures Stored(view', ks[j])
    {
      if j != i {
        SiblingStored(view, view', kids, i, j, a);
      }
    }
  }

  lemma SplicedStored(view: seq<Page>, kids: seq<Tree>, i: nat, l: Tree, r: Tree)
    requires i < |kids| && StoredAll(view, kids[i := l]) && Stored(view, r)
    ensures StoredAll(view, InsertAt(kids[i := l], i + 1, r))
  {
  }

  lemma RootIdsReplaced(kids: seq<Tree>, i: nat, c: Tree)
    requires i < |kids| && c.id == kids[i].id
    ensures RootIds(kids[i := c]) == RootIds(kids)
  {
  }

  lemma RootIdsSpliced(kids: seq<Tree>, i: nat, l: Tree, r: Tree)
    requires i < |kids| && l.id == kids[i].id
    ensures RootIds(InsertAt(kids[i := l], i + 1, r)) == InsertAt(RootIds(kids), i + 1, r.id)
  {
  }

  lemma RootIdsSlices(kids: seq<Tree>, m: nat)
    requires m <= |kids|
    ensures RootIds(kids[..m]) == RootIds(kids)[..m] && RootIds(kids[m..]) == RootIds(kids)[m..]
  {
  }

  /** The pages and the answer after an insertion are those of r. */
  ghost predicate Realizes(view: seq<Page>, a: Alloc, r: Ins, ok: bool, splitKey: Option<bytes>, newChild: u32) {
    match r
    case Failed(t, b) => !ok && Stored(view, t) && a == b
    case Done(t, b) => ok && splitKey == None && Stored(view, t) && a == b
    case Split(l, s, rt, b) =>
      ok && splitKey == Some(s) && newChild == rt.id && Stored(view, l) && Stored(view, rt) && a == b
  }

  lemma OwnedRoot(t: Tree, a: Alloc)
    requires Owned(t, a)
    ensures 1 <= t.id < a.count && t.id !in a.free && Ids(t)[t.id] == 1
  {
    RootHeld(t);
    assert Ids(t)[t.id] + FreeTimes(a, t.id) <= if 1 <= t.id < a.count then 1 else 0;
  }

  /** The pages after a leaf split. */
  lemma SplitLeafRealized(v: seq<Page>, v': seq<Page>, t: Tree, ents: seq<Entry>, a: Alloc, first: bool, second: bool)
    requires t.Leaf? && ents != [] && Stored(v, t) && |v| <= |v'| && Pop(a).0 < |v'|
    requires var mid := |ents| / 2;
             var left, right := ents[..mid], ents[mid..];
             && (first <==> LeafSize(left) <= CELL_AREA_SIZE)
             && (second <==> first && LeafSize(right) <= CELL_AREA_SIZE)
             && (if first then DecodeNode(v'[t.id]) == Success(LeafVal(left, Pop(a).0)) else v'[t.id] == v[t.id])
             && (second ==> DecodeNode(v'[Pop(a).0]) == Success(LeafVal(right, t.next)))
    ensures Realizes(v', Pop(a).1, SplitLeaf(t, ents, a), second,
                     if second then Some(ents[|ents| / 2].key) else None, Pop(a).0)
  {
  }

  // ---------- back from a child ----------

  /** The page of t's root and t's other children are as they were. */
  lemma ChildReturned(view: seq<Page>, view': seq<Page>, t: Tree, i: nat, c: Tree, a: Alloc)
    requires t.Node? && i < |t.kids| && Stored(view, t) && Owned(t, a) && |view| == a.count
    requires Untouched(view, view', Ids(t.kids[i]), a) && Stored(view', c) && c.id == t.kids[i].id
    ensures Stored(view', t.(kids := t.kids[i := c]))
    ensures Untouched(view, view', Ids(t), a)
  {
    KidOwned(t, i, a);
    KidHeld(t.kids, i, t.id);
    ReplacedStored(view, view', t.kids, i, c, a);
    RootIdsReplaced(t.kids, i, c);
    forall p: u32
      ensures Ids(t.kids[i])[p] <= Ids(t)[p]
    {
      KidHeld(t.kids, i, p);
      NodeIdsAt(t, p);
    }
  }

  lemma SplicedIdsAt(kids: seq<Tree>, i: nat, l: Tree, r: Tree, p: u32)
    requires i < |kids|
    ensures KidIds(InsertAt(kids[i := l], i + 1, r))[p] + Ids(kids[i])[p] == KidIds(kids)[p] + Ids(l)[p] + Ids(r)[p]
  {
    SplicedIds(kids, i, l, r);
    KidIdsAround(kids, i);
  }

  /** A child that did not split leaves nothing to write. */
  lemma NothingToAdopt(view: seq<Page>, b: Alloc, t: Tree, k: bytes, v: bytes, a: Alloc)
    requires t.Node? && Shaped(t)
    requires var i := ChildIndex(t.seps, k);
             var r := Insert(t.kids[i], k, v, a);
             !r.Split? && b == r.a && Stored(view, t.(kids := t.kids[i := r.t]))
    ensures Realizes(view, b, Insert(t, k, v, a), Insert(t.kids[ChildIndex(t.seps, k)], k, v, a).Done?, None, 0)
  {
  }

  /** After a child split, the children and the free pages are still all distinct, and none is the root's page. */
  lemma SplicedOwned(t: Tree, i: nat, r: Ins, a: Alloc)
    requires t.Node? && i < |t.kids| && Owned(t, a) && r.Split? && a.count <= r.a.count
    requires forall p: u32 :: Conserves(Ids(t.kids[i])[p], a, r, p)
    ensures KidsOwned(InsertAt(t.kids[i := r.left], i + 1, r.right), r.a)
    ensures KidIds(InsertAt(t.kids[i := r.left], i + 1, r.right))[t.id] == 0
    ensures 1 <= t.id < r.a.count && FreeTimes(r.a, t.id) == 0
  {
    hide Ids, KidIds;
    KidOwned(t, i, a);
    KidHeld(t.kids, i, t.id);
    var kids := InsertAt(t.kids[i := r.left], i + 1, r.right);
    SplicedIdsAt(t.kids, i, r.left, r.right, t.id);
    assert Conserves(Ids(t.kids[i])[t.id], a, r, t.id);
    forall p: u32
      ensures KidIds(kids)[p] + FreeTimes(r.a, p) <= if 1 <= p < r.a.count then 1 else 0
    {
      SplicedIdsAt(t.kids, i, r.left, r.right, p);
      assert Conserves(Ids(t.kids[i])[p], a, r, p);
      assert KidIds(t.kids)[p] + FreeTimes(a, p) <= if 1 <= p < a.count then 1 else 0;
    }
  }

  lemma UntouchedTwice(v0: seq<Page>, v1: seq<Page>, v2: seq<Page>, t: Tree, i: nat, a: Alloc, r: Ins)
    requires t.Node? && i < |t.kids| && |v0| == a.count && r.Split?
    requires Untouched(v0, v1, Ids(t.kids[i]), a) && Untouched(v1, v2, multiset{t.id}, r.a)
    requires forall p: u32 :: Conserves(Ids(t.kids[i])[p], a, r, p)
    ensures Untouched(v0, v2, Ids(t), a)
  {
    forall p: u32 | 1 <= p < |v0| && Ids(t)[p] == 0 && FreeTimes(a, p) == 0
      ensures v2[p] == v0[p]
    {
      KidHeld(t.kids, i, p);
      NodeIdsAt(t, p);
      assert Conserves(Ids(t.kids[i])[p], a, r, p);
    }
  }

  /** Leaving the new right half out loses its pages and no others. */
  lemma SplicedHolds(kids: seq<Tree>, i: nat, l: Tree, r: Tree)
    requires i < |kids|
    ensures var ks, all := kids[i := l], InsertAt(kids[i := l], i + 1, r);
            forall p: u32 :: KidIds(ks)[p] <= KidIds(all)[p]
  {
    SplicedIds(kids, i, l, r);
    ReplacedIds(kids, i, l);
  }

  // ---------- the pages after an internal split ----------

  /** Everything but the two written pages is as before the split. */
  ghost predicate SplitPages(v: seq<Page>, v': seq<Page>, id: u32, newID: u32) {
    && id < |v| <= |v'| && newID < |v'|
    && forall p: u32 :: 1 <= p < |v| && p != id && p != newID ==> v'[p] == v[p]
  }

  lemma KidsAvoidNewPage(kids: seq<Tree>, a: Alloc)
    requires KidsOwned(kids, a) && a.count < MAX_U32
    ensures var (id, b) := Pop(a); KidIds(kids)[id] == 0 && id !in b.free
    ensures forall p: u32 :: p !in a.free ==> p !in Pop(a).1.free
    ensures forall p: u32 :: 1 <= p < a.count && FreeTimes(a, p) == 0 ==> p != Pop(a).0
  {
    var (id, b) := Pop(a);
    PopConserves(a, id);
    assert KidIds(kids)[id] + FreeTimes(a, id) <= if 1 <= id < a.count then 1 else 0;
    if a.free != [] {
      assert a.free == [a.free[0]] + a.free[1..];
    }
  }

  lemma SplitKidsStored(v: seq<Page>, v': seq<Page>, id: u32, newID: u32, kids: seq<Tree>, a: Alloc)
    requires StoredAll(v, kids) && KidsOwned(kids, a) && SplitPages(v, v', id, newID)
    requires KidIds(kids)[id] == 0 && KidIds(kids)[newID] == 0
    ensures StoredAll(v', kids)
  {
    forall p: u32 | KidIds(kids)[p] >= 1
      ensures p < |v| ==> v'[p] == v[p]
    {
      assert KidIds(kids)[p] + FreeTimes(a, p) <= if 1 <= p < a.count then 1 else 0;
    }
    StoredAllFrame(v, v', kids);
  }

  lemma BeforeStored(v: seq<Page>, v': seq<Page>, newID: u32, before: Tree, kids: seq<Tree>, a: Alloc)
    requires before.Node? && Stored(v, before) && SplitPages(v, v', before.id, newID) && v'[before.id] == v[before.id]
    requires KidsOwned(kids, a) && forall p: u32 :: KidIds(before.kids)[p] <= KidIds(kids)[p]
    requires KidIds(kids)[newID] == 0
    ensures Stored(v', before)
  {
    forall p: u32 | KidIds(before.kids)[p] >= 1
      ensures p < |v| ==> v'[p] == v[p]
    {
      assert KidIds(kids)[p] + FreeTimes(a, p) <= if 1 <= p < a.count then 1 else 0;
    }
    StoredAllFrame(v, v', before.kids);
  }

  lemma SplitNodeRealized(v: seq<Page>, v': seq<Page>, before: Tree, seps: seq<bytes>, kids: seq<Tree>, a: Alloc,
                          first: bool, second: bool)
    requires before.Node? && seps != [] && |kids| == |seps| + 1
    requires Stored(v, before) && StoredAll(v, kids) && KidsOwned(kids, a) && a.count < MAX_U32
    requires KidIds(kids)[before.id] == 0 && forall p: u32 :: KidIds(before.kids)[p] <= KidIds(kids)[p]
    requires SplitPages(v, v', before.id, Pop(a).0)
    requires var mid := |seps| / 2;
             var left, right := seps[..mid], seps[mid + 1..];
             && (first <==> InnerSize(left) <= CELL_AREA_SIZE)
             && (second <==> first && InnerSize(right) <= CELL_AREA_SIZE)
             && (if first then DecodeNode(v'[before.id]) == Success(InnerVal(left, RootIds(kids)[..mid + 1]))
                 else v'[before.id] == v[before.id])
             && (second ==> DecodeNode(v'[Pop(a).0]) == Success(InnerVal(right, RootIds(kids)[mid + 1..])))
    ensures Realizes(v', Pop(a).1, SplitNode(before, seps, kids, a), second,
                     if second then Some(seps[|seps| / 2]) else None, Pop(a).0)
  {
    hide Ids, KidIds, KidsOwned, InnerSize;
    var mid := |seps| / 2;
    KidsAvoidNewPage(kids, a);
    SplitKidsStored(v, v', before.id, Pop(a).0, kids, a);
    RootIdsSlices(kids, mid + 1);
    if !first {
      BeforeStored(v, v', Pop(a).0, before, kids, a);
    } else {
      assert Stored(v', Node(before.id, seps[..mid], kids[..mid + 1]));
    }
    if second {
      assert Stored(v', Node(Pop(a).0, seps[mid + 1..], kids[mid + 1..]));
    }
  }

  /** Allocating a page that no child owns leaves the children stored. */
  lemma KidsKeptByAllocation(v: seq<Page>, v': seq<Page>, kids: seq<Tree>, a: Alloc)
    requires StoredAll(v, kids) && KidsOwned(kids, a) && a.count < MAX_U32 && |v| <= |v'|
    requires forall p: u32 :: 1 <= p < |v| && p != Pop(a).0 ==> v'[p] == v[p]
    ensures StoredAll(v', kids)
  {
    KidsAvoidNewPage(kids, a);
    forall p: u32 | KidIds(kids)[p] >= 1
      ensures p < |v| ==> v'[p] == v[p]
    {
      assert KidIds(kids)[p] + FreeTimes(a, p) <= if 1 <= p < a.count then 1 else 0;
    }
    StoredAllFrame(v, v', kids);
  }

  /** The halves of a split root own their pages. */
  lemma RootHalvesOwned(t: Tree, h: nat, k: bytes, v: bytes, a: Alloc)
    requires Shaped(t) && AtMostDeep(t, h) && a.count + h <= MAX_U32 && Owned(t, a) && Insert(t, k, v, a).Split?
    ensures var r := Insert(t, k, v, a); KidsOwned([r.left, r.right], r.a) && r.a.count <= a.count + h
  {
    var r := Insert(t, k, v, a);
    forall p: u32
      ensures KidIds([r.left, r.right])[p] + FreeTimes(r.a, p) <= if 1 <= p < r.a.count then 1 else 0
    {
      InsertConserves(t, k, v, a, h, p);
      PairIds(r.left, r.right);
      assert Ids(t)[p] + FreeTimes(a, p) <= if 1 <= p < a.count then 1 else 0;
      OwnedRoot(t, a);
    }
    InsertConserves(t, k, v, a, h, 0);
  }

  lemma ShorterLeafFits(page: Page, t: Tree, k: bytes)
    requires t.Leaf? && DecodeNode(page) == Success(NodeOf(t))
    ensures LeafSize(Remove(t.ents, k)) <= CELL_AREA_SIZE
  {
    DecodedNodeFits(page);
    LeafRemoveSize(t.ents, k);
  }
}
