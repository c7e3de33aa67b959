/** What the tree layer may rely on before and after one operation, gathered from the parts. */
module TreeSummary {
  import opened Wrappers
  import opened ByteStrings
  import opened FileHeaders
  import opened NodeFormat
  import opened SortedEntries
  import opened PageAllocation
  import opened Trees
  import opened TreeShape
  import opened TreeContents
  import opened TreePages
  import opened TreeChain
  import opened TreeStore
  import opened TreeFailure
  import opened LeafWalks
  import opened Chains

  /**
   What every operation relies on and keeps, whatever the outcome: a search
   tree on pages of its own. Pages may have leaked and the leaf chain may be
   broken.
   */
  ghost predicate GoodTree(t: Tree, a: Alloc) {
    Shaped(t) && SearchTree(t, LeftDepth(t)) && Owned(t, a)
  }

  /** The leaf chain visits the leaves in order and ends at 0. */
  ghost predicate Chained(t: Tree)
    requires Shaped(t)
  {
    WholeTree(t, LeftDepth(t))
  }

  lemma RoomForPut(t: Tree, a: Alloc)
    requires GoodTree(t, a) && Roomy(a)
    ensures AtMostDeep(t, LeftDepth(t)) && Room(a, LeftDepth(t))
  {
    HeightBound(t, LeftDepth(t), a);
    WFAtMostDeep(t, None, None, LeftDepth(t), None, 1);
  }

  lemma PutKeepsGood(t: Tree, a: Alloc, k: bytes, v: bytes)
    requires GoodTree(t, a) && Roomy(a) && Legal(k, v)
    ensures var r := PutTree(t, k, v, a);
            && GoodTree(r.t, r.a) && FirstLeaf(r.t) == FirstLeaf(t)
            && (r.Done? && Chained(t) ==> Chained(r.t))
            && (r.Done? && NoLeak(t, a) ==> NoLeak(r.t, r.a))
  {
    hide Insert, WF, PutTree, Shaped, Owned, NoLeak;
    var h, r := LeftDepth(t), PutTree(t, k, v, a);
    RoomForPut(t, a);
    PutKeepsShape(t, h, k, v, a);
    PutKeepsPages(t, h, k, v, a);
    DepthIsUniform(r.t, None, None, if Insert(t, k, v, a).Split? then h + 1 else h, None, 1);
  }

  /** Every outcome of Put. */
  lemma PutSummary(t: Tree, a: Alloc, k: bytes, v: bytes)
    requires GoodTree(t, a) && Roomy(a) && Legal(k, v)
    ensures var r := PutTree(t, k, v, a);
            && GoodTree(r.t, r.a) && FirstLeaf(r.t) == FirstLeaf(t)
            && (r.Failed? <==> FateOf(t, k, v).Breaks?)
            && (r.Done? ==> Contents(r.t) == Contents(t)[k := v] && LostPages(r.t, r.a) == LostPages(t, a))
            && (r.Done? && Chained(t) ==> Chained(r.t))
            && (r.Done? && NoLeak(t, a) ==> NoLeak(r.t, r.a))
            && (r.Failed? ==> r.t.id == t.id && (r == Failed(t, a) <==> k in Contents(t)))
            && (r.Failed? && k !in Contents(t) ==>
                  OnlyLoses(Contents(t), Contents(r.t), k, v) && LostPages(r.t, r.a) > LostPages(t, a))
            && (r.Failed? && Chained(t) ==> (r.t == t <==> FailsBeforeWriting(t, k, v)))
  {
    hide Insert, WF, PutTree, Shaped, Owned, NoLeak, Contents, LostPages, FailsBeforeWriting, FateOf, OnlyLoses;
    var h, r := LeftDepth(t), PutTree(t, k, v, a);
    RoomForPut(t, a);
    PutKeepsGood(t, a, k, v);
    PutFailsIff(t, h, k, v, a);
    PutLosesPages(t, h, k, v, a);
    if r.Done? {
      PutIsMapUpdate(t, h, k, v, a);
    } else {
      FailedPutUnchangedIff(t, h, k, v, a);
      FailedPutKeepsRoot(t, k, v, a);
      if k !in Contents(t) {
        FailedPutLoses(t, h, k, v, a);
      }
      if Chained(t) {
        FailedPutKeepsTreeIff(t, h, k, v, a);
      }
    }
  }

  lemma FailedPutKeepsRoot(t: Tree, k: bytes, v: bytes, a: Alloc)
    requires Shaped(t) && PutTree(t, k, v, a).Failed?
    ensures PutTree(t, k, v, a).t.id == t.id
  {
    InsertKeepsRoot(t, k, v, a);
  }

  lemma DeleteSummary(t: Tree, a: Alloc, k: bytes)
    requires GoodTree(t, a)
    ensures GoodTree(DeleteTree(t, k), a) && FirstLeaf(DeleteTree(t, k)) == FirstLeaf(t)
    ensures Chained(t) ==> Chained(DeleteTree(t, k))
    ensures NoLeak(t, a) ==> NoLeak(DeleteTree(t, k), a)
    ensures Contents(DeleteTree(t, k)) == Contents(t) - {k}
    ensures Get(t, k) == if k in Contents(t) then Some(Contents(t)[k]) else None
    ensures k !in Contents(t) ==> DeleteTree(t, k) == t
  {
    hide WF, Shaped, Contents, FirstLeaf;
    var h := LeftDepth(t);
    GetIsMapLookup(t, h, k);
    DeleteIsMapRemoval(t, h, k);
    DeleteKeepsShape(t, k, None, None, h, None, 1);
    DeleteKeepsPages(t, k);
    DepthIsUniform(DeleteTree(t, k), None, None, h, None, 1);
    if k !in Contents(t) {
      RemoveAbsent(t, k);
    }
  }

  // ---------- listing ----------

  function KeysOf(ents: seq<Entry>): (ks: seq<bytes>)
    ensures |ks| == |ents| && forall i :: 0 <= i < |ks| ==> ks[i] == ents[i].key
  {
    seq(|ents|, i requires 0 <= i < |ents| => ents[i].key)
  }

  /** The keys of the map in strictly increasing order, each exactly once. */
  ghost predicate Lists(ks: seq<bytes>, m: map<bytes, bytes>) {
    && (forall i, j :: 0 <= i < j < |ks| ==> Less(ks[i], ks[j]))
    && (forall k :: k in ks <==> k in m)
    && |ks| == |m|
  }

  lemma KeysListMap(t: Tree, h: nat)
    requires SearchTree(t, h)
    ensures Lists(KeysOf(Entries(t)), Contents(t))
  {
    var ents, ks, m := Entries(t), KeysOf(Entries(t)), Contents(t);
    EntriesSorted(t, None, None, h, None, 1);
    ToMapMeaning(ents);
    forall k
      ensures k in ks <==> k in m
    {
      if k in ks {
        var i :| 0 <= i < |ks| && ks[i] == k;
        assert Binds(m, ents[i]);
      }
      if k in m {
        assert Binds(m, Entry(k, m[k]));
        var i :| 0 <= i < |ents| && ents[i] == Entry(k, m[k]);
        assert ks[i] == k;
      }
    }
  }

  lemma EntriesCount(t: Tree)
    requires Shaped(t) && SearchTree(t, LeftDepth(t))
    ensures |Entries(t)| == |Contents(t)|
  {
    hide WF, Contents;
    KeysListMap(t, LeftDepth(t));
  }

  lemma {:induction false} LeavesStored(view: seq<Page>, t: Tree, i: nat)
    requires Stored(view, t) && i < |Leaves(t)|
    ensures Stored(view, Leaves(t)[i])
    decreases t, 0
  {
    if t.Node? {
      KidLeavesStored(view, t.kids, i);
    }
  }

  lemma {:induction false} KidLeavesStored(view: seq<Page>, kids: seq<Tree>, i: nat)
    requires StoredAll(view, kids) && i < |FlatLeaves(kids)|
    ensures Stored(view, FlatLeaves(kids)[i])
    decreases kids, 0
  {
    var n := |Leaves(kids[0])|;
    if i < n {
      LeavesStored(view, kids[0], i);
    } else {
      assert StoredAll(view, kids[1..]);
      KidLeavesStored(view, kids[1..], i - n);
    }
  }

  /** The chain walk can trust every page it comes to. */
  lemma LeafOnChain(view: seq<Page>, t: Tree, a: Alloc, i: nat)
    requires GoodTree(t, a) && Chained(t) && Stored(view, t) && |view| == a.count && i < |Leaves(t)|
    ensures var l := Leaves(t)[i];
            && l.Leaf? && 1 <= l.id < |view| && InUse(a, l.id)
            && DecodeNode(view[l.id]) == Success(LeafVal(l.ents, l.next))
            && l.next == if i + 1 < |Leaves(t)| then Leaves(t)[i + 1].id else 0
  {
    var ls := Leaves(t);
    LeavesChain(t, None, None, LeftDepth(t), Some(0), 1);
    assert LinkOk(ls, i, 0);
    LeavesStored(view, t, i);
    LeafIdsWithin(t);
    LeafIdCounted(ls, i);
    assert Ids(t)[ls[i].id] + FreeTimes(a, ls[i].id) <= if 1 <= ls[i].id < a.count then 1 else 0;
  }

  // ---------- the leaf chain on the pages ----------

  /**
   The pages hold a good tree; following the leaf links from its first leaf
   comes to an end, and if that is behind a last leaf, then by way of all
   leaves of the tree.
   */
  ghost predicate TreeOn(view: seq<Page>, t: Tree, a: Alloc) {
    && Stored(view, t) && GoodTree(t, a) && |view| == a.count
    && WalkEnds(view, a, FirstLeaf(t)) && ShowsTree(WalkFrom(view, a, FirstLeaf(t)), t)
  }

  lemma {:induction false} SuffixIsWalk(view: seq<Page>, t: Tree, a: Alloc, i: nat)
    requires GoodTree(t, a) && Chained(t) && Stored(view, t) && |view| == a.count
    requires |TreeCells(t)| == |Leaves(t)| && i < |Leaves(t)|
    requires forall j :: 0 <= j < |Leaves(t)| ==> IsCell(Leaves(t)[j], TreeCells(t)[j])
    ensures Walk(view, a, Leaves(t)[i].id, TreeCells(t)[i..], 0)
    decreases |Leaves(t)| - i
  {
    hide WF, Owned, Stored, InUse, Leaves, TreeCells;
    var cs := TreeCells(t);
    LeafOnChain(view, t, a, i);
    assert cs[i..][1..] == cs[i + 1..] && IsCell(Leaves(t)[i], cs[i]);
    if i + 1 < |Leaves(t)| {
      SuffixIsWalk(view, t, a, i + 1);
    } else {
      assert cs[i + 1..] == [];
    }
  }

  /** While the chain is whole, the walk from the first leaf is the list of leaves and ends at 0. */
  lemma ChainIsWalk(view: seq<Page>, t: Tree, a: Alloc)
    requires GoodTree(t, a) && Chained(t) && Stored(view, t) && |view| == a.count
    ensures WalkEnds(view, a, FirstLeaf(t)) && Whole(WalkFrom(view, a, FirstLeaf(t)), t)
  {
    hide WF, Owned, Stored, Leaves, TreeCells;
    LeavesChain(t, None, None, LeftDepth(t), Some(0), 1);
    CellsAreLeaves(t);
    SuffixIsWalk(view, t, a, 0);
    assert TreeCells(t)[0..] == TreeCells(t);
    WalkFromIs(view, a, FirstLeaf(t), Chain(TreeCells(t), 0));
  }

  lemma {:induction false} WalkInUse(view: seq<Page>, a: Alloc, first: u32, cs: seq<Cell>, end: u32)
    requires Walk(view, a, first, cs, end)
    ensures ChainInUse(Chain(cs, end), a)
    decreases cs
  {
    if cs != [] {
      WalkInUse(view, a, LinkOf(view[first]).next, cs[1..], end);
    }
  }

  // ---------- what Put does to the chain ----------

  /** Every walk along the leaves changes at the leaf for k, as its sizes have it. */
  ghost predicate WalksAfter(v: seq<Page>, a: Alloc, v': seq<Page>, a': Alloc, t: Tree, k: bytes, val: bytes)
    requires Shaped(t)
  {
    var l := LeafFor(t, k);
    WalksChanged(v, a, v', a', l.id, LeafChange(l.ents, k, val, Pop(a).0))
  }

  /** The chain on the pages after a Put is the chain before, changed as AfterPut says, and again has the whole tree. */
  lemma ChainAfterPut(v: seq<Page>, a: Alloc, v': seq<Page>, a': Alloc, t: Tree, k: bytes, val: bytes)
    requires TreeOn(v, t, a) && Roomy(a) && Legal(k, val) && WalksAfter(v, a, v', a', t, k, val)
    requires forall p: u32 :: FreeTimes(a, p) <= if 1 <= p < a.count then 1 else 0
    ensures WalkEnds(v', a', FirstLeaf(t))
    ensures WalkFrom(v', a', FirstLeaf(t)) == AfterPut(WalkFrom(v, a, FirstLeaf(t)), t, k, val, a)
    ensures ShowsTree(WalkFrom(v', a', FirstLeaf(t)), PutTree(t, k, val, a).t)
  {
    hide WF, Owned, Stored, LinkOf, PutTree, LeafChange, LeafFor, Changed, FreeTimes, Pop;
    var c := WalkFrom(v, a, FirstLeaf(t));
    WalkInUse(v, a, FirstLeaf(t), c.cells, c.end);
    RoomForPut(t, a);
    PutShowsTree(c, t, LeftDepth(t), k, val, a);
    WalkFromIs(v', a', FirstLeaf(t), AfterPut(c, t, k, val, a));
  }

  lemma ChainAfterDelete(v: seq<Page>, v': seq<Page>, a: Alloc, t: Tree, k: bytes)
    requires TreeOn(v, t, a)
    requires var l := LeafFor(t, k); WalksChanged(v, a, v', a, l.id, Now(Remove(l.ents, k)))
    ensures WalkEnds(v', a, FirstLeaf(t))
    ensures WalkFrom(v', a, FirstLeaf(t)) == AfterDelete(WalkFrom(v, a, FirstLeaf(t)), t, k)
    ensures ShowsTree(WalkFrom(v', a, FirstLeaf(t)), DeleteTree(t, k))
  {
    hide WF, Owned, Stored, LinkOf, LeafFor, Changed;
    var c := WalkFrom(v, a, FirstLeaf(t));
    DeleteShowsTree(c, t, k, a);
    WalkFromIs(v', a, FirstLeaf(t), AfterDelete(c, t, k));
  }

  /** An unwritten page stays where the walk ends. */
  lemma DeadStaysDead(c: Chain, t: Tree, k: bytes, v: bytes, a: Alloc)
    requires Shaped(t) && c.end != 0 && Pop(a).0 != 0
    ensures AfterPut(c, t, k, v, a).end != 0 && AfterDelete(c, t, k).end != 0
  {
  }

  /** On a whole chain: listing still works exactly when it was not the leaf's new half that did not fit. */
  lemma ListsIff(c: Chain, t: Tree, k: bytes, v: bytes, a: Alloc)
    requires Shaped(t) && Whole(c, t) && Pop(a).0 != 0
    ensures AfterPut(c, t, k, v, a).end == 0 <==> !UpperHalfBreaks(LeafFor(t, k).ents, k, v)
  {
    hide Changed, LeafSize, Upsert, Present;
    LeafOnCells(t, k);
  }

  /**
   On a whole chain, when the leaf itself took the key, listing shows the old
   entries and the new one, even if a node above broke and Get finds only
   some of them.
   */
  lemma ListsAllAfter(c: Chain, t: Tree, a: Alloc, k: bytes, v: bytes)
    requires GoodTree(t, a) && Whole(c, t)
    requires var ch := LeafChange(LeafFor(t, k).ents, k, v, Pop(a).0); ch.Now? || ch.Halves?
    ensures AfterPut(c, t, k, v, a).end == 0
    ensures EntriesAlong(AfterPut(c, t, k, v, a).cells) == Upsert(Entries(t), k, v)
  {
    hide WF, Owned, Changed, LeafChange, LeafFor, Upsert, TreeCells, Pop;
    OwnedCells(t, a);
    ChangedIsWith(t, k, LeafChange(LeafFor(t, k).ents, k, v, Pop(a).0));
    UpsertAlong(t, k, v, Pop(a).0, None, None, LeftDepth(t), None, 1);
  }

  /** A leaf changes in neither of these ways exactly when Put fails before it writes, or the new half is lost. */
  lemma LeafTakesIff(t: Tree, k: bytes, v: bytes, newId: u32)
    requires Shaped(t) && FateOf(t, k, v).Breaks?
    ensures var ch := LeafChange(LeafFor(t, k).ents, k, v, newId);
            && (ch.Keep? <==> FailsBeforeWriting(t, k, v))
            && (ch.Cut? <==> UpperHalfBreaks(LeafFor(t, k).ents, k, v))
  {
    hide LeafSize, Upsert, Present, LeafFor;
    if LeafSize(Upsert(LeafFor(t, k).ents, k, v)) <= CELL_AREA_SIZE {
      FittingLeafFits(t, k, v);
    }
  }

  lemma {:induction false} FittingLeafFits(t: Tree, k: bytes, v: bytes)
    requires Shaped(t) && LeafSize(Upsert(LeafFor(t, k).ents, k, v)) <= CELL_AREA_SIZE
    ensures FateOf(t, k, v).Fits?
    decreases t
  {
    if t.Node? {
      FittingLeafFits(t.kids[ChildIndex(t.seps, k)], k, v);
    }
  }

  lemma BreaksAbove(c: Chain, t: Tree, a: Alloc, k: bytes, v: bytes)
    requires GoodTree(t, a) && Whole(c, t) && FateOf(t, k, v).Breaks?
    requires !FailsBeforeWriting(t, k, v) && !UpperHalfBreaks(LeafFor(t, k).ents, k, v)
    ensures EntriesAlong(AfterPut(c, t, k, v, a).cells) == Upsert(Entries(t), k, v)
  {
    hide WF, Owned, Whole, FailsBeforeWriting, UpperHalfBreaks, LeafFor, LeafChange;
    LeafTakesIff(t, k, v, Pop(a).0);
    ListsAllAfter(c, t, a, k, v);
  }
}
