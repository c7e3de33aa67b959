/** The leaf chain, the depth of the tree, and how shallow it stays. */
module TreeChain {
  import opened Wrappers
  import opened ByteStrings
  import opened NodeFormat
  import opened PageAllocation
  import opened Trees
  import opened TreeShape
  import opened TreePages

  // ---------- the chain is the in-order list of leaves ----------

  /** Following next pointers from ls[0] visits ls in order and leaves at end. */
  ghost predicate ChainTo(ls: seq<Tree>, end: u32) {
    forall i :: 0 <= i < |ls| ==> LinkOk(ls, i, end)
  }

  /** Leaf i points to leaf i + 1, the last one out of the list. */
  ghost predicate LinkOk(ls: seq<Tree>, i: nat, end: u32)
    requires i < |ls|
  {
    ls[i].Leaf? && ls[i].next == if i + 1 < |ls| then ls[i + 1].id else end
  }

  lemma ChainConcat(a: seq<Tree>, b: seq<Tree>, end: u32)
    requires b != [] && ChainTo(a, b[0].id) && ChainTo(b, end)
    ensures ChainTo(a + b, end)
  {
    forall i | 0 <= i < |a + b|
      ensures LinkOk(a + b, i, end)
    {
      if i < |a| {
        assert LinkOk(a, i, b[0].id);
      } else {
        assert LinkOk(b, i - |a|, end);
      }
    }
  }

  lemma {:induction false} LeavesChain(t: Tree, lo: Bound, hi: Bound, h: nat, end: End, minSeps: nat)
    requires WF(t, lo, hi, h, end, minSeps)
    ensures Leaves(t) != [] && Leaves(t)[0].id == FirstLeaf(t)
    ensures end.Some? ==> ChainTo(Leaves(t), end.value)
    decreases h, 1
  {
    if t.Node? {
      KidsChain(t.seps, t.kids, lo, hi, h - 1, end, 0);
      assert t.kids[0..] == t.kids;
    }
  }

  lemma {:induction false} KidsChain(seps: seq<bytes>, kids: seq<Tree>, lo: Bound, hi: Bound, h: nat, end: End, j: nat)
    requires Body(seps, kids, lo, hi, end, WFAt(h)) && j < |kids|
    ensures var ls := FlatLeaves(kids[j..]);
            && ls != [] && ls[0].id == FirstLeaf(kids[j])
            && (end.Some? ==> ChainTo(ls, end.value))
    decreases h, 2, |kids| - j
  {
    assert KidOk(seps, kids, j, lo, hi, end, WFAt(h));
    LeavesChain(kids[j], LoOf(seps, j, lo), HiOf(seps, j, hi), h, EndOf(kids, j, end), MIN_SEPS);
    assert kids[j..][1..] == kids[j + 1..];
    if j + 1 < |kids| {
      KidsChain(seps, kids, lo, hi, h, end, j + 1);
      if end.Some? {
        ChainConcat(Leaves(kids[j]), FlatLeaves(kids[j + 1..]), end.value);
      }
    } else {
      assert FlatLeaves(kids[j..]) == Leaves(kids[j]);
    }
  }

  function LeafEntries(ls: seq<Tree>): seq<Entry>
    decreases ls
  {
    if ls == [] then []
    else (if ls[0].Leaf? then ls[0].ents else []) + LeafEntries(ls[1..])
  }

  lemma {:induction false} LeafEntriesConcat(a: seq<Tree>, b: seq<Tree>)
    ensures LeafEntries(a + b) == LeafEntries(a) + LeafEntries(b)
    decreases a
  {
    if a == [] {
      assert a + b == b;
    } else {
      assert (a + b)[1..] == a[1..] + b;
      LeafEntriesConcat(a[1..], b);
    }
  }

  /** The leaves together hold exactly the tree's entries, in order. */
  lemma {:induction false} LeavesHoldEntries(t: Tree)
    ensures LeafEntries(Leaves(t)) == Entries(t)
    decreases t, 0
  {
    match t
    case Leaf(_, ents, _) =>
      assert LeafEntries([t]) == ents + LeafEntries([]);
    case Node(_, _, kids) =>
      KidLeavesHoldEntries(kids);
  }

  lemma {:induction false} KidLeavesHoldEntries(kids: seq<Tree>)
    ensures LeafEntries(FlatLeaves(kids)) == Flat(kids)
    decreases kids, 0
  {
    if kids != [] {
      LeavesHoldEntries(kids[0]);
      KidLeavesHoldEntries(kids[1..]);
      LeafEntriesConcat(Leaves(kids[0]), FlatLeaves(kids[1..]));
    }
  }

  function LeafIds(ls: seq<Tree>): multiset<u32>
    decreases ls
  {
    if ls == [] then multiset{} else multiset{ls[0].id} + LeafIds(ls[1..])
  }

  lemma {:induction false} LeafIdsConcat(a: seq<Tree>, b: seq<Tree>)
    ensures LeafIds(a + b) == LeafIds(a) + LeafIds(b)
    decreases a
  {
    if a == [] {
      assert a + b == b;
    } else {
      assert (a + b)[1..] == a[1..] + b;
      LeafIdsConcat(a[1..], b);
    }
  }

  lemma {:induction false} LeafIdsWithin(t: Tree)
    ensures LeafIds(Leaves(t)) <= Ids(t)
    decreases t, 0
  {
    match t
    case Leaf(id, _, _) =>
      assert LeafIds([t]) == multiset{id} + LeafIds([]);
    case Node(_, _, kids) =>
      KidLeafIdsWithin(kids);
  }

  lemma {:induction false} KidLeafIdsWithin(kids: seq<Tree>)
    ensures LeafIds(FlatLeaves(kids)) <= KidIds(kids)
    decreases kids, 0
  {
    if kids != [] {
      LeafIdsWithin(kids[0]);
      KidLeafIdsWithin(kids[1..]);
      LeafIdsConcat(Leaves(kids[0]), FlatLeaves(kids[1..]));
    }
  }

  lemma {:induction false} LeafIdCounted(ls: seq<Tree>, i: nat)
    requires i < |ls|
    ensures LeafIds(ls)[ls[i].id] >= 1
    decreases i
  {
    if i > 0 {
      LeafIdCounted(ls[1..], i - 1);
    }
  }

  /** With distinct pages the chain never comes back to a page it has left. */
  lemma {:induction false} ChainAcyclic(t: Tree, a: Alloc, i: nat, j: nat)
    requires Owned(t, a) && i < j < |Leaves(t)|
    ensures Leaves(t)[i].id != Leaves(t)[j].id
    ensures Leaves(t)[i].id != 0
  {
    var ls := Leaves(t);
    LeafIdsWithin(t);
    assert ls == ls[..i + 1] + ls[i + 1..];
    LeafIdsConcat(ls[..i + 1], ls[i + 1..]);
    LeafIdCounted(ls[..i + 1], i);
    LeafIdCounted(ls[i + 1..], j - i - 1);
    assert ls[i + 1..][j - i - 1] == ls[j];
    var p := ls[i].id;
    assert Ids(t)[p] + FreeTimes(a, p) <= if 1 <= p < a.count then 1 else 0;
  }

  // ---------- depth ----------

  /** What Depth() computes: the length of the leftmost path. */
  function LeftDepth(t: Tree): nat
    requires Shaped(t)
  {
    if t.Leaf? then 1 else LeftDepth(t.kids[0]) + 1
  }

  /** Every root-to-leaf path has d nodes. */
  ghost predicate EveryPath(t: Tree, d: int)
    decreases t
  {
    if t.Leaf? then d == 1 else forall j :: 0 <= j < |t.kids| ==> EveryPath(t.kids[j], d - 1)
  }

  lemma {:induction false} DepthIsUniform(t: Tree, lo: Bound, hi: Bound, h: nat, end: End, minSeps: nat)
    requires WF(t, lo, hi, h, end, minSeps) && Shaped(t)
    ensures LeftDepth(t) == h && EveryPath(t, LeftDepth(t))
    decreases h
  {
    if t.Node? {
      forall j | 0 <= j < |t.kids|
        ensures LeftDepth(t.kids[j]) == h - 1 && EveryPath(t.kids[j], h - 1)
      {
        assert KidOk(t.seps, t.kids, j, lo, hi, end, WFAt(h - 1));
        DepthIsUniform(t.kids[j], LoOf(t.seps, j, lo), HiOf(t.seps, j, hi), h - 1, EndOf(t.kids, j, end), MIN_SEPS);
      }
    }
  }

  // ---------- logarithmic height ----------

  function Pow8(n: nat): nat {
    if n == 0 then 1 else 8 * Pow8(n - 1)
  }

  /** Eight children or more at every level below the root. */
  lemma {:induction false} ManyLeaves(t: Tree, lo: Bound, hi: Bound, h: nat, end: End, minSeps: nat)
    requires WF(t, lo, hi, h, end, minSeps)
    ensures t.Node? ==> |Leaves(t)| >= (minSeps + 1) * Pow8(h - 2)
    ensures minSeps == MIN_SEPS ==> |Leaves(t)| >= Pow8(h - 1)
    decreases h, 1
  {
    if t.Node? {
      ManyKidLeaves(t.seps, t.kids, lo, hi, h - 1, end, 0);
      assert t.kids[0..] == t.kids;
      MulMonotone(minSeps + 1, |t.kids|, Pow8(h - 2));
    }
  }

  lemma MulMonotone(a: nat, b: nat, c: nat)
    requires a <= b
    ensures a * c <= b * c
  {
  }

  lemma {:induction false} ManyKidLeaves(seps: seq<bytes>, kids: seq<Tree>, lo: Bound, hi: Bound, h: nat, end: End,
                                         j: nat)
    requires h >= 1 && Body(seps, kids, lo, hi, end, WFAt(h)) && j <= |kids|
    ensures |FlatLeaves(kids[j..])| >= (|kids| - j) * Pow8(h - 1)
    decreases h, 2, |kids| - j
  {
    if j < |kids| {
      assert KidOk(seps, kids, j, lo, hi, end, WFAt(h));
      ManyLeaves(kids[j], LoOf(seps, j, lo), HiOf(seps, j, hi), h, EndOf(kids, j, end), MIN_SEPS);
      ManyKidLeaves(seps, kids, lo, hi, h, end, j + 1);
      assert kids[j..][1..] == kids[j + 1..];
      assert (|kids| - j) * Pow8(h - 1) == (|kids| - (j + 1)) * Pow8(h - 1) + Pow8(h - 1);
    }
  }

  lemma {:induction false} LeafIdsSize(ls: seq<Tree>)
    ensures |LeafIds(ls)| == |ls|
    decreases ls
  {
    if ls != [] {
      LeafIdsSize(ls[1..]);
    }
  }

  /** Distinct pages from 1 to n - 1 number at most n - 1, and exactly that many when none is missing. */
  lemma {:induction false} DistinctPages(m: multiset<u32>, n: nat)
    requires 1 <= n <= 0x1_0000_0000
    requires forall p: u32 :: m[p] <= if 1 <= p < n then 1 else 0
    ensures |m| <= n - 1
    ensures |m| == n - 1 <==> forall p: u32 :: m[p] == if 1 <= p < n then 1 else 0
    decreases n
  {
    if n == 1 {
      assert forall p: u32 :: p !in m;
      assert m == multiset{};
    } else {
      var last: u32 := n - 1;
      var rest := m - multiset{last};
      forall p: u32
        ensures rest[p] <= if 1 <= p < n - 1 then 1 else 0
        ensures p != last ==> rest[p] == m[p]
      {
        assert m[p] <= if 1 <= p < n then 1 else 0;
      }
      DistinctPages(rest, n - 1);
      if last in m {
        assert m == rest + multiset{last};
      } else {
        assert m == rest;
        assert m[last] == 0;
      }
    }
  }

  lemma {:induction false} Pow8Monotone(m: nat, n: nat)
    requires m <= n
    ensures Pow8(m) <= Pow8(n)
    decreases n
  {
    if m < n {
      Pow8Monotone(m, n - 1);
    }
  }

  /** A tree of depth d has at least 2 * 8^(d-2) leaves; page numbers of 32 bits keep it at twelve levels. */
  lemma HeightBound(t: Tree, h: nat, a: Alloc)
    requires SearchTree(t, h) && Owned(t, a)
    ensures h >= 2 ==> |Leaves(t)| >= 2 * Pow8(h - 2)
    ensures |Leaves(t)| < a.count
    ensures h <= 12
  {
    ManyLeaves(t, None, None, h, None, 1);
    LeafIdsWithin(t);
    LeafIdsSize(Leaves(t));
    forall p: u32
      ensures LeafIds(Leaves(t))[p] <= if 1 <= p < a.count then 1 else 0
    {
      assert Ids(t)[p] + FreeTimes(a, p) <= if 1 <= p < a.count then 1 else 0;
    }
    RootHeld(t);
    assert Ids(t)[t.id] + FreeTimes(a, t.id) <= if 1 <= t.id < a.count then 1 else 0;
    DistinctPages(LeafIds(Leaves(t)), a.count);
    assert Pow8(11) == 0x2_0000_0000;
    if h >= 13 {
      Pow8Monotone(11, h - 2);
      assert false;
    }
  }
}
