/** The tree means a map: search, insertion and deletion against the sequence of all entries. */
module TreeContents {
  import opened Wrappers
  import opened ByteStrings
  import opened NodeFormat
  import opened SortedEntries
  import opened PageAllocation
  import opened Trees
  import opened TreeShape

  /** A child's range lies within its node's. */
  lemma KidRangeWithin(seps: seq<bytes>, j: nat, lo: Bound, hi: Bound, k: bytes)
    requires j <= |seps| && forall i :: 0 <= i < |seps| ==> SepOk(seps[i], lo, hi)
    requires AtLeast(k, LoOf(seps, j, lo)) && Below(k, HiOf(seps, j, hi))
    ensures AtLeast(k, lo) && Below(k, hi)
  {
    if j > 0 && lo.Some? {
      LessLeqTransitive(lo.value, seps[j - 1], k);
      Trichotomy(k, lo.value);
    }
    if j < |seps| && hi.Some? {
      LessTransitive(k, seps[j], hi.value);
    }
  }

  lemma {:induction false} EntriesWithin(t: Tree, lo: Bound, hi: Bound, h: nat, end: End, minSeps: nat, e: Entry)
    requires WF(t, lo, hi, h, end, minSeps) && e in Entries(t)
    ensures Legal(e.key, e.val) && AtLeast(e.key, lo) && Below(e.key, hi)
    decreases h, 0
  {
    match t
    case Leaf(_, ents, _) =>
      var i :| 0 <= i < |ents| && ents[i] == e;
    case Node(_, seps, kids) =>
      FlatMember(kids, e);
      var j :| 0 <= j < |kids| && e in Entries(kids[j]);
      KidEntryWithin(seps, kids, lo, hi, h - 1, end, j, e);
      KidRangeWithin(seps, j, lo, hi, e.key);
  }

  lemma KidEntryWithin(seps: seq<bytes>, kids: seq<Tree>, lo: Bound, hi: Bound, h: nat, end: End, j: nat, e: Entry)
    requires Body(seps, kids, lo, hi, end, WFAt(h)) && j < |kids| && e in Entries(kids[j])
    ensures Legal(e.key, e.val) && AtLeast(e.key, LoOf(seps, j, lo)) && Below(e.key, HiOf(seps, j, hi))
    decreases h, 1
  {
    assert KidOk(seps, kids, j, lo, hi, end, WFAt(h));
    EntriesWithin(kids[j], LoOf(seps, j, lo), HiOf(seps, j, hi), h, EndOf(kids, j, end), MIN_SEPS, e);
  }

  /** Separators are in order, so what is below an early one is below a late one. */
  lemma SepsMonotone(seps: seq<bytes>, i: nat, j: nat)
    requires i <= j < |seps| && forall a, b :: 0 <= a < b < |seps| ==> Less(seps[a], seps[b])
    ensures !Less(seps[j], seps[i])
  {
    Trichotomy(seps[i], seps[j]);
  }

  /** Everything left of the child chosen for k is below k, everything right of it above. */
  lemma SiblingsApart(seps: seq<bytes>, kids: seq<Tree>, lo: Bound, hi: Bound, h: nat, end: End, k: bytes)
    requires Body(seps, kids, lo, hi, end, WFAt(h))
    ensures var i := ChildIndex(seps, k);
            AllBelow(Flat(kids[..i]), k) && AllAbove(Flat(kids[i + 1..]), k)
  {
    var i := ChildIndex(seps, k);
    var left, right := Flat(kids[..i]), Flat(kids[i + 1..]);
    forall n | 0 <= n < |left|
      ensures Less(left[n].key, k)
    {
      var e := left[n];
      FlatMember(kids[..i], e);
      var j :| 0 <= j < i && e in Entries(kids[..i][j]);
      KidEntryWithin(seps, kids, lo, hi, h, end, j, e);
      LessLeqTransitive(e.key, seps[j], k);
    }
    forall n | 0 <= n < |right|
      ensures Less(k, right[n].key)
    {
      var e := right[n];
      FlatMember(kids[i + 1..], e);
      var o :| 0 <= o < |kids[i + 1..]| && e in Entries(kids[i + 1..][o]);
      var j := i + 1 + o;
      KidEntryWithin(seps, kids, lo, hi, h, end, j, e);
      SepsMonotone(seps, i, j - 1);
      LessLeqTransitive(k, seps[i], seps[j - 1]);
      LessLeqTransitive(k, seps[j - 1], e.key);
    }
  }

  /** Working on a node's entries is working on the entries of the chosen child. */
  lemma WorkOnChild(seps: seq<bytes>, kids: seq<Tree>, lo: Bound, hi: Bound, h: nat, end: End, k: bytes, v: bytes)
    requires Body(seps, kids, lo, hi, end, WFAt(h))
    ensures var i := ChildIndex(seps, k);
            var left, ents, right := Flat(kids[..i]), Entries(kids[i]), Flat(kids[i + 1..]);
            && Upsert(Flat(kids), k, v) == left + Upsert(ents, k, v) + right
            && Lookup(Flat(kids), k) == Lookup(ents, k)
            && Remove(Flat(kids), k) == left + Remove(ents, k) + right
  {
    var i := ChildIndex(seps, k);
    SiblingsApart(seps, kids, lo, hi, h, end, k);
    FlatAround(kids, i);
    WorkOnMiddle(Flat(kids[..i]), Entries(kids[i]), Flat(kids[i + 1..]), k, v);
  }

  lemma {:induction false} EntriesSorted(t: Tree, lo: Bound, hi: Bound, h: nat, end: End, minSeps: nat)
    requires WF(t, lo, hi, h, end, minSeps)
    ensures Sorted(Entries(t))
    decreases h, 1
  {
    if t.Node? {
      PrefixSorted(t.seps, t.kids, lo, hi, h - 1, end, |t.kids|);
      assert t.kids[..|t.kids|] == t.kids;
    }
  }

  lemma {:induction false} PrefixSorted(seps: seq<bytes>, kids: seq<Tree>, lo: Bound, hi: Bound, h: nat, end: End,
                                        n: nat)
    requires Body(seps, kids, lo, hi, end, WFAt(h)) && n <= |kids|
    ensures Sorted(Flat(kids[..n]))
    decreases h, 2, n
  {
    if n > 0 {
      var a, b := Flat(kids[..n - 1]), Entries(kids[n - 1]);
      PrefixSorted(seps, kids, lo, hi, h, end, n - 1);
      assert KidOk(seps, kids, n - 1, lo, hi, end, WFAt(h));
      EntriesSorted(kids[n - 1], LoOf(seps, n - 1, lo), HiOf(seps, n - 1, hi), h, EndOf(kids, n - 1, end), MIN_SEPS);
      forall i, j | 0 <= i < |a| && 0 <= j < |b|
        ensures Less(a[i].key, b[j].key)
      {
        FlatMember(kids[..n - 1], a[i]);
        var m :| 0 <= m < n - 1 && a[i] in Entries(kids[..n - 1][m]);
        KidEntryWithin(seps, kids, lo, hi, h, end, m, a[i]);
        KidEntryWithin(seps, kids, lo, hi, h, end, n - 1, b[j]);
        SepsMonotone(seps, m, n - 2);
        LessLeqTransitive(a[i].key, seps[m], seps[n - 2]);
        LessLeqTransitive(a[i].key, seps[n - 2], b[j].key);
      }
      SortedConcat(a, b);
      FlatSnoc(kids, n - 1);
    }
  }

  lemma FlatSnoc(kids: seq<Tree>, n: nat)
    requires n < |kids|
    ensures Flat(kids[..n + 1]) == Flat(kids[..n]) + Entries(kids[n])
  {
    assert kids[..n + 1] == kids[..n] + [kids[n]];
    FlatConcat(kids[..n], [kids[n]]);
    FlatCons([kids[n]], kids[n], []);
  }

  // ---------- insertion ----------

  /** The entries after an insertion are the old ones with the new binding put in its place. */
  ghost predicate InsEntries(r: Ins, ents: seq<Entry>) {
    match r
    case Failed(_, _) => true
    case Done(t, _) => Entries(t) == ents
    case Split(l, _, rt, _) => Entries(l) + Entries(rt) == ents
  }

  lemma ReplacedEntries(kids: seq<Tree>, i: nat, c: Tree)
    requires i < |kids|
    ensures Flat(kids[i := c]) == Flat(kids[..i]) + Entries(c) + Flat(kids[i + 1..])
  {
    FlatAround(kids[i := c], i);
    assert kids[i := c][..i] == kids[..i] && kids[i := c][i + 1..] == kids[i + 1..];
  }

  lemma SplicedEntries(kids: seq<Tree>, i: nat, l: Tree, r: Tree)
    requires i < |kids|
    ensures Flat(InsertAt(kids[i := l], i + 1, r))
            == Flat(kids[..i]) + (Entries(l) + Entries(r)) + Flat(kids[i + 1..])
  {
    var ks := InsertAt(kids[i := l], i + 1, r);
    SplicedSlices(kids, i, l, r);
    FlatAround(ks, i);
    FlatCons(ks[i + 1..], r, kids[i + 1..]);
    Regroup(Flat(kids[..i]), Entries(l), Entries(r), Flat(kids[i + 1..]));
  }

  lemma Regroup(a: seq<Entry>, b: seq<Entry>, c: seq<Entry>, d: seq<Entry>)
    ensures a + b + (c + d) == a + (b + c) + d
  {
  }

  lemma SplitNodeEntries(before: Tree, seps: seq<bytes>, kids: seq<Tree>, a: Alloc)
    requires seps != [] && |kids| == |seps| + 1
    ensures InsEntries(SplitNode(before, seps, kids, a), Flat(kids))
  {
    var mid := |seps| / 2;
    assert kids == kids[..mid + 1] + kids[mid + 1..];
    FlatConcat(kids[..mid + 1], kids[mid + 1..]);
  }

  lemma AdoptChildEntries(t: Tree, i: nat, r: Ins, ents: seq<Entry>)
    requires t.Node? && |t.kids| == |t.seps| + 1 && i < |t.kids|
    requires InsEntries(r, ents)
    ensures InsEntries(AdoptChild(t, i, r), Flat(t.kids[..i]) + ents + Flat(t.kids[i + 1..]))
  {
    match r
    case Failed(_, _) =>
    case Done(c, _) =>
      ReplacedEntries(t.kids, i, c);
    case Split(l, s, rt, b) =>
      SplicedEntries(t.kids, i, l, rt);
      var seps, kids := InsertAt(t.seps, i, s), InsertAt(t.kids[i := l], i + 1, rt);
      if InnerSize(seps) > CELL_AREA_SIZE {
        SplitNodeEntries(t.(kids := t.kids[i := l]), seps, kids, b);
      }
  }

  lemma InsertLeafEntries(t: Tree, k: bytes, v: bytes, a: Alloc)
    requires t.Leaf?
    ensures InsEntries(InsertLeaf(t, k, v, a), Upsert(t.ents, k, v))
  {
    var ents := Upsert(t.ents, k, v);
    assert ents[..|ents| / 2] + ents[|ents| / 2..] == ents;
  }

  lemma InsertNodeEntries(t: Tree, r: Ins, k: bytes, v: bytes, lo: Bound, hi: Bound, h: nat, end: End)
    requires t.Node? && h >= 2 && Body(t.seps, t.kids, lo, hi, end, WFAt(h - 1))
    requires InsEntries(r, Upsert(Entries(t.kids[ChildIndex(t.seps, k)]), k, v))
    ensures InsEntries(AdoptChild(t, ChildIndex(t.seps, k), r), Upsert(Flat(t.kids), k, v))
  {
    var i := ChildIndex(t.seps, k);
    WorkOnChild(t.seps, t.kids, lo, hi, h - 1, end, k, v);
    AdoptChildEntries(t, i, r, Upsert(Entries(t.kids[i]), k, v));
  }

  lemma {:induction false} InsertEntries(t: Tree, k: bytes, v: bytes, a: Alloc,
                                         lo: Bound, hi: Bound, h: nat, end: End, minSeps: nat)
    requires WF(t, lo, hi, h, end, minSeps) && Shaped(t)
    ensures InsEntries(Insert(t, k, v, a), Upsert(Entries(t), k, v))
    decreases h
  {
    match t
    case Leaf(_, _, _) =>
      InsertLeafEntries(t, k, v, a);
    case Node(_, seps, kids) =>
      var i := ChildIndex(seps, k);
      assert KidOk(seps, kids, i, lo, hi, end, WFAt(h - 1));
      InsertEntries(kids[i], k, v, a, LoOf(seps, i, lo), HiOf(seps, i, hi), h - 1, EndOf(kids, i, end), MIN_SEPS);
      InsertNodeEntries(t, Insert(kids[i], k, v, a), k, v, lo, hi, h, end);
  }

  // ---------- search and deletion ----------

  lemma {:induction false} GetEntries(t: Tree, k: bytes, lo: Bound, hi: Bound, h: nat, end: End, minSeps: nat)
    requires WF(t, lo, hi, h, end, minSeps) && Shaped(t)
    ensures Get(t, k) == Lookup(Entries(t), k)
    decreases h
  {
    match t
    case Leaf(_, _, _) =>
    case Node(_, seps, kids) =>
      var i := ChildIndex(seps, k);
      assert KidOk(seps, kids, i, lo, hi, end, WFAt(h - 1));
      GetEntries(kids[i], k, LoOf(seps, i, lo), HiOf(seps, i, hi), h - 1, EndOf(kids, i, end), MIN_SEPS);
      WorkOnChild(seps, kids, lo, hi, h - 1, end, k, []);
  }

  lemma {:induction false} DeleteEntries(t: Tree, k: bytes, lo: Bound, hi: Bound, h: nat, end: End, minSeps: nat)
    requires WF(t, lo, hi, h, end, minSeps) && Shaped(t)
    ensures Entries(DeleteTree(t, k)) == Remove(Entries(t), k)
    decreases h
  {
    hide Remove, Flat, SepOk, Sorted, EntriesIn;
    match t
    case Leaf(_, _, _) =>
    case Node(id, seps, kids) =>
      var i := ChildIndex(seps, k);
      assert KidOk(seps, kids, i, lo, hi, end, WFAt(h - 1));
      DeleteEntries(kids[i], k, LoOf(seps, i, lo), HiOf(seps, i, hi), h - 1, EndOf(kids, i, end), MIN_SEPS);
      ReplacedEntries(kids, i, DeleteTree(kids[i], k));
      WorkOnChild(seps, kids, lo, hi, h - 1, end, k, []);
  }

  // ---------- the map ----------

  /** The map the whole tree stands for. */
  function Contents(t: Tree): map<bytes, bytes> {
    ToMap(Entries(t))
  }

  /** Put that reports success has bound k to v and changed no other binding. */
  lemma PutIsMapUpdate(t: Tree, h: nat, k: bytes, v: bytes, a: Alloc)
    requires SearchTree(t, h) && Shaped(t) && Legal(k, v) && PutTree(t, k, v, a).Done?
    ensures Entries(PutTree(t, k, v, a).t) == Upsert(Entries(t), k, v)
    ensures Contents(PutTree(t, k, v, a).t) == Contents(t)[k := v]
  {
    hide Insert, WF, Upsert, Flat, Entries;
    InsertEntries(t, k, v, a, None, None, h, None, 1);
    EntriesSorted(t, None, None, h, None, 1);
    UpsertIsMapUpdate(Entries(t), k, v);
    match Insert(t, k, v, a)
    case Failed(_, _) =>
    case Done(_, _) =>
    case Split(l, s, r, b) =>
      PairEntries(Pop(b).0, s, l, r);
  }

  lemma PairEntries(id: u32, s: bytes, l: Tree, r: Tree)
    ensures Entries(Node(id, [s], [l, r])) == Entries(l) + Entries(r)
  {
    FlatCons([l, r], l, [r]);
    FlatCons([r], r, []);
  }

  /** The single leaf a search inspects decides the whole map. */
  lemma GetIsMapLookup(t: Tree, h: nat, k: bytes)
    requires SearchTree(t, h) && Shaped(t)
    ensures Get(t, k) == if k in Contents(t) then Some(Contents(t)[k]) else None
  {
    GetEntries(t, k, None, None, h, None, 1);
    EntriesSorted(t, None, None, h, None, 1);
    LookupIsMapLookup(Entries(t), k);
  }

  lemma DeleteIsMapRemoval(t: Tree, h: nat, k: bytes)
    requires SearchTree(t, h) && Shaped(t)
    ensures Entries(DeleteTree(t, k)) == Remove(Entries(t), k)
    ensures Contents(DeleteTree(t, k)) == Contents(t) - {k}
    ensures SearchTree(DeleteTree(t, k), h) && Shaped(DeleteTree(t, k))
    ensures WholeTree(t, h) ==> WholeTree(DeleteTree(t, k), h)
  {
    DeleteEntries(t, k, None, None, h, None, 1);
    EntriesSorted(t, None, None, h, None, 1);
    RemoveIsMapRemoval(Entries(t), k);
    DeleteKeepsShape(t, k, None, None, h, None, 1);
    DeleteShaped(t, k);
    if WholeTree(t, h) {
      DeleteKeepsShape(t, k, None, None, h, Some(0), 1);
    }
  }

  lemma StoredKeyIsPresent(t: Tree, h: nat, k: bytes)
    requires SearchTree(t, h) && Shaped(t)
    ensures k in Contents(t) <==> Present(LeafFor(t, k).ents, k)
  {
    GetIsMapLookup(t, h, k);
    LeafForSorted(t, k, None, None, h, None, 1);
    UpsertSorted(LeafFor(t, k).ents, k, []);
  }

  lemma {:induction false} LeafForSorted(t: Tree, k: bytes, lo: Bound, hi: Bound, h: nat, end: End, minSeps: nat)
    requires WF(t, lo, hi, h, end, minSeps) && Shaped(t)
    ensures Sorted(LeafFor(t, k).ents)
    decreases h
  {
    if t.Node? {
      var i := ChildIndex(t.seps, k);
      assert KidOk(t.seps, t.kids, i, lo, hi, end, WFAt(h - 1));
      LeafForSorted(t.kids[i], k, LoOf(t.seps, i, lo), HiOf(t.seps, i, hi), h - 1, EndOf(t.kids, i, end), MIN_SEPS);
    }
  }

  lemma RemoveAbsent(t: Tree, k: bytes)
    requires Shaped(t) && Get(t, k).None?
    ensures DeleteTree(t, k) == t
    decreases t
  {
    if t.Node? {
      var i := ChildIndex(t.seps, k);
      RemoveAbsent(t.kids[i], k);
      assert t.kids[i := t.kids[i]] == t.kids;
    }
  }
}
