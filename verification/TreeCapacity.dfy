/** When Put can fail, although nodes are split by count while pages are measured in bytes. */
module TreeCapacity {
  import opened ByteStrings
  import opened NodeFormat
  import opened SortedEntries
  import opened PageAllocation
  import opened Trees
  import opened TreeShape
  import opened TreeContents

  /** Key and value together; at this size 29 leaf cells fill a page exactly. */
  const SAFE_SIZE: nat := 137

  predicate SmallEntry(e: Entry) {
    1 <= |e.key| && |e.key| + |e.val| <= SAFE_SIZE
  }

  /** Every node fits its page, every entry is small, and so is every separator ever promoted from one. */
  ghost predicate SmallTree(t: Tree)
    decreases t
  {
    match t
    case Leaf(_, ents, _) =>
      LeafSize(ents) <= CELL_AREA_SIZE && forall i :: 0 <= i < |ents| ==> SmallEntry(ents[i])
    case Node(_, seps, kids) =>
      InnerSize(seps) <= CELL_AREA_SIZE && SmallSeps(seps) && forall j :: 0 <= j < |kids| ==> SmallTree(kids[j])
  }

  ghost predicate SmallSeps(seps: seq<bytes>) {
    forall i :: 0 <= i < |seps| ==> 1 <= |seps[i]| <= SAFE_SIZE
  }

  // ---------- sizes of halves ----------

  lemma {:induction false} LeafSizeBetween(ents: seq<Entry>, lo: nat, hi: nat)
    requires forall i :: 0 <= i < |ents| ==> lo <= EntrySize(ents[i]) <= hi
    ensures lo * |ents| <= LeafSize(ents) <= hi * |ents|
    decreases ents
  {
    if ents != [] {
      LeafSizeBetween(ents[1..], lo, hi);
      assert lo * |ents| == lo + lo * |ents[1..]| && hi * |ents| == hi + hi * |ents[1..]|;
    }
  }

  lemma {:induction false} InnerSizeBetween(seps: seq<bytes>, lo: nat, hi: nat)
    requires forall i :: 0 <= i < |seps| ==> lo <= 6 + |seps[i]| <= hi
    ensures lo * |seps| <= InnerSize(seps) <= hi * |seps|
    decreases seps
  {
    if seps != [] {
      InnerSizeBetween(seps[1..], lo, hi);
      assert lo * |seps| == lo + lo * |seps[1..]| && hi * |seps| == hi + hi * |seps[1..]|;
    }
  }

  lemma LeafSizeInsert(ents: seq<Entry>, p: nat, e: Entry)
    requires p <= |ents|
    ensures LeafSize(InsertAt(ents, p, e)) == LeafSize(ents) + EntrySize(e)
  {
    assert ents == ents[..p] + ents[p..];
    LeafSizeConcat(ents[..p], ents[p..]);
    LeafSizeConcat(ents[..p] + [e], ents[p..]);
    LeafSizeConcat(ents[..p], [e]);
    assert LeafSize([e]) == EntrySize(e) + LeafSize([]);
  }

  lemma InnerSizeInsert(seps: seq<bytes>, p: nat, s: bytes)
    requires p <= |seps|
    ensures InnerSize(InsertAt(seps, p, s)) == InnerSize(seps) + 6 + |s|
  {
    assert seps == seps[..p] + seps[p..];
    InnerSizeConcat(seps[..p], seps[p..]);
    InnerSizeConcat(seps[..p] + [s], seps[p..]);
    InnerSizeConcat(seps[..p], [s]);
    assert InnerSize([s]) == 6 + |s| + InnerSize([]);
  }

  /** Cells of 5 to 141 bytes, one page plus one cell: either half fits a page. */
  lemma LeafHalvesFit(ents: seq<Entry>)
    requires forall i :: 0 <= i < |ents| ==> 5 <= EntrySize(ents[i]) <= 4 + SAFE_SIZE
    requires LeafSize(ents) <= CELL_AREA_SIZE + 4 + SAFE_SIZE
    ensures LeafSize(ents[..|ents| / 2]) <= CELL_AREA_SIZE
    ensures LeafSize(ents[|ents| / 2..]) <= CELL_AREA_SIZE
  {
    hide LeafSize;
    var mid := |ents| / 2;
    assert ents == ents[..mid] + ents[mid..];
    LeafSizeConcat(ents[..mid], ents[mid..]);
    LeafSizeBetween(ents[..mid], 5, 141);
    LeafSizeBetween(ents[mid..], 5, 141);
  }

  /** Cells of 7 to 143 bytes: the halves around the promoted separator fit a page. */
  lemma InnerHalvesFit(seps: seq<bytes>)
    requires seps != [] && SmallSeps(seps)
    requires InnerSize(seps) <= CELL_AREA_SIZE + 6 + SAFE_SIZE
    ensures InnerSize(seps[..|seps| / 2]) <= CELL_AREA_SIZE
    ensures InnerSize(seps[|seps| / 2 + 1..]) <= CELL_AREA_SIZE
  {
    hide InnerSize;
    var mid := |seps| / 2;
    var left, right := seps[..mid], seps[mid + 1..];
    InnerSizeAround(seps, mid);
    assert SmallSeps(left) && SmallSeps(right);
    InnerSizeBetween(left, 7, 143);
    InnerSizeBetween(right, 7, 143);
  }

  lemma InnerSizeAround(seps: seq<bytes>, i: nat)
    requires i < |seps|
    ensures InnerSize(seps) == InnerSize(seps[..i]) + (6 + |seps[i]|) + InnerSize(seps[i + 1..])
  {
    assert seps == seps[..i] + seps[i..];
    InnerSizeConcat(seps[..i], seps[i..]);
    assert seps[i..][1..] == seps[i + 1..];
  }

  // ---------- small fresh keys never overflow ----------

  ghost predicate SmallIns(r: Ins) {
    match r
    case Failed(_, _) => false
    case Done(t, _) => SmallTree(t)
    case Split(l, s, rt, _) => SmallTree(l) && SmallTree(rt) && 1 <= |s| <= SAFE_SIZE
  }

  lemma InsertLeafSmall(t: Tree, k: bytes, v: bytes, a: Alloc)
    requires t.Leaf? && SmallTree(t) && SmallEntry(Entry(k, v)) && !Present(t.ents, k)
    ensures SmallIns(InsertLeaf(t, k, v, a))
  {
    var ents := Upsert(t.ents, k, v);
    LeafSizeInsert(t.ents, Position(t.ents, k), Entry(k, v));
    UpsertSmall(t.ents, k, v);
    LeafHalvesFit(ents);
  }

  lemma UpsertSmall(ents: seq<Entry>, k: bytes, v: bytes)
    requires SmallEntry(Entry(k, v)) && forall i :: 0 <= i < |ents| ==> SmallEntry(ents[i])
    ensures var s := Upsert(ents, k, v); s != [] && forall i :: 0 <= i < |s| ==> SmallEntry(s[i])
  {
  }

  lemma SmallNode(id: u32, seps: seq<bytes>, kids: seq<Tree>)
    requires SmallSeps(seps) && InnerSize(seps) <= CELL_AREA_SIZE && forall j :: 0 <= j < |kids| ==> SmallTree(kids[j])
    ensures SmallTree(Node(id, seps, kids))
  {
  }

  lemma SplitNodeSmall(before: Tree, seps: seq<bytes>, kids: seq<Tree>, a: Alloc)
    requires seps != [] && |kids| == |seps| + 1
    requires SmallSeps(seps) && InnerSize(seps) <= CELL_AREA_SIZE + 6 + SAFE_SIZE
    requires forall j :: 0 <= j < |kids| ==> SmallTree(kids[j])
    ensures SmallIns(SplitNode(before, seps, kids, a))
  {
    hide SmallTree, InnerSize, LeafSize;
    InnerHalvesFit(seps);
    var mid := |seps| / 2;
    SmallNode(before.id, seps[..mid], kids[..mid + 1]);
    SmallNode(Pop(a).0, seps[mid + 1..], kids[mid + 1..]);
  }

  lemma SepsStaySmall(seps: seq<bytes>, i: nat, s: bytes)
    requires SmallSeps(seps) && i <= |seps| && 1 <= |s| <= SAFE_SIZE
    ensures SmallSeps(InsertAt(seps, i, s))
  {
  }

  lemma AdoptChildSmall(t: Tree, i: nat, r: Ins)
    requires t.Node? && SmallTree(t) && i < |t.kids| == |t.seps| + 1 && SmallIns(r)
    ensures SmallIns(AdoptChild(t, i, r))
  {
    hide SplitNode, InnerSize, LeafSize, InsertAt, SmallSeps;
    match r
    case Done(c, _) =>
      SmallNode(t.id, t.seps, t.kids[i := c]);
    case Split(l, s, rt, b) =>
      var seps, kids := InsertAt(t.seps, i, s), InsertAt(t.kids[i := l], i + 1, rt);
      SplicedAll(t.kids, i, l, rt, c => SmallTree(c));
      InnerSizeInsert(t.seps, i, s);
      SepsStaySmall(t.seps, i, s);
      if InnerSize(seps) > CELL_AREA_SIZE {
        SplitNodeSmall(t.(kids := t.kids[i := l]), seps, kids, b);
      } else {
        SmallNode(t.id, seps, kids);
      }
  }

  lemma {:induction false} InsertSmall(t: Tree, k: bytes, v: bytes, a: Alloc)
    requires Shaped(t) && SmallTree(t) && SmallEntry(Entry(k, v)) && !Present(LeafFor(t, k).ents, k)
    ensures SmallIns(Insert(t, k, v, a))
    decreases t
  {
    match t
    case Leaf(_, _, _) =>
      InsertLeafSmall(t, k, v, a);
    case Node(_, seps, kids) =>
      var i := ChildIndex(seps, k);
      InsertSmall(kids[i], k, v, a);
      AdoptChildSmall(t, i, Insert(kids[i], k, v, a));
  }

  // ---------- updates ----------

  /** An update never splits: it fits the leaf, or it fails and leaves every page as it was. */
  lemma {:induction false} UpdateStaysPut(t: Tree, k: bytes, v: bytes, a: Alloc)
    requires Shaped(t) && Present(LeafFor(t, k).ents, k)
    ensures var r := Insert(t, k, v, a);
            && !r.Split? && r.a == a
            && (r.Failed? ==> r.t == t)
            && (r.Failed? <==> LeafSize(Upsert(LeafFor(t, k).ents, k, v)) > CELL_AREA_SIZE)
    decreases t
  {
    if t.Node? {
      var i := ChildIndex(t.seps, k);
      UpdateStaysPut(t.kids[i], k, v, a);
      assert t.kids[i := t.kids[i]] == t.kids;
    }
  }

  lemma {:induction false} UpdateKeepsSmall(t: Tree, k: bytes, v: bytes, a: Alloc)
    requires Shaped(t) && SmallTree(t) && SmallEntry(Entry(k, v))
    requires Insert(t, k, v, a).Done?
    requires Present(LeafFor(t, k).ents, k)
    ensures SmallTree(Insert(t, k, v, a).t)
    decreases t
  {
    if t.Node? {
      var i := ChildIndex(t.seps, k);
      UpdateStaysPut(t.kids[i], k, v, a);
      UpdateKeepsSmall(t.kids[i], k, v, a);
      SmallNode(t.id, t.seps, t.kids[i := Insert(t.kids[i], k, v, a).t]);
    }
  }

  /**
   Split capacity: while every key with its value has at most 137 bytes, a
   Put can only fail when it makes a value longer, and then nothing changed.
   */
  lemma SmallPutSucceeds(t: Tree, h: nat, k: bytes, v: bytes, a: Alloc)
    requires SearchTree(t, h) && Shaped(t) && SmallTree(t) && Legal(k, v) && SmallEntry(Entry(k, v))
    ensures var r := PutTree(t, k, v, a);
            && SmallTree(r.t)
            && (k !in Contents(t) ==> r.Done?)
            && (r.Failed? ==> r.t == t && r.a == a)
  {
    GetIsMapLookup(t, h, k);
    if Present(LeafFor(t, k).ents, k) {
      PresentIsFound(LeafFor(t, k).ents, k);
      UpdateStaysPut(t, k, v, a);
      if Insert(t, k, v, a).Done? {
        UpdateKeepsSmall(t, k, v, a);
      }
    } else {
      InsertSmall(t, k, v, a);
      if Insert(t, k, v, a).Split? {
        NewRootSmall(Insert(t, k, v, a));
      }
    }
  }

  lemma PresentIsFound(ents: seq<Entry>, k: bytes)
    requires Present(ents, k)
    ensures Lookup(ents, k).Some?
  {
    assert ents[Position(ents, k)].key == k;
  }

  lemma NewRootSmall(r: Ins)
    requires r.Split? && SmallIns(r)
    ensures InnerSize([r.sep]) <= CELL_AREA_SIZE
    ensures SmallTree(Node(Pop(r.a).0, [r.sep], [r.left, r.right]))
  {
    assert InnerSize([r.sep]) == 6 + |r.sep| + InnerSize([]);
    SmallNode(Pop(r.a).0, [r.sep], [r.left, r.right]);
  }

  lemma {:induction false} DeleteKeepsSmall(t: Tree, k: bytes)
    requires Shaped(t) && SmallTree(t)
    ensures SmallTree(DeleteTree(t, k))
    decreases t
  {
    match t
    case Leaf(_, ents, _) =>
      LeafRemoveSize(ents, k);
    case Node(id, seps, kids) =>
      var i := ChildIndex(seps, k);
      DeleteKeepsSmall(kids[i], k);
      SmallNode(id, seps, kids[i := DeleteTree(kids[i], k)]);
  }
}
