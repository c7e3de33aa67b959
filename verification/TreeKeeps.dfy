/** Whether a Put that fails leaves its binding in the tree all the same. */
module TreeKeeps {
  import opened Wrappers
  import opened ByteStrings
  import opened NodeFormat
  import opened SortedEntries
  import opened PageAllocation
  import opened Trees
  import opened TreeShape
  import opened TreeContents
  import opened TreeFailure

  /**
   Never when k's leaf breaks. When a node above breaks, which has just been
   told to take in sep, the binding is on one side of sep, and stays if that
   side does: the lower child where not even the lower half could be written,
   and everything up to the middle otherwise.
   */
  predicate Keeps(t: Tree, k: bytes, v: bytes)
    requires Shaped(t)
    decreases t
  {
    match t
    case Leaf(_, _, _) => false
    case Node(_, seps, kids) =>
      var i := ChildIndex(seps, k);
      match FateOf(kids[i], k, v)
      case Fits => false
      case Breaks => Keeps(kids[i], k, v)
      case Promotes(sep) => NodeFate(seps, i, sep).Breaks? && StaysBelow(seps, i, sep, k)
  }

  predicate StaysBelow(seps: seq<bytes>, i: nat, sep: bytes, k: bytes)
    requires i <= |seps|
  {
    var all := InsertAt(seps, i, sep);
    var mid := |all| / 2;
    if InnerSize(all[..mid]) > CELL_AREA_SIZE then Less(k, sep)
    else (if Less(k, sep) then i else i + 1) <= mid
  }

  lemma HasKeyConcat(a: seq<Entry>, b: seq<Entry>, k: bytes)
    ensures HasKey(a + b, k) <==> HasKey(a, k) || HasKey(b, k)
  {
    if HasKey(a, k) {
      var i :| 0 <= i < |a| && a[i].key == k;
      assert (a + b)[i].key == k;
    }
    if HasKey(b, k) {
      var i :| 0 <= i < |b| && b[i].key == k;
      assert (a + b)[|a| + i].key == k;
    }
  }

  /** What lies apart from k does not have it. */
  lemma ApartLacks(ents: seq<Entry>, k: bytes)
    requires AllBelow(ents, k) || AllAbove(ents, k)
    ensures !HasKey(ents, k)
  {
    if HasKey(ents, k) {
      var i :| 0 <= i < |ents| && ents[i].key == k;
      Trichotomy(k, k);
      assert false;
    }
  }

  /** A leaf breaks only under its new entry, so that is in the half that was not written. */
  lemma LeafKeepsNothing(t: Tree, k: bytes, v: bytes, a: Alloc, lo: Bound, hi: Bound, h: nat, end: End, minSeps: nat)
    requires t.Leaf? && WF(t, lo, hi, h, end, minSeps)
    requires !Present(t.ents, k) && InsertLeaf(t, k, v, a).Failed?
    ensures !HasKey(Entries(InsertLeaf(t, k, v, a).t), k)
  {
    hide LeafSize, Upsert, HasKey, Present, EntriesIn, Sorted, Position;
    var mid := |Upsert(t.ents, k, v)| / 2;
    AbsentKey(t.ents, k);
    if LeafSize(Upsert(t.ents, k, v)[..mid]) <= CELL_AREA_SIZE {
      LowerHalfIsOld(t.ents, k, v, mid);
    }
  }

  lemma LowerHalfIsOld(ents: seq<Entry>, k: bytes, v: bytes, m: nat)
    requires !Present(ents, k) && !HasKey(ents, k) && LeafSize(ents) <= CELL_AREA_SIZE
    requires m <= |Upsert(ents, k, v)| && LeafSize(Upsert(ents, k, v)[m..]) > CELL_AREA_SIZE
    ensures !HasKey(Upsert(ents, k, v)[..m], k)
  {
    hide LeafSize;
    var p, all := Position(ents, k), Upsert(ents, k, v);
    if p < m {
      assert all[m..] == ents[m - 1..];
      assert ents == ents[..m - 1] + ents[m - 1..];
      LeafSizeConcat(ents[..m - 1], ents[m - 1..]);
      assert false;
    }
    assert all[..m] == ents[..m];
    assert ents == ents[..m] + ents[m..];
    HasKeyConcat(ents[..m], ents[m..], k);
  }

  lemma AbsentKey(ents: seq<Entry>, k: bytes)
    requires Sorted(ents) && !Present(ents, k)
    ensures !HasKey(ents, k)
  {
    UpsertSorted(ents, k, []);
  }

  /** The halves of a child that took k: k is in the lower one exactly when it is below the separator. */
  lemma SplitSides(t: Tree, k: bytes, v: bytes, a: Alloc, lo: Bound, hi: Bound, h: nat, end: End, minSeps: nat)
    requires WF(t, lo, hi, h, end, minSeps) && Shaped(t) && Legal(k, v) && AtLeast(k, lo) && Below(k, hi)
    requires minSeps <= MIN_SEPS && Insert(t, k, v, a).Split?
    ensures var r := Insert(t, k, v, a);
            && (HasKey(Entries(r.left), k) <==> Less(k, r.sep))
            && (HasKey(Entries(r.right), k) <==> !Less(k, r.sep))
  {
    hide WF, Less, Insert, Upsert, Entries;
    var r := Insert(t, k, v, a);
    InsertOk(t, k, v, a, lo, hi, h, end, minSeps);
    InsertEntries(t, k, v, a, lo, hi, h, end, minSeps);
    UpsertHasKey(Entries(t), k, v);
    HasKeyConcat(Entries(r.left), Entries(r.right), k);
    if HasKey(Entries(r.left), k) {
      var i :| 0 <= i < |Entries(r.left)| && Entries(r.left)[i].key == k;
      EntriesWithin(r.left, lo, Some(r.sep), h, LinkTo(end, FirstLeaf(r.right)), MIN_SEPS, Entries(r.left)[i]);
    }
    if HasKey(Entries(r.right), k) {
      var i :| 0 <= i < |Entries(r.right)| && Entries(r.right)[i].key == k;
      EntriesWithin(r.right, Some(r.sep), hi, h, end, MIN_SEPS, Entries(r.right)[i]);
    }
  }

  lemma UpsertHasKey(ents: seq<Entry>, k: bytes, v: bytes)
    ensures HasKey(Upsert(ents, k, v), k)
  {
    assert Upsert(ents, k, v)[Position(ents, k)].key == k;
  }

  /** Around the child for k there is no k. */
  lemma AroundLacks(kids: seq<Tree>, i: nat, c: seq<Tree>, k: bytes)
    requires i < |kids| && !HasKey(Flat(kids[..i]), k) && !HasKey(Flat(kids[i + 1..]), k)
    ensures HasKey(Flat(kids[..i] + c + kids[i + 1..]), k) <==> HasKey(Flat(c), k)
    ensures HasKey(Flat(kids[..i] + c), k) <==> HasKey(Flat(c), k)
  {
    hide Flat, HasKey;
    FlatConcat(kids[..i] + c, kids[i + 1..]);
    FlatConcat(kids[..i], c);
    HasKeyConcat(Flat(kids[..i]) + Flat(c), Flat(kids[i + 1..]), k);
    HasKeyConcat(Flat(kids[..i]), Flat(c), k);
  }

  lemma OneKid(c: Tree)
    ensures Flat([c]) == Entries(c)
  {
    FlatCons([c], c, []);
  }

  /** A node that breaks under its child's separator. */
  lemma NodeKeeps(t: Tree, i: nat, r: Ins, k: bytes)
    requires t.Node? && |t.kids| == |t.seps| + 1 && i < |t.kids| && r.Split?
    requires !HasKey(Flat(t.kids[..i]), k) && !HasKey(Flat(t.kids[i + 1..]), k)
    requires HasKey(Entries(r.left), k) <==> Less(k, r.sep)
    requires HasKey(Entries(r.right), k) <==> !Less(k, r.sep)
    requires NodeFate(t.seps, i, r.sep).Breaks?
    ensures AdoptChild(t, i, r).Failed?
    ensures HasKey(Entries(AdoptChild(t, i, r).t), k) <==> StaysBelow(t.seps, i, r.sep, k)
  {
    hide HasKey, Less, Flat, InnerSize, Pop;
    var seps, kids := InsertAt(t.seps, i, r.sep), InsertAt(t.kids[i := r.left], i + 1, r.right);
    var mid := |seps| / 2;
    SplicedSlices(t.kids, i, r.left, r.right);
    if InnerSize(seps[..mid]) > CELL_AREA_SIZE {
      assert t.kids[i := r.left] == t.kids[..i] + [r.left] + t.kids[i + 1..];
      AroundLacks(t.kids, i, [r.left], k);
      OneKid(r.left);
    } else {
      PrefixKeeps(t.kids, i, r, k, mid + 1);
    }
  }

  /** The first n children behind the split: k is among them exactly when its side is. */
  lemma PrefixKeeps(kids: seq<Tree>, i: nat, r: Ins, k: bytes, n: nat)
    requires i < |kids| && r.Split? && n <= |kids|
    requires !HasKey(Flat(kids[..i]), k) && !HasKey(Flat(kids[i + 1..]), k)
    requires HasKey(Entries(r.left), k) <==> Less(k, r.sep)
    requires HasKey(Entries(r.right), k) <==> !Less(k, r.sep)
    ensures HasKey(Flat(InsertAt(kids[i := r.left], i + 1, r.right)[..n]), k)
            <==> (if Less(k, r.sep) then i else i + 1) < n
  {
    hide HasKey, Less, Flat;
    var ks := InsertAt(kids[i := r.left], i + 1, r.right);
    SplicedSlices(kids, i, r.left, r.right);
    OneKid(r.left);
    if n <= i {
      assert kids[..i] == ks[..n] + kids[n..i];
      FlatConcat(ks[..n], kids[n..i]);
      HasKeyConcat(Flat(ks[..n]), Flat(kids[n..i]), k);
    } else if n == i + 1 {
      assert ks[..n] == kids[..i] + [r.left];
      AroundLacks(kids, i, [r.left], k);
    } else {
      assert ks[..n] == (kids[..i] + [r.left, r.right]) + ks[i + 2..n];
      FlatConcat(kids[..i] + [r.left, r.right], ks[i + 2..n]);
      HasKeyConcat(Flat(kids[..i] + [r.left, r.right]), Flat(ks[i + 2..n]), k);
      AroundLacks(kids, i, [r.left, r.right], k);
      FlatCons([r.left, r.right], r.left, [r.right]);
      OneKid(r.right);
      HasKeyConcat(Entries(r.left), Entries(r.right), k);
    }
  }

  lemma {:induction false} InsertKeeps(t: Tree, k: bytes, v: bytes, a: Alloc,
                                       lo: Bound, hi: Bound, h: nat, end: End, minSeps: nat)
    requires WF(t, lo, hi, h, end, minSeps) && Shaped(t) && Legal(k, v) && AtLeast(k, lo) && Below(k, hi)
    requires minSeps <= MIN_SEPS && !Present(LeafFor(t, k).ents, k) && Insert(t, k, v, a).Failed?
    ensures HasKey(Entries(Insert(t, k, v, a).t), k) <==> Keeps(t, k, v)
    decreases h
  {
    hide WF, HasKey, Less, Flat, Body, NodeFate, StaysBelow, InsertLeaf, SplitNode, LeafFor, Present, LeafFate;
    if t.Leaf? {
      OwnLeaf(t, k);
      LeafKeepsNothing(t, k, v, a, lo, hi, h, end, minSeps);
    } else {
      var seps, kids, i := t.seps, t.kids, ChildIndex(t.seps, k);
      var r := Insert(kids[i], k, v, a);
      SameLeaf(t, k);
      KidFacts(t, i, lo, hi, h, end, minSeps);
      ChildRange(seps, k, lo, hi);
      SiblingsApart(seps, kids, lo, hi, h - 1, end, k);
      ApartLacks(Flat(kids[..i]), k);
      ApartLacks(Flat(kids[i + 1..]), k);
      InsertMeetsFate(kids[i], k, v, a);
      NodeMeetsFate(t, i, r, FateOf(kids[i], k, v));
      if r.Failed? {
        InsertKeeps(kids[i], k, v, a, LoOf(seps, i, lo), HiOf(seps, i, hi), h - 1, EndOf(kids, i, end), MIN_SEPS);
        assert kids[i := r.t] == kids[..i] + [r.t] + kids[i + 1..];
        AroundLacks(kids, i, [r.t], k);
        OneKid(r.t);
      } else if r.Split? {
        SplitSides(kids[i], k, v, a, LoOf(seps, i, lo), HiOf(seps, i, hi), h - 1, EndOf(kids, i, end), MIN_SEPS);
        NodeKeeps(t, i, r, k);
      }
    }
  }

  /** After a failed Put of a new key the key is there exactly when Keeps says so beforehand. */
  lemma FailedPutKeepsIff(t: Tree, h: nat, k: bytes, v: bytes, a: Alloc)
    requires SearchTree(t, h) && Shaped(t) && Legal(k, v) && PutTree(t, k, v, a).Failed? && k !in Contents(t)
    ensures k in Contents(PutTree(t, k, v, a).t) <==> Keeps(t, k, v)
  {
    hide Insert, WF, HasKey, Keeps, Less;
    var t' := PutTree(t, k, v, a).t;
    StoredKeyIsPresent(t, h, k);
    PutKeepsShape(t, h, k, v, a);
    InsertKeeps(t, k, v, a, None, None, h, None, 1);
    EntriesSorted(t', None, None, h, None, 1);
    KeyIsBound(Entries(t'), k);
  }

  lemma KeyIsBound(ents: seq<Entry>, k: bytes)
    requires Sorted(ents)
    ensures k in ToMap(ents) <==> HasKey(ents, k)
  {
    ToMapMeaning(ents);
    if HasKey(ents, k) {
      var i :| 0 <= i < |ents| && ents[i].key == k;
      assert Binds(ToMap(ents), ents[i]);
    }
    if k in ToMap(ents) {
      var e := Entry(k, ToMap(ents)[k]);
      assert Binds(ToMap(ents), e);
      var i :| 0 <= i < |ents| && ents[i] == e;
      assert ents[i].key == k;
    }
  }
}
