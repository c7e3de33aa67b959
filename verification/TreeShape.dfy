/** The shape invariant of the tree, and that insertion and deletion keep it. */
module TreeShape {
  import opened Wrappers
  import opened ByteStrings
  import opened NodeFormat
  import opened SortedEntries
  import opened PageAllocation
  import opened Trees

  /** A bound of None is absent. */
  type Bound = Option<bytes>

  predicate AtLeast(k: bytes, lo: Bound) {
    lo.Some? ==> !Less(k, lo.value)
  }

  predicate Below(k: bytes, hi: Bound) {
    hi.Some? ==> Less(k, hi.value)
  }

  predicate LegalKey(k: bytes) {
    1 <= |k| <= MAX_KEY_SIZE
  }

  predicate Legal(k: bytes, v: bytes) {
    LegalKey(k) && |v| <= MAX_VALUE_SIZE
  }

  /** What Put accepts, in numbers. */
  lemma LegalIff(k: bytes, v: bytes)
    ensures Legal(k, v) <==> 1 <= |k| <= 255 && |v| <= 3840
  {
  }

  /** A separator lies strictly inside its node's range. */
  predicate SepOk(s: bytes, lo: Bound, hi: Bound) {
    LegalKey(s) && (lo.Some? ==> Less(lo.value, s)) && Below(s, hi)
  }

  ghost predicate EntriesIn(ents: seq<Entry>, lo: Bound, hi: Bound) {
    forall i :: 0 <= i < |ents| ==>
                  && Legal(ents[i].key, ents[i].val)
                  && AtLeast(ents[i].key, lo) && Below(ents[i].key, hi)
  }

  function LoOf(seps: seq<bytes>, j: nat, lo: Bound): Bound
    requires j <= |seps|
  {
    if j == 0 then lo else Some(seps[j - 1])
  }

  function HiOf(seps: seq<bytes>, j: nat, hi: Bound): Bound
    requires j <= |seps|
  {
    if j == |seps| then hi else Some(seps[j])
  }

  /** Where the last leaf of a subtree must point; None where nothing is claimed about the leaf chain. */
  type End = Option<u32>

  function LinkTo(end: End, leaf: u32): End {
    if end.Some? then Some(leaf) else None
  }

  /** Where the last leaf of child j must point: to the first leaf of the next child, or out of the node. */
  function EndOf(kids: seq<Tree>, j: nat, end: End): End
    requires j < |kids|
  {
    if j == |kids| - 1 then end else LinkTo(end, FirstLeaf(kids[j + 1]))
  }

  const MIN_SEPS: nat := 7

  /**
   Well-formed subtree of height h whose keys lie in lo..hi and whose last
   leaf links to end: keys sorted and separated, all leaves at one depth, the
   leaf chain in order, every node within its page, and at least minSeps
   separators here and seven in every internal node further down. With end
   None all of it but the chain.
   */
  ghost predicate WF(t: Tree, lo: Bound, hi: Bound, h: nat, end: End, minSeps: nat)
    decreases h, 0
  {
    match t
    case Leaf(_, ents, next) =>
      && h == 1 && (end.Some? ==> next == end.value)
      && Sorted(ents) && EntriesIn(ents, lo, hi) && LeafSize(ents) <= CELL_AREA_SIZE
    case Node(_, seps, kids) =>
      h >= 2 && |seps| >= minSeps && InnerSize(seps) <= CELL_AREA_SIZE && Body(seps, kids, lo, hi, end, WFAt(h - 1))
  }

  /** What a node asks of a child: the child, its key range, and where its last leaf must point. */
  type KidSpec = (Tree, Bound, Bound, End) -> bool

  ghost function WFAt(h: nat): KidSpec
    decreases h, 1
  {
    (c: Tree, lo: Bound, hi: Bound, end: End) => WF(c, lo, hi, h, end, MIN_SEPS)
  }

  /** An internal node's separators and children, whether or not they fit on a page. */
  ghost predicate Body(seps: seq<bytes>, kids: seq<Tree>, lo: Bound, hi: Bound, end: End, ok: KidSpec) {
    && |kids| == |seps| + 1
    && (forall i, j :: 0 <= i < j < |seps| ==> Less(seps[i], seps[j]))
    && (forall i :: 0 <= i < |seps| ==> SepOk(seps[i], lo, hi))
    && (forall j :: 0 <= j < |kids| ==> KidOk(seps, kids, j, lo, hi, end, ok))
  }

  ghost predicate KidOk(seps: seq<bytes>, kids: seq<Tree>, j: nat, lo: Bound, hi: Bound, end: End, ok: KidSpec)
    requires j < |kids| == |seps| + 1
  {
    ok(kids[j], LoOf(seps, j, lo), HiOf(seps, j, hi), EndOf(kids, j, end))
  }

  /** hi' is no lower a bound than hi. */
  predicate Within(hi: Bound, hi': Bound) {
    hi'.Some? ==> hi.Some? && !Less(hi'.value, hi.value)
  }

  lemma BelowWithin(k: bytes, hi: Bound, hi': Bound)
    requires Below(k, hi) && Within(hi, hi')
    ensures Below(k, hi')
  {
    if hi'.Some? {
      LessLeqTransitive(k, hi.value, hi'.value);
    }
  }

  /** Giving up the chain, some separators, and room above. */
  lemma {:induction false} WFWeaken(t: Tree, lo: Bound, hi: Bound, h: nat, end: End, minSeps: nat,
                                    hi': Bound, minSeps': nat)
    requires WF(t, lo, hi, h, end, minSeps) && Within(hi, hi') && minSeps' <= minSeps
    ensures WF(t, lo, hi', h, None, minSeps')
    decreases h, 1
  {
    match t
    case Leaf(_, ents, _) =>
      forall i | 0 <= i < |ents|
        ensures Below(ents[i].key, hi')
      {
        BelowWithin(ents[i].key, hi, hi');
      }
    case Node(_, seps, kids) =>
      BodyWeaken(seps, kids, lo, hi, end, h - 1, hi');
  }

  lemma {:induction false} BodyWeaken(seps: seq<bytes>, kids: seq<Tree>, lo: Bound, hi: Bound, end: End, h: nat,
                                      hi': Bound)
    requires Body(seps, kids, lo, hi, end, WFAt(h)) && Within(hi, hi')
    ensures Body(seps, kids, lo, hi', None, WFAt(h))
    decreases h, 2
  {
    hide Less;
    forall i | 0 <= i < |seps|
      ensures SepOk(seps[i], lo, hi')
    {
      BelowWithin(seps[i], hi, hi');
    }
    forall j | 0 <= j < |kids|
      ensures KidOk(seps, kids, j, lo, hi', None, WFAt(h))
    {
      assert KidOk(seps, kids, j, lo, hi, end, WFAt(h));
      SameBound(HiOf(seps, j, hi));
      WFWeaken(kids[j], LoOf(seps, j, lo), HiOf(seps, j, hi), h, EndOf(kids, j, end), MIN_SEPS,
               HiOf(seps, j, hi'), MIN_SEPS);
    }
  }

  lemma SameBound(b: Bound)
    ensures Within(b, b)
  {
    if b.Some? {
      Trichotomy(b.value, b.value);
    }
  }

  // ---------- one more child than separators, always ----------

  ghost predicate ShapedIns(r: Ins) {
    match r
    case Failed(t, _) => Shaped(t)
    case Done(t, _) => Shaped(t)
    case Split(l, _, rt, _) => Shaped(l) && Shaped(rt)
  }

  /** A property of all children holds of all children after a splice. */
  lemma SplicedAll(kids: seq<Tree>, i: nat, l: Tree, r: Tree, ok: Tree -> bool)
    requires i < |kids| && ok(l) && ok(r) && forall j :: 0 <= j < |kids| ==> ok(kids[j])
    ensures var ks := InsertAt(kids[i := l], i + 1, r); forall j :: 0 <= j < |ks| ==> ok(ks[j])
  {
  }

  lemma ShapedNode(id: u32, seps: seq<bytes>, kids: seq<Tree>)
    requires |kids| == |seps| + 1 && forall j :: 0 <= j < |kids| ==> Shaped(kids[j])
    ensures Shaped(Node(id, seps, kids))
  {
  }

  lemma AdoptChildShaped(t: Tree, i: nat, r: Ins)
    requires t.Node? && Shaped(t) && i < |t.kids| && ShapedIns(r)
    ensures ShapedIns(AdoptChild(t, i, r))
  {
    hide InsertAt, SplitNode, InnerSize;
    match r
    case Failed(c, _) =>
      ShapedNode(t.id, t.seps, t.kids[i := c]);
    case Done(c, _) =>
      ShapedNode(t.id, t.seps, t.kids[i := c]);
    case Split(l, s, rt, b) =>
      var seps, kids := InsertAt(t.seps, i, s), InsertAt(t.kids[i := l], i + 1, rt);
      SplicedAll(t.kids, i, l, rt, c => Shaped(c));
      ShapedNode(t.id, t.seps, t.kids[i := l]);
      ShapedNode(t.id, seps, kids);
      SplitNodeShaped(t.(kids := t.kids[i := l]), seps, kids, b);
  }

  lemma SplitNodeShaped(before: Tree, seps: seq<bytes>, kids: seq<Tree>, a: Alloc)
    requires Shaped(before) && seps != [] && |kids| == |seps| + 1
    requires forall j :: 0 <= j < |kids| ==> Shaped(kids[j])
    ensures ShapedIns(SplitNode(before, seps, kids, a))
  {
    hide InnerSize, Pop, Shaped;
    var mid := |seps| / 2;
    ShapedNode(before.id, seps[..mid], kids[..mid + 1]);
    ShapedNode(Pop(a).0, seps[mid + 1..], kids[mid + 1..]);
  }

  lemma {:induction false} InsertShaped(t: Tree, k: bytes, v: bytes, a: Alloc)
    requires Shaped(t)
    ensures ShapedIns(Insert(t, k, v, a))
    decreases t
  {
    if t.Node? {
      var i := ChildIndex(t.seps, k);
      InsertShaped(t.kids[i], k, v, a);
      AdoptChildShaped(t, i, Insert(t.kids[i], k, v, a));
    }
  }

  lemma PutShaped(t: Tree, k: bytes, v: bytes, a: Alloc)
    requires Shaped(t)
    ensures Shaped(PutTree(t, k, v, a).t)
  {
    InsertShaped(t, k, v, a);
  }

  lemma {:induction false} DeleteShaped(t: Tree, k: bytes)
    requires Shaped(t)
    ensures Shaped(DeleteTree(t, k))
    decreases t
  {
    if t.Node? {
      var i := ChildIndex(t.seps, k);
      DeleteShaped(t.kids[i], k);
      ShapedNode(t.id, t.seps, t.kids[i := DeleteTree(t.kids[i], k)]);
    }
  }

  /** A key in the node's range is in the range of the child it is sent to. */
  lemma ChildRange(seps: seq<bytes>, k: bytes, lo: Bound, hi: Bound)
    requires AtLeast(k, lo) && Below(k, hi)
    ensures var i := ChildIndex(seps, k); AtLeast(k, LoOf(seps, i, lo)) && Below(k, HiOf(seps, i, hi))
  {
  }

  // ---------- putting a child back ----------

  lemma ReplaceKid(seps: seq<bytes>, kids: seq<Tree>, i: nat, c: Tree, lo: Bound, hi: Bound, end: End, ok: KidSpec)
    requires Body(seps, kids, lo, hi, end, ok) && i < |kids|
    requires ok(c, LoOf(seps, i, lo), HiOf(seps, i, hi), EndOf(kids, i, end))
    requires FirstLeaf(c) == FirstLeaf(kids[i])
    ensures Body(seps, kids[i := c], lo, hi, end, ok)
    ensures FirstLeaf(kids[i := c][0]) == FirstLeaf(kids[0])
  {
    var kids' := kids[i := c];
    forall j | 0 <= j < |kids'|
      ensures KidOk(seps, kids', j, lo, hi, end, ok)
    {
      assert KidOk(seps, kids, j, lo, hi, end, ok);
      assert EndOf(kids', j, end) == EndOf(kids, j, end);
    }
  }

  lemma SepsSpliced(seps: seq<bytes>, i: nat, s: bytes, lo: Bound, hi: Bound)
    requires i <= |seps| && SepOk(s, LoOf(seps, i, lo), HiOf(seps, i, hi))
    requires forall a, b :: 0 <= a < b < |seps| ==> Less(seps[a], seps[b])
    requires forall a :: 0 <= a < |seps| ==> SepOk(seps[a], lo, hi)
    ensures var seps' := InsertAt(seps, i, s);
            && (forall a, b :: 0 <= a < b < |seps'| ==> Less(seps'[a], seps'[b]))
            && (forall a :: 0 <= a < |seps'| ==> SepOk(seps'[a], lo, hi))
  {
    var seps' := InsertAt(seps, i, s);
    forall a | 0 <= a < |seps|
      ensures a < i ==> Less(seps[a], s)
      ensures a >= i ==> Less(s, seps[a])
    {
      if a < i - 1 {
        LessTransitive(seps[a], seps[i - 1], s);
      }
      if a > i {
        LessTransitive(s, seps[i], seps[a]);
      }
    }
    if lo.Some? && i > 0 {
      LessTransitive(lo.value, seps[i - 1], s);
    }
    if hi.Some? && i < |seps| {
      LessTransitive(s, seps[i], hi.value);
    }
  }

  lemma SpliceKids(seps: seq<bytes>, kids: seq<Tree>, i: nat, l: Tree, s: bytes, r: Tree,
                   lo: Bound, hi: Bound, end: End, ok: KidSpec)
    requires Body(seps, kids, lo, hi, end, ok) && i < |kids|
    requires SepOk(s, LoOf(seps, i, lo), HiOf(seps, i, hi))
    requires ok(l, LoOf(seps, i, lo), Some(s), LinkTo(end, FirstLeaf(r)))
    requires ok(r, Some(s), HiOf(seps, i, hi), EndOf(kids, i, end))
    requires FirstLeaf(l) == FirstLeaf(kids[i])
    ensures Body(InsertAt(seps, i, s), InsertAt(kids[i := l], i + 1, r), lo, hi, end, ok)
    ensures FirstLeaf(InsertAt(kids[i := l], i + 1, r)[0]) == FirstLeaf(kids[0])
  {
    var seps', kids' := InsertAt(seps, i, s), InsertAt(kids[i := l], i + 1, r);
    SepsSpliced(seps, i, s, lo, hi);
    forall j | 0 <= j < |kids'|
      ensures KidOk(seps', kids', j, lo, hi, end, ok)
    {
      SplicedKid(seps, kids, i, l, s, r, lo, hi, end, ok, j);
    }
  }

  lemma SplicedKid(seps: seq<bytes>, kids: seq<Tree>, i: nat, l: Tree, s: bytes, r: Tree,
                   lo: Bound, hi: Bound, end: End, ok: KidSpec, j: nat)
    requires Body(seps, kids, lo, hi, end, ok) && i < |kids|
    requires ok(l, LoOf(seps, i, lo), Some(s), LinkTo(end, FirstLeaf(r)))
    requires ok(r, Some(s), HiOf(seps, i, hi), EndOf(kids, i, end))
    requires FirstLeaf(l) == FirstLeaf(kids[i]) && j <= |kids|
    ensures KidOk(InsertAt(seps, i, s), InsertAt(kids[i := l], i + 1, r), j, lo, hi, end, ok)
  {
    hide FirstLeaf, Less, SepOk;
    var seps', kids' := InsertAt(seps, i, s), InsertAt(kids[i := l], i + 1, r);
    if j < i {
      assert KidOk(seps, kids, j, lo, hi, end, ok);
      assert EndOf(kids', j, end) == EndOf(kids, j, end);
    } else if j > i + 1 {
      assert KidOk(seps, kids, j - 1, lo, hi, end, ok);
      assert EndOf(kids', j, end) == EndOf(kids, j - 1, end);
      assert LoOf(seps', j, lo) == LoOf(seps, j - 1, lo) && HiOf(seps', j, hi) == HiOf(seps, j - 1, hi);
    } else if j == i {
      assert LoOf(seps', j, lo) == LoOf(seps, i, lo);
    } else {
      assert HiOf(seps', j, hi) == HiOf(seps, i, hi);
      assert EndOf(kids', j, end) == EndOf(kids, i, end);
    }
  }

  // ---------- splitting ----------

  lemma BodyLeft(seps: seq<bytes>, kids: seq<Tree>, mid: nat, lo: Bound, hi: Bound, end: End, ok: KidSpec)
    requires Body(seps, kids, lo, hi, end, ok) && mid < |seps|
    ensures Body(seps[..mid], kids[..mid + 1], lo, Some(seps[mid]), LinkTo(end, FirstLeaf(kids[mid + 1])), ok)
  {
    var ss, ks, cut := seps[..mid], kids[..mid + 1], LinkTo(end, FirstLeaf(kids[mid + 1]));
    forall j | 0 <= j < |ks|
      ensures KidOk(ss, ks, j, lo, Some(seps[mid]), cut, ok)
    {
      assert KidOk(seps, kids, j, lo, hi, end, ok);
      assert EndOf(ks, j, cut) == EndOf(kids, j, end);
      assert LoOf(ss, j, lo) == LoOf(seps, j, lo) && HiOf(ss, j, Some(seps[mid])) == HiOf(seps, j, hi);
    }
  }

  lemma BodyRight(seps: seq<bytes>, kids: seq<Tree>, mid: nat, lo: Bound, hi: Bound, end: End, ok: KidSpec)
    requires Body(seps, kids, lo, hi, end, ok) && mid < |seps|
    ensures Body(seps[mid + 1..], kids[mid + 1..], Some(seps[mid]), hi, end, ok)
  {
    var ss, ks := seps[mid + 1..], kids[mid + 1..];
    forall j | 0 <= j < |ks|
      ensures KidOk(ss, ks, j, Some(seps[mid]), hi, end, ok)
    {
      var o := mid + 1 + j;
      assert ks[j] == kids[o] && KidOk(seps, kids, o, lo, hi, end, ok);
      assert EndOf(ks, j, end) == EndOf(kids, o, end);
      assert LoOf(ss, j, Some(seps[mid])) == LoOf(seps, o, lo) && HiOf(ss, j, hi) == HiOf(seps, o, hi);
    }
  }

  lemma {:induction false} InnerSizeAtMost(seps: seq<bytes>, limit: nat)
    requires forall i :: 0 <= i < |seps| ==> |seps[i]| <= limit
    ensures InnerSize(seps) <= (6 + limit) * |seps|
    decreases seps
  {
    if seps != [] {
      InnerSizeAtMost(seps[1..], limit);
      assert (6 + limit) * |seps| == (6 + limit) + (6 + limit) * |seps[1..]|;
    }
  }

  lemma OverfullHasSixteen(seps: seq<bytes>)
    requires InnerSize(seps) > CELL_AREA_SIZE && forall i :: 0 <= i < |seps| ==> |seps[i]| <= 255
    ensures |seps| >= 16
  {
    InnerSizeAtMost(seps, 255);
  }

  /** What an insertion into t owes its caller. */
  ghost predicate InsOk(r: Ins, t: Tree, lo: Bound, hi: Bound, h: nat, end: End, minSeps: nat) {
    match r
    case Failed(t', _) =>
      t'.id == t.id && FirstLeaf(t') == FirstLeaf(t) && WF(t', lo, hi, h, None, minSeps)
    case Done(t', _) =>
      t'.id == t.id && FirstLeaf(t') == FirstLeaf(t) && WF(t', lo, hi, h, end, minSeps)
    case Split(l, s, r, _) =>
      && l.id == t.id && FirstLeaf(l) == FirstLeaf(t) && SepOk(s, lo, hi)
      && WF(l, lo, Some(s), h, LinkTo(end, FirstLeaf(r)), MIN_SEPS)
      && WF(r, Some(s), hi, h, end, MIN_SEPS)
  }

  /** Both halves of a node that is cut at separator mid. */
  lemma NodeHalves(seps: seq<bytes>, kids: seq<Tree>, mid: nat, lo: Bound, hi: Bound, h: nat, end: End,
                   id: u32, newId: u32)
    requires h >= 2 && Body(seps, kids, lo, hi, end, WFAt(h - 1)) && MIN_SEPS <= mid && mid + MIN_SEPS < |seps|
    ensures var left, right := Node(id, seps[..mid], kids[..mid + 1]), Node(newId, seps[mid + 1..], kids[mid + 1..]);
            && FirstLeaf(left) == FirstLeaf(kids[0]) && SepOk(seps[mid], lo, hi)
            && (InnerSize(left.seps) <= CELL_AREA_SIZE ==>
                  && WF(left, lo, Some(seps[mid]), h, LinkTo(end, FirstLeaf(right)), MIN_SEPS)
                  && WF(left, lo, hi, h, None, MIN_SEPS))
            && (InnerSize(right.seps) <= CELL_AREA_SIZE ==> WF(right, Some(seps[mid]), hi, h, end, MIN_SEPS))
  {
    hide Less, InnerSize;
    BodyLeft(seps, kids, mid, lo, hi, end, WFAt(h - 1));
    BodyRight(seps, kids, mid, lo, hi, end, WFAt(h - 1));
    var left := Node(id, seps[..mid], kids[..mid + 1]);
    if InnerSize(left.seps) <= CELL_AREA_SIZE {
      SepWithin(seps[mid], lo, hi);
      WFWeaken(left, lo, Some(seps[mid]), h, LinkTo(end, FirstLeaf(kids[mid + 1])), MIN_SEPS, hi, MIN_SEPS);
    }
  }

  lemma FewerSeps(t: Tree, lo: Bound, hi: Bound, h: nat, minSeps: nat)
    requires WF(t, lo, hi, h, None, MIN_SEPS) && minSeps <= MIN_SEPS
    ensures WF(t, lo, hi, h, None, minSeps)
  {
  }

  /** A node over its page has at least sixteen separators, so both halves keep seven. */
  lemma SplitNodeOk(t: Tree, before: Tree, seps: seq<bytes>, kids: seq<Tree>, a: Alloc,
                    lo: Bound, hi: Bound, h: nat, end: End, minSeps: nat)
    requires h >= 2 && Body(seps, kids, lo, hi, end, WFAt(h - 1)) && InnerSize(seps) > CELL_AREA_SIZE
    requires FirstLeaf(kids[0]) == FirstLeaf(t) && minSeps <= MIN_SEPS
    requires before.id == t.id && FirstLeaf(before) == FirstLeaf(t) && WF(before, lo, hi, h, None, minSeps)
    ensures InsOk(SplitNode(before, seps, kids, a), t, lo, hi, h, end, minSeps)
  {
    OverfullHasSixteen(seps);
    SplitNodeHalves(t, before, seps, kids, a, lo, hi, h, end, minSeps);
  }

  lemma SplitNodeHalves(t: Tree, before: Tree, seps: seq<bytes>, kids: seq<Tree>, a: Alloc,
                        lo: Bound, hi: Bound, h: nat, end: End, minSeps: nat)
    requires h >= 2 && Body(seps, kids, lo, hi, end, WFAt(h - 1)) && |seps| >= 16
    requires FirstLeaf(kids[0]) == FirstLeaf(t) && minSeps <= MIN_SEPS
    requires before.id == t.id && FirstLeaf(before) == FirstLeaf(t) && WF(before, lo, hi, h, None, minSeps)
    ensures InsOk(SplitNode(before, seps, kids, a), t, lo, hi, h, end, minSeps)
  {
    hide WF, Less, InnerSize, FirstLeaf, SepOk, Pop;
    var mid := |seps| / 2;
    NodeHalves(seps, kids, mid, lo, hi, h, end, before.id, Pop(a).0);
    var r := SplitNode(before, seps, kids, a);
    if r.Failed? && r.t != before {
      FewerSeps(r.t, lo, hi, h, minSeps);
    }
  }

  lemma UpsertEntriesIn(ents: seq<Entry>, k: bytes, v: bytes, lo: Bound, hi: Bound)
    requires EntriesIn(ents, lo, hi) && Legal(k, v) && AtLeast(k, lo) && Below(k, hi)
    ensures EntriesIn(Upsert(ents, k, v), lo, hi)
  {
  }

  lemma LowerEntries(ents: seq<Entry>, m: nat, lo: Bound, hi: Bound)
    requires Sorted(ents) && EntriesIn(ents, lo, hi) && m <= |ents|
    ensures Sorted(ents[..m]) && EntriesIn(ents[..m], lo, hi)
  {
  }

  /** Cutting sorted entries at m, the key found there lies strictly between the bounds. */
  lemma CutEntries(ents: seq<Entry>, m: nat, lo: Bound, hi: Bound)
    requires Sorted(ents) && EntriesIn(ents, lo, hi) && 0 < m < |ents|
    ensures var s := ents[m].key;
            && SepOk(s, lo, hi)
            && Sorted(ents[..m]) && EntriesIn(ents[..m], lo, Some(s))
            && Sorted(ents[m..]) && EntriesIn(ents[m..], Some(s), hi)
  {
    var s := ents[m].key;
    Trichotomy(s, s);
    forall i | m <= i < |ents|
      ensures !Less(ents[i].key, s)
    {
      Trichotomy(ents[i].key, s);
    }
    if lo.Some? {
      LeqLessTransitive(lo.value, ents[m - 1].key, s);
    }
  }

  /** A leaf is cut in the middle by count, the upper half the longer if they cannot be equal. */
  lemma LeafSplitsEvenly(t: Tree, ents: seq<Entry>, a: Alloc)
    requires t.Leaf? && ents != []
    ensures match SplitLeaf(t, ents, a)
            case Split(l, s, r, _) =>
              && l.Leaf? && r.Leaf? && l.ents + r.ents == ents && s == r.ents[0].key
              && 0 <= |r.ents| - |l.ents| <= 1
            case Failed(u, _) => u == t || (u.Leaf? && u.ents <= ents && 0 <= |ents| - 2 * |u.ents| <= 1)
            case Done(_, _) => false
  {
    hide LeafSize, Pop;
    var mid := |ents| / 2;
    assert ents == ents[..mid] + ents[mid..];
  }

  /** A node is cut around its middle separator, the lower half the longer if they cannot be equal. */
  lemma NodeSplitsEvenly(before: Tree, seps: seq<bytes>, kids: seq<Tree>, a: Alloc)
    requires seps != [] && |kids| == |seps| + 1
    ensures match SplitNode(before, seps, kids, a)
            case Split(l, s, r, _) =>
              && l.Node? && r.Node? && l.seps + [s] + r.seps == seps && l.kids + r.kids == kids
              && |l.kids| == |l.seps| + 1 && 0 <= |l.seps| - |r.seps| <= 1
            case Failed(u, _) =>
              u == before || (u.Node? && u.seps <= seps && u.kids <= kids && |u.kids| == |u.seps| + 1
                              && 0 <= |seps| - 2 * |u.seps| <= 1)
            case Done(_, _) => false
  {
    hide InnerSize, Pop;
    var mid := |seps| / 2;
    assert seps == seps[..mid] + [seps[mid]] + seps[mid + 1..];
    assert kids == kids[..mid + 1] + kids[mid + 1..];
  }

  lemma SplitLeafOk(t: Tree, ents: seq<Entry>, a: Alloc, lo: Bound, hi: Bound, end: End, minSeps: nat)
    requires t.Leaf? && WF(t, lo, hi, 1, end, minSeps)
    requires Sorted(ents) && EntriesIn(ents, lo, hi) && LeafSize(ents) > CELL_AREA_SIZE
    ensures InsOk(SplitLeaf(t, ents, a), t, lo, hi, 1, end, minSeps)
  {
    hide Less, EntriesIn, Sorted, SepOk, EntrySize;
    var mid := |ents| / 2;
    LowerEntries(ents, mid, lo, hi);
    if SplitLeaf(t, ents, a).Split? {
      CutEntries(ents, mid, lo, hi);
    }
  }

  lemma InsertLeafOk(t: Tree, k: bytes, v: bytes, a: Alloc, lo: Bound, hi: Bound, end: End, minSeps: nat)
    requires t.Leaf? && WF(t, lo, hi, 1, end, minSeps)
    requires Legal(k, v) && AtLeast(k, lo) && Below(k, hi)
    ensures InsOk(InsertLeaf(t, k, v, a), t, lo, hi, 1, end, minSeps)
  {
    UpsertSorted(t.ents, k, v);
    UpsertEntriesIn(t.ents, k, v, lo, hi);
    var ents := Upsert(t.ents, k, v);
    if LeafSize(ents) > CELL_AREA_SIZE && !Present(t.ents, k) {
      SplitLeafOk(t, ents, a, lo, hi, end, minSeps);
    }
  }

  lemma {:induction false} InsertOk(t: Tree, k: bytes, v: bytes, a: Alloc,
                                    lo: Bound, hi: Bound, h: nat, end: End, minSeps: nat)
    requires WF(t, lo, hi, h, end, minSeps) && Shaped(t)
    requires Legal(k, v) && AtLeast(k, lo) && Below(k, hi) && minSeps <= MIN_SEPS
    ensures InsOk(Insert(t, k, v, a), t, lo, hi, h, end, minSeps)
    decreases h
  {
    match t
    case Leaf(_, _, _) =>
      InsertLeafOk(t, k, v, a, lo, hi, end, minSeps);
    case Node(_, seps, kids) =>
      var i := ChildIndex(seps, k);
      ChildRange(seps, k, lo, hi);
      var r := Insert(kids[i], k, v, a);
      assert KidOk(seps, kids, i, lo, hi, end, WFAt(h - 1));
      InsertOk(kids[i], k, v, a, LoOf(seps, i, lo), HiOf(seps, i, hi), h - 1, EndOf(kids, i, end), MIN_SEPS);
      AdoptChildOk(t, i, r, lo, hi, h, end, minSeps);
  }

  /** A child that has given up the chain and perhaps some of its range. */
  lemma ShortenedKid(t: Tree, i: nat, c: Tree, lo: Bound, hi: Bound, h: nat, end: End, minSeps: nat)
    requires t.Node? && WF(t, lo, hi, h, end, minSeps) && i < |t.kids| && FirstLeaf(c) == FirstLeaf(t.kids[i])
    requires WF(c, LoOf(t.seps, i, lo), HiOf(t.seps, i, hi), h - 1, None, MIN_SEPS)
    ensures WF(t.(kids := t.kids[i := c]), lo, hi, h, None, minSeps)
    ensures FirstLeaf(t.(kids := t.kids[i := c])) == FirstLeaf(t)
  {
    hide Less, InnerSize;
    SameBound(hi);
    BodyWeaken(t.seps, t.kids, lo, hi, end, h - 1, hi);
    ReplaceKid(t.seps, t.kids, i, c, lo, hi, None, WFAt(h - 1));
  }

  lemma AdoptChildOk(t: Tree, i: nat, r: Ins, lo: Bound, hi: Bound, h: nat, end: End, minSeps: nat)
    requires t.Node? && WF(t, lo, hi, h, end, minSeps) && i < |t.kids| == |t.seps| + 1 && minSeps <= MIN_SEPS
    requires InsOk(r, t.kids[i], LoOf(t.seps, i, lo), HiOf(t.seps, i, hi), h - 1, EndOf(t.kids, i, end), MIN_SEPS)
    ensures InsOk(AdoptChild(t, i, r), t, lo, hi, h, end, minSeps)
  {
    hide Less, InnerSize;
    match r
    case Failed(c, _) =>
      ShortenedKid(t, i, c, lo, hi, h, end, minSeps);
    case Done(c, b) =>
      ReplaceKid(t.seps, t.kids, i, c, lo, hi, end, WFAt(h - 1));
    case Split(l, s, rt, b) =>
      SpliceKids(t.seps, t.kids, i, l, s, rt, lo, hi, end, WFAt(h - 1));
      var seps, kids := InsertAt(t.seps, i, s), InsertAt(t.kids[i := l], i + 1, rt);
      if InnerSize(seps) > CELL_AREA_SIZE {
        var top := HiOf(t.seps, i, hi);
        SepWithin(s, LoOf(t.seps, i, lo), top);
        WFWeaken(l, LoOf(t.seps, i, lo), Some(s), h - 1, LinkTo(EndOf(t.kids, i, end), FirstLeaf(rt)), MIN_SEPS,
                 top, MIN_SEPS);
        ShortenedKid(t, i, l, lo, hi, h, end, minSeps);
        SplitNodeOk(t, t.(kids := t.kids[i := l]), seps, kids, b, lo, hi, h, end, minSeps);
      }
  }

  lemma SepWithin(s: bytes, lo: Bound, hi: Bound)
    requires SepOk(s, lo, hi)
    ensures Within(Some(s), hi)
  {
    if hi.Some? {
      Trichotomy(s, hi.value);
    }
  }

  /** What searching, inserting and deleting rely on: all of the invariant but the leaf chain. */
  ghost predicate SearchTree(t: Tree, h: nat) {
    WF(t, None, None, h, None, 1)
  }

  /** The whole invariant: also a leaf chain in order that ends at 0. */
  ghost predicate WholeTree(t: Tree, h: nat) {
    WF(t, None, None, h, Some(0), 1)
  }

  lemma WholeIsSearch(t: Tree, h: nat)
    requires WholeTree(t, h)
    ensures SearchTree(t, h)
  {
    WFWeaken(t, None, None, h, Some(0), 1, None, 1);
  }

  lemma NewRootOk(id: u32, l: Tree, s: bytes, r: Tree, h: nat, end: End)
    requires SepOk(s, None, None) && h >= 1
    requires WF(l, None, Some(s), h, LinkTo(end, FirstLeaf(r)), MIN_SEPS) && WF(r, Some(s), None, h, end, MIN_SEPS)
    ensures InnerSize([s]) <= CELL_AREA_SIZE && WF(Node(id, [s], [l, r]), None, None, h + 1, end, 1)
  {
    assert InnerSize([s]) == 6 + |s| + InnerSize([]);
    forall j | 0 <= j < 2
      ensures KidOk([s], [l, r], j, None, None, end, WFAt(h))
    {
    }
  }

  lemma PutKeepsWF(t: Tree, h: nat, k: bytes, v: bytes, a: Alloc, end: End)
    requires WF(t, None, None, h, end, 1) && Shaped(t) && Legal(k, v)
    ensures var r := PutTree(t, k, v, a);
            && Shaped(r.t) && FirstLeaf(r.t) == FirstLeaf(t)
            && (r.Done? ==> WF(r.t, None, None, if Insert(t, k, v, a).Split? then h + 1 else h, end, 1))
            && (r.Failed? ==> SearchTree(r.t, h))
    ensures PutTree(t, k, v, a).Failed? <==> Insert(t, k, v, a).Failed?
  {
    hide Insert, Less, Shaped, Body;
    InsertOk(t, k, v, a, None, None, h, end, 1);
    PutShaped(t, k, v, a);
    if Insert(t, k, v, a).Split? {
      var Split(l, s, rt, b) := Insert(t, k, v, a);
      NewRootOk(Pop(b).0, l, s, rt, h, end);
    }
  }

  /**
   Whatever its outcome, Put leaves a search tree; a successful one keeps the
   leaf chain too. The tree grows by a level exactly when the root split.
   */
  lemma PutKeepsShape(t: Tree, h: nat, k: bytes, v: bytes, a: Alloc)
    requires SearchTree(t, h) && Shaped(t) && Legal(k, v)
    ensures var r := PutTree(t, k, v, a);
            var h' := if Insert(t, k, v, a).Split? then h + 1 else h;
            && Shaped(r.t) && SearchTree(r.t, h') && FirstLeaf(r.t) == FirstLeaf(t)
            && (r.Done? && WholeTree(t, h) ==> WholeTree(r.t, h'))
    ensures PutTree(t, k, v, a).Failed? <==> Insert(t, k, v, a).Failed?
  {
    hide Insert, WF, PutTree;
    PutKeepsWF(t, h, k, v, a, None);
    if WholeTree(t, h) {
      PutKeepsWF(t, h, k, v, a, Some(0));
    }
  }

  // ---------- deletion ----------

  lemma RemoveEntriesIn(ents: seq<Entry>, k: bytes, lo: Bound, hi: Bound)
    requires EntriesIn(ents, lo, hi)
    ensures EntriesIn(Remove(ents, k), lo, hi)
  {
  }

  lemma LeafRemoveSize(ents: seq<Entry>, k: bytes)
    ensures LeafSize(Remove(ents, k)) <= LeafSize(ents)
  {
    var p := FindKey(ents, k);
    if p < |ents| {
      assert ents == ents[..p] + [ents[p]] + ents[p + 1..];
      LeafSizeConcat(ents[..p] + [ents[p]], ents[p + 1..]);
      LeafSizeConcat(ents[..p], [ents[p]]);
      LeafSizeConcat(ents[..p], ents[p + 1..]);
    }
  }

  lemma {:induction false} DeleteKeepsShape(t: Tree, k: bytes, lo: Bound, hi: Bound, h: nat, end: End, minSeps: nat)
    requires WF(t, lo, hi, h, end, minSeps) && Shaped(t)
    ensures WF(DeleteTree(t, k), lo, hi, h, end, minSeps)
    ensures FirstLeaf(DeleteTree(t, k)) == FirstLeaf(t)
    decreases h
  {
    match t
    case Leaf(_, ents, _) =>
      RemoveSorted(ents, k);
      RemoveEntriesIn(ents, k, lo, hi);
      LeafRemoveSize(ents, k);
    case Node(_, seps, kids) =>
      var i := ChildIndex(seps, k);
      assert KidOk(seps, kids, i, lo, hi, end, WFAt(h - 1));
      DeleteKeepsShape(kids[i], k, LoOf(seps, i, lo), HiOf(seps, i, hi), h - 1, EndOf(kids, i, end), MIN_SEPS);
      ReplaceKid(seps, kids, i, DeleteTree(kids[i], k), lo, hi, end, WFAt(h - 1));
  }
}
