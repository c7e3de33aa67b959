/**
 The B+tree as a value: what the reachable pages say, and what Put and Delete
 turn it into. The page-level class in BPlusTrees refines these functions.
 */
module Trees {
  import opened Wrappers
  import opened ByteStrings
  import opened NodeFormat
  import opened SortedEntries
  import opened PageAllocation

  datatype Tree =
    | Leaf(id: u32, ents: seq<Entry>, next: u32)
    | Node(id: u32, seps: seq<bytes>, kids: seq<Tree>)

  function RootIds(kids: seq<Tree>): (ids: seq<u32>)
    ensures |ids| == |kids| && forall i :: 0 <= i < |kids| ==> ids[i] == kids[i].id
  {
    seq(|kids|, i requires 0 <= i < |kids| => kids[i].id)
  }

  /** What the page of t's root says. */
  function NodeOf(t: Tree): NodeVal {
    match t
    case Leaf(_, ents, next) => LeafVal(ents, next)
    case Node(_, seps, kids) => InnerVal(seps, RootIds(kids))
  }

  /** Internal nodes have one more child than separators. */
  predicate Shaped(t: Tree) {
    t.Node? ==> |t.kids| == |t.seps| + 1 && forall i :: 0 <= i < |t.kids| ==> Shaped(t.kids[i])
  }

  /** The child to descend into: the first whose upper separator is above k. */
  function ChildIndex(seps: seq<bytes>, k: bytes, i: nat := 0): (c: nat)
    requires i <= |seps|
    ensures i <= c <= |seps|
    ensures forall j :: i <= j < c ==> !Less(k, seps[j])
    ensures c < |seps| ==> Less(k, seps[c])
    decreases |seps| - i
  {
    if i < |seps| && !Less(k, seps[i]) then ChildIndex(seps, k, i + 1) else i
  }

  /** The one leaf that may hold k. */
  function LeafFor(t: Tree, k: bytes): (l: Tree)
    requires Shaped(t)
    ensures l.Leaf?
  {
    if t.Leaf? then t else LeafFor(t.kids[ChildIndex(t.seps, k)], k)
  }

  lemma OwnLeaf(t: Tree, k: bytes)
    requires t.Leaf?
    ensures LeafFor(t, k) == t
  {
  }

  function Get(t: Tree, k: bytes): Option<bytes>
    requires Shaped(t)
  {
    Lookup(LeafFor(t, k).ents, k)
  }

  // ---------- insertion ----------

  /**
   Failed: a page overflowed; t is what the subtree's pages say afterwards.
   Split: the subtree fell in two, right being on a new page.
   */
  datatype Ins =
    | Failed(t: Tree, a: Alloc)
    | Done(t: Tree, a: Alloc)
    | Split(left: Tree, sep: bytes, right: Tree, a: Alloc)

  function Insert(t: Tree, k: bytes, v: bytes, a: Alloc): Ins
    requires Shaped(t)
    decreases t
  {
    match t
    case Leaf(_, _, _) => InsertLeaf(t, k, v, a)
    case Node(_, seps, kids) =>
      var i := ChildIndex(seps, k);
      AdoptChild(t, i, Insert(kids[i], k, v, a))
  }

  predicate Present(ents: seq<Entry>, k: bytes) {
    var p := Position(ents, k);
    p < |ents| && ents[p].key == k
  }

  function InsertLeaf(t: Tree, k: bytes, v: bytes, a: Alloc): Ins
    requires t.Leaf?
  {
    var ents := Upsert(t.ents, k, v);
    if LeafSize(ents) <= CELL_AREA_SIZE then Done(t.(ents := ents), a)
    else if Present(t.ents, k) then Failed(t, a)
    else SplitLeaf(t, ents, a)
  }

  /** Halves by entry count, not by size; the shortened left page is written first. */
  function SplitLeaf(t: Tree, ents: seq<Entry>, a: Alloc): Ins
    requires t.Leaf? && ents != []
  {
    var mid := |ents| / 2;
    var (newId, b) := Pop(a);
    var left := Leaf(t.id, ents[..mid], newId);
    var right := Leaf(newId, ents[mid..], t.next);
    if LeafSize(left.ents) > CELL_AREA_SIZE then Failed(t, b)
    else if LeafSize(right.ents) > CELL_AREA_SIZE then Failed(left, b)
    else Split(left, right.ents[0].key, right, b)
  }

  function AdoptChild(t: Tree, i: nat, r: Ins): Ins
    requires t.Node? && |t.kids| == |t.seps| + 1 && i < |t.kids|
  {
    match r
    case Failed(c, b) => Failed(t.(kids := t.kids[i := c]), b)
    case Done(c, b) => Done(t.(kids := t.kids[i := c]), b)
    case Split(left, sep, right, b) =>
      var seps := InsertAt(t.seps, i, sep);
      var kids := InsertAt(t.kids[i := left], i + 1, right);
      if InnerSize(seps) <= CELL_AREA_SIZE then Done(Node(t.id, seps, kids), b)
      else SplitNode(t.(kids := t.kids[i := left]), seps, kids, b)
  }

  /** The middle separator moves up; before is what the page says while nothing has been written. */
  function SplitNode(before: Tree, seps: seq<bytes>, kids: seq<Tree>, a: Alloc): Ins
    requires seps != [] && |kids| == |seps| + 1
  {
    var mid := |seps| / 2;
    var (newId, b) := Pop(a);
    var left := Node(before.id, seps[..mid], kids[..mid + 1]);
    var right := Node(newId, seps[mid + 1..], kids[mid + 1..]);
    if InnerSize(left.seps) > CELL_AREA_SIZE then Failed(before, b)
    else if InnerSize(right.seps) > CELL_AREA_SIZE then Failed(left, b)
    else Split(left, seps[mid], right, b)
  }

  /** Put: a split root gets a new root above it. */
  function PutTree(t: Tree, k: bytes, v: bytes, a: Alloc): (r: Ins)
    requires Shaped(t)
    ensures !r.Split?
  {
    match Insert(t, k, v, a)
    case Failed(t', b) => Failed(t', b)
    case Done(t', b) => Done(t', b)
    case Split(left, sep, right, b) =>
      var (newId, c) := Pop(b);
      if InnerSize([sep]) > CELL_AREA_SIZE then Failed(left, c)
      else Done(Node(newId, [sep], [left, right]), c)
  }

  /** Delete only ever shortens one leaf. */
  function DeleteTree(t: Tree, k: bytes): (r: Tree)
    requires Shaped(t)
    ensures r.id == t.id
    decreases t
  {
    match t
    case Leaf(_, ents, _) => t.(ents := Remove(ents, k))
    case Node(_, seps, kids) =>
      var i := ChildIndex(seps, k);
      t.(kids := kids[i := DeleteTree(kids[i], k)])
  }

  // ---------- contents ----------

  /** All entries from left to right. */
  function Entries(t: Tree): seq<Entry>
    decreases t, 0
  {
    match t
    case Leaf(_, ents, _) => ents
    case Node(_, _, kids) => Flat(kids)
  }

  function Flat(kids: seq<Tree>): seq<Entry>
    decreases kids, 0
  {
    if kids == [] then [] else Entries(kids[0]) + Flat(kids[1..])
  }

  lemma {:induction false} FlatConcat(a: seq<Tree>, b: seq<Tree>)
    ensures Flat(a + b) == Flat(a) + Flat(b)
    decreases a
  {
    if a == [] {
      assert a + b == b;
    } else {
      assert (a + b)[1..] == a[1..] + b;
      FlatConcat(a[1..], b);
    }
  }

  lemma FlatCons(kids: seq<Tree>, t: Tree, rest: seq<Tree>)
    requires kids == [t] + rest
    ensures Flat(kids) == Entries(t) + Flat(rest)
  {
    assert kids[1..] == rest;
  }

  lemma Associate(a: seq<Entry>, b: seq<Entry>, c: seq<Entry>)
    ensures a + (b + c) == a + b + c
  {
  }

  /** The entries of one child in their place among the others. */
  lemma FlatAround(kids: seq<Tree>, i: nat)
    requires i < |kids|
    ensures Flat(kids) == Flat(kids[..i]) + Entries(kids[i]) + Flat(kids[i + 1..])
  {
    hide Flat, Entries;
    assert kids == kids[..i] + kids[i..];
    FlatConcat(kids[..i], kids[i..]);
    FlatCons(kids[i..], kids[i], kids[i + 1..]);
    Associate(Flat(kids[..i]), Entries(kids[i]), Flat(kids[i + 1..]));
  }

  lemma {:induction false} FlatMember(kids: seq<Tree>, e: Entry)
    requires e in Flat(kids)
    ensures exists j :: 0 <= j < |kids| && e in Entries(kids[j])
    decreases kids
  {
    if e !in Entries(kids[0]) {
      FlatMember(kids[1..], e);
      var j :| 0 <= j < |kids[1..]| && e in Entries(kids[1..][j]);
      assert kids[j + 1] == kids[1..][j];
    }
  }

  /** Where the pieces are after child i became l followed by r. */
  lemma SplicedSlices(kids: seq<Tree>, i: nat, l: Tree, r: Tree)
    requires i < |kids|
    ensures var ks := InsertAt(kids[i := l], i + 1, r);
            && |ks| == |kids| + 1
            && ks[..i] == kids[..i] && ks[i] == l && ks[i + 1..] == [r] + kids[i + 1..]
  {
    assert kids[i := l][i + 1..] == kids[i + 1..];
    assert kids[i := l][..i + 1] == kids[..i] + [l];
  }

  // ---------- pages ----------

  /** How often each page number occurs in the tree. */
  function Ids(t: Tree): multiset<u32>
    decreases t, 0
  {
    match t
    case Leaf(id, _, _) => multiset{id}
    case Node(id, _, kids) => multiset{id} + KidIds(kids)
  }

  function KidIds(kids: seq<Tree>): multiset<u32>
    decreases kids, 0
  {
    if kids == [] then multiset{} else Ids(kids[0]) + KidIds(kids[1..])
  }

  lemma {:induction false} KidIdsConcat(a: seq<Tree>, b: seq<Tree>)
    ensures KidIds(a + b) == KidIds(a) + KidIds(b)
    decreases a
  {
    if a == [] {
      assert a + b == b;
    } else {
      assert (a + b)[1..] == a[1..] + b;
      KidIdsConcat(a[1..], b);
    }
  }

  lemma KidIdsCons(kids: seq<Tree>, t: Tree, rest: seq<Tree>)
    requires kids == [t] + rest
    ensures KidIds(kids) == Ids(t) + KidIds(rest)
  {
    assert kids[1..] == rest;
  }

  lemma KidIdsAround(kids: seq<Tree>, i: nat)
    requires i < |kids|
    ensures KidIds(kids) == KidIds(kids[..i]) + Ids(kids[i]) + KidIds(kids[i + 1..])
  {
    hide KidIds, Ids;
    assert kids == kids[..i] + kids[i..];
    KidIdsConcat(kids[..i], kids[i..]);
    KidIdsCons(kids[i..], kids[i], kids[i + 1..]);
  }

  lemma PairIds(l: Tree, r: Tree)
    ensures KidIds([l, r]) == Ids(l) + Ids(r)
  {
    KidIdsCons([l, r], l, [r]);
    KidIdsCons([r], r, []);
  }

  /** The leftmost leaf's page. */
  function FirstLeaf(t: Tree): u32 {
    match t
    case Leaf(id, _, _) => id
    case Node(_, _, kids) => if kids == [] then 0 else FirstLeaf(kids[0])
  }

  /** The leaves from left to right. */
  function Leaves(t: Tree): seq<Tree>
    decreases t, 0
  {
    match t
    case Leaf(_, _, _) => [t]
    case Node(_, _, kids) => FlatLeaves(kids)
  }

  function FlatLeaves(kids: seq<Tree>): seq<Tree>
    decreases kids, 0
  {
    if kids == [] then [] else Leaves(kids[0]) + FlatLeaves(kids[1..])
  }
}
