/** The leaf chain against the tree: what every operation makes of it, and how much of it is still the tree's. */
module Chains {
  import opened Wrappers
  import opened ByteStrings
  import opened NodeFormat
  import opened SortedEntries
  import opened PageAllocation
  import opened Trees
  import opened TreeShape
  import opened TreeContents
  import opened TreePages
  import opened TreeFailure
  import opened LeafWalks

  // ---------- the leaves of a tree as cells ----------

  function TreeCells(t: Tree): seq<Cell>
    decreases t, 0
  {
    match t
    case Leaf(id, ents, _) => [Cell(id, ents)]
    case Node(_, _, kids) => FlatCells(kids)
  }

  function FlatCells(kids: seq<Tree>): seq<Cell>
    decreases kids, 0
  {
    if kids == [] then [] else TreeCells(kids[0]) + FlatCells(kids[1..])
  }

  lemma {:induction false} FlatCellsConcat(a: seq<Tree>, b: seq<Tree>)
    ensures FlatCells(a + b) == FlatCells(a) + FlatCells(b)
    decreases a
  {
    if a == [] {
      assert a + b == b;
    } else {
      assert (a + b)[1..] == a[1..] + b;
      FlatCellsConcat(a[1..], b);
    }
  }

  lemma FlatCellsCons(kids: seq<Tree>, t: Tree, rest: seq<Tree>)
    requires kids == [t] + rest
    ensures FlatCells(kids) == TreeCells(t) + FlatCells(rest)
  {
    assert kids[1..] == rest;
  }

  lemma FlatCellsAround(kids: seq<Tree>, i: nat)
    requires i < |kids|
    ensures FlatCells(kids) == FlatCells(kids[..i]) + TreeCells(kids[i]) + FlatCells(kids[i + 1..])
  {
    hide FlatCells, TreeCells;
    assert kids == kids[..i] + kids[i..];
    FlatCellsConcat(kids[..i], kids[i..]);
    FlatCellsCons(kids[i..], kids[i], kids[i + 1..]);
  }

  lemma ReplacedCells(kids: seq<Tree>, i: nat, c: Tree)
    requires i < |kids|
    ensures FlatCells(kids[i := c]) == FlatCells(kids[..i]) + TreeCells(c) + FlatCells(kids[i + 1..])
  {
    FlatCellsAround(kids[i := c], i);
    assert kids[i := c][..i] == kids[..i] && kids[i := c][i + 1..] == kids[i + 1..];
  }

  lemma SplicedCells(kids: seq<Tree>, i: nat, l: Tree, r: Tree)
    requires i < |kids|
    ensures FlatCells(InsertAt(kids[i := l], i + 1, r))
            == FlatCells(kids[..i]) + (TreeCells(l) + TreeCells(r)) + FlatCells(kids[i + 1..])
  {
    hide FlatCells, TreeCells;
    var ks := InsertAt(kids[i := l], i + 1, r);
    SplicedSlices(kids, i, l, r);
    FlatCellsAround(ks, i);
    FlatCellsCons(ks[i + 1..], r, kids[i + 1..]);
  }

  lemma PairCells(id: u32, s: bytes, l: Tree, r: Tree)
    ensures TreeCells(Node(id, [s], [l, r])) == TreeCells(l) + TreeCells(r)
  {
    FlatCellsCons([l, r], l, [r]);
    FlatCellsCons([r], r, []);
  }

  lemma {:induction false} CellsAreLeaves(t: Tree)
    ensures |TreeCells(t)| == |Leaves(t)|
    ensures forall i :: 0 <= i < |Leaves(t)| ==> IsCell(Leaves(t)[i], TreeCells(t)[i])
    decreases t, 0
  {
    if t.Node? {
      FlatCellsAreLeaves(t.kids);
    }
  }

  predicate IsCell(l: Tree, c: Cell) {
    l.Leaf? && c == Cell(l.id, l.ents)
  }

  lemma {:induction false} FlatCellsAreLeaves(kids: seq<Tree>)
    ensures |FlatCells(kids)| == |FlatLeaves(kids)|
    ensures forall i :: 0 <= i < |FlatLeaves(kids)| ==> IsCell(FlatLeaves(kids)[i], FlatCells(kids)[i])
    decreases kids, 0
  {
    if kids != [] {
      CellsAreLeaves(kids[0]);
      FlatCellsAreLeaves(kids[1..]);
    }
  }

  lemma {:induction false} CellsHoldEntries(t: Tree)
    ensures EntriesAlong(TreeCells(t)) == Entries(t)
    decreases t, 0
  {
    match t
    case Leaf(id, ents, _) =>
      assert EntriesAlong([Cell(id, ents)]) == ents + EntriesAlong([]);
    case Node(_, _, kids) =>
      FlatCellsHoldEntries(kids);
  }

  lemma {:induction false} FlatCellsHoldEntries(kids: seq<Tree>)
    ensures EntriesAlong(FlatCells(kids)) == Flat(kids)
    decreases kids, 0
  {
    if kids != [] {
      CellsHoldEntries(kids[0]);
      FlatCellsHoldEntries(kids[1..]);
      EntriesAlongConcat(TreeCells(kids[0]), FlatCells(kids[1..]));
    }
  }

  /** Leaves are on pages of the tree, each on its own. */
  lemma {:induction false} CellsWithin(t: Tree)
    ensures CellIds(TreeCells(t)) <= Ids(t)
    decreases t, 0
  {
    match t
    case Leaf(id, ents, _) =>
      assert CellIds([Cell(id, ents)]) == multiset{id} + CellIds([]);
    case Node(_, _, kids) =>
      FlatCellsWithin(kids);
  }

  lemma {:induction false} FlatCellsWithin(kids: seq<Tree>)
    ensures CellIds(FlatCells(kids)) <= KidIds(kids)
    decreases kids, 0
  {
    if kids != [] {
      CellsWithin(kids[0]);
      FlatCellsWithin(kids[1..]);
      CellIdsConcat(TreeCells(kids[0]), FlatCells(kids[1..]));
    }
  }

  // ---------- what one leaf goes through ----------

  /** What a Put makes of the leaf it comes to, by the sizes of leaf and halves. */
  function LeafChange(ents: seq<Entry>, k: bytes, v: bytes, newId: u32): Change {
    var all := Upsert(ents, k, v);
    var mid := |all| / 2;
    if LeafSize(all) <= CELL_AREA_SIZE then Now(all)
    else if Present(ents, k) || LeafSize(all[..mid]) > CELL_AREA_SIZE then Keep
    else if LeafSize(all[mid..]) > CELL_AREA_SIZE then Cut(all[..mid], newId)
    else Halves(all[..mid], newId, all[mid..])
  }

  /** The change of a leaf that must split, by which of its halves fit. */
  lemma SplitChange(ents: seq<Entry>, k: bytes, v: bytes, newId: u32, first: bool, second: bool)
    requires !Present(ents, k) && LeafSize(Upsert(ents, k, v)) > CELL_AREA_SIZE
    requires var all := Upsert(ents, k, v);
             && (first <==> LeafSize(all[..|all| / 2]) <= CELL_AREA_SIZE)
             && (second <==> first && LeafSize(all[|all| / 2..]) <= CELL_AREA_SIZE)
    ensures var all := Upsert(ents, k, v);
            var lower, upper := all[..|all| / 2], all[|all| / 2..];
            LeafChange(ents, k, v, newId)
            == if second then Halves(lower, newId, upper) else if first then Cut(lower, newId) else Keep
  {
  }

  /** Put as the chain sees it: one leaf changes, in its place. */
  function AfterPut(c: Chain, t: Tree, k: bytes, v: bytes, a: Alloc): Chain
    requires Shaped(t)
  {
    var l := LeafFor(t, k);
    ChangedChain(c, l.id, LeafChange(l.ents, k, v, Pop(a).0))
  }

  function AfterDelete(c: Chain, t: Tree, k: bytes): Chain
    requires Shaped(t)
  {
    var l := LeafFor(t, k);
    ChangedChain(c, l.id, Now(Remove(l.ents, k)))
  }

  /** The leaves of t, the one for k changed in its place. */
  function CellsWith(t: Tree, k: bytes, ch: Change): seq<Cell>
    requires Shaped(t)
    decreases t
  {
    match t
    case Leaf(id, ents, _) => Changed([Cell(id, ents)], id, ch)
    case Node(_, seps, kids) =>
      var i := ChildIndex(seps, k);
      FlatCells(kids[..i]) + CellsWith(kids[i], k, ch) + FlatCells(kids[i + 1..])
  }

  /** rest is cs without a stretch in between. */
  ghost predicate Lacks(cs: seq<Cell>, rest: seq<Cell>) {
    exists a, x, b :: Without(cs, rest, a, x, b)
  }

  ghost predicate Without(cs: seq<Cell>, rest: seq<Cell>, a: seq<Cell>, x: seq<Cell>, b: seq<Cell>) {
    cs == a + x + b && rest == a + b
  }

  lemma LacksWithin(a: seq<Cell>, cs: seq<Cell>, rest: seq<Cell>, b: seq<Cell>)
    requires Lacks(cs, rest)
    ensures Lacks(a + cs + b, a + rest + b)
  {
    var p, x, q :| Without(cs, rest, p, x, q);
    assert a + cs + b == (a + p) + x + (q + b);
    assert a + rest + b == (a + p) + (q + b);
    assert Without(a + cs + b, a + rest + b, a + p, x, q + b);
  }

  /** Insertion puts the changed leaves into the tree; where a node breaks, a stretch of them is left out. */
  ghost predicate InsCells(r: Ins, cs: seq<Cell>, halves: bool) {
    match r
    case Failed(t, _) => if halves then Lacks(cs, TreeCells(t)) else TreeCells(t) == cs
    case Done(t, _) => TreeCells(t) == cs
    case Split(l, _, rt, _) => halves && TreeCells(l) + TreeCells(rt) == cs
  }

  lemma SplitNodeCells(before: Tree, seps: seq<bytes>, kids: seq<Tree>, a: Alloc)
    requires before.Node? && seps != [] && |kids| == |seps| + 1
    requires Lacks(FlatCells(kids), TreeCells(before))
    ensures InsCells(SplitNode(before, seps, kids, a), FlatCells(kids), true)
  {
    hide InnerSize, Pop;
    var mid := |seps| / 2;
    assert kids == kids[..mid + 1] + kids[mid + 1..];
    FlatCellsConcat(kids[..mid + 1], kids[mid + 1..]);
    var left, right := FlatCells(kids[..mid + 1]), FlatCells(kids[mid + 1..]);
    assert left + right == left + right + [] && left == left + [];
    assert Without(FlatCells(kids), left, left, right, []);
  }

  lemma AdoptChildCells(t: Tree, i: nat, r: Ins, cs: seq<Cell>, halves: bool)
    requires t.Node? && |t.kids| == |t.seps| + 1 && i < |t.kids|
    requires InsCells(r, cs, halves)
    ensures InsCells(AdoptChild(t, i, r), FlatCells(t.kids[..i]) + cs + FlatCells(t.kids[i + 1..]), halves)
  {
    hide FlatCells, Lacks, SplitNode, InnerSize;
    var a, b := FlatCells(t.kids[..i]), FlatCells(t.kids[i + 1..]);
    match r
    case Failed(c, _) =>
      ReplacedCells(t.kids, i, c);
      if halves {
        LacksWithin(a, cs, TreeCells(c), b);
      }
    case Done(c, _) =>
      ReplacedCells(t.kids, i, c);
    case Split(l, s, rt, n) =>
      SplicedCells(t.kids, i, l, rt);
      var seps, kids := InsertAt(t.seps, i, s), InsertAt(t.kids[i := l], i + 1, rt);
      if InnerSize(seps) > CELL_AREA_SIZE {
        ReplacedCells(t.kids, i, l);
        LeftHalfLacks(TreeCells(l), TreeCells(rt));
        LacksWithin(a, cs, TreeCells(l), b);
        SplitNodeCells(t.(kids := t.kids[i := l]), seps, kids, n);
      }
  }

  lemma LeftHalfLacks(l: seq<Cell>, r: seq<Cell>)
    ensures Lacks(l + r, l)
  {
    assert l + r == l + r + [] && l == l + [];
    assert Without(l + r, l, l, r, []);
  }

  lemma InsertLeafCells(t: Tree, k: bytes, v: bytes, a: Alloc)
    requires t.Leaf?
    ensures var ch := LeafChange(t.ents, k, v, Pop(a).0);
            InsCells(InsertLeaf(t, k, v, a), Changed([Cell(t.id, t.ents)], t.id, ch), ch.Halves?)
    ensures InsertLeaf(t, k, v, a).Failed? <==> LeafChange(t.ents, k, v, Pop(a).0).Keep?
                                                || LeafChange(t.ents, k, v, Pop(a).0).Cut?
  {
    hide Upsert, LeafSize, Present, Pop;
    UpsertIsNotEmpty(t.ents, k, v);
    ChangedOne(Cell(t.id, t.ents), t.id, LeafChange(t.ents, k, v, Pop(a).0));
  }

  lemma {:induction false} InsertCells(t: Tree, k: bytes, v: bytes, a: Alloc)
    requires Shaped(t)
    ensures var ch := LeafChange(LeafFor(t, k).ents, k, v, Pop(a).0);
            InsCells(Insert(t, k, v, a), CellsWith(t, k, ch), ch.Halves?)
    decreases t
  {
    hide AdoptChild, InsCells, Changed, LeafChange;
    if t.Leaf? {
      InsertLeafCells(t, k, v, a);
    } else {
      var i := ChildIndex(t.seps, k);
      SameLeaf(t, k);
      var ch := LeafChange(LeafFor(t, k).ents, k, v, Pop(a).0);
      InsertCells(t.kids[i], k, v, a);
      AdoptChildCells(t, i, Insert(t.kids[i], k, v, a), CellsWith(t.kids[i], k, ch), ch.Halves?);
    }
  }

  lemma PutCells(t: Tree, h: nat, k: bytes, v: bytes, a: Alloc)
    requires SearchTree(t, h) && Shaped(t) && Legal(k, v)
    ensures var ch := LeafChange(LeafFor(t, k).ents, k, v, Pop(a).0);
            var t' := PutTree(t, k, v, a).t;
            if PutTree(t, k, v, a).Failed? && ch.Halves? then Lacks(CellsWith(t, k, ch), TreeCells(t'))
            else TreeCells(t') == CellsWith(t, k, ch)
  {
    hide Insert, LeafChange, Lacks, TreeCells, WF;
    InsertCells(t, k, v, a);
    PutKeepsShape(t, h, k, v, a);
    if Insert(t, k, v, a).Split? {
      var Split(l, s, rt, b) := Insert(t, k, v, a);
      PairCells(Pop(b).0, s, l, rt);
    }
  }

  lemma {:induction false} DeleteCells(t: Tree, k: bytes)
    requires Shaped(t)
    ensures TreeCells(DeleteTree(t, k)) == CellsWith(t, k, Now(Remove(LeafFor(t, k).ents, k)))
    decreases t
  {
    match t
    case Leaf(id, ents, _) =>
      ChangedOne(Cell(id, ents), id, Now(Remove(ents, k)));
    case Node(_, seps, kids) =>
      var i := ChildIndex(seps, k);
      DeleteCells(kids[i], k);
      ReplacedCells(kids, i, DeleteTree(kids[i], k));
  }

  // ---------- finding the leaf by its page ----------

  lemma {:induction false} LeafOnCells(t: Tree, k: bytes)
    requires Shaped(t)
    ensures LeafFor(t, k).id in CellIds(TreeCells(t))
    decreases t
  {
    match t
    case Leaf(id, ents, _) =>
      assert CellIds([Cell(id, ents)]) == multiset{id} + CellIds([]);
    case Node(_, seps, kids) =>
      var i := ChildIndex(seps, k);
      LeafOnCells(kids[i], k);
      FlatCellsAround(kids, i);
      CellIdsConcat(FlatCells(kids[..i]) + TreeCells(kids[i]), FlatCells(kids[i + 1..]));
      CellIdsConcat(FlatCells(kids[..i]), TreeCells(kids[i]));
  }

  ghost predicate NoneTwice(ids: multiset<u32>) {
    forall p: u32 :: ids[p] <= 1
  }

  /** With distinct pages the page number finds the leaf. */
  lemma {:induction false} ChangedIsWith(t: Tree, k: bytes, ch: Change)
    requires Shaped(t) && !ch.Cut? && NoneTwice(Ids(t))
    ensures Changed(TreeCells(t), LeafFor(t, k).id, ch) == CellsWith(t, k, ch)
    decreases t
  {
    if t.Node? {
      var seps, kids, i, id := t.seps, t.kids, ChildIndex(t.seps, k), LeafFor(t, k).id;
      SameLeaf(t, k);
      KidDistinct(t, i, id, k);
      ChangedIsWith(kids[i], k, ch);
      var a, b := FlatCells(kids[..i]), FlatCells(kids[i + 1..]);
      FlatCellsAround(kids, i);
      ChangedConcat(a + TreeCells(kids[i]), b, id, ch);
      ChangedConcat(a, TreeCells(kids[i]), id, ch);
      ChangedElsewhere(a, id, ch);
      ChangedElsewhere(b, id, ch);
    }
  }

  lemma KidDistinct(t: Tree, i: nat, id: u32, k: bytes)
    requires t.Node? && Shaped(t) && i == ChildIndex(t.seps, k) && id == LeafFor(t.kids[i], k).id
    requires NoneTwice(Ids(t))
    ensures NoneTwice(Ids(t.kids[i]))
    ensures id !in CellIds(FlatCells(t.kids[..i])) && id !in CellIds(FlatCells(t.kids[i + 1..]))
  {
    hide Ids, KidIds;
    var kids := t.kids;
    KidIdsAround(kids, i);
    FlatCellsWithin(kids[..i]);
    FlatCellsWithin(kids[i + 1..]);
    CellsWithin(kids[i]);
    LeafOnCells(kids[i], k);
    forall p: u32
      ensures Ids(kids[i])[p] + KidIds(kids[..i])[p] + KidIds(kids[i + 1..])[p] <= 1
    {
      NodeIdsAt(t, p);
    }
    assert Ids(kids[i])[id] >= 1;
  }

  // ---------- the tree's part of the chain ----------

  /** While the chain ends behind a last leaf it has all leaves of the tree, in order. */
  ghost predicate ShowsTree(c: Chain, t: Tree) {
    c.end == 0 ==> Among(c.cells, CellIds(TreeCells(t))) == TreeCells(t)
  }

  ghost predicate ChainInUse(c: Chain, a: Alloc) {
    forall p :: p in CellIds(c.cells) ==> InUse(a, p)
  }

  /** Nothing but the tree's leaves is on the chain. */
  ghost predicate Whole(c: Chain, t: Tree) {
    c == Chain(TreeCells(t), 0)
  }

  lemma WholeShows(c: Chain, t: Tree)
    requires Whole(c, t)
    ensures ShowsTree(c, t) && Astray(c.cells, CellIds(TreeCells(t))) == []
  {
    AmongOwn(TreeCells(t), CellIds(TreeCells(t)));
  }

  lemma {:induction false} AmongMembers(cs: seq<Cell>, ids: multiset<u32>, id: u32)
    requires id in CellIds(Among(cs, ids))
    ensures id in CellIds(cs) && id in ids
    decreases cs
  {
    var head := if cs[0].id in ids then [cs[0]] else [];
    CellIdsConcat(head, Among(cs[1..], ids));
    OneId(cs[0]);
    if id in CellIds(Among(cs[1..], ids)) {
      AmongMembers(cs[1..], ids, id);
    }
  }

  lemma OneId(c: Cell)
    ensures CellIds([c]) == multiset{c.id}
  {
    assert [c][1..] == [];
  }

  lemma ChangedOneIds(c: Cell, id: u32, ch: Change)
    requires !ch.Cut?
    ensures CellIds(Changed([c], id, ch))
            == multiset{c.id} + if c.id == id && ch.Halves? then multiset{ch.newId} else multiset{}
  {
    ChangedOne(c, id, ch);
    if c.id == id && ch.Halves? {
      var lower, upper := Cell(id, ch.lower), Cell(ch.newId, ch.upper);
      assert [lower, upper] == [lower] + [upper];
      CellIdsConcat([lower], [upper]);
      OneId(lower);
      OneId(upper);
    } else {
      OneId(if c.id == id && ch.Now? then Cell(id, ch.ents) else c);
    }
  }

  lemma TailIds(cs: seq<Cell>)
    requires cs != [] && NoneTwice(CellIds(cs))
    ensures CellIds(cs) == multiset{cs[0].id} + CellIds(cs[1..])
    ensures NoneTwice(CellIds(cs[1..])) && cs[0].id !in CellIds(cs[1..])
  {
    forall p: u32
      ensures CellIds(cs[1..])[p] + (if p == cs[0].id then 1 else 0) <= 1
    {
      assert CellIds(cs)[p] <= 1;
    }
    assert CellIds(cs[1..])[cs[0].id] == 0;
  }

  /** A split puts the new page on the chain once; nothing else changes pages. */
  lemma {:induction false} ChangedIds(cs: seq<Cell>, id: u32, ch: Change)
    requires !ch.Cut? && NoneTwice(CellIds(cs))
    ensures CellIds(Changed(cs, id, ch))
            == CellIds(cs) + if id in CellIds(cs) && ch.Halves? then multiset{ch.newId} else multiset{}
    decreases cs
  {
    hide Changed, CellIds, NoneTwice;
    if cs == [] {
      NoIds();
      ChangedElsewhere(cs, id, ch);
    } else {
      var head, tail := [cs[0]], cs[1..];
      assert cs == head + tail;
      TailIds(cs);
      ChangedConcat(head, tail, id, ch);
      CellIdsConcat(Changed(head, id, ch), Changed(tail, id, ch));
      ChangedOneIds(cs[0], id, ch);
      if cs[0].id == id {
        ChangedElsewhere(tail, id, ch);
      } else {
        ChangedIds(tail, id, ch);
      }
    }
  }

  lemma NoIds()
    ensures CellIds([]) == multiset{}
  {
  }

  /** What is left of the leaves after a stretch went missing is what the pages that are left pick out. */
  lemma LacksAmong(cs: seq<Cell>, rest: seq<Cell>)
    requires Lacks(cs, rest) && NoneTwice(CellIds(cs))
    ensures Among(cs, CellIds(rest)) == rest
    ensures forall p :: p in CellIds(rest) ==> p in CellIds(cs)
  {
    hide CellIds, Among;
    var a, x, b :| Without(cs, rest, a, x, b);
    var ids := CellIds(rest);
    CellIdsConcat(a, b);
    CellIdsConcat(a + x, b);
    CellIdsConcat(a, x);
    AmongConcat(a + x, b, ids);
    AmongConcat(a, x, ids);
    AmongOwn(a, ids);
    AmongOwn(b, ids);
    forall p | p in CellIds(x)
      ensures p !in ids
    {
      assert CellIds(cs)[p] <= 1;
    }
    AmongNone(x, ids);
  }

  lemma OwnedCells(t: Tree, a: Alloc)
    requires Owned(t, a)
    ensures NoneTwice(Ids(t)) && NoneTwice(CellIds(TreeCells(t)))
    ensures forall p :: p in CellIds(TreeCells(t)) ==> InUse(a, p)
  {
    CellsWithin(t);
    forall p: u32
      ensures Ids(t)[p] <= 1 && CellIds(TreeCells(t))[p] <= 1
      ensures p in CellIds(TreeCells(t)) ==> InUse(a, p)
    {
      assert Ids(t)[p] + FreeTimes(a, p) <= if 1 <= p < a.count then 1 else 0;
    }
  }

  /** The changed chain still has all leaves of the changed tree, whatever the tree has lost. */
  lemma ChangeShowsTree(c: Chain, t: Tree, k: bytes, ch: Change, t': Tree, a: Alloc)
    requires Shaped(t) && Owned(t, a) && ShowsTree(c, t) && !ch.Cut? && c.end == 0
    requires ch.Halves? ==> ch.newId !in CellIds(c.cells) && ch.newId !in CellIds(TreeCells(t))
    requires TreeCells(t') == CellsWith(t, k, ch) || (ch.Halves? && Lacks(CellsWith(t, k, ch), TreeCells(t')))
    ensures ShowsTree(ChangedChain(c, LeafFor(t, k).id, ch), t')
  {
    hide Changed, Among, CellsWith, TreeCells, CellIds, LeafFor;
    var id, ts := LeafFor(t, k).id, TreeCells(t);
    var cs := CellsWith(t, k, ch);
    OwnedCells(t, a);
    LeafOnCells(t, k);
    ChangedIsWith(t, k, ch);
    ChangedIds(ts, id, ch);
    AmongChanged(c.cells, id, ch, CellIds(ts), CellIds(cs));
    assert Among(Changed(c.cells, id, ch), CellIds(cs)) == cs;
    if TreeCells(t') != cs {
      forall p: u32
        ensures CellIds(cs)[p] <= 1
      {
        assert CellIds(ts)[p] <= 1;
      }
      LacksAmong(cs, TreeCells(t'));
      AmongFewer(Changed(c.cells, id, ch), CellIds(cs), CellIds(TreeCells(t')));
    }
  }

  lemma PutShowsTree(c: Chain, t: Tree, h: nat, k: bytes, v: bytes, a: Alloc)
    requires SearchTree(t, h) && Shaped(t) && Legal(k, v) && Owned(t, a) && Room(a, h)
    requires ShowsTree(c, t) && ChainInUse(c, a)
    requires forall p: u32 :: FreeTimes(a, p) <= if 1 <= p < a.count then 1 else 0
    ensures ShowsTree(AfterPut(c, t, k, v, a), PutTree(t, k, v, a).t)
  {
    hide Changed, CellsWith, TreeCells, CellIds, LeafFor, PutTree, WF, Lacks, LeafChange, Among, InUse,
         FreeTimes, Owned, Ids;
    var l := LeafFor(t, k);
    var ch := LeafChange(l.ents, k, v, Pop(a).0);
    LeafChangePage(l.ents, k, v, Pop(a).0);
    RootInFile(t, a);
    PoppedInUse(a);
    OwnedCells(t, a);
    PutCells(t, h, k, v, a);
    if c.end == 0 && AfterPut(c, t, k, v, a).end == 0 {
      if ch.Cut? {
        LeafOnCells(t, k);
        AmongMembers(c.cells, CellIds(TreeCells(t)), l.id);
        assert false;
      }
      ChangeShowsTree(c, t, k, ch, PutTree(t, k, v, a).t, a);
    }
  }

  lemma LeafChangePage(ents: seq<Entry>, k: bytes, v: bytes, newId: u32)
    ensures var ch := LeafChange(ents, k, v, newId);
            && (ch.Halves? ==> ch.newId == newId) && (ch.Cut? ==> ch.newId == newId)
  {
  }

  lemma RootInFile(t: Tree, a: Alloc)
    requires Owned(t, a)
    ensures 1 <= a.count && 1 <= t.id < a.count
  {
    RootHeld(t);
    assert Ids(t)[t.id] + FreeTimes(a, t.id) <= if 1 <= t.id < a.count then 1 else 0;
  }

  lemma DeleteShowsTree(c: Chain, t: Tree, k: bytes, a: Alloc)
    requires Shaped(t) && Owned(t, a) && ShowsTree(c, t)
    ensures ShowsTree(AfterDelete(c, t, k), DeleteTree(t, k))
  {
    hide Changed, CellsWith, TreeCells, CellIds, Among;
    DeleteCells(t, k);
    if c.end == 0 {
      ChangeShowsTree(c, t, k, Now(Remove(LeafFor(t, k).ents, k)), DeleteTree(t, k), a);
    }
  }

  lemma StillInUse(a: Alloc, b: Alloc, p: u32)
    requires FreesNone(a, b) && InUse(a, p)
    ensures InUse(b, p)
  {
    assert FreeTimes(b, p) <= FreeTimes(a, p);
  }

  lemma PutChainInUse(c: Chain, t: Tree, h: nat, k: bytes, v: bytes, a: Alloc)
    requires SearchTree(t, h) && Shaped(t) && Legal(k, v) && Owned(t, a) && Room(a, h)
    requires ChainInUse(c, a) && forall p: u32 :: FreeTimes(a, p) <= if 1 <= p < a.count then 1 else 0
    ensures ChainInUse(AfterPut(c, t, k, v, a), PutTree(t, k, v, a).a)
  {
    hide Changed, PutTree, WF, InUse, FreeTimes, FreesNone, Owned, LeafSize, Upsert, Present, LeafFor, Pop;
    var l, b := LeafFor(t, k), PutTree(t, k, v, a).a;
    var ch := LeafChange(l.ents, k, v, Pop(a).0);
    RootInFile(t, a);
    PoppedInUse(a);
    WFAtMostDeep(t, None, None, h, None, 1);
    PutFreesNone(t, h, k, v, a);
    forall p | p in CellIds(AfterPut(c, t, k, v, a).cells)
      ensures InUse(b, p)
    {
      NewIds(c.cells, l.id, ch, p);
      StillInUse(if p in CellIds(c.cells) then a else Pop(a).1, b, p);
    }
  }

  lemma {:induction false} NewIds(cs: seq<Cell>, id: u32, ch: Change, p: u32)
    requires p in CellIds(Changed(cs, id, ch))
    ensures p in CellIds(cs) || (ch.Halves? && p == ch.newId)
    decreases cs
  {
    hide Changed, CellIds;
    if cs == [] {
      ChangedElsewhere([], id, ch) by { NoIds(); }
    } else {
      var head, tail := [cs[0]], cs[1..];
      assert cs == head + tail;
      CellIdsConcat(head, tail);
      OneId(cs[0]);
      if ch.Cut? && cs[0].id == id {
        CutHead(cs, id, ch);
        OneId(Cell(id, ch.lower));
      } else {
        ChangedHead(cs, id, ch);
        CellIdsConcat(Changed(head, id, ch), Changed(tail, id, ch));
        if p in CellIds(Changed(tail, id, ch)) {
          NewIds(tail, id, ch, p);
        } else if ch.Cut? {
          ChangedElsewhere(head, id, ch);
        } else {
          ChangedOneIds(cs[0], id, ch);
        }
      }
    }
  }

  lemma CutHead(cs: seq<Cell>, id: u32, ch: Change)
    requires cs != [] && ch.Cut? && cs[0].id == id
    ensures Changed(cs, id, ch) == [Cell(id, ch.lower)]
  {
  }

  lemma ChangedHead(cs: seq<Cell>, id: u32, ch: Change)
    requires cs != [] && !(ch.Cut? && cs[0].id == id)
    ensures Changed(cs, id, ch) == Changed([cs[0]], id, ch) + Changed(cs[1..], id, ch)
  {
    ChangedOne(cs[0], id, ch);
  }

  lemma DeleteChainInUse(c: Chain, t: Tree, k: bytes, a: Alloc)
    requires Shaped(t) && ChainInUse(c, a)
    ensures ChainInUse(AfterDelete(c, t, k), a)
  {
    hide Changed, InUse;
    var l := LeafFor(t, k);
    forall p | p in CellIds(AfterDelete(c, t, k).cells)
      ensures InUse(a, p)
    {
      NewIds(c.cells, l.id, Now(Remove(l.ents, k)), p);
    }
  }

  // ---------- what listing shows ----------

  /** A leaf that took the entry, split or not, shows it in its place; the leaves together all entries. */
  lemma {:induction false} UpsertAlong(t: Tree, k: bytes, v: bytes, newId: u32,
                                       lo: Bound, hi: Bound, h: nat, end: End, minSeps: nat)
    requires WF(t, lo, hi, h, end, minSeps) && Shaped(t)
    requires var ch := LeafChange(LeafFor(t, k).ents, k, v, newId); ch.Now? || ch.Halves?
    ensures EntriesAlong(CellsWith(t, k, LeafChange(LeafFor(t, k).ents, k, v, newId))) == Upsert(Entries(t), k, v)
    decreases h
  {
    hide Upsert, LeafSize, Present, Body, Flat, FlatCells, LeafFor, LeafChange, Changed, EntriesAlong;
    if t.Leaf? {
      OwnLeaf(t, k);
      LeafUpsertAlong(t, k, v, newId);
    } else {
      var i, ch := ChildIndex(t.seps, k), LeafChange(LeafFor(t, k).ents, k, v, newId);
      SameLeaf(t, k);
      KidFacts(t, i, lo, hi, h, end, minSeps);
      UpsertAlong(t.kids[i], k, v, newId,
                  LoOf(t.seps, i, lo), HiOf(t.seps, i, hi), h - 1, EndOf(t.kids, i, end), MIN_SEPS);
      WorkOnChild(t.seps, t.kids, lo, hi, h - 1, end, k, v);
      var a, b := FlatCells(t.kids[..i]), FlatCells(t.kids[i + 1..]);
      EntriesAlongConcat(a + CellsWith(t.kids[i], k, ch), b);
      EntriesAlongConcat(a, CellsWith(t.kids[i], k, ch));
      FlatCellsHoldEntries(t.kids[..i]);
      FlatCellsHoldEntries(t.kids[i + 1..]);
    }
  }

  lemma LeafUpsertAlong(t: Tree, k: bytes, v: bytes, newId: u32)
    requires t.Leaf?
    requires var ch := LeafChange(t.ents, k, v, newId); ch.Now? || ch.Halves?
    ensures EntriesAlong(CellsWith(t, k, LeafChange(t.ents, k, v, newId))) == Upsert(t.ents, k, v)
  {
    hide Upsert, LeafSize, Present, EntriesAlong;
    var ch := LeafChange(t.ents, k, v, newId);
    ChangedOne(Cell(t.id, t.ents), t.id, ch);
    if ch.Now? {
      OneCellAlong(Cell(t.id, ch.ents));
    } else {
      var lower, upper := Cell(t.id, ch.lower), Cell(newId, ch.upper);
      assert [lower, upper] == [lower] + [upper];
      EntriesAlongConcat([lower], [upper]);
      OneCellAlong(lower);
      OneCellAlong(upper);
      assert ch.lower + ch.upper == Upsert(t.ents, k, v);
    }
  }

  lemma OneCellAlong(c: Cell)
    ensures EntriesAlong([c]) == c.ents
  {
    assert EntriesAlong([c]) == c.ents + EntriesAlong([]);
  }

  /** What the chain shows is what the tree's leaves on it show and what the others show. */
  lemma {:induction false} AmongAndAstray(cs: seq<Cell>, ids: multiset<u32>)
    ensures multiset(EntriesAlong(cs))
            == multiset(EntriesAlong(Among(cs, ids))) + multiset(EntriesAlong(Astray(cs, ids)))
    decreases cs
  {
    hide EntriesAlong;
    if cs == [] {
      NoEntries();
    } else {
      var head, tail := [cs[0]], cs[1..];
      assert cs == head + tail;
      AmongAndAstray(tail, ids);
      EntriesAlongConcat(head, tail);
      EntriesAlongConcat(head, Among(tail, ids));
      EntriesAlongConcat(head, Astray(tail, ids));
      assert [] + Among(tail, ids) == Among(tail, ids) && [] + Astray(tail, ids) == Astray(tail, ids);
    }
  }

  /** The entries on pages that the chain still has and the tree no more. */
  ghost function Strays(c: Chain, t: Tree): seq<Entry> {
    EntriesAlong(Astray(c.cells, CellIds(TreeCells(t))))
  }

  /** As long as the walk ends behind a leaf, listing shows every entry of the tree once, and the strays besides. */
  lemma ListingIs(c: Chain, t: Tree)
    requires ShowsTree(c, t) && c.end == 0
    ensures multiset(EntriesAlong(c.cells)) == multiset(Entries(t)) + multiset(Strays(c, t))
  {
    AmongAndAstray(c.cells, CellIds(TreeCells(t)));
    CellsHoldEntries(t);
  }

  lemma WholeHasNoStrays(c: Chain, t: Tree)
    requires Whole(c, t)
    ensures Strays(c, t) == []
  {
    WholeShows(c, t);
    NoEntries();
  }

  lemma SameCount(a: seq<Entry>, b: seq<Entry>, c: seq<Entry>)
    requires multiset(a) == multiset(b) + multiset(c)
    ensures |a| == |b| + |c|
  {
    assert |multiset(a)| == |multiset(b)| + |multiset(c)|;
  }
}
