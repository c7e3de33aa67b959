/**
 The leaf chain as the pages link it, whether or not it still agrees with the
 tree: chains as values, what one operation does to a chain, and walks along
 the links of the pages, which may stop at a page that is no leaf.
 */
module LeafWalks {
  import opened ByteStrings
  import opened FileHeaders
  import opened NodeFormat
  import opened PageAllocation

  // ---------- chains as values ----------

  /** A leaf on the chain: its page and what it holds. */
  datatype Cell = Cell(id: u32, ents: seq<Entry>)

  /** What a walk along the leaf links meets, and the page where it can go no further; 0 behind the last leaf. */
  datatype Chain = Chain(cells: seq<Cell>, end: u32)

  /**
   What an operation does to one leaf of the chain: new contents, a split, or
   a split of which the new half was never written.
   */
  datatype Change =
    | Keep
    | Now(ents: seq<Entry>)
    | Halves(lower: seq<Entry>, newId: u32, upper: seq<Entry>)
    | Cut(lower: seq<Entry>, newId: u32)

  function Changed(cs: seq<Cell>, id: u32, ch: Change): seq<Cell>
    decreases cs
  {
    if cs == [] then []
    else if cs[0].id != id then [cs[0]] + Changed(cs[1..], id, ch)
    else
      match ch
      case Keep => [cs[0]] + Changed(cs[1..], id, ch)
      case Now(ents) => [Cell(id, ents)] + Changed(cs[1..], id, ch)
      case Halves(lower, newId, upper) => [Cell(id, lower), Cell(newId, upper)] + Changed(cs[1..], id, ch)
      case Cut(lower, _) => [Cell(id, lower)]
  }

  function CellIds(cs: seq<Cell>): multiset<u32>
    decreases cs
  {
    if cs == [] then multiset{} else multiset{cs[0].id} + CellIds(cs[1..])
  }

  function ChangedChain(c: Chain, id: u32, ch: Change): Chain {
    Chain(Changed(c.cells, id, ch), if ch.Cut? && id in CellIds(c.cells) then ch.newId else c.end)
  }

  /** The entries along the chain, in order. */
  function EntriesAlong(cs: seq<Cell>): seq<Entry>
    decreases cs
  {
    if cs == [] then [] else cs[0].ents + EntriesAlong(cs[1..])
  }

  lemma {:induction false} KeepChangesNothing(cs: seq<Cell>, id: u32)
    ensures Changed(cs, id, Keep) == cs
    decreases cs
  {
    if cs != [] {
      KeepChangesNothing(cs[1..], id);
    }
  }

  lemma {:induction false} ChangedElsewhere(cs: seq<Cell>, id: u32, ch: Change)
    requires id !in CellIds(cs)
    ensures Changed(cs, id, ch) == cs
    decreases cs
  {
    if cs != [] {
      ChangedElsewhere(cs[1..], id, ch);
    }
  }

  lemma ChangedOne(c: Cell, id: u32, ch: Change)
    ensures Changed([c], id, ch)
            == if c.id != id then [c]
               else
                 match ch
                 case Keep => [c]
                 case Now(ents) => [Cell(id, ents)]
                 case Halves(lower, newId, upper) => [Cell(id, lower), Cell(newId, upper)]
                 case Cut(lower, _) => [Cell(id, lower)]
  {
    assert [c][1..] == [];
    assert Changed([], id, ch) == [];
  }

  lemma {:induction false} CellIdsConcat(a: seq<Cell>, b: seq<Cell>)
    ensures CellIds(a + b) == CellIds(a) + CellIds(b)
    decreases a
  {
    if a == [] {
      assert a + b == b;
    } else {
      assert (a + b)[1..] == a[1..] + b;
      CellIdsConcat(a[1..], b);
    }
  }

  lemma {:induction false} EntriesAlongConcat(a: seq<Cell>, b: seq<Cell>)
    ensures EntriesAlong(a + b) == EntriesAlong(a) + EntriesAlong(b)
    decreases a
  {
    if a == [] {
      assert a + b == b;
    } else {
      assert (a + b)[1..] == a[1..] + b;
      EntriesAlongConcat(a[1..], b);
    }
  }

  lemma {:induction false} ChangedConcat(a: seq<Cell>, b: seq<Cell>, id: u32, ch: Change)
    requires !ch.Cut?
    ensures Changed(a + b, id, ch) == Changed(a, id, ch) + Changed(b, id, ch)
    decreases a
  {
    if a == [] {
      assert a + b == b;
    } else {
      assert (a + b)[1..] == a[1..] + b;
      ChangedConcat(a[1..], b, id, ch);
    }
  }

  // ---------- the part of a chain that a set of pages keeps ----------

  /** The cells on pages of ids. */
  function Among(cs: seq<Cell>, ids: multiset<u32>): seq<Cell>
    decreases cs
  {
    if cs == [] then [] else (if cs[0].id in ids then [cs[0]] else []) + Among(cs[1..], ids)
  }

  /** The others. */
  function Astray(cs: seq<Cell>, ids: multiset<u32>): seq<Cell>
    decreases cs
  {
    if cs == [] then [] else (if cs[0].id in ids then [] else [cs[0]]) + Astray(cs[1..], ids)
  }

  lemma {:induction false} AmongConcat(a: seq<Cell>, b: seq<Cell>, ids: multiset<u32>)
    ensures Among(a + b, ids) == Among(a, ids) + Among(b, ids)
    decreases a
  {
    if a == [] {
      assert a + b == b;
    } else {
      assert (a + b)[1..] == a[1..] + b;
      AmongConcat(a[1..], b, ids);
    }
  }

  lemma {:induction false} AmongOwn(cs: seq<Cell>, ids: multiset<u32>)
    requires forall p :: p in CellIds(cs) ==> p in ids
    ensures Among(cs, ids) == cs && Astray(cs, ids) == []
    decreases cs
  {
    if cs != [] {
      AmongOwn(cs[1..], ids);
    }
  }

  lemma {:induction false} AmongNone(cs: seq<Cell>, ids: multiset<u32>)
    requires forall p :: p in CellIds(cs) ==> p !in ids
    ensures Among(cs, ids) == []
    decreases cs
  {
    if cs != [] {
      AmongNone(cs[1..], ids);
    }
  }

  lemma {:induction false} AmongFewer(cs: seq<Cell>, ids: multiset<u32>, fewer: multiset<u32>)
    requires forall p :: p in fewer ==> p in ids
    ensures Among(Among(cs, ids), fewer) == Among(cs, fewer)
    decreases cs
  {
    if cs != [] {
      AmongFewer(cs[1..], ids, fewer);
      var head := if cs[0].id in ids then [cs[0]] else [];
      AmongConcat(head, Among(cs[1..], ids), fewer);
      assert [cs[0]][1..] == [];
    }
  }

  lemma AmongChangedOne(c: Cell, id: u32, ch: Change, ids: multiset<u32>, ids': multiset<u32>)
    requires !ch.Cut? && id in ids && (ch.Halves? ==> ch.newId != c.id)
    requires forall p :: p in ids' <==> p in ids || (ch.Halves? && p == ch.newId)
    ensures Among(Changed([c], id, ch), ids') == Changed(Among([c], ids), id, ch)
  {
    ChangedOne(c, id, ch);
    assert [c][1..] == [];
    if c.id == id && ch.Halves? {
      var lower, upper := Cell(id, ch.lower), Cell(ch.newId, ch.upper);
      assert [lower, upper] == [lower] + [upper];
      assert [lower][1..] == [] && [upper][1..] == [];
      AmongConcat([lower], [upper], ids');
    } else if c.id == id && ch.Now? {
      assert [Cell(id, ch.ents)][1..] == [];
    }
  }

  /** Changing a leaf and picking out pages can be done in either order. */
  lemma {:induction false} AmongChanged(cs: seq<Cell>, id: u32, ch: Change, ids: multiset<u32>, ids': multiset<u32>)
    requires !ch.Cut? && id in ids && (ch.Halves? ==> ch.newId !in CellIds(cs))
    requires forall p :: p in ids' <==> p in ids || (ch.Halves? && p == ch.newId)
    ensures Among(Changed(cs, id, ch), ids') == Changed(Among(cs, ids), id, ch)
    decreases cs
  {
    hide Changed, Among;
    if cs == [] {
      ChangedNothing(id, ch, ids, ids');
    } else {
      var head, tail := [cs[0]], cs[1..];
      assert cs == head + tail;
      AmongChangedOne(cs[0], id, ch, ids, ids');
      AmongChanged(tail, id, ch, ids, ids');
      ChangedConcat(head, tail, id, ch);
      AmongConcat(Changed(head, id, ch), Changed(tail, id, ch), ids');
      AmongConcat(head, tail, ids);
      ChangedConcat(Among(head, ids), Among(tail, ids), id, ch);
    }
  }

  lemma ChangedNothing(id: u32, ch: Change, ids: multiset<u32>, ids': multiset<u32>)
    ensures Among(Changed([], id, ch), ids') == [] == Changed(Among([], ids), id, ch)
  {
  }

  // ---------- pages ----------

  /** What a page is to somebody who follows the leaf chain. */
  datatype PageLink = Dead(e: DecodeError) | Inner | To(ents: seq<Entry>, next: u32)

  function LinkOf(page: Page): PageLink {
    match DecodeNode(page)
    case Failure(e) => Dead(e)
    case Success(LeafVal(ents, next)) => To(ents, next)
    case Success(InnerVal(_, _)) => Inner
  }

  predicate InUse(a: Alloc, p: u32) {
    1 <= p < a.count && p !in a.free
  }

  /** Nothing in use is handed out, and what is handed out is in use from then on. */
  lemma PoppedInUse(a: Alloc)
    requires 1 <= a.count < MAX_U32 && forall p: u32 :: FreeTimes(a, p) <= if 1 <= p < a.count then 1 else 0
    ensures var (id, b) := Pop(a);
            && !InUse(a, id) && InUse(b, id)
            && forall p: u32 :: InUse(a, p) ==> 1 <= p && InUse(b, p) && p != id
  {
    var (id, b) := Pop(a);
    PopConserves(a, id);
    assert FreeTimes(a, id) <= if 1 <= id < a.count then 1 else 0;
    if a.free != [] {
      assert a.free == [a.free[0]] + a.free[1..];
    }
  }

  /** cs are the leaves met by following leaf links from first up to end. */
  ghost predicate Walk(view: seq<Page>, a: Alloc, first: u32, cs: seq<Cell>, end: u32)
    decreases cs
  {
    if cs == [] then first == end
    else
      && first == cs[0].id && InUse(a, first) && first < |view|
      && LinkOf(view[first]).To? && LinkOf(view[first]).ents == cs[0].ents
      && Walk(view, a, LinkOf(view[first]).next, cs[1..], end)
  }

  /** Where a walk can go no further: behind the last leaf, or at a page that holds no node. */
  ghost predicate Stops(view: seq<Page>, a: Alloc, end: u32) {
    end == 0 || (InUse(a, end) && end < |view| && LinkOf(view[end]).Dead?)
  }

  ghost predicate WalkIs(view: seq<Page>, a: Alloc, first: u32, c: Chain) {
    Walk(view, a, first, c.cells, c.end) && Stops(view, a, c.end)
  }

  ghost predicate WalkEnds(view: seq<Page>, a: Alloc, first: u32) {
    exists c :: WalkIs(view, a, first, c)
  }

  /** The links determine the walk, so one that ends meets no page twice. */
  lemma {:induction false} WalkUnique(view: seq<Page>, a: Alloc, first: u32, c: Chain, d: Chain)
    requires WalkIs(view, a, first, c) && WalkIs(view, a, first, d)
    ensures c == d
    decreases c.cells
  {
    if c.cells != [] && d.cells != [] {
      assert c.cells[0] == d.cells[0];
      WalkUnique(view, a, LinkOf(view[first]).next, Chain(c.cells[1..], c.end), Chain(d.cells[1..], d.end));
    }
  }

  ghost function WalkFrom(view: seq<Page>, a: Alloc, first: u32): (c: Chain)
    requires WalkEnds(view, a, first)
    ensures WalkIs(view, a, first, c)
  {
    var c :| WalkIs(view, a, first, c);
    c
  }

  lemma WalkFromIs(view: seq<Page>, a: Alloc, first: u32, c: Chain)
    requires WalkIs(view, a, first, c)
    ensures WalkEnds(view, a, first) && WalkFrom(view, a, first) == c
  {
    WalkUnique(view, a, first, c, WalkFrom(view, a, first));
  }

  // ---------- what operations do to walks ----------

  /** Every walk is changed at the leaf on page id as ch says, and nowhere else. */
  ghost predicate WalksChanged(v: seq<Page>, a: Alloc, v': seq<Page>, a': Alloc, id: u32, ch: Change) {
    forall first, c :: WalkIs(v, a, first, c) ==> WalkIs(v', a', first, ChangedChain(c, id, ch))
  }

  /** Every walk is what it was. */
  ghost predicate WalksKept(v: seq<Page>, a: Alloc, v': seq<Page>, a': Alloc) {
    forall first, c :: WalkIs(v, a, first, c) ==> WalkIs(v', a', first, c)
  }

  /** Pages in use stay in use, and all but page id mean to a walk what they did. */
  ghost predicate LinksKeptBut(v: seq<Page>, a: Alloc, v': seq<Page>, a': Alloc, id: u32) {
    && |v| <= |v'|
    && forall p: u32 :: InUse(a, p) && p < |v| ==>
                          InUse(a', p) && (p != id ==> LinkOf(v'[p]) == LinkOf(v[p]))
  }

  lemma {:induction false} WalkFrame(v: seq<Page>, a: Alloc, v': seq<Page>, a': Alloc, first: u32, cs: seq<Cell>,
                                     end: u32)
    requires LinksKeptBut(v, a, v', a', 0) && Walk(v, a, first, cs, end)
    ensures Walk(v', a', first, cs, end)
    decreases cs
  {
    if cs != [] {
      WalkFrame(v, a, v', a', LinkOf(v[first]).next, cs[1..], end);
    }
  }

  /** Writing anything but leaves. */
  lemma LinksKeptWalks(v: seq<Page>, a: Alloc, v': seq<Page>, a': Alloc)
    requires LinksKeptBut(v, a, v', a', 0)
    ensures WalksKept(v, a, v', a')
  {
    forall first, c | WalkIs(v, a, first, c)
      ensures WalkIs(v', a', first, c)
    {
      WalkFrame(v, a, v', a', first, c.cells, c.end);
    }
  }

  /** What must be on the pages for ch to have happened to the leaf on page id. */
  ghost predicate LeafChanged(v: seq<Page>, a: Alloc, v': seq<Page>, a': Alloc, id: u32, ch: Change) {
    && InUse(a, id) && id < |v| && LinkOf(v[id]).To? && LinksKeptBut(v, a, v', a', id)
    && var n := LinkOf(v[id]).next;
       match ch
       case Keep => LinkOf(v'[id]) == LinkOf(v[id])
       case Now(ents) => LinkOf(v'[id]) == To(ents, n)
       case Halves(lower, newId, upper) =>
         && LinkOf(v'[id]) == To(lower, newId)
         && InUse(a', newId) && newId < |v'| && LinkOf(v'[newId]) == To(upper, n)
       case Cut(lower, newId) =>
         && LinkOf(v'[id]) == To(lower, newId)
         && InUse(a', newId) && newId < |v'| && LinkOf(v'[newId]).Dead?
  }

  /** A walk after the change: the new page comes behind the old one, or is where the walk now ends. */
  lemma {:induction false} WalkAfter(v: seq<Page>, a: Alloc, v': seq<Page>, a': Alloc, id: u32, ch: Change,
                                     first: u32, cs: seq<Cell>, end: u32)
    requires Walk(v, a, first, cs, end) && LeafChanged(v, a, v', a', id, ch)
    ensures Walk(v', a', first, Changed(cs, id, ch), if ch.Cut? && id in CellIds(cs) then ch.newId else end)
    decreases cs
  {
    hide LinkOf, InUse;
    if cs != [] {
      var rest := Changed(cs[1..], id, ch);
      WalkAfter(v, a, v', a', id, ch, LinkOf(v[first]).next, cs[1..], end);
      if first != id {
        WalkOn(v', a', cs[0], rest, if ch.Cut? && id in CellIds(cs[1..]) then ch.newId else end);
      } else {
        match ch
        case Keep =>
          WalkOn(v', a', cs[0], rest, end);
        case Now(ents) =>
          WalkOn(v', a', Cell(id, ents), rest, end);
        case Halves(lower, newId, upper) =>
          WalkOn(v', a', Cell(newId, upper), rest, end);
          WalkOn(v', a', Cell(id, lower), [Cell(newId, upper)] + rest, end);
          assert [Cell(id, lower), Cell(newId, upper)] + rest == [Cell(id, lower)] + ([Cell(newId, upper)] + rest);
        case Cut(lower, newId) =>
          WalkOn(v', a', Cell(id, lower), [], newId);
          assert [Cell(id, lower)] + [] == [Cell(id, lower)];
      }
    }
  }

  lemma WalkOn(v: seq<Page>, a: Alloc, c: Cell, rest: seq<Cell>, end: u32)
    requires InUse(a, c.id) && c.id < |v| && LinkOf(v[c.id]).To? && LinkOf(v[c.id]).ents == c.ents
    requires Walk(v, a, LinkOf(v[c.id]).next, rest, end)
    ensures Walk(v, a, c.id, [c] + rest, end)
  {
    assert ([c] + rest)[1..] == rest;
  }

  lemma ChangeReachesWalks(v: seq<Page>, a: Alloc, v': seq<Page>, a': Alloc, id: u32, ch: Change)
    requires LeafChanged(v, a, v', a', id, ch)
    ensures WalksChanged(v, a, v', a', id, ch)
  {
    forall first, c | WalkIs(v, a, first, c)
      ensures WalkIs(v', a', first, ChangedChain(c, id, ch))
    {
      WalkAfter(v, a, v', a', id, ch, first, c.cells, c.end);
    }
  }

  lemma ChangedThenKept(v0: seq<Page>, a0: Alloc, v1: seq<Page>, a1: Alloc, v2: seq<Page>, a2: Alloc,
                         id: u32, ch: Change)
    requires WalksChanged(v0, a0, v1, a1, id, ch) && WalksKept(v1, a1, v2, a2)
    ensures WalksChanged(v0, a0, v2, a2, id, ch)
  {
  }

  // ---------- along a walk ----------

  /** No page has number 0, so there the walk is over. */
  lemma WalkOver(view: seq<Page>, a: Alloc, rest: seq<Cell>, end: u32)
    requires Walk(view, a, 0, rest, end)
    ensures rest == [] && end == 0
  {
  }

  lemma CellFirst(cs: seq<Cell>)
    requires cs != []
    ensures EntriesAlong(cs) == cs[0].ents + EntriesAlong(cs[1..])
  {
  }

  lemma NoEntries()
    ensures EntriesAlong([]) == []
  {
  }

  lemma PrefixGrows(a: seq<Entry>, b: seq<Entry>, c: seq<Entry>)
    requires a <= b
    ensures a <= b + c
  {
  }
}
