/**
 Runs in which clients can tell the engine from an eagerly expiring map. Both
 start from a database in order and keep to the documented limits: in one a
 node above a leaf breaks, in the other the new half of a leaf.
 */
module Departures {
  import opened Wrappers
  import opened ByteStrings
  import opened NodeFormat
  import opened SortedEntries
  import opened PageAllocation
  import opened Trees
  import opened TreeShape
  import opened TreeContents
  import opened TreePages
  import opened TreeChain
  import opened TreeFailure
  import opened TreeKeeps
  import opened LeafWalks
  import opened Chains
  import opened TreeSummary
  import opened TreeRuns
  import opened Sessions
  import Expiry

  // ---------- a root of forty children that is full but for six bytes ----------

  function Long(b: byte): (k: bytes)
    ensures |k| == 255
  {
    [5, b] + Zeros(253)
  }

  function Sep(j: nat): bytes
    requires j < 39
  {
    if j < 4 then [j + 1] else if j < 19 then Long(j) else [j]
  }

  function Seps(): (s: seq<bytes>)
    ensures |s| == 39
  {
    seq(39, j requires 0 <= j < 39 => Sep(j))
  }

  /** All leaves are empty but the one on page 21. */
  function Kid(j: nat, ents: seq<Entry>, next: u32): Tree
    requires j < 40
  {
    if j == 19 then Leaf(21, ents, next) else Leaf(2 + j, [], if j == 39 then 0 else 3 + j)
  }

  function Wide(ents: seq<Entry>, next: u32): (t: Tree)
    ensures t.Node? && |t.kids| == |t.seps| + 1 == 40 && Shaped(t)
  {
    Node(1, Seps(), seq(40, j requires 0 <= j < 40 => Kid(j, ents, next)))
  }

  /** What page 21 holds, one entry at a time: no two of them that come one after the other share a page. */
  const OLD := Entry(Long(19), Zeros(3800))
  const EARLIER := Entry([5, 19], Zeros(200))
  const LATER := Entry(Long(20), Zeros(3800))
  const DEADLINE := 1000

  const FULL_SESSION := Session(Db(Wide([OLD], 22), Alloc([], 42)), Chain(TreeCells(Wide([OLD], 22)), 0),
                                map[OLD.key := DEADLINE])

  // ---------- order ----------

  lemma LessAtFirst(a: bytes, b: bytes)
    requires a != [] && b != [] && a[0] < b[0]
    ensures Less(a, b)
  {
  }

  lemma LessAtSecond(a: bytes, b: bytes)
    requires |a| >= 2 && |b| >= 2 && a[0] == b[0] && a[1] < b[1]
    ensures Less(a, b)
  {
    assert PartsBelow(a, b, 1);
    PartsBelowIsLess(a, b, 0, 1);
  }

  lemma SepsAscend(i: nat, j: nat)
    requires i < j < 39
    ensures Less(Sep(i), Sep(j))
  {
    if 4 <= i && j < 19 {
      LessAtSecond(Sep(i), Sep(j));
    } else {
      LessAtFirst(Sep(i), Sep(j));
    }
  }

  /** Keys that begin with 5 and a byte above 18 belong on page 21. */
  lemma GoesTo21(k: bytes)
    requires |k| >= 2 && k[0] == 5 && k[1] > 18
    ensures ChildIndex(Seps(), k) == 19
    ensures Less(Seps()[18], k) && Less(k, Seps()[19])
  {
    hide Less;
    forall j | 0 <= j < 19
      ensures Less(Sep(j), k) && !Less(k, Sep(j))
    {
      if j < 4 {
        LessAtFirst(Sep(j), k);
      } else {
        LessAtSecond(Sep(j), k);
      }
      Trichotomy(Sep(j), k);
    }
    LessAtFirst(k, Sep(19));
    IndexIs(Seps(), k, 19);
  }

  lemma IndexIs(seps: seq<bytes>, k: bytes, i: nat)
    requires i < |seps| && Less(k, seps[i]) && forall j :: 0 <= j < i ==> !Less(k, seps[j])
    ensures ChildIndex(seps, k) == i
  {
  }

  // ---------- sizes ----------

  lemma {:induction false} SepsSize(j: nat)
    requires j <= 39
    ensures InnerSize(Seps()[j..])
            == if j >= 19 then 7 * (39 - j) else if j >= 4 then 140 + 261 * (19 - j) else 4055 + 7 * (4 - j)
    decreases 39 - j
  {
    if j < 39 {
      SepsSize(j + 1);
      assert Seps()[j..][1..] == Seps()[j + 1..];
    }
  }

  /** A separator of 255 bytes more, and neither all of it nor the lower half fits. */
  lemma LowerHalfOver(sep: bytes)
    requires |sep| == 255
    ensures InnerSize(Seps()) <= CELL_AREA_SIZE
    ensures InnerSize(InsertAt(Seps(), 19, sep)) > CELL_AREA_SIZE
    ensures InnerSize(InsertAt(Seps(), 19, sep)[..20]) > CELL_AREA_SIZE
  {
    hide InnerSize;
    var seps, all := Seps(), InsertAt(Seps(), 19, sep);
    SepsSize(0);
    SepsSize(19);
    assert seps[0..] == seps && seps == seps[..19] + seps[19..];
    InnerSizeConcat(seps[..19], seps[19..]);
    InnerSizeConcat(seps[..19], [sep]);
    OneSep(sep);
    assert all[..20] == seps[..19] + [sep] && all == all[..20] + seps[19..];
    InnerSizeConcat(all[..20], seps[19..]);
  }

  lemma OneSep(sep: bytes)
    ensures InnerSize([sep]) == 6 + |sep|
  {
    assert InnerSize([sep]) == 6 + |sep| + InnerSize([]);
  }

  // ---------- what overflows ----------

  /** An entry before one that it shares no page with: the leaf splits between them. */
  lemma PairFate(x: Entry, e: Entry)
    requires Less(x.key, e.key) && EntrySize(x) <= CELL_AREA_SIZE && EntrySize(e) <= CELL_AREA_SIZE
    requires EntrySize(x) + EntrySize(e) > CELL_AREA_SIZE
    ensures Upsert([e], x.key, x.val) == [x, e] && !Present([e], x.key)
    ensures LeafSize([x, e]) > CELL_AREA_SIZE
    ensures LeafSize([x]) <= CELL_AREA_SIZE && LeafSize([e]) <= CELL_AREA_SIZE
    ensures [x, e][..1] == [x] && [x, e][1..] == [e]
  {
    hide Less, LeafSize;
    Trichotomy(x.key, e.key);
    PositionUnique([e], x.key, 0);
    assert InsertAt([e], 0, x) == [x, e] == [x] + [e];
    LeafSizeConcat([x], [e]);
    OneCell(x);
    OneCell(e);
  }

  /** The root breaks under the new separator with nothing written there: e is lost, and x is kept. */
  lemma Overflow(x: Entry, e: Entry, next: u32, n: u32)
    requires |x.key| >= 2 && x.key[0] == 5 && x.key[1] > 18 && Less(x.key, e.key) && |e.key| == 255
    requires EntrySize(x) <= CELL_AREA_SIZE && EntrySize(e) <= CELL_AREA_SIZE
    requires EntrySize(x) + EntrySize(e) > CELL_AREA_SIZE && n < MAX_U32 - 1
    ensures FateOf(Wide([e], next), x.key, x.val).Breaks? && Keeps(Wide([e], next), x.key, x.val)
    ensures PutTree(Wide([e], next), x.key, x.val, Alloc([], n)) == Failed(Wide([x], n), Alloc([], n + 2))
    ensures LeafFor(Wide([e], next), x.key) == Leaf(21, [e], next)
    ensures LeafChange([e], x.key, x.val, n) == Halves([x], n, [e])
  {
    hide Less, LeafSize, InnerSize, Upsert, Present, Seps, AdoptChild, InsertLeaf;
    var t, leaf := Wide([e], next), Leaf(21, [e], next);
    GoesTo21(x.key);
    PairFate(x, e);
    LowerHalfOver(e.key);
    assert t.kids[19] == leaf;
    OwnLeaf(leaf, x.key);
    var r := Split(Leaf(21, [x], n), e.key, Leaf(n, [e], next), Alloc([], n + 1));
    LeafSplits(x, e, next, n);
    RootBreaks(t, r);
    assert Insert(t, x.key, x.val, Alloc([], n)) == AdoptChild(t, 19, r);
    assert t.kids[19 := r.left] == Wide([x], n).kids;
  }

  lemma LeafSplits(x: Entry, e: Entry, next: u32, n: u32)
    requires Less(x.key, e.key) && EntrySize(x) <= CELL_AREA_SIZE && EntrySize(e) <= CELL_AREA_SIZE
    requires EntrySize(x) + EntrySize(e) > CELL_AREA_SIZE && n < MAX_U32
    ensures InsertLeaf(Leaf(21, [e], next), x.key, x.val, Alloc([], n))
            == Split(Leaf(21, [x], n), e.key, Leaf(n, [e], next), Alloc([], n + 1))
  {
    hide Less, LeafSize, Upsert, Present;
    PairFate(x, e);
  }

  lemma RootBreaks(t: Tree, r: Ins)
    requires t.Node? && t.seps == Seps() && |t.kids| == 40 && r.Split? && |r.sep| == 255
    requires r.a.free == [] && r.a.count < MAX_U32
    ensures AdoptChild(t, 19, r) == Failed(t.(kids := t.kids[19 := r.left]), Alloc([], r.a.count + 1))
  {
    hide InnerSize, Seps;
    LowerHalfOver(r.sep);
  }

  // ---------- the tree is in order ----------

  lemma WideIsWhole(e: Entry)
    requires |e.key| >= 2 && e.key[0] == 5 && e.key[1] > 18 && Legal(e.key, e.val) && EntrySize(e) <= CELL_AREA_SIZE
    ensures WholeTree(Wide([e], 22), 2) && SearchTree(Wide([e], 22), 2)
  {
    hide Less, LeafSize, InnerSize;
    var t := Wide([e], 22);
    GoesTo21(e.key);
    Trichotomy(Seps()[18], e.key);
    OneCell(e);
    SepsSize(0);
    assert Seps()[0..] == Seps();
    forall i, j | 0 <= i < j < 39
      ensures Less(Seps()[i], Seps()[j])
    {
      SepsAscend(i, j);
    }
    forall j | 0 <= j < 40
      ensures KidOk(t.seps, t.kids, j, None, None, Some(0), WFAt(1))
    {
      KidIsLeaf(e, j);
    }
    WholeIsSearch(t, 2);
  }

  lemma KidIsLeaf(e: Entry, j: nat)
    requires j < 40 && Legal(e.key, e.val) && LeafSize([e]) <= CELL_AREA_SIZE
    requires Less(e.key, Seps()[19]) && !Less(e.key, Seps()[18])
    ensures KidOk(Seps(), Wide([e], 22).kids, j, None, None, Some(0), WFAt(1))
  {
    hide Less, LeafSize, Seps;
    var t := Wide([e], 22);
    assert LeafSize([]) == 0 by { NoCells(); }
    assert j < 39 ==> FirstLeaf(t.kids[j + 1]) == 3 + j;
  }

  lemma NoCells()
    ensures LeafSize([]) == 0
  {
  }

  lemma {:induction false} WideKidIds(ents: seq<Entry>, next: u32, j: nat, p: u32)
    requires j <= 40
    ensures KidIds(Wide(ents, next).kids[j..])[p] == if 2 + j <= p < 42 then 1 else 0
    decreases 40 - j
  {
    if j < 40 {
      WideKidIds(ents, next, j + 1, p);
      var kids := Wide(ents, next).kids;
      assert kids[j..][1..] == kids[j + 1..];
      assert kids[j..][0].id == 2 + j;
    }
  }

  lemma WideOwned(ents: seq<Entry>, next: u32)
    ensures Owned(Wide(ents, next), Alloc([], 42)) && NoLeak(Wide(ents, next), Alloc([], 42))
  {
    var t := Wide(ents, next);
    forall p: u32
      ensures Ids(t)[p] + FreeTimes(Alloc([], 42), p) == if 1 <= p < 42 then 1 else 0
    {
      WideKidIds(ents, next, 0, p);
      assert t.kids[0..] == t.kids;
    }
  }

  lemma {:induction false} EmptyKids(kids: seq<Tree>)
    requires forall j :: 0 <= j < |kids| ==> kids[j].Leaf? && kids[j].ents == []
    ensures Flat(kids) == []
    decreases kids
  {
    if kids != [] {
      EmptyKids(kids[1..]);
    }
  }

  lemma WideEntries(ents: seq<Entry>, next: u32)
    ensures Entries(Wide(ents, next)) == ents
  {
    hide Flat;
    var kids := Wide(ents, next).kids;
    EmptyKids(kids[..19]);
    EmptyKids(kids[20..]);
    FlatAround(kids, 19);
  }

  lemma OneBinding(e: Entry)
    ensures ToMap([e]) == map[e.key := e.val]
  {
    assert [e][..0] == [];
    assert ToMap([e][..0]) == map[];
  }

  // ---------- a run that departs ----------

  /** Nothing is wrong to begin with: a whole chain, no lost page, and a deadline for the one key stored. */
  lemma FullIsClean()
    ensures CleanSession(FULL_SESSION) && NoLeak(FULL_SESSION.db.t, FULL_SESSION.db.a)
    ensures Contents(FULL_SESSION.db.t) == map[OLD.key := OLD.val]
  {
    hide WF, Owned, NoLeak, TreeCells, Entries;
    WideIsWhole(OLD);
    WideOwned([OLD], 22);
    WideEntries([OLD], 22);
    OneBinding(OLD);
    assert LeftDepth(FULL_SESSION.db.t) == 2 by { assert Wide([OLD], 22).kids[0].Leaf?; }
    assert GoodTree(FULL_SESSION.db.t, FULL_SESSION.db.a);
    assert Chained(FULL_SESSION.db.t);
    assert Whole(FULL_SESSION.chain, FULL_SESSION.db.t);
  }

  /** Page 21 loses its only entry, or gets its first. */
  lemma OnPage21(e: Entry, next: u32, a: Alloc)
    requires |e.key| >= 2 && e.key[0] == 5 && e.key[1] > 18 && EntrySize(e) <= CELL_AREA_SIZE
    ensures DeleteTree(Wide([e], next), e.key) == Wide([], next)
    ensures PutTree(Wide([], next), e.key, e.val, a) == Done(Wide([e], next), a)
  {
    hide Less, Seps, LeafSize;
    GoesTo21(e.key);
    OneCell(e);
    var some, none := Wide([e], next), Wide([], next);
    assert some.kids[19] == Leaf(21, [e], next) && none.kids[19] == Leaf(21, [], next);
    assert Remove([e], e.key) == [];
    assert Upsert([], e.key, e.val) == [e];
    assert LeafSize([e]) <= CELL_AREA_SIZE;
    assert some.kids[19 := none.kids[19]] == none.kids && none.kids[19 := some.kids[19]] == some.kids;
    var r := Done(some.kids[19], a);
    assert Insert(none.kids[19], e.key, e.val, a) == r;
    assert Insert(none, e.key, e.val, a) == AdoptChild(none, 19, r);
  }

  /** The Put that loses the key stored, then the deletion of what it left, then a later key in its place. */
  const LOSE := PutReq(EARLIER.key, EARLIER.val, 0)
  const CLEAR := DeleteReq(EARLIER.key)
  const REFILL := PutReq(LATER.key, LATER.val, 0)
  const RETRY := PutReq(OLD.key, OLD.val, 0)

  lemma Order()
    ensures Less(EARLIER.key, OLD.key) && Less(OLD.key, LATER.key)
    ensures EARLIER.key != OLD.key && OLD.key != LATER.key
  {
    assert PartsBelow(EARLIER.key, OLD.key, 2);
    PartsBelowIsLess(EARLIER.key, OLD.key, 0, 2);
    LessAtSecond(OLD.key, LATER.key);
    assert OLD.key[1] != LATER.key[1];
  }

  lemma Lost(now: int)
    ensures FateOf(FULL_SESSION.db.t, EARLIER.key, EARLIER.val).Breaks?
    ensures var s := Next(FULL_SESSION, LOSE, now);
            s.db == Db(Wide([EARLIER], 42), Alloc([], 44)) && s.ttls == map[OLD.key := DEADLINE]
            && s.chain == AfterPut(FULL_SESSION.chain, FULL_SESSION.db.t, EARLIER.key, EARLIER.val, Alloc([], 42))
  {
    hide AfterPut, PutTree, TreeCells, Less, FateOf, Keeps, LeafChange, LeafFor;
    Order();
    Overflow(EARLIER, OLD, 22, 42);
  }

  lemma Cleared(s: Session, now: int)
    requires s.db == Db(Wide([EARLIER], 42), Alloc([], 44)) && s.ttls == map[OLD.key := DEADLINE]
    ensures Next(s, CLEAR, now).db == Db(Wide([], 42), Alloc([], 44))
    ensures Next(s, CLEAR, now).ttls == map[OLD.key := DEADLINE]
  {
    hide AfterDelete, DeleteTree, Less;
    Order();
    OnPage21(EARLIER, 42, Alloc([], 44));
  }

  lemma Refilled(s: Session, now: int)
    requires s.db == Db(Wide([], 42), Alloc([], 44)) && s.ttls == map[OLD.key := DEADLINE]
    ensures Next(s, REFILL, now).db == Db(Wide([LATER], 42), Alloc([], 44))
    ensures Next(s, REFILL, now).ttls == map[OLD.key := DEADLINE]
  {
    hide AfterPut, PutTree, Less;
    Order();
    OnPage21(LATER, 42, Alloc([], 44));
  }

  lemma Retried(s: Session, now: int)
    requires s.db == Db(Wide([LATER], 42), Alloc([], 44)) && s.ttls == map[OLD.key := DEADLINE]
    ensures Departs(s, RETRY, now)
    ensures LazyOf(Next(s, RETRY, now)) == Expiry.Lazy(map[OLD.key := OLD.val], map[OLD.key := DEADLINE])
  {
    hide AfterPut, PutTree, Less, FateOf, Keeps, Entries, LeafChange, LeafFor;
    Order();
    Overflow(OLD, LATER, 42, 44);
    WideEntries([LATER], 42);
    OneBinding(LATER);
    WideEntries([OLD], 44);
    OneBinding(OLD);
  }

  /**
   A lost key's deadline stays about, and comes to apply to a Put without TTL
   that failed and kept its binding: the key is there, and later it is not.
   */
  lemma DeadlineOutlivesKey(now: int)
    requires now <= DEADLINE
    ensures CleanSession(FULL_SESSION)
    ensures var lost := Next(FULL_SESSION, LOSE, now);
            var s := Next(Next(lost, CLEAR, now), REFILL, now);
            var after := Next(s, RETRY, now);
            && OLD.key !in Contents(lost.db.t)
            && GoodSession(s) && AnswerTo(s, RETRY, now) == Expiry.Failed && Departs(s, RETRY, now)
            && AnswerTo(after, GetReq(OLD.key), now) == Expiry.Value(Some(OLD.val))
            && AnswerTo(after, GetReq(OLD.key), DEADLINE + 1) == Expiry.Value(None)
  {
    hide Next, Departs, GoodSession, AnswerTo, CleanSession, Wide, Contents, Entries;
    FullIsClean();
    CleanIsGood(FULL_SESSION);
    Lost(now);
    LostIsGone();
    var lost := Next(FULL_SESSION, LOSE, now);
    NextGood(FULL_SESSION, LOSE, now);
    Cleared(lost, now);
    NextGood(lost, CLEAR, now);
    var empty := Next(lost, CLEAR, now);
    Refilled(empty, now);
    NextGood(empty, REFILL, now);
    var s := Next(empty, REFILL, now);
    Retried(s, now);
    RetryFails(s, now);
    GetSees(Next(s, RETRY, now), now);
  }

  lemma LostIsGone()
    ensures Contents(Wide([EARLIER], 42)) == map[EARLIER.key := EARLIER.val] && EARLIER.key != OLD.key
  {
    hide Entries;
    Order();
    WideEntries([EARLIER], 42);
    OneBinding(EARLIER);
  }

  lemma RetryFails(s: Session, now: int)
    requires GoodSession(s) && Roomy(s.db.a) && Departs(s, RETRY, now)
    ensures AnswerTo(s, RETRY, now) == Expiry.Failed
  {
    hide GoodSession, AnswerTo;
    PutAnswer(s, RETRY.k, RETRY.v, RETRY.ttl, now);
  }

  lemma GetSees(s: Session, now: int)
    requires Shaped(s.db.t) && LazyOf(s) == Expiry.Lazy(map[OLD.key := OLD.val], map[OLD.key := DEADLINE])
    requires now <= DEADLINE
    ensures AnswerTo(s, GetReq(OLD.key), now) == Expiry.Value(Some(OLD.val))
    ensures AnswerTo(s, GetReq(OLD.key), DEADLINE + 1) == Expiry.Value(None)
  {
  }

  /** What the same overflow took out of the tree is still on the chain: Keys lists a key that Get does not find. */
  lemma KeysListsLostKey(now: int)
    requires now <= DEADLINE
    ensures CleanSession(FULL_SESSION)
    ensures var lost := Next(FULL_SESSION, LOSE, now);
            && GoodSession(lost) && Departs(lost, KeysReq, now)
            && AnswerTo(lost, GetReq(OLD.key), now) == Expiry.Value(None)
            && AnswerTo(lost, KeysReq, now) == Expiry.Listing(multiset{EARLIER.key, OLD.key})
  {
    hide GoodSession, CleanSession, Wide, Contents, Entries, Less, EntriesAlong, AfterPut, Shown, FateOf, ShowsStray;
    FullIsClean();
    CleanIsGood(FULL_SESSION);
    Lost(now);
    LostIsGone();
    NextGood(FULL_SESSION, LOSE, now);
    LostOnChain(now);
    assert Expiry.Unexpired(LazyOf(Next(FULL_SESSION, LOSE, now)), [EARLIER.key, OLD.key], now)
           == [EARLIER.key, OLD.key] by {
      Expiry.UnexpiredFrom(LazyOf(Next(FULL_SESSION, LOSE, now)), [EARLIER.key, OLD.key], 1, now);
    }
  }

  /** The leaf with the lost key comes right behind the one it was split from. */
  lemma LostOnChain(now: int)
    requires now <= DEADLINE && CleanSession(FULL_SESSION) && GoodSession(Next(FULL_SESSION, LOSE, now))
    ensures var lost := Next(FULL_SESSION, LOSE, now);
            Shown(lost.chain) == Some([EARLIER.key, OLD.key]) && ShowsStray(lost, now)
  {
    hide GoodTree, Wide, Contents, Less, EntriesAlong, AfterPut, FateOf, Entries, Strays, PutTree, Next;
    var lost := Next(FULL_SESSION, LOSE, now);
    Lost(now);
    LostAlong();
    WideEntries([EARLIER], 42);
    ListingIs(lost.chain, lost.db.t);
    SecondLeftOver(EARLIER, OLD, Strays(lost.chain, lost.db.t));
    TwoKeys(EARLIER, OLD);
  }

  lemma SecondLeftOver(a: Entry, b: Entry, rest: seq<Entry>)
    requires multiset([a, b]) == multiset([a]) + multiset(rest)
    ensures b in rest
  {
    assert multiset([a, b]) == multiset([a]) + multiset{b};
    assert b in multiset(rest);
  }

  lemma TwoKeys(a: Entry, b: Entry)
    ensures KeysOf([a, b]) == [a.key, b.key]
  {
  }

  lemma LostAlong()
    requires CleanSession(FULL_SESSION)
    ensures var c := AfterPut(FULL_SESSION.chain, FULL_SESSION.db.t, EARLIER.key, EARLIER.val, Alloc([], 42));
            c.end == 0 && EntriesAlong(c.cells) == [EARLIER, OLD]
  {
    hide GoodTree, Wide, Contents, Less, EntriesAlong, AfterPut, FateOf, Keeps, LeafChange, Upsert, Entries,
         PutTree, LeafFor;
    Order();
    Overflow(EARLIER, OLD, 22, 42);
    PairFate(EARLIER, OLD);
    WideEntries([OLD], 22);
    ListsAllAfter(FULL_SESSION.chain, FULL_SESSION.db.t, FULL_SESSION.db.a, EARLIER.key, EARLIER.val);
  }

  // ---------- a chain that ends at a page nobody wrote ----------

  const LOSING_SESSION := Session(Db(LOSING_TREE, Alloc([], 2)), Chain(TreeCells(LOSING_TREE), 0), map[])

  /** After this failed Put, as after every one that breaks the upper half of a leaf, Keys reports an error. */
  lemma KeysCannotList(now: int)
    ensures CleanSession(LOSING_SESSION) && UpperHalfBreaks(LOSING_TREE.ents, HUGE_KEY, HUGE_VALUE)
    ensures var broken := Next(LOSING_SESSION, PutReq(HUGE_KEY, HUGE_VALUE, 0), now);
            AnswerTo(broken, KeysReq, now) == Expiry.Unreadable && Departs(broken, KeysReq, now)
  {
    hide Less, LeafSize, Position, Upsert, PutTree, Contents;
    FailedPutCanLoseData();
    LosingUpperHalf();
  }
}
