/** Whole runs of Put and Delete on a database that began as a fresh file. */
module TreeRuns {
  import opened ByteStrings
  import opened NodeFormat
  import opened SortedEntries
  import opened PageAllocation
  import opened Trees
  import opened TreeShape
  import opened TreeContents
  import opened TreePages
  import opened TreeChain
  import opened TreeCapacity
  import opened TreeFailure
  import opened TreeSummary

  /** The tree in the file and the pages that are left. */
  datatype Db = Db(t: Tree, a: Alloc)

  datatype DbOp = PutOp(k: bytes, v: bytes) | DeleteOp(k: bytes)

  /** An empty leaf on page 1 is all a new database has. */
  const FRESH_DB := Db(Leaf(1, [], 0), Alloc([], 2))

  /** The state afterwards and whether the operation reported success. */
  function DbStep(s: Db, op: DbOp): (Db, bool)
    requires Shaped(s.t)
  {
    match op
    case PutOp(k, v) =>
      if !Legal(k, v) then (s, false)
      else
        var r := PutTree(s.t, k, v, s.a);
        (Db(r.t, r.a), r.Done?)
    case DeleteOp(k) =>
      (Db(DeleteTree(s.t, k), s.a), Get(s.t, k).Some?)
  }

  /** What every operation keeps, failed Puts included. */
  ghost predicate Good(s: Db) {
    GoodTree(s.t, s.a)
  }

  /** Everything the tree promises as long as no Put of a new key has failed: also a whole chain and no lost page. */
  ghost predicate Sound(s: Db) {
    GoodTree(s.t, s.a) && Chained(s.t) && NoLeak(s.t, s.a)
  }

  /** The operation succeeded, or changed nothing at all. */
  ghost predicate CleanStep(s: Db, op: DbOp)
    requires Shaped(s.t)
  {
    Roomy(s.a) && (DbStep(s, op).1 || DbStep(s, op).0 == s)
  }

  lemma FreshIsSound()
    ensures Sound(FRESH_DB) && Contents(FRESH_DB.t) == map[] && SmallTree(FRESH_DB.t)
  {
  }

  /** Only a Put of a new key that breaks a node fails and changes something. */
  lemma CleanStepIff(s: Db, op: DbOp)
    requires Good(s) && Roomy(s.a)
    ensures CleanStep(s, op) <==>
            !(op.PutOp? && Legal(op.k, op.v) && op.k !in Contents(s.t) && FateOf(s.t, op.k, op.v).Breaks?)
  {
    hide Contents, FateOf, GoodTree;
    match op
    case PutOp(k, v) =>
      if Legal(k, v) {
        PutSummary(s.t, s.a, k, v);
      }
    case DeleteOp(k) =>
      DeleteSummary(s.t, s.a, k);
  }

  /** One operation on the map. A Put that reports failure leaves it; a Delete of an absent key does too. */
  function MapStep(m: map<bytes, bytes>, op: DbOp, ok: bool): map<bytes, bytes> {
    match op
    case PutOp(k, v) => if ok then m[k := v] else m
    case DeleteOp(k) => m - {k}
  }

  /** What one operation may do to the map, given its answer. A failed Put of a new key may lose bindings. */
  ghost predicate MapStepOk(m: map<bytes, bytes>, op: DbOp, ok: bool, m': map<bytes, bytes>) {
    match op
    case PutOp(k, v) =>
      if ok then m' == m[k := v]
      else if k in m || !Legal(k, v) then m' == m
      else OnlyLoses(m, m', k, v)
    case DeleteOp(k) => m' == m - {k} && (ok <==> k in m)
  }

  lemma StepGood(s: Db, op: DbOp)
    requires Good(s) && Roomy(s.a)
    ensures Good(DbStep(s, op).0)
    ensures MapStepOk(Contents(s.t), op, DbStep(s, op).1, Contents(DbStep(s, op).0.t))
  {
    hide Contents, FateOf, GoodTree, FirstLeaf, Chained, NoLeak, LostPages, OnlyLoses, FailsBeforeWriting;
    match op
    case PutOp(k, v) =>
      if Legal(k, v) {
        PutSummary(s.t, s.a, k, v);
      }
    case DeleteOp(k) =>
      DeleteSummary(s.t, s.a, k);
  }

  lemma CleanStepSound(s: Db, op: DbOp)
    requires Sound(s) && CleanStep(s, op)
    ensures Sound(DbStep(s, op).0)
    ensures Contents(DbStep(s, op).0.t) == MapStep(Contents(s.t), op, DbStep(s, op).1)
    ensures op.DeleteOp? ==> (DbStep(s, op).1 <==> op.k in Contents(s.t))
  {
    hide Contents, FateOf, GoodTree, FirstLeaf, Chained, NoLeak, LostPages, OnlyLoses, FailsBeforeWriting;
    match op
    case PutOp(k, v) =>
      if Legal(k, v) {
        PutSummary(s.t, s.a, k, v);
      }
    case DeleteOp(k) =>
      DeleteSummary(s.t, s.a, k);
  }

  // ---------- runs ----------

  function DbRun(s: Db, ops: seq<DbOp>): Db
    requires Shaped(s.t)
    ensures Shaped(DbRun(s, ops).t)
    decreases ops
  {
    if ops == [] then s
    else
      var r := DbStep(DbRun(s, ops[..|ops| - 1]), ops[|ops| - 1]).0;
      StepShaped(DbRun(s, ops[..|ops| - 1]), ops[|ops| - 1]);
      r
  }

  lemma StepShaped(s: Db, op: DbOp)
    requires Shaped(s.t)
    ensures Shaped(DbStep(s, op).0.t)
  {
    match op
    case PutOp(k, v) => PutShaped(s.t, k, v, s.a);
    case DeleteOp(k) => DeleteShaped(s.t, k);
  }

  /** Which operations of the run reported success. */
  function Oks(s: Db, ops: seq<DbOp>): (r: seq<bool>)
    requires Shaped(s.t)
    ensures |r| == |ops|
    decreases ops
  {
    if ops == [] then []
    else Oks(s, ops[..|ops| - 1]) + [DbStep(DbRun(s, ops[..|ops| - 1]), ops[|ops| - 1]).1]
  }

  function MapRun(m: map<bytes, bytes>, ops: seq<DbOp>, oks: seq<bool>): map<bytes, bytes>
    requires |ops| == |oks|
    decreases ops
  {
    if ops == [] then m
    else MapStep(MapRun(m, ops[..|ops| - 1], oks[..|ops| - 1]), ops[|ops| - 1], oks[|ops| - 1])
  }

  ghost predicate CleanRun(s: Db, ops: seq<DbOp>)
    requires Shaped(s.t)
  {
    forall i :: 0 <= i < |ops| ==> CleanStep(DbRun(s, ops[..i]), ops[i])
  }

  lemma CleanPrefix(s: Db, ops: seq<DbOp>)
    requires Shaped(s.t) && CleanRun(s, ops) && ops != []
    ensures CleanRun(s, ops[..|ops| - 1]) && CleanStep(DbRun(s, ops[..|ops| - 1]), ops[|ops| - 1])
  {
    hide DbStep, DbRun, CleanStep, Shaped;
    var front := ops[..|ops| - 1];
    forall i | 0 <= i < |front|
      ensures CleanStep(DbRun(s, front[..i]), front[i])
    {
      assert front[..i] == ops[..i];
    }
  }

  /**
   Over every run in which failing operations changed nothing, the database
   is sound throughout and means exactly the map its answers describe.
   */
  lemma {:induction false} RunRefinesMap(s: Db, ops: seq<DbOp>)
    requires Sound(s) && CleanRun(s, ops)
    ensures Sound(DbRun(s, ops))
    ensures Contents(DbRun(s, ops).t) == MapRun(Contents(s.t), ops, Oks(s, ops))
    decreases ops
  {
    if ops != [] {
      var front := ops[..|ops| - 1];
      CleanPrefix(s, ops);
      RunRefinesMap(s, front);
      CleanStepSound(DbRun(s, front), ops[|ops| - 1]);
      assert Oks(s, ops)[..|front|] == Oks(s, front);
    }
  }

  /** Put takes pages and gives none back. */
  lemma {:induction false} InsertFreesNothing(t: Tree, k: bytes, v: bytes, a: Alloc)
    requires Shaped(t) && a.free == []
    ensures Insert(t, k, v, a).a.free == []
    decreases t
  {
    hide Upsert, LeafSize, InnerSize, Present, InsertAt;
    if t.Leaf? {
      UpsertIsNotEmpty(t.ents, k, v);
    } else {
      InsertFreesNothing(t.kids[ChildIndex(t.seps, k)], k, v, a);
    }
  }

  lemma {:induction false} RunFreesNothing(s: Db, ops: seq<DbOp>)
    requires Shaped(s.t) && s.a.free == []
    ensures DbRun(s, ops).a.free == []
    decreases ops
  {
    if ops != [] {
      var was := DbRun(s, ops[..|ops| - 1]);
      RunFreesNothing(s, ops[..|ops| - 1]);
      match ops[|ops| - 1]
      case PutOp(k, v) => InsertFreesNothing(was.t, k, v, was.a);
      case DeleteOp(_) =>
    }
  }

  /** From a fresh file; every page of it but the header is then the tree's. */
  lemma FreshRunMeansMap(ops: seq<DbOp>)
    requires CleanRun(FRESH_DB, ops)
    ensures Sound(DbRun(FRESH_DB, ops))
    ensures Contents(DbRun(FRESH_DB, ops).t) == MapRun(map[], ops, Oks(FRESH_DB, ops))
    ensures var s := DbRun(FRESH_DB, ops);
            forall p: u32 :: Ids(s.t)[p] == if 1 <= p < s.a.count then 1 else 0
  {
    hide WF, Owned, Contents, DbRun, MapRun;
    FreshIsSound();
    RunRefinesMap(FRESH_DB, ops);
    RunFreesNothing(FRESH_DB, ops);
    var s := DbRun(FRESH_DB, ops);
    forall p: u32
      ensures Ids(s.t)[p] == if 1 <= p < s.a.count then 1 else 0
    {
      assert Ids(s.t)[p] + FreeTimes(s.a, p) == if 1 <= p < s.a.count then 1 else 0;
    }
  }

  // ---------- all runs ----------

  /**
   Every run, whatever fails in it: each step keeps the invariant and does to
   the map what its answer says; only a failed Put of a new key loses bindings.
   */
  lemma {:induction false} EveryRunGood(s: Db, ops: seq<DbOp>, n: nat)
    requires Good(s) && RoomyRun(s, ops) && n <= |ops|
    ensures Good(DbRun(s, ops[..n]))
    ensures n < |ops| ==> MapStepOk(Contents(DbRun(s, ops[..n]).t), ops[n], Oks(s, ops)[n],
                                    Contents(DbRun(s, ops[..n + 1]).t))
    decreases n
  {
    hide WF, Owned, Contents, DbStep, MapStepOk, Shaped;
    if n > 0 {
      EveryRunGood(s, ops, n - 1);
      StepGood(DbRun(s, ops[..n - 1]), ops[n - 1]);
      assert ops[..n][..n - 1] == ops[..n - 1];
    }
    if n < |ops| {
      StepGood(DbRun(s, ops[..n]), ops[n]);
      assert ops[..n + 1][..n] == ops[..n];
      OksAt(s, ops, n);
    }
  }

  /** Operation i wrote v under k, and nothing since has taken effect on k. */
  ghost predicate LastWrite(ops: seq<DbOp>, oks: seq<bool>, k: bytes, v: bytes, i: nat)
    requires |oks| == |ops|
  {
    && i < |ops| && ops[i] == PutOp(k, v)
    && forall j :: i < j < |ops| && ops[j].k == k ==> ops[j].PutOp? && !oks[j]
  }

  /** No run from a fresh file, whatever fails in it, makes a binding up or brings back an old one. */
  lemma {:induction false} EveryBindingWasLastWritten(ops: seq<DbOp>, k: bytes)
    requires RoomyRun(FRESH_DB, ops) && k in Contents(DbRun(FRESH_DB, ops).t)
    ensures exists i :: LastWrite(ops, Oks(FRESH_DB, ops), k, Contents(DbRun(FRESH_DB, ops).t)[k], i)
    decreases ops
  {
    hide WF, Owned, Contents, DbStep, Shaped;
    FreshIsSound();
    if ops != [] {
      var n := |ops| - 1;
      var front, oks := ops[..n], Oks(FRESH_DB, ops);
      EveryRunGood(FRESH_DB, ops, n);
      assert ops[..n + 1] == ops;
      var v, m := Contents(DbRun(FRESH_DB, ops).t)[k], Contents(DbRun(FRESH_DB, front).t);
      if ops[n] == PutOp(k, v) && (oks[n] || k !in m) {
        assert LastWrite(ops, oks, k, v, n);
      } else {
        assert k in m && m[k] == v;
        RoomyPrefix(FRESH_DB, ops);
        EveryBindingWasLastWritten(front, k);
        var i :| LastWrite(front, Oks(FRESH_DB, front), k, v, i);
        assert oks[..n] == Oks(FRESH_DB, front);
        assert LastWrite(ops, oks, k, v, i);
      }
    }
  }

  lemma RoomyPrefix(s: Db, ops: seq<DbOp>)
    requires Shaped(s.t) && RoomyRun(s, ops) && ops != []
    ensures RoomyRun(s, ops[..|ops| - 1])
  {
    hide DbRun, Shaped;
    var front := ops[..|ops| - 1];
    forall i | 0 <= i < |front|
      ensures Roomy(DbRun(s, front[..i]).a)
    {
      assert front[..i] == ops[..i];
    }
  }

  // ---------- runs of small entries ----------

  ghost predicate SmallOps(ops: seq<DbOp>) {
    forall i :: 0 <= i < |ops| && ops[i].PutOp? ==> SmallEntry(Entry(ops[i].k, ops[i].v))
  }

  ghost predicate RoomyRun(s: Db, ops: seq<DbOp>)
    requires Shaped(s.t)
  {
    forall i :: 0 <= i < |ops| ==> Roomy(DbRun(s, ops[..i]).a)
  }

  lemma SmallStepClean(s: Db, op: DbOp)
    requires Sound(s) && SmallTree(s.t) && Roomy(s.a)
    requires op.PutOp? ==> SmallEntry(Entry(op.k, op.v))
    ensures CleanStep(s, op) && SmallTree(DbStep(s, op).0.t)
    ensures op.PutOp? && op.k !in Contents(s.t) ==> DbStep(s, op).1
  {
    match op
    case PutOp(k, v) =>
      SmallPutSucceeds(s.t, LeftDepth(s.t), k, v, s.a);
    case DeleteOp(k) =>
      DeleteKeepsSmall(s.t, k);
      if Get(s.t, k).None? {
        RemoveAbsent(s.t, k);
      }
  }

  lemma {:induction false} OksAt(s: Db, ops: seq<DbOp>, i: nat)
    requires Shaped(s.t) && i < |ops|
    ensures Oks(s, ops)[i] == DbStep(DbRun(s, ops[..i]), ops[i]).1
    decreases ops
  {
    var front := ops[..|ops| - 1];
    if i < |front| {
      OksAt(s, front, i);
      assert front[..i] == ops[..i];
    }
  }

  lemma {:induction false} SmallPrefix(s: Db, ops: seq<DbOp>, n: nat)
    requires Sound(s) && SmallTree(s.t) && SmallOps(ops) && RoomyRun(s, ops) && n <= |ops|
    ensures Sound(DbRun(s, ops[..n])) && SmallTree(DbRun(s, ops[..n]).t)
    decreases n
  {
    hide WF, Owned, NoLeak, SmallTree, Contents, CleanStep, DbStep;
    if n > 0 {
      SmallPrefix(s, ops, n - 1);
      var was := DbRun(s, ops[..n - 1]);
      SmallStepClean(was, ops[n - 1]);
      CleanStepSound(was, ops[n - 1]);
      assert ops[..n][..n - 1] == ops[..n - 1];
    }
  }

  /**
   With at most 137 bytes of key and value per entry no run ever meets an
   overflow except on lengthening a value, where nothing is changed; every
   Put of a new key succeeds.
   */
  lemma SmallRunNeverBreaks(s: Db, ops: seq<DbOp>)
    requires Sound(s) && SmallTree(s.t) && SmallOps(ops) && RoomyRun(s, ops)
    ensures CleanRun(s, ops) && Sound(DbRun(s, ops))
    ensures forall i :: 0 <= i < |ops| && ops[i].PutOp? && ops[i].k !in Contents(DbRun(s, ops[..i]).t)
                        ==> Oks(s, ops)[i]
  {
    forall i | 0 <= i < |ops|
      ensures CleanStep(DbRun(s, ops[..i]), ops[i])
      ensures ops[i].PutOp? && ops[i].k !in Contents(DbRun(s, ops[..i]).t) ==> Oks(s, ops)[i]
    {
      SmallPrefix(s, ops, i);
      SmallStepClean(DbRun(s, ops[..i]), ops[i]);
      OksAt(s, ops, i);
    }
    SmallPrefix(s, ops, |ops|);
    assert ops[..|ops|] == ops;
  }

  /** From a fresh file: such a run means exactly the map that its answers describe. */
  lemma FreshSmallRunMeansMap(ops: seq<DbOp>)
    requires SmallOps(ops) && RoomyRun(FRESH_DB, ops)
    ensures Sound(DbRun(FRESH_DB, ops))
    ensures Contents(DbRun(FRESH_DB, ops).t) == MapRun(map[], ops, Oks(FRESH_DB, ops))
  {
    FreshIsSound();
    SmallRunNeverBreaks(FRESH_DB, ops);
    FreshRunMeansMap(ops);
  }

  // ---------- 137 is exact ----------

  /** 28 cells of 5 bytes, 27 of 141, then cells of 142: at most 138 bytes of key and value. */
  function TightEntry(i: byte): Entry {
    Entry([i], Zeros(if i < 28 then 0 else if i < 55 then 136 else 137))
  }

  function TightEntries(n: nat): seq<Entry>
    requires n <= 57
  {
    seq(n, i requires 0 <= i < n => TightEntry(i))
  }

  function TightOps(n: nat): seq<DbOp>
    requires n <= 57
  {
    seq(n, i requires 0 <= i < n => PutOp(TightEntry(i).key, TightEntry(i).val))
  }

  function TightSize(n: nat): nat
    requires n <= 57
  {
    if n <= 28 then 5 * n else if n <= 55 then 140 + 141 * (n - 28) else 3947 + 142 * (n - 55)
  }

  lemma {:induction false} TightEntriesSize(n: nat)
    requires n <= 57
    ensures LeafSize(TightEntries(n)) == TightSize(n)
    decreases n
  {
    if n > 0 {
      TightEntriesSize(n - 1);
      assert TightEntries(n) == TightEntries(n - 1) + [TightEntry(n - 1)];
      LeafSizeConcat(TightEntries(n - 1), [TightEntry(n - 1)]);
      assert LeafSize([TightEntry(n - 1)]) == EntrySize(TightEntry(n - 1)) + LeafSize([]);
    }
  }

  lemma TightUpsert(n: nat)
    requires n < 57
    ensures Upsert(TightEntries(n), TightEntry(n).key, TightEntry(n).val) == TightEntries(n + 1)
    ensures !Present(TightEntries(n), TightEntry(n).key)
  {
    var ents := TightEntries(n);
    forall j | 0 <= j < n
      ensures Less(ents[j].key, TightEntry(n).key)
    {
      assert ents[j] == TightEntry(j);
    }
    PositionUnique(ents, TightEntry(n).key, n);
    assert TightEntries(n + 1) == ents + [TightEntry(n)];
  }

  lemma {:induction false} TightRun(n: nat)
    requires n <= 56
    ensures DbRun(FRESH_DB, TightOps(n)) == Db(Leaf(1, TightEntries(n), 0), Alloc([], 2))
    ensures forall i :: 0 <= i < n ==> Oks(FRESH_DB, TightOps(n))[i]
    decreases n
  {
    if n > 0 {
      TightRun(n - 1);
      assert TightOps(n)[..n - 1] == TightOps(n - 1);
      TightUpsert(n - 1);
      TightEntriesSize(n);
      assert TightOps(n)[n - 1] == PutOp(TightEntry(n - 1).key, TightEntry(n - 1).val);
    }
  }

  lemma TightKeyAt(n: nat, j: nat)
    requires j < n <= 57
    ensures FindKey(TightEntries(n), [j]) == j
  {
    forall i | 0 <= i < n
      ensures TightEntries(n)[i].key == [i]
    {
    }
    FindKeyUnique(TightEntries(n), [j], j);
  }

  lemma TightKeyAbsent(n: nat, j: nat)
    requires n <= j < 57
    ensures FindKey(TightEntries(n), [j]) == n
  {
    forall i | 0 <= i < n
      ensures TightEntries(n)[i].key != [j]
    {
      assert TightEntries(n)[i].key[0] == i;
    }
    FindKeyUnique(TightEntries(n), [j], n);
  }

  /** The 57th Put: the lower 28 entries fit and are written, the upper 29 do not. */
  lemma TightOverflow()
    ensures InsertLeaf(Leaf(1, TightEntries(56), 0), TightEntry(56).key, TightEntry(56).val, Alloc([], 2))
            == Failed(Leaf(1, TightEntries(28), 2), Alloc([], 3))
  {
    TightUpsert(56);
    TightEntriesSize(57);
    TightEntriesSize(28);
    var all := TightEntries(57);
    assert all[..28] == TightEntries(28);
    assert all == all[..28] + all[28..];
    LeafSizeConcat(all[..28], all[28..]);
  }

  /** After a run of successful Puts from a fresh file, last stores a new key, fails, and victim is gone. */
  ghost predicate LosesData(ops: seq<DbOp>, last: DbOp, victim: bytes) {
    && (forall i :: 0 <= i < |ops| ==> ops[i].PutOp? && |ops[i].k| + |ops[i].v| <= SAFE_SIZE + 1)
    && last.PutOp? && |last.k| + |last.v| <= SAFE_SIZE + 1
    && (forall i :: 0 <= i < |ops| ==> Oks(FRESH_DB, ops)[i])
    && var s := DbRun(FRESH_DB, ops);
       && Get(s.t, last.k).None? && Get(s.t, victim).Some?
       && !DbStep(s, last).1
       && Shaped(DbStep(s, last).0.t) && Get(DbStep(s, last).0.t, victim).None?
  }

  lemma TightBreaks(n: nat, e: Entry)
    requires n == 56 && e == TightEntry(n)
    ensures LosesData(TightOps(n), PutOp(e.key, e.val), [28])
  {
    hide DbRun, Oks, CompareFrom, LeafSize, Upsert, Position, FindKey, SplitLeaf, Contents;
    TightRun(n);
    TightOverflow();
    StepShaped(DbRun(FRESH_DB, TightOps(n)), PutOp(e.key, e.val));
    TightKeyAbsent(n, n);
    TightKeyAt(n, 28);
    TightKeyAbsent(28, 28);
  }

  /** One byte more is too much. */
  lemma SafeSizeIsExact()
    ensures exists ops, last, victim :: LosesData(ops, last, victim)
  {
    TightBreaks(56, TightEntry(56));
  }
}
