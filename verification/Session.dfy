/** The engine as a machine, and when its clients can tell it from a map that drops each key in time. */
module Sessions {
  import opened Wrappers
  import opened ByteStrings
  import opened NodeFormat
  import opened SortedEntries
  import opened PageAllocation
  import opened Trees
  import opened TreeShape
  import opened TreeContents
  import opened TreePages
  import opened TreeChain
  import opened TreeCapacity
  import opened TreeFailure
  import opened TreeKeeps
  import opened LeafWalks
  import opened Chains
  import opened TreeSummary
  import opened TreeRuns
  import Expiry

  datatype Session = Session(db: Db, chain: Chain, ttls: map<bytes, int>)

  datatype Request = PutReq(k: bytes, v: bytes, ttl: Expiry.i64) | GetReq(k: bytes) | HasReq(k: bytes)
                   | DeleteReq(k: bytes) | KeysReq | NukeReq

  const FRESH_SESSION := Session(FRESH_DB, Chain([Cell(1, [])], 0), map[])

  function LazyOf(s: Session): Expiry.Lazy {
    Expiry.Lazy(Contents(s.db.t), s.ttls)
  }

  /** True of every state, failed Puts behind it or not. */
  ghost predicate GoodSession(s: Session) {
    GoodTree(s.db.t, s.db.a) && ShowsTree(s.chain, s.db.t) && ChainInUse(s.chain, s.db.a)
  }

  // ---------- one request ----------

  function Buried(s: Session, k: bytes): (r: Session)
    requires Shaped(s.db.t)
    ensures Shaped(r.db.t)
  {
    DeleteShaped(s.db.t, k);
    Session(Db(DeleteTree(s.db.t, k), s.db.a), AfterDelete(s.chain, s.db.t, k), s.ttls - {k})
  }

  function AfterPutReq(s: Session, k: bytes, v: bytes, ttl: Expiry.i64, now: int): (r: Session)
    requires Shaped(s.db.t)
    ensures Shaped(r.db.t)
  {
    PutShaped(s.db.t, k, v, s.db.a);
    var r := PutTree(s.db.t, k, v, s.db.a);
    Session(Db(r.t, r.a), AfterPut(s.chain, s.db.t, k, v, s.db.a),
            if r.Failed? then s.ttls
            else if ttl > 0 then s.ttls[k := Expiry.Deadline(now, ttl)] else s.ttls - {k})
  }

  function Next(s: Session, q: Request, now: int): (r: Session)
    requires Shaped(s.db.t)
    ensures Shaped(r.db.t)
  {
    match q
    case PutReq(k, v, ttl) => if Legal(k, v) then AfterPutReq(s, k, v, ttl, now) else s
    case GetReq(k) => if Expiry.Expired(LazyOf(s), k, now) then Buried(s, k) else s
    case HasReq(k) => if Expiry.Expired(LazyOf(s), k, now) then Buried(s, k) else s
    case DeleteReq(k) => Buried(s, k)
    case KeysReq => s
    case NukeReq => FRESH_SESSION
  }

  /** What an overflow lost and whether it left the new binding, seen from the maps before and after. */
  function OutcomeOf(m: map<bytes, bytes>, m': map<bytes, bytes>, k: bytes): Expiry.Outcome {
    Expiry.Overflowed(m.Keys - m'.Keys, k in m' && k !in m)
  }

  /** The keys that the leaves show, None when an unwritten page is in the way. */
  function Shown(c: Chain): Option<seq<bytes>> {
    if c.end == 0 then Some(KeysOf(EntriesAlong(c.cells))) else None
  }

  /** The request together with what the tree makes of it. */
  function OpFor(s: Session, q: Request): Expiry.Op
    requires Shaped(s.db.t)
  {
    match q
    case PutReq(k, v, ttl) =>
      var r := PutTree(s.db.t, k, v, s.db.a);
      Expiry.PutOp(k, v, ttl, if Legal(k, v) && r.Failed? then OutcomeOf(Contents(s.db.t), Contents(r.t), k)
                              else Expiry.Took)
    case GetReq(k) => Expiry.GetOp(k)
    case HasReq(k) => Expiry.HasOp(k)
    case DeleteReq(k) => Expiry.DeleteOp(k)
    case KeysReq => Expiry.KeysOp(Shown(s.chain))
    case NukeReq => Expiry.NukeOp
  }

  function AnswerTo(s: Session, q: Request, now: int): Expiry.Answer
    requires Shaped(s.db.t)
  {
    Expiry.LazyStep(LazyOf(s), OpFor(s, q), now).1
  }

  lemma OutcomeFits(m: map<bytes, bytes>, m': map<bytes, bytes>, k: bytes, v: bytes)
    requires if k in m then m' == m else OnlyLoses(m, m', k, v)
    ensures m' == Expiry.After(m, k, v, OutcomeOf(m, m', k))
  {
    var r := Expiry.After(m, k, v, OutcomeOf(m, m', k));
    assert m'.Keys == r.Keys;
  }

  lemma FreePagesApart(t: Tree, a: Alloc)
    requires Owned(t, a)
    ensures forall p: u32 :: FreeTimes(a, p) <= if 1 <= p < a.count then 1 else 0
  {
    forall p: u32
      ensures FreeTimes(a, p) <= if 1 <= p < a.count then 1 else 0
    {
      assert Ids(t)[p] + FreeTimes(a, p) <= if 1 <= p < a.count then 1 else 0;
    }
  }

  lemma BuriedGood(s: Session, k: bytes)
    requires GoodSession(s)
    ensures GoodSession(Buried(s, k)) && LazyOf(Buried(s, k)) == Expiry.Forget(LazyOf(s), k)
  {
    hide WF, Owned, ShowsTree, ChainInUse, Contents, DeleteTree, AfterDelete;
    DeleteSummary(s.db.t, s.db.a, k);
    DeleteShowsTree(s.chain, s.db.t, k, s.db.a);
    DeleteChainInUse(s.chain, s.db.t, k, s.db.a);
  }

  lemma PutGood(s: Session, k: bytes, v: bytes, ttl: Expiry.i64, now: int)
    requires GoodSession(s) && Roomy(s.db.a) && Legal(k, v)
    ensures GoodSession(AfterPutReq(s, k, v, ttl, now))
  {
    hide WF, Owned, ShowsTree, ChainInUse, Contents, PutTree, AfterPut, FreeTimes, LostPages;
    var t, a := s.db.t, s.db.a;
    PutSummary(t, a, k, v);
    RoomForPut(t, a);
    FreePagesApart(t, a);
    PutShowsTree(s.chain, t, LeftDepth(t), k, v, a);
    PutChainInUse(s.chain, t, LeftDepth(t), k, v, a);
  }

  lemma FreshIsGood()
    ensures GoodSession(FRESH_SESSION) && Chained(FRESH_DB.t) && Whole(FRESH_SESSION.chain, FRESH_DB.t)
    ensures LazyOf(FRESH_SESSION) == Expiry.Lazy(map[], map[]) && SmallTree(FRESH_DB.t)
  {
    FreshIsSound();
    assert TreeCells(FRESH_DB.t) == [Cell(1, [])];
    WholeShows(FRESH_SESSION.chain, FRESH_DB.t);
    OwnedCells(FRESH_DB.t, FRESH_DB.a);
  }

  lemma NextGood(s: Session, q: Request, now: int)
    requires GoodSession(s) && Roomy(s.db.a)
    ensures GoodSession(Next(s, q, now))
  {
    hide WF, Owned, ShowsTree, ChainInUse, Contents, PutTree, AfterPut, DeleteTree, AfterDelete;
    match q
    case PutReq(k, v, ttl) =>
      if Legal(k, v) {
        PutGood(s, k, v, ttl, now);
      }
    case GetReq(k) => BuriedGood(s, k);
    case HasReq(k) => BuriedGood(s, k);
    case DeleteReq(k) => BuriedGood(s, k);
    case KeysReq =>
    case NukeReq => FreshIsGood();
  }

  /** In every state the engine does what the lazy machine does, given what the tree makes of the request. */
  lemma NextIsStep(s: Session, q: Request, now: int)
    requires GoodSession(s) && Roomy(s.db.a)
    ensures Expiry.LazyStep(LazyOf(s), OpFor(s, q), now) == (LazyOf(Next(s, q, now)), AnswerTo(s, q, now))
  {
    hide WF, Owned, ShowsTree, ChainInUse, Contents, PutTree, AfterPut, DeleteTree, AfterDelete, OutcomeOf,
         Expiry.After, LostPages, FateOf, FailsBeforeWriting;
    match q
    case PutReq(k, v, ttl) =>
      if Legal(k, v) {
        PutSummary(s.db.t, s.db.a, k, v);
        var r := PutTree(s.db.t, k, v, s.db.a);
        if r.Failed? {
          OutcomeFits(Contents(s.db.t), Contents(r.t), k, v);
          OutcomeOverflowed(Contents(s.db.t), Contents(r.t), k);
        }
      }
    case GetReq(k) => BuriedGood(s, k);
    case HasReq(k) => BuriedGood(s, k);
    case DeleteReq(k) => BuriedGood(s, k);
    case KeysReq =>
    case NukeReq => FreshIsGood();
  }

  lemma OutcomeOverflowed(m: map<bytes, bytes>, m': map<bytes, bytes>, k: bytes)
    ensures OutcomeOf(m, m', k).Overflowed?
  {
  }

  lemma PutAnswer(s: Session, k: bytes, v: bytes, ttl: Expiry.i64, now: int)
    requires GoodSession(s) && Roomy(s.db.a)
    ensures AnswerTo(s, PutReq(k, v, ttl), now)
            == if !(1 <= |k| <= 255 && |v| <= 3840) then Expiry.Refused
               else if FateOf(s.db.t, k, v).Breaks? then Expiry.Failed else Expiry.Stored
  {
    hide WF, Owned, ShowsTree, ChainInUse, Contents, PutTree, OutcomeOf, FateOf, LostPages, FailsBeforeWriting;
    if Legal(k, v) {
      var r := PutTree(s.db.t, k, v, s.db.a);
      PutSummary(s.db.t, s.db.a, k, v);
      OutcomeOverflowed(Contents(s.db.t), Contents(r.t), k);
    }
  }

  // ---------- when clients can tell ----------

  /** A key that is not expired is shown by a leaf that the tree has lost. */
  ghost predicate ShowsStray(s: Session, now: int) {
    exists e :: e in Strays(s.chain, s.db.t) && !Expiry.Expired(LazyOf(s), e.key, now)
  }

  /** Conditions on the state before the request. */
  ghost predicate Departs(s: Session, q: Request, now: int)
    requires Shaped(s.db.t)
  {
    match q
    case PutReq(k, v, _) =>
      && Legal(k, v) && k !in Contents(s.db.t) && k in s.ttls
      && FateOf(s.db.t, k, v).Breaks? && Keeps(s.db.t, k, v)
    case KeysReq => s.chain.end != 0 || ShowsStray(s, now)
    case _ => false
  }

  function LiveKeys(s: Session, ents: seq<Entry>, now: int): seq<bytes> {
    Expiry.Unexpired(LazyOf(s), KeysOf(ents), now)
  }

  lemma {:induction false} UnexpiredConcat(s: Expiry.Lazy, a: seq<bytes>, b: seq<bytes>, now: int)
    ensures Expiry.Unexpired(s, a + b, now) == Expiry.Unexpired(s, a, now) + Expiry.Unexpired(s, b, now)
    decreases a
  {
    if a == [] {
      assert a + b == b;
    } else {
      assert (a + b)[1..] == a[1..] + b;
      UnexpiredConcat(s, a[1..], b, now);
    }
  }

  lemma LiveKeysConcat(s: Session, a: seq<Entry>, b: seq<Entry>, now: int)
    ensures LiveKeys(s, a + b, now) == LiveKeys(s, a, now) + LiveKeys(s, b, now)
  {
    assert KeysOf(a + b) == KeysOf(a) + KeysOf(b);
    UnexpiredConcat(LazyOf(s), KeysOf(a), KeysOf(b), now);
  }

  lemma {:induction false} LiveAmongAndAstray(s: Session, cs: seq<Cell>, ids: multiset<u32>, now: int)
    ensures multiset(LiveKeys(s, EntriesAlong(cs), now))
            == multiset(LiveKeys(s, EntriesAlong(Among(cs, ids)), now))
               + multiset(LiveKeys(s, EntriesAlong(Astray(cs, ids)), now))
    decreases cs
  {
    hide EntriesAlong, LiveKeys;
    if cs == [] {
      NoEntries();
      NoLiveKeys(s, now);
    } else {
      var head, tail := [cs[0]], cs[1..];
      assert cs == head + tail;
      LiveAmongAndAstray(s, tail, ids, now);
      EntriesAlongConcat(head, tail);
      EntriesAlongConcat(head, Among(tail, ids));
      EntriesAlongConcat(head, Astray(tail, ids));
      LiveKeysConcat(s, EntriesAlong(head), EntriesAlong(tail), now);
      LiveKeysConcat(s, EntriesAlong(head), EntriesAlong(Among(tail, ids)), now);
      LiveKeysConcat(s, EntriesAlong(head), EntriesAlong(Astray(tail, ids)), now);
      assert [] + Among(tail, ids) == Among(tail, ids) && [] + Astray(tail, ids) == Astray(tail, ids);
    }
  }

  lemma NoLiveKeys(s: Session, now: int)
    ensures LiveKeys(s, [], now) == []
  {
  }

  lemma {:induction false} UnexpiredMembers(s: Expiry.Lazy, ks: seq<bytes>, now: int, k: bytes)
    ensures k in Expiry.Unexpired(s, ks, now) <==> k in ks && !Expiry.Expired(s, k, now)
    decreases ks
  {
    if ks != [] {
      UnexpiredMembers(s, ks[1..], now, k);
      assert ks == [ks[0]] + ks[1..];
    }
  }

  lemma {:induction false} UnexpiredTimes(s: Expiry.Lazy, ks: seq<bytes>, now: int, k: bytes)
    ensures multiset(Expiry.Unexpired(s, ks, now))[k] == if Expiry.Expired(s, k, now) then 0 else multiset(ks)[k]
    decreases ks
  {
    if ks != [] {
      UnexpiredTimes(s, ks[1..], now, k);
      assert ks == [ks[0]] + ks[1..];
      var head := if Expiry.Expired(s, ks[0], now) then [] else [ks[0]];
      assert multiset(Expiry.Unexpired(s, ks, now)) == multiset(head) + multiset(Expiry.Unexpired(s, ks[1..], now));
    }
  }

  lemma {:induction false} AscendingOnce(ks: seq<bytes>, k: bytes)
    requires forall i, j :: 0 <= i < j < |ks| ==> Less(ks[i], ks[j])
    ensures multiset(ks)[k] == if k in ks then 1 else 0
    decreases ks
  {
    hide Less;
    if ks != [] {
      AscendingOnce(ks[1..], k);
      assert ks == [ks[0]] + ks[1..];
      if ks[0] in ks[1..] {
        var i :| 0 <= i < |ks[1..]| && ks[1..][i] == ks[0];
        assert Less(ks[0], ks[i + 1]);
        Trichotomy(ks[0], ks[0]);
        assert false;
      }
    }
  }

  /** The tree's own leaves show exactly the live keys, each once. */
  lemma TreeShowsLive(s: Session, now: int)
    requires GoodSession(s)
    ensures multiset(LiveKeys(s, Entries(s.db.t), now)) == multiset(Expiry.Meaning(LazyOf(s), now).Keys)
  {
    hide WF, Owned, ShowsTree, Contents, Entries, Less;
    var ks, m := KeysOf(Entries(s.db.t)), Contents(s.db.t);
    KeysListMap(s.db.t, LeftDepth(s.db.t));
    forall k
      ensures multiset(LiveKeys(s, Entries(s.db.t), now))[k]
              == multiset(Expiry.Meaning(LazyOf(s), now).Keys)[k]
    {
      UnexpiredTimes(LazyOf(s), ks, now, k);
      AscendingOnce(ks, k);
    }
  }

  lemma StraysShow(s: Session, ents: seq<Entry>, now: int)
    ensures LiveKeys(s, ents, now) != [] <==> exists e :: e in ents && !Expiry.Expired(LazyOf(s), e.key, now)
  {
    var live, ks := LiveKeys(s, ents, now), KeysOf(ents);
    if live != [] {
      UnexpiredMembers(LazyOf(s), ks, now, live[0]);
      assert live[0] in live;
      var i :| 0 <= i < |ks| && ks[i] == live[0];
      assert ents[i] in ents;
    }
    if e :| e in ents && !Expiry.Expired(LazyOf(s), e.key, now) {
      var i :| 0 <= i < |ents| && ents[i] == e;
      assert ks[i] == e.key;
      UnexpiredMembers(LazyOf(s), ks, now, e.key);
    }
  }

  lemma KeysDepartIff(s: Session, now: int)
    requires GoodSession(s)
    ensures Expiry.ListsLive(LazyOf(s), Shown(s.chain), now) <==> !Departs(s, KeysReq, now)
  {
    hide WF, Owned, Contents, Entries, EntriesAlong, Among, Astray, CellIds, TreeCells, Expiry.Meaning;
    if s.chain.end == 0 {
      var ids := CellIds(TreeCells(s.db.t));
      LiveAmongAndAstray(s, s.chain.cells, ids, now);
      CellsHoldEntries(s.db.t);
      TreeShowsLive(s, now);
      StraysShow(s, Strays(s.chain, s.db.t), now);
      var strays := LiveKeys(s, Strays(s.chain, s.db.t), now);
      if strays != [] {
        assert strays[0] in multiset(strays);
      }
    }
  }

  /** The lazy machine's conditions are those that can be read off tree, chain and deadlines beforehand. */
  lemma DepartsIff(s: Session, q: Request, now: int)
    requires GoodSession(s) && Roomy(s.db.a)
    ensures Expiry.Departs(LazyOf(s), OpFor(s, q), now) <==> Departs(s, q, now)
  {
    hide WF, Owned, ShowsTree, ChainInUse, Contents, PutTree, FateOf, Keeps, LostPages, FailsBeforeWriting,
         Expiry.ListsLive, Shown, ShowsStray;
    match q
    case PutReq(k, v, ttl) =>
      if Legal(k, v) {
        var t, a := s.db.t, s.db.a;
        PutSummary(t, a, k, v);
        if PutTree(t, k, v, a).Failed? && k !in Contents(t) {
          FailedPutKeepsIff(t, LeftDepth(t), k, v, a);
        }
      }
    case KeysReq => KeysDepartIff(s, now);
    case _ =>
  }

  /**
   One request, at an instant no earlier than the last one: the engine
   answers and acts as the eager map exactly unless a Put of a new key, for
   which an old deadline is still about, breaks a node above its leaf and
   leaves its binding behind, or Keys comes to an unwritten page or to a live
   key on a leaf that the tree has lost.
   */
  lemma ServeRefinesIff(s: Session, q: Request, t: int, now: int)
    requires GoodSession(s) && Roomy(s.db.a) && t <= now && (q.PutReq? ==> q.ttl <= Expiry.MAX_TTL)
    ensures Expiry.EagerStep(Expiry.Meaning(LazyOf(s), t), OpFor(s, q), now)
            == (Expiry.Meaning(LazyOf(Next(s, q, now)), now), AnswerTo(s, q, now))
            <==> !Departs(s, q, now)
  {
    hide GoodSession, Next, AnswerTo, Departs, Expiry.Departs, Expiry.EagerStep, Expiry.Meaning,
         Expiry.LazyStep, PutTree;
    GoodIsShaped(s);
    NextIsStep(s, q, now);
    DepartsIff(s, q, now);
    Expiry.StepRefinesIff(LazyOf(s), OpFor(s, q), t, now);
  }

  lemma GoodIsShaped(s: Session)
    requires GoodSession(s)
    ensures Shaped(s.db.t)
  {
  }

  // ---------- runs ----------

  datatype TimedReq = TimedReq(req: Request, at: int)

  function Answers(s: Session, reqs: seq<TimedReq>): seq<Expiry.Answer>
    requires Shaped(s.db.t)
    decreases reqs
  {
    if reqs == [] then []
    else [AnswerTo(s, reqs[0].req, reqs[0].at)] + Answers(Next(s, reqs[0].req, reqs[0].at), reqs[1..])
  }

  /** The requests with what the tree makes of each when it comes. */
  function OpsFor(s: Session, reqs: seq<TimedReq>): seq<Expiry.Timed>
    requires Shaped(s.db.t)
    decreases reqs
  {
    if reqs == [] then []
    else
      [Expiry.Timed(OpFor(s, reqs[0].req), reqs[0].at)] + OpsFor(Next(s, reqs[0].req, reqs[0].at), reqs[1..])
  }

  /** A clock that does not run back, TTLs that time.Duration can hold, and page numbers enough. */
  ghost predicate Regular(s: Session, t: int, reqs: seq<TimedReq>)
    requires Shaped(s.db.t)
    decreases reqs
  {
    reqs != [] ==>
      && t <= reqs[0].at && Roomy(s.db.a) && (reqs[0].req.PutReq? ==> reqs[0].req.ttl <= Expiry.MAX_TTL)
      && Regular(Next(s, reqs[0].req, reqs[0].at), reqs[0].at, reqs[1..])
  }

  ghost predicate NeverDeparts(s: Session, reqs: seq<TimedReq>)
    requires Shaped(s.db.t)
    decreases reqs
  {
    reqs != [] ==>
      !Departs(s, reqs[0].req, reqs[0].at) && NeverDeparts(Next(s, reqs[0].req, reqs[0].at), reqs[1..])
  }

  /** Over every run in which no request departs, the engine's answers are those of the eager map. */
  lemma {:induction false} SessionRefinesEager(s: Session, t: int, reqs: seq<TimedReq>)
    requires GoodSession(s) && Regular(s, t, reqs) && NeverDeparts(s, reqs)
    ensures Answers(s, reqs) == Expiry.EagerRun(Expiry.Meaning(LazyOf(s), t), OpsFor(s, reqs))
    decreases reqs
  {
    hide WF, Owned, ShowsTree, ChainInUse, Next, AnswerTo, Departs, Expiry.EagerStep, Expiry.Meaning, OpFor;
    if reqs != [] {
      var q, now := reqs[0].req, reqs[0].at;
      ServeRefinesIff(s, q, t, now);
      NextGood(s, q, now);
      SessionRefinesEager(Next(s, q, now), now, reqs[1..]);
      assert OpsFor(s, reqs)[1..] == OpsFor(Next(s, q, now), reqs[1..]);
    }
  }

  // ---------- runs without losses ----------

  /** A whole chain, and deadlines for stored keys only. */
  ghost predicate CleanSession(s: Session) {
    && GoodTree(s.db.t, s.db.a) && Chained(s.db.t) && Whole(s.chain, s.db.t)
    && s.ttls.Keys <= Contents(s.db.t).Keys
  }

  /** Every request but a legal Put of a new key that breaks a node behind its first write. */
  ghost predicate CleanReq(s: Session, q: Request)
    requires Shaped(s.db.t)
  {
    q.PutReq? && Legal(q.k, q.v) && q.k !in Contents(s.db.t) && FateOf(s.db.t, q.k, q.v).Breaks? ==>
      FailsBeforeWriting(s.db.t, q.k, q.v)
  }

  lemma CleanIsGood(s: Session)
    requires CleanSession(s)
    ensures GoodSession(s)
  {
    hide WF, Owned, Contents;
    WholeShows(s.chain, s.db.t);
    OwnedCells(s.db.t, s.db.a);
  }

  lemma WholeChanges(c: Chain, t: Tree, k: bytes, ch: Change, a: Alloc)
    requires Shaped(t) && Owned(t, a) && Whole(c, t) && !ch.Cut?
    ensures ChangedChain(c, LeafFor(t, k).id, ch) == Chain(CellsWith(t, k, ch), 0)
  {
    OwnedCells(t, a);
    ChangedIsWith(t, k, ch);
  }

  lemma BuriedClean(s: Session, k: bytes)
    requires CleanSession(s)
    ensures CleanSession(Buried(s, k))
  {
    hide WF, Owned, Contents, DeleteTree, LeafFor, ChangedChain;
    DeleteSummary(s.db.t, s.db.a, k);
    DeleteCells(s.db.t, k);
    WholeChanges(s.chain, s.db.t, k, Now(Remove(LeafFor(s.db.t, k).ents, k)), s.db.a);
  }

  /** A failing Put that writes nothing leaves chain and tree; one that succeeds leaves the chain whole. */
  lemma PutClean(s: Session, k: bytes, v: bytes, ttl: Expiry.i64, now: int)
    requires CleanSession(s) && Roomy(s.db.a) && Legal(k, v) && CleanReq(s, PutReq(k, v, ttl))
    ensures CleanSession(AfterPutReq(s, k, v, ttl, now))
  {
    hide WF, Owned, Contents, PutTree, LeafFor, ChangedChain, LeafChange, FateOf, LostPages, FailsBeforeWriting;
    var t, a := s.db.t, s.db.a;
    var r, ch := PutTree(t, k, v, a), LeafChange(LeafFor(t, k).ents, k, v, Pop(a).0);
    PutSummary(t, a, k, v);
    if r.Failed? {
      if k in Contents(t) {
        StoredFailsEarly(t, LeftDepth(t), k, v);
      }
      LeafTakesIff(t, k, v, Pop(a).0);
      KeepKeepsChain(s.chain, LeafFor(t, k).id);
    } else {
      PutTakesLeaf(t, k, v, a);
      PutCells(t, LeftDepth(t), k, v, a);
      WholeChanges(s.chain, t, k, ch, a);
    }
  }

  lemma StoredFailsEarly(t: Tree, h: nat, k: bytes, v: bytes)
    requires SearchTree(t, h) && Shaped(t) && k in Contents(t)
    ensures FailsBeforeWriting(t, k, v)
  {
    StoredKeyIsPresent(t, h, k);
  }

  lemma KeepKeepsChain(c: Chain, id: u32)
    ensures ChangedChain(c, id, Keep) == c
  {
    KeepChangesNothing(c.cells, id);
  }

  lemma PutTakesLeaf(t: Tree, k: bytes, v: bytes, a: Alloc)
    requires Shaped(t) && PutTree(t, k, v, a).Done?
    ensures !LeafChange(LeafFor(t, k).ents, k, v, Pop(a).0).Cut?
  {
    hide LeafSize, Upsert, Present, LeafFor, Insert, FateOf;
    InsertMeetsFate(t, k, v, a);
    if UpperHalfBreaks(LeafFor(t, k).ents, k, v) {
      UpperHalfFails(t, k, v);
    }
  }

  lemma CleanNext(s: Session, q: Request, now: int)
    requires CleanSession(s) && Roomy(s.db.a) && CleanReq(s, q)
    ensures CleanSession(Next(s, q, now)) && !Departs(s, q, now)
  {
    hide WF, Owned, Contents, PutTree, AfterPut, DeleteTree, AfterDelete, FateOf, FailsBeforeWriting, Keeps, Whole;
    match q
    case PutReq(k, v, ttl) =>
      if Legal(k, v) {
        PutClean(s, k, v, ttl, now);
      }
    case GetReq(k) => BuriedClean(s, k);
    case HasReq(k) => BuriedClean(s, k);
    case DeleteReq(k) => BuriedClean(s, k);
    case KeysReq => NoStrays(s, now);
    case NukeReq => FreshIsGood();
  }

  lemma NoStrays(s: Session, now: int)
    requires Whole(s.chain, s.db.t)
    ensures s.chain.end == 0 && !ShowsStray(s, now)
  {
    WholeShows(s.chain, s.db.t);
    NoEntries();
  }

  ghost predicate CleanReqs(s: Session, reqs: seq<TimedReq>)
    requires Shaped(s.db.t)
    decreases reqs
  {
    reqs != [] ==> CleanReq(s, reqs[0].req) && CleanReqs(Next(s, reqs[0].req, reqs[0].at), reqs[1..])
  }

  lemma {:induction false} CleanNeverDeparts(s: Session, t: int, reqs: seq<TimedReq>)
    requires CleanSession(s) && Regular(s, t, reqs) && CleanReqs(s, reqs)
    ensures NeverDeparts(s, reqs)
    decreases reqs
  {
    hide WF, Owned, Whole, Contents, Next, Departs, CleanReq;
    if reqs != [] {
      CleanNext(s, reqs[0].req, reqs[0].at);
      CleanNeverDeparts(Next(s, reqs[0].req, reqs[0].at), reqs[0].at, reqs[1..]);
    }
  }

  /** As long as no Put of a new key breaks a node behind its first write, no client can tell. */
  lemma CleanRefinesEager(s: Session, t: int, reqs: seq<TimedReq>)
    requires CleanSession(s) && Regular(s, t, reqs) && CleanReqs(s, reqs)
    ensures Answers(s, reqs) == Expiry.EagerRun(Expiry.Meaning(LazyOf(s), t), OpsFor(s, reqs))
  {
    CleanIsGood(s);
    CleanNeverDeparts(s, t, reqs);
    SessionRefinesEager(s, t, reqs);
  }

  // ---------- runs of small entries ----------

  ghost predicate SmallReqs(reqs: seq<TimedReq>) {
    forall i :: 0 <= i < |reqs| && reqs[i].req.PutReq? ==> |reqs[i].req.k| + |reqs[i].req.v| <= SAFE_SIZE
  }

  lemma SmallNext(s: Session, q: Request, now: int)
    requires CleanSession(s) && SmallTree(s.db.t) && Roomy(s.db.a)
    requires q.PutReq? ==> |q.k| + |q.v| <= SAFE_SIZE
    ensures CleanReq(s, q) && SmallTree(Next(s, q, now).db.t)
  {
    hide WF, Owned, Contents, PutTree, AfterPut, DeleteTree, AfterDelete, FateOf, FailsBeforeWriting, SmallTree, Whole;
    match q
    case PutReq(k, v, ttl) =>
      if Legal(k, v) {
        SmallPutSucceeds(s.db.t, LeftDepth(s.db.t), k, v, s.db.a);
        PutFailsIff(s.db.t, LeftDepth(s.db.t), k, v, s.db.a);
      }
    case GetReq(k) => DeleteKeepsSmall(s.db.t, k);
    case HasReq(k) => DeleteKeepsSmall(s.db.t, k);
    case DeleteReq(k) => DeleteKeepsSmall(s.db.t, k);
    case KeysReq =>
    case NukeReq => FreshIsGood();
  }

  lemma {:induction false} SmallIsClean(s: Session, t: int, reqs: seq<TimedReq>)
    requires CleanSession(s) && SmallTree(s.db.t) && Regular(s, t, reqs) && SmallReqs(reqs)
    ensures CleanReqs(s, reqs)
    decreases reqs
  {
    hide WF, Owned, Whole, Contents, Next, CleanReq, SmallTree;
    if reqs != [] {
      var q, now, rest := reqs[0].req, reqs[0].at, reqs[1..];
      SmallNext(s, q, now);
      CleanNext(s, q, now);
      assert forall i :: 0 <= i < |rest| ==> rest[i] == reqs[i + 1];
      SmallIsClean(Next(s, q, now), now, rest);
    }
  }

  /**
   While keys and values stay within 137 bytes together, no answer tells the
   engine from an eagerly expiring map that fails the same updates, over any
   interleaving of requests from a fresh database on.
   */
  lemma SmallRefinesEager(t: int, reqs: seq<TimedReq>)
    requires Regular(FRESH_SESSION, t, reqs) && SmallReqs(reqs)
    ensures Answers(FRESH_SESSION, reqs) == Expiry.EagerRun(map[], OpsFor(FRESH_SESSION, reqs))
  {
    hide Regular, Answers, OpsFor, Expiry.EagerRun, SmallReqs, CleanReqs;
    FreshIsGood();
    SmallIsClean(FRESH_SESSION, t, reqs);
    CleanRefinesEager(FRESH_SESSION, t, reqs);
    assert Expiry.Meaning(Expiry.Lazy(map[], map[]), t) == map[];
  }
}
