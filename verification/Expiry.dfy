/** Lazy expiry, by a table of deadlines, against eager expiry, by a map that drops each key in time. */
module Expiry {
  import opened Wrappers
  import opened ByteStrings
  import opened TreeShape

  const NANOS_PER_SECOND: int := 1_000_000_000
  const MAX_I64: int := 0x7FFF_FFFF_FFFF_FFFF
  /** The longest TTL that time.Duration can hold. */
  const MAX_TTL: int := 9_223_372_036

  type i64 = x: int | -0x8000_0000_0000_0000 <= x < 0x8000_0000_0000_0000

  /** int64 arithmetic wraps. */
  function Wrap64(x: int): i64 {
    (x + 0x8000_0000_0000_0000) % 0x1_0000_0000_0000_0000 - 0x8000_0000_0000_0000
  }

  /** time.Now().Add(time.Duration(ttl) * time.Second); instants count nanoseconds. */
  function Deadline(now: int, ttl: i64): int {
    now + Wrap64(ttl * NANOS_PER_SECOND)
  }

  /** The deadline is the one asked for exactly up to MAX_TTL seconds; beyond, the product wraps. */
  lemma DeadlineExactIff(now: int, ttl: i64)
    requires ttl > 0
    ensures Deadline(now, ttl) == now + ttl * NANOS_PER_SECOND <==> ttl <= MAX_TTL
  {
    var x := ttl * NANOS_PER_SECOND;
    if ttl <= MAX_TTL {
      assert 0 <= x <= MAX_I64;
    } else {
      assert x > MAX_I64;
    }
  }

  /** In nanoseconds modulo 2^64, whatever the TTL. */
  lemma DeadlineWraps(now: int, ttl: i64)
    ensures -9223372036854775808 <= Deadline(now, ttl) - now <= 9223372036854775807
    ensures (Deadline(now, ttl) - now - ttl * 1000000000) % 18446744073709551616 == 0
  {
    var x := ttl * NANOS_PER_SECOND + 0x8000_0000_0000_0000;
    assert x == x / 0x1_0000_0000_0000_0000 * 0x1_0000_0000_0000_0000 + x % 0x1_0000_0000_0000_0000;
    assert Deadline(now, ttl) - now - ttl * NANOS_PER_SECOND
        == -(x / 0x1_0000_0000_0000_0000) * 0x1_0000_0000_0000_0000;
  }

  // ---------- the two machines ----------

  /** What the tree made of a legal Put: took it, or lost some bindings over it and perhaps kept the new one. */
  datatype Outcome = Took | Overflowed(lost: set<bytes>, kept: bool)

  /** Each operation with what the tree makes of it; shown are the keys its leaves list, None when that fails. */
  datatype Op = PutOp(k: bytes, v: bytes, ttl: i64, out: Outcome) | GetOp(k: bytes) | HasOp(k: bytes)
              | DeleteOp(k: bytes) | KeysOp(shown: Option<seq<bytes>>) | NukeOp

  datatype Answer = Stored | Refused | Failed | Gone
                  | Value(v: Option<bytes>) | Known(b: bool) | Listing(ks: multiset<bytes>) | Unreadable

  /** The map behind an overflow. */
  function After<V>(m: map<bytes, V>, k: bytes, v: V, out: Outcome): map<bytes, V>
    requires out.Overflowed?
  {
    if out.kept then (m - out.lost)[k := v] else m - out.lost
  }

  datatype Lazy = Lazy(m: map<bytes, bytes>, ttls: map<bytes, int>)

  predicate Expired(s: Lazy, k: bytes, now: int) {
    k in s.ttls && now > s.ttls[k]
  }

  /** The filter of Keys. */
  function Unexpired(s: Lazy, ks: seq<bytes>, now: int): seq<bytes>
    decreases ks
  {
    if ks == [] then [] else (if Expired(s, ks[0], now) then [] else [ks[0]]) + Unexpired(s, ks[1..], now)
  }

  lemma UnexpiredFrom(s: Lazy, ks: seq<bytes>, i: nat, now: int)
    requires i <= |ks|
    ensures i == |ks| ==> Unexpired(s, ks[i..], now) == []
    ensures i < |ks| ==> Unexpired(s, ks[i..], now)
                         == (if Expired(s, ks[i], now) then [] else [ks[i]]) + Unexpired(s, ks[i + 1..], now)
  {
    if i < |ks| {
      assert ks[i..][1..] == ks[i + 1..];
    }
  }

  ghost predicate Ascending(ks: seq<bytes>) {
    forall i, j :: 0 <= i < j < |ks| ==> Less(ks[i], ks[j])
  }

  lemma {:induction false} UnexpiredAscending(s: Lazy, ks: seq<bytes>, now: int)
    requires Ascending(ks)
    ensures Ascending(Unexpired(s, ks, now))
    ensures forall k :: k in Unexpired(s, ks, now) ==> k in ks
    decreases ks
  {
    hide Less;
    if ks != [] {
      var head, tail := if Expired(s, ks[0], now) then [] else [ks[0]], Unexpired(s, ks[1..], now);
      UnexpiredAscending(s, ks[1..], now);
      forall i, j | 0 <= i < j < |head + tail|
        ensures Less((head + tail)[i], (head + tail)[j])
      {
        if i < |head| {
          assert tail[j - |head|] in tail;
          var o :| 0 <= o < |ks[1..]| && ks[1..][o] == tail[j - |head|];
          assert Less(ks[0], ks[o + 1]);
        }
      }
    }
  }

  function Forget(s: Lazy, k: bytes): Lazy {
    Lazy(s.m - {k}, s.ttls - {k})
  }

  function LazyStep(s: Lazy, op: Op, now: int): (Lazy, Answer) {
    match op
    case PutOp(k, v, ttl, out) =>
      if !Legal(k, v) then (s, Refused)
      else if out.Overflowed? then (Lazy(After(s.m, k, v, out), s.ttls), Failed)
      else (Lazy(s.m[k := v], if ttl > 0 then s.ttls[k := Deadline(now, ttl)] else s.ttls - {k}), Stored)
    case GetOp(k) =>
      if Expired(s, k, now) then (Forget(s, k), Value(None))
      else (s, Value(if k in s.m then Some(s.m[k]) else None))
    case HasOp(k) =>
      if Expired(s, k, now) then (Forget(s, k), Known(false)) else (s, Known(k in s.m))
    case DeleteOp(k) => (Forget(s, k), Gone)
    case KeysOp(shown) => (s, if shown.None? then Unreadable else Listing(multiset(Unexpired(s, shown.value, now))))
    case NukeOp => (Lazy(map[], map[]), Gone)
  }

  datatype Live = Live(v: bytes, deadline: Option<int>)

  predicate Alive(l: Live, now: int) {
    l.deadline.Some? ==> now <= l.deadline.value
  }

  function DropExpired(e: map<bytes, Live>, now: int): map<bytes, Live> {
    map k | k in e && Alive(e[k], now) :: e[k]
  }

  /** Expired keys go first; then the operation works on an ordinary map. */
  function EagerStep(e0: map<bytes, Live>, op: Op, now: int): (map<bytes, Live>, Answer) {
    var e := DropExpired(e0, now);
    match op
    case PutOp(k, v, ttl, out) =>
      if !Legal(k, v) then (e, Refused)
      else if out.Overflowed? then (After(e, k, Live(v, None), out), Failed)
      else (e[k := Live(v, if ttl > 0 then Some(now + ttl * NANOS_PER_SECOND) else None)], Stored)
    case GetOp(k) => (e, Value(if k in e then Some(e[k].v) else None))
    case HasOp(k) => (e, Known(k in e))
    case DeleteOp(k) => (e - {k}, Gone)
    case KeysOp(_) => (e, Listing(multiset(e.Keys)))
    case NukeOp => (map[], Gone)
  }

  // ---------- refinement ----------

  /** Deadlines are kept for stored keys only. */
  predicate Consistent(s: Lazy) {
    s.ttls.Keys <= s.m.Keys
  }

  function DeadlineOf(s: Lazy, k: bytes): Option<int> {
    if k in s.ttls then Some(s.ttls[k]) else None
  }

  /** What the lazy state means at an instant: its ghosts are not there. */
  function Meaning(s: Lazy, now: int): map<bytes, Live> {
    map k | k in s.m && !Expired(s, k, now) :: Live(s.m[k], DeadlineOf(s, k))
  }

  predicate TtlInRange(op: Op) {
    op.PutOp? ==> op.ttl <= MAX_TTL
  }

  lemma LaterMeaning(s: Lazy, t: int, now: int)
    requires t <= now
    ensures DropExpired(Meaning(s, t), now) == Meaning(s, now)
  {
  }

  lemma ForgetMeaning(s: Lazy, k: bytes, now: int)
    ensures Meaning(Forget(s, k), now) == Meaning(s, now) - {k}
  {
    var a, b := Meaning(Forget(s, k), now), Meaning(s, now) - {k};
    forall j
      ensures j in a <==> j in b
      ensures j in a ==> a[j] == b[j]
    {
    }
    assert a.Keys == b.Keys;
  }

  lemma PutMeaning(s: Lazy, k: bytes, v: bytes, ttl: i64, now: int)
    requires ttl <= MAX_TTL && Legal(k, v)
    ensures var d := if ttl > 0 then Some(now + ttl * NANOS_PER_SECOND) else None;
            Meaning(LazyStep(s, PutOp(k, v, ttl, Took), now).0, now) == Meaning(s, now)[k := Live(v, d)]
  {
    if ttl > 0 {
      DeadlineExactIff(now, ttl);
    }
    var s' := LazyStep(s, PutOp(k, v, ttl, Took), now).0;
    var d := if ttl > 0 then Some(now + ttl * NANOS_PER_SECOND) else None;
    var a, b := Meaning(s', now), Meaning(s, now)[k := Live(v, d)];
    forall j
      ensures j in a <==> j in b
      ensures j in a ==> a[j] == b[j]
    {
    }
    assert a.Keys == b.Keys;
  }

  /** The binding an overflow leaves behind has whatever deadline the table still holds for its key. */
  predicate KeepsStale(s: Lazy, op: Op) {
    op.PutOp? && Legal(op.k, op.v) && op.out.Overflowed? && op.out.kept && op.k in s.ttls
  }

  lemma OverflowMeaning(s: Lazy, k: bytes, v: bytes, out: Outcome, now: int)
    requires out.Overflowed?
    ensures Meaning(Lazy(After(s.m, k, v, out), s.ttls), now) == After(Meaning(s, now), k, Live(v, None), out)
            <==> !(out.kept && k in s.ttls)
  {
    var a, b := Meaning(Lazy(After(s.m, k, v, out), s.ttls), now), After(Meaning(s, now), k, Live(v, None), out);
    if out.kept && k in s.ttls {
      assert b[k] == Live(v, None);
      assert k in a ==> a[k] == Live(v, Some(s.ttls[k]));
    } else {
      forall j
        ensures j in a <==> j in b
        ensures j in a ==> a[j] == b[j]
      {
      }
      assert a.Keys == b.Keys;
    }
  }

  /** Listing shows each key that is stored and not expired, once, and no other. */
  predicate ListsLive(s: Lazy, shown: Option<seq<bytes>>, now: int) {
    shown.Some? && multiset(Unexpired(s, shown.value, now)) == multiset(Meaning(s, now).Keys)
  }

  predicate Departs(s: Lazy, op: Op, now: int) {
    KeepsStale(s, op) || (op.KeysOp? && !ListsLive(s, op.shown, now))
  }

  /**
   One operation, at an instant no earlier than the last one. The engine does
   not touch its table when a Put overflows and lists what the leaves show:
   the machines part exactly when such a Put leaves its binding behind under
   a deadline from earlier times, and when the leaves show other keys than
   are stored.
   */
  lemma StepRefinesIff(s: Lazy, op: Op, t: int, now: int)
    requires t <= now && TtlInRange(op)
    ensures var (s', r) := LazyStep(s, op, now);
            EagerStep(Meaning(s, t), op, now) == (Meaning(s', now), r) <==> !Departs(s, op, now)
  {
    hide Unexpired;
    LaterMeaning(s, t, now);
    match op
    case PutOp(k, v, ttl, out) =>
      if Legal(k, v) {
        if out.Overflowed? {
          OverflowMeaning(s, k, v, out, now);
        } else {
          PutMeaning(s, k, v, ttl, now);
        }
      }
    case GetOp(k) =>
      ForgetMeaning(s, k, now);
      if Expired(s, k, now) {
        assert Meaning(s, now) - {k} == Meaning(s, now);
      }
    case HasOp(k) =>
      ForgetMeaning(s, k, now);
      if Expired(s, k, now) {
        assert Meaning(s, now) - {k} == Meaning(s, now);
      }
    case DeleteOp(k) =>
      ForgetMeaning(s, k, now);
    case KeysOp(_) =>
    case NukeOp =>
      assert Meaning(Lazy(map[], map[]), now) == map[];
  }

  /** An operation after which every deadline still belongs to a stored key. */
  predicate LosesNothing(op: Op) {
    op.PutOp? && op.out.Overflowed? ==> op.out.lost == {}
  }

  lemma StepConsistent(s: Lazy, op: Op, now: int)
    requires Consistent(s) && LosesNothing(op)
    ensures Consistent(LazyStep(s, op, now).0)
  {
  }

  datatype Timed = Timed(op: Op, at: int)

  function LazyRun(s: Lazy, ops: seq<Timed>): seq<Answer>
    decreases ops
  {
    if ops == [] then []
    else
      var (s', r) := LazyStep(s, ops[0].op, ops[0].at);
      [r] + LazyRun(s', ops[1..])
  }

  function EagerRun(e: map<bytes, Live>, ops: seq<Timed>): seq<Answer>
    decreases ops
  {
    if ops == [] then []
    else
      var (e', r) := EagerStep(e, ops[0].op, ops[0].at);
      [r] + EagerRun(e', ops[1..])
  }

  /** The clock does not run backwards, starting at t. */
  ghost predicate Monotone(t: int, ops: seq<Timed>) {
    && (forall i :: 0 <= i < |ops| ==> t <= ops[i].at)
    && (forall i, j :: 0 <= i < j < |ops| ==> ops[i].at <= ops[j].at)
  }

  function StateAfter(s: Lazy, ops: seq<Timed>): Lazy
    decreases ops
  {
    if ops == [] then s else StateAfter(LazyStep(s, ops[0].op, ops[0].at).0, ops[1..])
  }

  /** As long as no overflow loses bindings, the table never holds a deadline for a key that is not stored. */
  lemma {:induction false} RunConsistent(s: Lazy, ops: seq<Timed>)
    requires Consistent(s) && forall i :: 0 <= i < |ops| ==> LosesNothing(ops[i].op)
    ensures Consistent(StateAfter(s, ops))
    decreases ops
  {
    if ops != [] {
      StepConsistent(s, ops[0].op, ops[0].at);
      RunConsistent(LazyStep(s, ops[0].op, ops[0].at).0, ops[1..]);
    }
  }

  /** Every TTL fits, and no operation makes the machines part. */
  predicate NeverDeparts(s: Lazy, ops: seq<Timed>)
    decreases ops
  {
    ops != [] ==>
      && TtlInRange(ops[0].op) && !Departs(s, ops[0].op, ops[0].at)
      && NeverDeparts(LazyStep(s, ops[0].op, ops[0].at).0, ops[1..])
  }

  /** Until then no client can tell lazy from eager expiry, over any interleaving of operations. */
  lemma {:induction false} LazyRefinesEager(s: Lazy, t: int, ops: seq<Timed>)
    requires Monotone(t, ops) && NeverDeparts(s, ops)
    ensures LazyRun(s, ops) == EagerRun(Meaning(s, t), ops)
    decreases ops
  {
    if ops != [] {
      StepRefinesIff(s, ops[0].op, t, ops[0].at);
      var rest := ops[1..];
      assert forall i :: 0 <= i < |rest| ==> rest[i] == ops[i + 1];
      LazyRefinesEager(LazyStep(s, ops[0].op, ops[0].at).0, ops[0].at, rest);
    }
  }

  /** A key put for ttl seconds is there up to and including the last nanosecond; without a TTL, for good. */
  lemma LivesForTtl(s: Lazy, k: bytes, v: bytes, ttl: i64, now: int, later: int)
    requires Legal(k, v) && ttl <= 9223372036
    ensures var after := LazyStep(s, PutOp(k, v, ttl, Took), now).0;
            LazyStep(after, GetOp(k), later).1
            == Value(if ttl <= 0 || later <= now + ttl * 1000000000 then Some(v) else None)
  {
    if ttl > 0 {
      DeadlineExactIff(now, ttl);
    }
  }

  /** One second more than MAX_TTL and the key is gone at once instead of staying for 292 years. */
  lemma LongTtlExpiresAtOnce(k: bytes, v: bytes, now: int)
    requires Legal(k, v)
    ensures var ops := [Timed(PutOp(k, v, MAX_TTL + 1, Took), now), Timed(GetOp(k), now)];
            LazyRun(Lazy(map[], map[]), ops) == [Stored, Value(None)]
            && EagerRun(map[], ops) == [Stored, Value(Some(v))]
  {
    var put, get := Timed(PutOp(k, v, MAX_TTL + 1, Took), now), Timed(GetOp(k), now);
    var ops := [put, get];
    assert ops[1..] == [get] && [get][1..] == [];
    assert Deadline(now, MAX_TTL + 1) < now;
    var s := LazyStep(Lazy(map[], map[]), put.op, now).0;
    assert LazyRun(s, [get]) == [Value(None)] + LazyRun(LazyStep(s, get.op, now).0, []);
    var e := EagerStep(map[], put.op, now).0;
    assert e[k] == Live(v, Some(now + (MAX_TTL + 1) * NANOS_PER_SECOND));
    assert EagerRun(e, [get]) == [Value(Some(v))] + EagerRun(EagerStep(e, get.op, now).0, []);
  }

  // ---------- ghosts ----------

  /** Expired keys nobody has touched since. */
  function Ghosts(s: Lazy, now: int): set<bytes> {
    set k | k in s.m && Expired(s, k, now)
  }

  /** The count that Stats reports is the listed keys plus the ghosts. */
  lemma CountIncludesGhosts(s: Lazy, now: int)
    ensures |s.m| == |Meaning(s, now)| + |Ghosts(s, now)|
  {
    var live := Meaning(s, now).Keys;
    assert s.m.Keys == live + Ghosts(s, now);
    assert live !! Ghosts(s, now);
    assert |live| == |Meaning(s, now)|;
  }

  // ---------- what Delete reports ----------

  /** Delete succeeds on a stored key, eagerly on a live one: they differ exactly on the ghosts. */
  lemma DeleteReportsAgreeIff(s: Lazy, t: int, k: bytes, now: int)
    requires t <= now
    ensures (k in s.m <==> k in DropExpired(Meaning(s, t), now)) <==> k !in Ghosts(s, now)
  {
    LaterMeaning(s, t, now);
  }
}
