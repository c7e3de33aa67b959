/**
 A strictly sorted sequence of entries as the canonical form of a map, with
 the leaf's own search, insert and remove on it.
 */
module SortedEntries {
  import opened Wrappers
  import opened ByteStrings
  import opened NodeFormat

  ghost predicate Sorted(ents: seq<Entry>) {
    forall i, j :: 0 <= i < j < |ents| ==> Less(ents[i].key, ents[j].key)
  }

  function InsertAt<T>(s: seq<T>, i: nat, x: T): (r: seq<T>)
    requires i <= |s|
    ensures |r| == |s| + 1
  {
    s[..i] + [x] + s[i..]
  }

  function RemoveAt<T>(s: seq<T>, i: nat): seq<T>
    requires i < |s|
  {
    s[..i] + s[i + 1..]
  }

  lemma InsertAtAfter<T>(a: seq<T>, s: seq<T>, i: nat, x: T)
    requires i <= |s|
    ensures InsertAt(a + s, |a| + i, x) == a + InsertAt(s, i, x)
  {
    assert (a + s)[..|a| + i] == a + s[..i];
    assert (a + s)[|a| + i..] == s[i..];
    assert a + s[..i] + [x] + s[i..] == a + (s[..i] + [x] + s[i..]);
  }

  lemma InsertAtBefore<T>(s: seq<T>, c: seq<T>, i: nat, x: T)
    requires i <= |s|
    ensures InsertAt(s + c, i, x) == InsertAt(s, i, x) + c
  {
    assert (s + c)[..i] == s[..i];
    assert (s + c)[i..] == s[i..] + c;
    assert s[..i] + [x] + (s[i..] + c) == s[..i] + [x] + s[i..] + c;
  }

  lemma RemoveAtAfter<T>(a: seq<T>, s: seq<T>, i: nat)
    requires i < |s|
    ensures RemoveAt(a + s, |a| + i) == a + RemoveAt(s, i)
  {
    assert (a + s)[..|a| + i] == a + s[..i];
    assert (a + s)[|a| + i + 1..] == s[i + 1..];
    assert a + s[..i] + s[i + 1..] == a + (s[..i] + s[i + 1..]);
  }

  lemma RemoveAtBefore<T>(s: seq<T>, c: seq<T>, i: nat)
    requires i < |s|
    ensures RemoveAt(s + c, i) == RemoveAt(s, i) + c
  {
    assert (s + c)[..i] == s[..i];
    assert (s + c)[i + 1..] == s[i + 1..] + c;
    assert s[..i] + (s[i + 1..] + c) == s[..i] + s[i + 1..] + c;
  }

  lemma InsertAtMembers<T>(s: seq<T>, i: nat, x: T, e: T)
    requires i <= |s|
    ensures e in InsertAt(s, i, x) <==> e == x || e in s
  {
    assert s == s[..i] + s[i..];
  }

  lemma RemoveAtMembers<T>(s: seq<T>, i: nat, e: T)
    requires i < |s|
    ensures e in s <==> e == s[i] || e in RemoveAt(s, i)
  {
    assert s == s[..i] + [s[i]] + s[i + 1..];
  }

  /** The first position whose key is not below k. */
  function Position(ents: seq<Entry>, k: bytes, i: nat := 0): (p: nat)
    requires i <= |ents|
    ensures i <= p <= |ents|
    ensures forall j :: i <= j < p ==> Less(ents[j].key, k)
    ensures p < |ents| ==> !Less(ents[p].key, k)
    decreases |ents| - i
  {
    if i < |ents| && Less(ents[i].key, k) then Position(ents, k, i + 1) else i
  }

  /** The first position that holds k, or the length. */
  function FindKey(ents: seq<Entry>, k: bytes, i: nat := 0): (p: nat)
    requires i <= |ents|
    ensures i <= p <= |ents|
    ensures forall j :: i <= j < p ==> ents[j].key != k
    ensures p < |ents| ==> ents[p].key == k
    decreases |ents| - i
  {
    if i < |ents| && ents[i].key != k then FindKey(ents, k, i + 1) else i
  }

  function Upsert(ents: seq<Entry>, k: bytes, v: bytes): seq<Entry> {
    var p := Position(ents, k);
    if p < |ents| && ents[p].key == k then ents[p := Entry(k, v)]
    else InsertAt(ents, p, Entry(k, v))
  }

  function Lookup(ents: seq<Entry>, k: bytes): Option<bytes> {
    var p := FindKey(ents, k);
    if p < |ents| then Some(ents[p].val) else None
  }

  function Remove(ents: seq<Entry>, k: bytes): seq<Entry> {
    var p := FindKey(ents, k);
    if p < |ents| then RemoveAt(ents, p) else ents
  }

  ghost predicate HasKey(ents: seq<Entry>, k: bytes) {
    exists i :: 0 <= i < |ents| && ents[i].key == k
  }

  // ---------- working on a middle part ----------

  /** Every key of a is below k. */
  ghost predicate AllBelow(a: seq<Entry>, k: bytes) {
    forall i :: 0 <= i < |a| ==> Less(a[i].key, k)
  }

  /** Every key of c is above k. */
  ghost predicate AllAbove(c: seq<Entry>, k: bytes) {
    forall i :: 0 <= i < |c| ==> Less(k, c[i].key)
  }

  lemma PositionUnique(ents: seq<Entry>, k: bytes, p: nat)
    requires p <= |ents|
    requires forall j :: 0 <= j < p ==> Less(ents[j].key, k)
    requires p < |ents| ==> !Less(ents[p].key, k)
    ensures Position(ents, k) == p
  {
  }

  lemma FindKeyUnique(ents: seq<Entry>, k: bytes, p: nat)
    requires p <= |ents|
    requires forall j :: 0 <= j < p ==> ents[j].key != k
    requires p < |ents| ==> ents[p].key == k
    ensures FindKey(ents, k) == p
  {
  }

  lemma UpsertAfter(a: seq<Entry>, s: seq<Entry>, k: bytes, v: bytes)
    requires AllBelow(a, k)
    ensures Upsert(a + s, k, v) == a + Upsert(s, k, v)
  {
    var p := Position(s, k);
    assert forall j :: 0 <= j < |s| ==> (a + s)[|a| + j] == s[j];
    PositionUnique(a + s, k, |a| + p);
    if p < |s| && s[p].key == k {
      assert (a + s)[|a| + p := Entry(k, v)] == a + s[p := Entry(k, v)];
    } else {
      InsertAtAfter(a, s, p, Entry(k, v));
    }
  }

  lemma UpsertBefore(s: seq<Entry>, c: seq<Entry>, k: bytes, v: bytes)
    requires AllAbove(c, k)
    ensures Upsert(s + c, k, v) == Upsert(s, k, v) + c
  {
    var p := Position(s, k);
    if p == |s| && c != [] {
      Trichotomy(k, c[0].key);
    }
    PositionUnique(s + c, k, p);
    if p < |s| && s[p].key == k {
      assert (s + c)[p := Entry(k, v)] == s[p := Entry(k, v)] + c;
    } else {
      Trichotomy(k, k);
      InsertAtBefore(s, c, p, Entry(k, v));
    }
  }

  lemma FindKeyAfter(a: seq<Entry>, s: seq<Entry>, k: bytes)
    requires AllBelow(a, k)
    ensures FindKey(a + s, k) == |a| + FindKey(s, k)
  {
    Trichotomy(k, k);
    assert forall j :: 0 <= j < |s| ==> (a + s)[|a| + j] == s[j];
    FindKeyUnique(a + s, k, |a| + FindKey(s, k));
  }

  lemma FindKeyBefore(s: seq<Entry>, c: seq<Entry>, k: bytes)
    requires AllAbove(c, k)
    ensures FindKey(s + c, k) == if FindKey(s, k) < |s| then FindKey(s, k) else |s + c|
  {
    Trichotomy(k, k);
    FindKeyUnique(s + c, k, if FindKey(s, k) < |s| then FindKey(s, k) else |s + c|);
  }

  lemma RemoveAfter(a: seq<Entry>, s: seq<Entry>, k: bytes)
    requires AllBelow(a, k)
    ensures Remove(a + s, k) == a + Remove(s, k)
  {
    FindKeyAfter(a, s, k);
    var p := FindKey(s, k);
    if p < |s| {
      RemoveAtAfter(a, s, p);
    }
  }

  lemma RemoveBefore(s: seq<Entry>, c: seq<Entry>, k: bytes)
    requires AllAbove(c, k)
    ensures Remove(s + c, k) == Remove(s, k) + c
  {
    FindKeyBefore(s, c, k);
    var p := FindKey(s, k);
    if p < |s| {
      RemoveAtBefore(s, c, p);
    }
  }

  /** With everything in a below k and everything in c above it, only b matters. */
  lemma WorkOnMiddle(a: seq<Entry>, b: seq<Entry>, c: seq<Entry>, k: bytes, v: bytes)
    requires AllBelow(a, k) && AllAbove(c, k)
    ensures Upsert(a + b + c, k, v) == a + Upsert(b, k, v) + c
    ensures Lookup(a + b + c, k) == Lookup(b, k)
    ensures Remove(a + b + c, k) == a + Remove(b, k) + c
  {
    UpsertBefore(a + b, c, k, v);
    UpsertAfter(a, b, k, v);
    RemoveBefore(a + b, c, k);
    RemoveAfter(a, b, k);
    FindKeyBefore(a + b, c, k);
    FindKeyAfter(a, b, k);
  }

  // ---------- sortedness is kept ----------

  lemma UpsertSorted(ents: seq<Entry>, k: bytes, v: bytes)
    requires Sorted(ents)
    ensures Sorted(Upsert(ents, k, v))
    ensures HasKey(ents, k) <==> Position(ents, k) < |ents| && ents[Position(ents, k)].key == k
  {
    var p := Position(ents, k);
    Trichotomy(k, k);
    forall i | p <= i < |ents| && !(i == p && ents[p].key == k)
      ensures Less(k, ents[i].key)
    {
      Trichotomy(k, ents[p].key);
      if i > p {
        LeqLessTransitive(k, ents[p].key, ents[i].key);
      }
    }
    if HasKey(ents, k) {
      var i :| 0 <= i < |ents| && ents[i].key == k;
      assert i == p;
    }
  }

  lemma RemoveSorted(ents: seq<Entry>, k: bytes)
    requires Sorted(ents)
    ensures Sorted(Remove(ents, k))
  {
  }

  lemma SortedConcat(a: seq<Entry>, b: seq<Entry>)
    requires Sorted(a) && Sorted(b)
    requires forall i, j :: 0 <= i < |a| && 0 <= j < |b| ==> Less(a[i].key, b[j].key)
    ensures Sorted(a + b)
  {
  }

  // ---------- the map ----------

  /** The map a sequence of entries stands for; a later entry would win over an earlier one. */
  function ToMap(ents: seq<Entry>): map<bytes, bytes>
    decreases ents
  {
    if ents == [] then map[]
    else ToMap(ents[..|ents| - 1])[ents[|ents| - 1].key := ents[|ents| - 1].val]
  }

  /** The map binds exactly the listed entries, and has as many keys as there are entries. */
  lemma {:induction false} ToMapMeaning(ents: seq<Entry>)
    requires Sorted(ents)
    ensures forall e :: e in ents <==> Binds(ToMap(ents), e)
    ensures |ToMap(ents)| == |ents|
    decreases ents
  {
    if ents != [] {
      var n := |ents| - 1;
      var front, last := ents[..n], ents[n];
      assert ents == front + [last];
      ToMapMeaning(front);
      if last.key in ToMap(front) {
        assert Binds(ToMap(front), Entry(last.key, ToMap(front)[last.key]));
        var i :| 0 <= i < n && front[i].key == last.key;
        Trichotomy(last.key, last.key);
        assert false;
      }
      forall e: Entry
        ensures e in ents <==> Binds(ToMap(ents), e)
      {
        assert e in ents <==> e in front || e == last;
        assert e in front <==> Binds(ToMap(front), e);
      }
    }
  }

  ghost predicate Binds(m: map<bytes, bytes>, e: Entry) {
    e.key in m && m[e.key] == e.val
  }

  lemma BindsWithout(m: map<bytes, bytes>, k: bytes, e: Entry)
    ensures Binds(m - {k}, e) <==> Binds(m, e) && e.key != k
  {
  }

  lemma SameBindings(m: map<bytes, bytes>, n: map<bytes, bytes>)
    requires forall e :: Binds(m, e) <==> Binds(n, e)
    ensures m == n
  {
    forall k
      ensures k in m <==> k in n
      ensures k in m ==> m[k] == n[k]
    {
      if k in m {
        assert Binds(n, Entry(k, m[k]));
      }
      if k in n {
        assert Binds(m, Entry(k, n[k]));
      }
    }
  }

  /** Searching a sorted leaf is looking the key up in its map. */
  lemma LookupIsMapLookup(ents: seq<Entry>, k: bytes)
    requires Sorted(ents)
    ensures Lookup(ents, k) == if k in ToMap(ents) then Some(ToMap(ents)[k]) else None
  {
    ToMapMeaning(ents);
    var p := FindKey(ents, k);
    if p < |ents| {
      assert Binds(ToMap(ents), ents[p]);
    } else if k in ToMap(ents) {
      assert Binds(ToMap(ents), Entry(k, ToMap(ents)[k]));
    }
  }

  lemma KeyAtMostOnce(ents: seq<Entry>, p: nat, e: Entry)
    requires Sorted(ents) && p < |ents| && e in ents && e.key == ents[p].key
    ensures e == ents[p]
  {
    var i :| 0 <= i < |ents| && ents[i] == e;
    Trichotomy(e.key, e.key);
  }

  lemma UpsertMembers(ents: seq<Entry>, k: bytes, v: bytes, e: Entry)
    requires Sorted(ents)
    ensures e in Upsert(ents, k, v) <==> e == Entry(k, v) || (e in ents && e.key != k)
  {
    var p, x := Position(ents, k), Entry(k, v);
    UpsertSorted(ents, k, v);
    if p < |ents| && ents[p].key == k {
      RemoveAtMembers(ents, p, e);
      RemoveAtMembers(ents[p := x], p, e);
      assert RemoveAt(ents[p := x], p) == RemoveAt(ents, p);
      if e in ents[p := x] && e.key == k {
        UpsertKeyAtMostOnce(ents, p, k, v, e);
      }
      if e in ents && e.key != k {
        assert e != ents[p];
      }
    } else {
      InsertAtMembers(ents, p, x, e);
      if e in ents && e.key == k {
        assert false;
      }
    }
  }

  lemma UpsertKeyAtMostOnce(ents: seq<Entry>, p: nat, k: bytes, v: bytes, e: Entry)
    requires p < |ents| && Sorted(ents[p := Entry(k, v)]) && e in ents[p := Entry(k, v)] && e.key == k
    ensures e == Entry(k, v)
  {
    KeyAtMostOnce(ents[p := Entry(k, v)], p, e);
  }

  lemma RemoveMembers(ents: seq<Entry>, k: bytes, e: Entry)
    requires Sorted(ents)
    ensures e in Remove(ents, k) <==> e in ents && e.key != k
  {
    var p := FindKey(ents, k);
    if p < |ents| {
      RemoveAtMembers(ents, p, e);
      if e in ents && e.key == k {
        KeyAtMostOnce(ents, p, e);
        RemovedOnce(ents, p);
      }
    }
  }

  lemma RemovedOnce(ents: seq<Entry>, p: nat)
    requires Sorted(ents) && p < |ents|
    ensures ents[p] !in RemoveAt(ents, p)
  {
    if ents[p] in RemoveAt(ents, p) {
      var i :| 0 <= i < |ents| - 1 && RemoveAt(ents, p)[i] == ents[p];
      Trichotomy(ents[p].key, ents[p].key);
      assert false;
    }
  }

  lemma UpsertIsMapUpdate(ents: seq<Entry>, k: bytes, v: bytes)
    requires Sorted(ents)
    ensures ToMap(Upsert(ents, k, v)) == ToMap(ents)[k := v]
  {
    UpsertSorted(ents, k, v);
    ToMapMeaning(ents);
    ToMapMeaning(Upsert(ents, k, v));
    var m, n := ToMap(ents), ToMap(Upsert(ents, k, v));
    forall e: Entry
      ensures Binds(n, e) <==> Binds(m[k := v], e)
    {
      UpsertMembers(ents, k, v, e);
      assert e in ents <==> Binds(m, e);
    }
    SameBindings(n, m[k := v]);
  }

  lemma RemoveIsMapRemoval(ents: seq<Entry>, k: bytes)
    requires Sorted(ents)
    ensures ToMap(Remove(ents, k)) == ToMap(ents) - {k}
  {
    RemoveSorted(ents, k);
    ToMapMeaning(ents);
    ToMapMeaning(Remove(ents, k));
    var m, n := ToMap(ents), ToMap(Remove(ents, k));
    forall e: Entry
      ensures Binds(n, e) <==> Binds(m - {k}, e)
    {
      RemoveMembers(ents, k, e);
      assert e in ents <==> Binds(m, e);
      BindsWithout(m, k, e);
    }
    SameBindings(n, m - {k});
  }
}
