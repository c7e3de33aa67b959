/**
 Byte strings, their lexicographic order (Go's bytes.Compare), and the
 little-endian integers of the file format.
 */
module ByteStrings {
  type byte = x: int | 0 <= x < 0x100
  type u16 = x: int | 0 <= x < 0x1_0000
  type u32 = x: int | 0 <= x < 0x1_0000_0000
  type bytes = seq<byte>

  // ---------- lexicographic order ----------

  function CompareFrom(a: bytes, b: bytes, i: nat): int
    requires i <= |a| && i <= |b|
    decreases |a| - i
  {
    if i == |a| then if i == |b| then 0 else -1
    else if i == |b| then 1
    else if a[i] < b[i] then -1
    else if a[i] > b[i] then 1
    else CompareFrom(a, b, i + 1)
  }

  function Compare(a: bytes, b: bytes): int {
    CompareFrom(a, b, 0)
  }

  predicate Less(a: bytes, b: bytes) {
    Compare(a, b) < 0
  }

  /** What "lexicographic" means, without recursion: i is the first position where a and b part. */
  ghost predicate PartsBelow(a: bytes, b: bytes, i: nat) {
    && i <= |a| && i < |b|
    && a[..i] == b[..i]
    && (i == |a| || a[i] < b[i])
  }

  lemma {:induction false} CompareFromSound(a: bytes, b: bytes, i: nat)
    requires i <= |a| && i <= |b| && a[..i] == b[..i]
    ensures CompareFrom(a, b, i) == 0 <==> a == b
    ensures CompareFrom(a, b, i) < 0 ==> exists j :: PartsBelow(a, b, j)
    ensures CompareFrom(a, b, i) > 0 ==> exists j :: PartsBelow(b, a, j)
    decreases |a| - i
  {
    if i == |a| || i == |b| {
      if i == |a| < |b| {
        assert PartsBelow(a, b, i);
      } else if i == |b| < |a| {
        assert PartsBelow(b, a, i);
      } else {
        assert a == a[..i] && b == b[..i];
      }
    } else if a[i] < b[i] {
      assert PartsBelow(a, b, i);
    } else if a[i] > b[i] {
      assert PartsBelow(b, a, i);
    } else {
      assert a[..i + 1] == a[..i] + [a[i]];
      assert b[..i + 1] == b[..i] + [b[i]];
      CompareFromSound(a, b, i + 1);
    }
  }

  lemma {:induction false} PartsBelowIsLess(a: bytes, b: bytes, i: nat, j: nat)
    requires PartsBelow(a, b, j) && i <= j
    ensures CompareFrom(a, b, i) < 0
    decreases j - i
  {
    if i < j {
      assert a[..j][i] == b[..j][i];
      PartsBelowIsLess(a, b, i + 1, j);
    }
  }

  /** Compare is the lexicographic order: negative exactly when a and b part with a below b. */
  lemma CompareIsLexicographic(a: bytes, b: bytes)
    ensures Less(a, b) <==> exists i :: PartsBelow(a, b, i)
    ensures Compare(a, b) == 0 <==> a == b
  {
    CompareFromSound(a, b, 0);
    if i :| PartsBelow(a, b, i) {
      PartsBelowIsLess(a, b, 0, i);
    }
  }

  lemma {:induction false} CompareFromFlips(a: bytes, b: bytes, i: nat)
    requires i <= |a| && i <= |b|
    ensures CompareFrom(a, b, i) == -CompareFrom(b, a, i)
    decreases |a| - i
  {
    if i < |a| && i < |b| && a[i] == b[i] {
      CompareFromFlips(a, b, i + 1);
    }
  }

  lemma {:induction false} CompareFromTransitive(a: bytes, b: bytes, c: bytes, i: nat)
    requires i <= |a| && i <= |b| && i <= |c|
    requires CompareFrom(a, b, i) < 0 && CompareFrom(b, c, i) < 0
    ensures CompareFrom(a, c, i) < 0
    decreases |a| - i
  {
    if i < |a| && i < |b| && i < |c| && a[i] == b[i] == c[i] {
      CompareFromTransitive(a, b, c, i + 1);
    }
  }

  /** Exactly one of a < b, a == b, b < a. */
  lemma Trichotomy(a: bytes, b: bytes)
    ensures Less(a, b) || a == b || Less(b, a)
    ensures !(Less(a, b) && Less(b, a))
    ensures a == b ==> !Less(a, b)
    ensures Compare(a, b) == 0 <==> a == b
  {
    CompareFromSound(a, b, 0);
    CompareFromFlips(a, b, 0);
  }

  lemma LessTransitive(a: bytes, b: bytes, c: bytes)
    requires Less(a, b) && Less(b, c)
    ensures Less(a, c)
  {
    CompareFromTransitive(a, b, c, 0);
  }

  /** a < b <= c, with b <= c written as the code tests it. */
  lemma LessLeqTransitive(a: bytes, b: bytes, c: bytes)
    requires Less(a, b) && !Less(c, b)
    ensures Less(a, c)
  {
    Trichotomy(b, c);
    if b != c {
      LessTransitive(a, b, c);
    }
  }

  lemma LeqLessTransitive(a: bytes, b: bytes, c: bytes)
    requires !Less(b, a) && Less(b, c)
    ensures Less(a, c)
  {
    Trichotomy(a, b);
    if a != b {
      LessTransitive(a, b, c);
    }
  }

  // ---------- little-endian integers ----------

  function LE16(x: u16): (s: bytes)
    ensures |s| == 2
  {
    [x % 0x100, x / 0x100]
  }

  function LE32(x: u32): (s: bytes)
    ensures |s| == 4
  {
    [x % 0x100, x / 0x100 % 0x100, x / 0x1_0000 % 0x100, x / 0x100_0000]
  }

  function ReadLE16(s: bytes, i: nat): u16
    requires i + 2 <= |s|
  {
    s[i] as int + 0x100 * s[i + 1] as int
  }

  function ReadLE32(s: bytes, i: nat): u32
    requires i + 4 <= |s|
  {
    s[i] as int + 0x100 * s[i + 1] as int + 0x1_0000 * s[i + 2] as int + 0x100_0000 * s[i + 3] as int
  }

  lemma LE16RoundTrip(s: bytes, i: nat, x: u16)
    requires i + 2 <= |s| && s[i..i + 2] == LE16(x)
    ensures ReadLE16(s, i) == x
  {
    assert s[i] == s[i..i + 2][0] && s[i + 1] == s[i..i + 2][1];
  }

  lemma LE32RoundTrip(s: bytes, i: nat, x: u32)
    requires i + 4 <= |s| && s[i..i + 4] == LE32(x)
    ensures ReadLE32(s, i) == x
  {
    var t := s[i..i + 4];
    assert s[i] == t[0] && s[i + 1] == t[1] && s[i + 2] == t[2] && s[i + 3] == t[3];
    var y := x / 0x100;
    var z := y / 0x100;
    assert x / 0x1_0000 == z && x / 0x100_0000 == z / 0x100;
  }

  // ---------- byte buffers ----------

  /** Reading two adjacent pieces. */
  lemma SplitSlice(data: bytes, off: nat, x: bytes, y: bytes)
    requires off + |x| + |y| <= |data| && data[off..off + |x| + |y|] == x + y
    ensures data[off..off + |x|] == x
    ensures data[off + |x|..off + |x| + |y|] == y
  {
    var s := data[off..off + |x| + |y|];
    assert data[off..off + |x|] == s[..|x|];
    assert data[off + |x|..off + |x| + |y|] == s[|x|..];
  }

  function Zeros(n: nat): (s: bytes)
    ensures |s| == n
  {
    seq(n, i => 0)
  }

  /** The buffer holds the bytes written so far, then the zeros it was made with. */
  ghost predicate Filled(buf: array<byte>, done: bytes)
    reads buf
  {
    && |done| <= buf.Length
    && buf[..] == done + Zeros(buf.Length - |done|)
  }

  /** Writes s at the offset where the written part ends. */
  method Append(buf: array<byte>, off: nat, s: bytes, ghost done: bytes)
    requires Filled(buf, done) && off == |done| && off + |s| <= buf.Length
    modifies buf
    ensures Filled(buf, done + s)
  {
    ghost var was := buf[..];
    for i := 0 to |s|
      invariant forall j :: 0 <= j < buf.Length ==>
                              buf[j] == if off <= j < off + i then s[j - off] else was[j]
    {
      buf[off + i] := s[i];
    }
    assert buf[..] == done + s + Zeros(buf.Length - |done + s|);
  }
}
