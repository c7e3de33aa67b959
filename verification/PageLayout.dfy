/** What is where on a page, byte by byte: the file format without the functions that write and read it. */
module PageLayouts {
  import opened Wrappers
  import opened ByteStrings
  import opened FileHeaders
  import opened NodeFormat
  import Pagers

  /** Two and four bytes as a number, low byte first. */
  function TwoBytes(p: bytes, i: nat): nat
    requires i + 2 <= |p|
  {
    p[i] as int + 256 * p[i + 1] as int
  }

  function FourBytes(p: bytes, i: nat): nat
    requires i + 4 <= |p|
  {
    p[i] as int + 256 * p[i + 1] as int + 65536 * p[i + 2] as int + 16777216 * p[i + 3] as int
  }

  lemma SameTwoBytes(p: bytes, q: bytes, i: nat)
    requires i + 2 <= |p| && i + 2 <= |q| && TwoBytes(p, i) == TwoBytes(q, i)
    ensures p[i..i + 2] == q[i..i + 2]
  {
  }

  lemma SameFourBytes(p: bytes, q: bytes, i: nat)
    requires i + 4 <= |p| && i + 4 <= |q| && FourBytes(p, i) == FourBytes(q, i)
    ensures p[i..i + 4] == q[i..i + 4]
  {
    assert p[i + 3] == q[i + 3];
    assert p[i + 2] == q[i + 2];
  }

  // ---------- the header ----------

  /** RAWT, version 1 and pages of 4096 bytes open; anything else is refused for the first of these that is wrong. */
  lemma HeaderOpensIff(p: Page)
    ensures DecodeHeader(p).Success? <==>
            p[..4] == [82, 65, 87, 84] && p[4..8] == [1, 0, 0, 0] && p[8..12] == [0, 16, 0, 0]
    ensures DecodeHeader(p).Success? ==>
              DecodeHeader(p).value
              == FileHeader([82, 65, 87, 84], 1, 4096, FourBytes(p, 12), FourBytes(p, 16), FourBytes(p, 20))
    ensures DecodeHeader(p) == Failure(BadMagic) <==> p[..4] != [82, 65, 87, 84]
    ensures DecodeHeader(p) == Failure(BadVersion(FourBytes(p, 4))) <==>
            p[..4] == [82, 65, 87, 84] && p[4..8] != [1, 0, 0, 0]
    ensures DecodeHeader(p) == Failure(BadPageSize(FourBytes(p, 8))) <==>
            p[..4] == [82, 65, 87, 84] && p[4..8] == [1, 0, 0, 0] && p[8..12] != [0, 16, 0, 0]
  {
    hide FourBytes, ReadLE32;
    OneAndPageSize();
    LittleEndian(p, 4, 1, [1, 0, 0, 0]);
    LittleEndian(p, 8, 4096, [0, 16, 0, 0]);
    SameReading(p, 4);
    SameReading(p, 8);
    SameReading(p, 12);
    SameReading(p, 16);
    SameReading(p, 20);
  }

  lemma SameReading(p: bytes, i: nat)
    requires i + 4 <= |p|
    ensures ReadLE32(p, i) == FourBytes(p, i)
  {
  }

  lemma OneAndPageSize()
    ensures FourBytes([1, 0, 0, 0], 0) == 1 && FourBytes([0, 16, 0, 0], 0) == 4096
  {
  }

  lemma LittleEndian(p: bytes, i: nat, x: int, s: bytes)
    requires i + 4 <= |p| && |s| == 4 && FourBytes(s, 0) == x
    ensures FourBytes(p, i) == x <==> p[i..i + 4] == s
  {
    var t := p[i..i + 4];
    assert t[0] == p[i] && t[1] == p[i + 1] && t[2] == p[i + 2] && t[3] == p[i + 3];
    if FourBytes(t, 0) == x {
      SameFourBytes(t, s, 0);
      assert t[0..4] == t && s[0..4] == s;
    }
  }

  predicate HeaderSays(p: Page, h: FileHeader) {
    && p[..4] == h.magic
    && FourBytes(p, 4) == h.version && FourBytes(p, 8) == h.pageSize && FourBytes(p, 12) == h.pageCount
    && FourBytes(p, 16) == h.root && FourBytes(p, 20) == h.freeHead
    && forall i :: 24 <= i < 4096 ==> p[i] == 0
  }

  lemma SameHeader(p: Page, q: Page, h: FileHeader)
    requires HeaderSays(p, h) && HeaderSays(q, h)
    ensures p == q
  {
    hide FourBytes;
    SameFourBytes(p, q, 4);
    SameFourBytes(p, q, 8);
    SameFourBytes(p, q, 12);
    SameFourBytes(p, q, 16);
    SameFourBytes(p, q, 20);
    assert p[24..] == q[24..];
    Pieces(p);
    Pieces(q);
  }

  lemma Pieces(p: Page)
    ensures p == p[..4] + (p[4..8] + (p[8..12] + (p[12..16] + (p[16..20] + (p[20..24] + p[24..])))))
  {
  }

  /** The one page that a header is written as. */
  lemma HeaderPageIff(p: Page, h: FileHeader)
    requires |h.magic| == 4
    ensures p == EncodeHeader(h) <==> HeaderSays(p, h)
  {
    RawHeaderRoundTrip(h);
    var q := EncodeHeader(h);
    assert HeaderSays(q, h);
    if HeaderSays(p, h) {
      SameHeader(p, q, h);
    }
  }

  /** The number of the next free page is in the first four bytes of a free page. */
  lemma FreePageLink(p: Page)
    ensures Pagers.Link(p) == FourBytes(p, 0)
  {
  }

  // ---------- nodes ----------

  /** From off on, one behind the other: length of the key, length of the value, key, value. */
  ghost predicate LeafAt(p: bytes, off: nat, ents: seq<Entry>)
    decreases ents
  {
    ents != [] ==>
      var key, val := ents[0].key, ents[0].val;
      var k := off + 4;
      var v := k + |key|;
      && v + |val| <= |p|
      && TwoBytes(p, off) == |key| && TwoBytes(p, off + 2) == |val|
      && p[k..v] == key && p[v..v + |val|] == val
      && LeafAt(p, v + |val|, ents[1..])
  }

  /** From off on, one behind the other: child, length of the separator, separator. */
  ghost predicate InnerAt(p: bytes, off: nat, seps: seq<bytes>, kids: seq<u32>)
    requires |kids| == |seps|
    decreases seps
  {
    seps != [] ==>
      var s := off + 6;
      && s + |seps[0]| <= |p|
      && FourBytes(p, off) == kids[0] && TwoBytes(p, off + 4) == |seps[0]|
      && p[s..s + |seps[0]|] == seps[0]
      && InnerAt(p, s + |seps[0]|, seps[1..], kids[1..])
  }

  /** Byte 0 tells leaf from internal node; then the number of cells, the right pointer, from byte 7 on the cells. */
  ghost predicate PageSays(p: bytes, v: NodeVal) {
    |p| >= 7 &&
    match v
    case LeafVal(ents, next) =>
      p[0] == 2 && TwoBytes(p, 1) == |ents| && FourBytes(p, 3) == next && LeafAt(p, 7, ents)
    case InnerVal(seps, kids) =>
      && p[0] == 1 && TwoBytes(p, 1) == |seps| && |kids| == |seps| + 1 && FourBytes(p, 3) == kids[|seps|]
      && InnerAt(p, 7, seps, kids[..|seps|])
  }

  lemma ParseLeafStep(p: bytes, off: nat, n: nat)
    requires n > 0 && off + 4 <= |p|
    ensures var k, keyLen, valLen := off + 4, TwoBytes(p, off), TwoBytes(p, off + 2);
            var next := k + keyLen + valLen;
            ParseLeafCells(p, off, n)
            == if next > |p| then None
               else
                 match ParseLeafCells(p, next, n - 1)
                 case None => None
                 case Some(rest) => Some([Entry(p[k..k + keyLen], p[k + keyLen..next])] + rest)
  {
  }

  lemma {:induction false} ParsedLeafIff(p: bytes, off: nat, ents: seq<Entry>)
    requires off <= |p|
    ensures ParseLeafCells(p, off, |ents|) == Some(ents) <==> LeafAt(p, off, ents)
    decreases ents
  {
    hide TwoBytes, ReadLE16, ParseLeafCells;
    if ents == [] {
      NoCells(p, off);
    } else if off + 4 <= |p| {
      var n, m := TwoBytes(p, off), TwoBytes(p, off + 2);
      var k, v, next := off + 4, off + 4 + n, off + 4 + n + m;
      ParseLeafStep(p, off, |ents|);
      if next <= |p| {
        HeadFirst(ents);
        if ents[0] == Entry(p[k..v], p[v..next]) {
          ParsedLeafIff(p, next, ents[1..]);
          assert LeafAt(p, off, ents) <==> LeafAt(p, next, ents[1..]);
        }
      }
    } else {
      NoRoom(p, off, |ents|);
    }
  }

  lemma NoCells(p: bytes, off: nat)
    requires off <= |p|
    ensures ParseLeafCells(p, off, 0) == Some([])
  {
  }

  lemma NoRoom(p: bytes, off: nat, n: nat)
    requires off <= |p| < off + 4 && n > 0
    ensures ParseLeafCells(p, off, n) == None
  {
  }

  lemma HeadFirst<T>(s: seq<T>)
    requires s != []
    ensures s == [s[0]] + s[1..]
    ensures forall rest :: s == [s[0]] + rest <==> rest == s[1..]
  {
    forall rest | s == [s[0]] + rest
      ensures rest == s[1..]
    {
      assert s[1..] == rest;
    }
  }

  lemma {:induction false} ParsedInnerIff(p: bytes, off: nat, seps: seq<bytes>, kids: seq<u32>)
    requires off <= |p| && |kids| == |seps|
    ensures ParseInnerCells(p, off, |seps|) == Some((seps, kids)) <==> InnerAt(p, off, seps, kids)
    decreases seps
  {
    if seps != [] && off + 6 <= |p| {
      var next := off + 6 + TwoBytes(p, off + 4);
      if next <= |p| {
        ParsedInnerIff(p, next, seps[1..], kids[1..]);
        assert seps == [seps[0]] + seps[1..] && kids == [kids[0]] + kids[1..];
      }
    }
  }

  lemma {:induction false} ParsedCount(p: bytes, off: nat, n: nat)
    requires off <= |p|
    ensures var r := ParseLeafCells(p, off, n); r.Some? ==> |r.value| == n
    ensures var r := ParseInnerCells(p, off, n); r.Some? ==> |r.value.0| == |r.value.1| == n
    decreases n
  {
    if ParseLeafCells(p, off, n).Some? {
      ParsedLeafFits(p, off, n);
    }
    if ParseInnerCells(p, off, n).Some? {
      ParsedInnerFits(p, off, n);
    }
  }

  /** A page decodes to a node exactly when it says that node, byte by byte. */
  lemma DecodesIff(p: bytes, v: NodeVal)
    ensures DecodeNode(p) == Success(v) <==> PageSays(p, v)
  {
    hide LeafAt, InnerAt, ParseLeafCells, ParseInnerCells;
    if |p| >= 7 {
      ParsedCount(p, 7, TwoBytes(p, 1));
      match v
      case LeafVal(ents, _) =>
        ParsedLeafIff(p, 7, ents);
      case InnerVal(seps, kids) =>
        if |kids| == |seps| + 1 {
          ParsedInnerIff(p, 7, seps, kids[..|seps|]);
          InnerDecodes(p, seps, kids);
        }
    }
  }

  lemma InnerDecodes(p: bytes, seps: seq<bytes>, kids: seq<u32>)
    requires |p| >= 7 && |kids| == |seps| + 1
    ensures DecodeNode(p) == Success(InnerVal(seps, kids)) <==>
            && p[0] == 1 && TwoBytes(p, 1) == |seps| && FourBytes(p, 3) == kids[|seps|]
            && ParseInnerCells(p, 7, |seps|) == Some((seps, kids[..|seps|]))
  {
    hide ParseLeafCells, ParseInnerCells;
    ParsedCount(p, 7, TwoBytes(p, 1));
    assert kids == kids[..|seps|] + [kids[|seps|]];
    var r := ParseInnerCells(p, 7, TwoBytes(p, 1));
    if r.Some? {
      var all := r.value.1 + [FourBytes(p, 3)];
      assert all[..|all| - 1] == r.value.1;
    }
  }

  /** What every other byte string is refused for. */
  lemma DecodeErrors(p: bytes, t: byte)
    ensures DecodeNode(p) == Failure(TooSmall) <==> |p| < 7
    ensures DecodeNode(p) == Failure(UnknownType(t)) <==> |p| >= 7 && p[0] == t && t != 1 && t != 2
    ensures DecodeNode(p) == Failure(Truncated) <==>
            |p| >= 7 && (p[0] == 1 || p[0] == 2) && forall v :: !PageSays(p, v)
  {
    hide PageSays, ParseLeafCells, ParseInnerCells;
    forall v
      ensures PageSays(p, v) <==> DecodeNode(p) == Success(v)
    {
      DecodesIff(p, v);
    }
    if DecodeNode(p).Success? {
      assert PageSays(p, DecodeNode(p).value);
    }
  }

  lemma {:induction false} SameLeafCells(p: bytes, q: bytes, off: nat, ents: seq<Entry>)
    requires off <= |p| && off <= |q| && LeafAt(p, off, ents) && LeafAt(q, off, ents)
    ensures off + LeafSize(ents) <= |p| && off + LeafSize(ents) <= |q|
    ensures p[off..off + LeafSize(ents)] == q[off..off + LeafSize(ents)]
    decreases ents
  {
    if ents != [] {
      var k := off + 4;
      var v := k + |ents[0].key|;
      var next := v + |ents[0].val|;
      SameTwoBytes(p, q, off);
      SameTwoBytes(p, q, off + 2);
      SameLeafCells(p, q, next, ents[1..]);
      JoinSlices(p, q, off, off + 2, k);
      JoinSlices(p, q, off, k, v);
      JoinSlices(p, q, off, v, next);
      JoinSlices(p, q, off, next, off + LeafSize(ents));
    }
  }

  lemma JoinSlices(p: bytes, q: bytes, a: nat, b: nat, c: nat)
    requires a <= b <= c <= |p| && c <= |q| && p[a..b] == q[a..b] && p[b..c] == q[b..c]
    ensures p[a..c] == q[a..c]
  {
    assert p[a..c] == p[a..b] + p[b..c];
    assert q[a..c] == q[a..b] + q[b..c];
  }

  lemma {:induction false} SameInnerCells(p: bytes, q: bytes, off: nat, seps: seq<bytes>, kids: seq<u32>)
    requires off <= |p| && off <= |q| && |kids| == |seps| && InnerAt(p, off, seps, kids) && InnerAt(q, off, seps, kids)
    ensures off + InnerSize(seps) <= |p| && off + InnerSize(seps) <= |q|
    ensures p[off..off + InnerSize(seps)] == q[off..off + InnerSize(seps)]
    decreases seps
  {
    if seps != [] {
      var s := off + 6;
      var next := s + |seps[0]|;
      SameFourBytes(p, q, off);
      SameTwoBytes(p, q, off + 4);
      SameInnerCells(p, q, next, seps[1..], kids[1..]);
      JoinSlices(p, q, off, off + 4, s);
      JoinSlices(p, q, off, s, next);
      JoinSlices(p, q, off, next, off + InnerSize(seps));
    }
  }

  /** Behind the cells there is nothing but zeros. */
  predicate ZerosFrom(p: bytes, off: nat) {
    forall i :: off <= i < |p| ==> p[i] == 0
  }

  lemma SamePage(p: Page, q: Page, v: NodeVal)
    requires PageSays(p, v) && PageSays(q, v) && ZerosFrom(p, 7 + NodeSize(v)) && ZerosFrom(q, 7 + NodeSize(v))
    ensures p == q
  {
    hide TwoBytes, FourBytes, LeafSize, InnerSize, LeafAt, InnerAt;
    assert p[0..1] == q[0..1];
    SameTwoBytes(p, q, 1);
    SameFourBytes(p, q, 3);
    match v {
      case LeafVal(ents, _) => SameLeafCells(p, q, 7, ents);
      case InnerVal(seps, kids) => SameInnerCells(p, q, 7, seps, kids[..|seps|]);
    }
    var end := 7 + NodeSize(v);
    assert p[end..4096] == q[end..4096];
    JoinSlices(p, q, 0, 1, 3);
    JoinSlices(p, q, 0, 3, 7);
    JoinSlices(p, q, 0, 7, end);
    JoinSlices(p, q, 0, end, 4096);
    assert p[0..4096] == p && q[0..4096] == q;
  }

  /** The one page that a node is written as, and when there is none. */
  lemma EncodesIff(v: NodeVal, p: Page)
    requires WellFormed(v)
    ensures EncodeNode(v) == Some(p) <==> PageSays(p, v) && ZerosFrom(p, 7 + NodeSize(v))
    ensures EncodeNode(v) == None <==> 7 + NodeSize(v) > 4096
  {
    hide PageSays, DecodeNode, NodeSize, NodeHeader, Cells;
    NodeRoundTrip(v);
    if EncodeNode(v).Some? {
      var q := EncodeNode(v).value;
      DecodesIff(q, v);
      FitsMeansSmallFields(v);
      assert ZerosFrom(q, 7 + NodeSize(v));
      if PageSays(p, v) && ZerosFrom(p, 7 + NodeSize(v)) {
        SamePage(p, q, v);
      }
    } else if PageSays(p, v) {
      DecodesIff(p, v);
      DecodedNodeFits(p);
      assert false;
    }
  }
}
