/**
 What a tree node says and how it is laid out on its page: the byte layout
 as functions, and the proof that writing and reading it back is lossless.
 */
module NodeFormat {
  import opened Wrappers
  import opened ByteStrings
  import opened FileHeaders

  const NODE_INTERNAL: byte := 1
  const NODE_LEAF: byte := 2
  const NODE_HEADER_SIZE := 7
  const CELL_AREA_SIZE := PAGE_SIZE - NODE_HEADER_SIZE
  const MAX_KEY_SIZE := 255
  const MAX_VALUE_SIZE := 3840

  datatype Entry = Entry(key: bytes, val: bytes)

  /**
   A leaf holds entries and the number of the next leaf; an internal node
   holds separators and one more child than separators (the last child is
   the page the header calls right pointer).
   */
  datatype NodeVal =
    | LeafVal(ents: seq<Entry>, next: u32)
    | InnerVal(seps: seq<bytes>, kids: seq<u32>)

  predicate WellFormed(v: NodeVal) {
    v.InnerVal? ==> |v.kids| == |v.seps| + 1
  }

  // ---------- sizes ----------

  function EntrySize(e: Entry): nat {
    4 + |e.key| + |e.val|
  }

  function LeafSize(ents: seq<Entry>): nat {
    if ents == [] then 0 else EntrySize(ents[0]) + LeafSize(ents[1..])
  }

  function InnerSize(seps: seq<bytes>): nat {
    if seps == [] then 0 else 6 + |seps[0]| + InnerSize(seps[1..])
  }

  function NodeSize(v: NodeVal): nat {
    match v
    case LeafVal(ents, _) => LeafSize(ents)
    case InnerVal(seps, _) => InnerSize(seps)
  }

  lemma {:induction false} LeafSizeConcat(a: seq<Entry>, b: seq<Entry>)
    ensures LeafSize(a + b) == LeafSize(a) + LeafSize(b)
    decreases a
  {
    if a == [] {
      assert a + b == b;
    } else {
      assert (a + b)[1..] == a[1..] + b;
      LeafSizeConcat(a[1..], b);
    }
  }

  lemma {:induction false} InnerSizeConcat(a: seq<bytes>, b: seq<bytes>)
    ensures InnerSize(a + b) == InnerSize(a) + InnerSize(b)
    decreases a
  {
    if a == [] {
      assert a + b == b;
    } else {
      assert (a + b)[1..] == a[1..] + b;
      InnerSizeConcat(a[1..], b);
    }
  }

  lemma {:induction false} LeafSizeAtLeast(ents: seq<Entry>)
    ensures LeafSize(ents) >= 4 * |ents|
    decreases ents
  {
    if ents != [] {
      LeafSizeAtLeast(ents[1..]);
    }
  }

  lemma {:induction false} InnerSizeAtLeast(seps: seq<bytes>)
    ensures InnerSize(seps) >= 6 * |seps|
    decreases seps
  {
    if seps != [] {
      InnerSizeAtLeast(seps[1..]);
    }
  }

  // ---------- layout ----------

  function LeafCell(e: Entry): (s: bytes)
    requires |e.key| < 0x1_0000 && |e.val| < 0x1_0000
    ensures |s| == EntrySize(e)
  {
    LE16(|e.key|) + LE16(|e.val|) + e.key + e.val
  }

  function InnerCell(sep: bytes, kid: u32): (s: bytes)
    requires |sep| < 0x1_0000
    ensures |s| == 6 + |sep|
  {
    LE32(kid) + LE16(|sep|) + sep
  }

  predicate LeafFields(ents: seq<Entry>) {
    forall i :: 0 <= i < |ents| ==> |ents[i].key| < 0x1_0000 && |ents[i].val| < 0x1_0000
  }

  predicate InnerFields(seps: seq<bytes>) {
    forall i :: 0 <= i < |seps| ==> |seps[i]| < 0x1_0000
  }

  lemma {:induction false} LeafSizeBoundsFields(ents: seq<Entry>, limit: nat)
    requires LeafSize(ents) <= limit
    ensures forall i :: 0 <= i < |ents| ==> EntrySize(ents[i]) <= limit
    decreases ents
  {
    if ents != [] {
      LeafSizeBoundsFields(ents[1..], limit);
      assert forall i :: 1 <= i < |ents| ==> ents[i] == ents[1..][i - 1];
    }
  }

  lemma {:induction false} InnerSizeBoundsFields(seps: seq<bytes>, limit: nat)
    requires InnerSize(seps) <= limit
    ensures forall i :: 0 <= i < |seps| ==> 6 + |seps[i]| <= limit
    decreases seps
  {
    if seps != [] {
      InnerSizeBoundsFields(seps[1..], limit);
      assert forall i :: 1 <= i < |seps| ==> seps[i] == seps[1..][i - 1];
    }
  }

  function LeafCells(ents: seq<Entry>): (s: bytes)
    requires LeafFields(ents)
    ensures |s| == LeafSize(ents)
    decreases ents
  {
    if ents == [] then [] else LeafCell(ents[0]) + LeafCells(ents[1..])
  }

  /** The last child is not part of the cells. */
  function InnerCells(seps: seq<bytes>, kids: seq<u32>): (s: bytes)
    requires InnerFields(seps) && |kids| == |seps| + 1
    ensures |s| == InnerSize(seps)
    decreases seps
  {
    if seps == [] then [] else InnerCell(seps[0], kids[0]) + InnerCells(seps[1..], kids[1..])
  }

  function Cells(v: NodeVal): (s: bytes)
    requires WellFormed(v)
    requires match v case LeafVal(ents, _) => LeafFields(ents) case InnerVal(seps, _) => InnerFields(seps)
    ensures |s| == NodeSize(v)
  {
    match v
    case LeafVal(ents, _) => LeafCells(ents)
    case InnerVal(seps, kids) => InnerCells(seps, kids)
  }

  function TypeOf(v: NodeVal): byte {
    if v.LeafVal? then NODE_LEAF else NODE_INTERNAL
  }

  function CountOf(v: NodeVal): nat {
    if v.LeafVal? then |v.ents| else |v.seps|
  }

  function RightOf(v: NodeVal): u32
    requires WellFormed(v)
  {
    if v.LeafVal? then v.next else v.kids[|v.seps|]
  }

  lemma FitsMeansSmallFields(v: NodeVal)
    requires WellFormed(v) && NodeSize(v) <= CELL_AREA_SIZE
    ensures match v case LeafVal(ents, _) => LeafFields(ents) case InnerVal(seps, _) => InnerFields(seps)
    ensures CountOf(v) < 0x1_0000
  {
    match v
    case LeafVal(ents, _) =>
      LeafSizeBoundsFields(ents, CELL_AREA_SIZE);
      LeafSizeAtLeast(ents);
    case InnerVal(seps, _) =>
      InnerSizeBoundsFields(seps, CELL_AREA_SIZE);
      InnerSizeAtLeast(seps);
  }

  function NodeHeader(v: NodeVal): (s: bytes)
    requires WellFormed(v) && CountOf(v) < 0x1_0000
    ensures |s| == NODE_HEADER_SIZE
  {
    [TypeOf(v)] + LE16(CountOf(v)) + LE32(RightOf(v))
  }

  /** The page of a node, or nothing when its cells do not fit. */
  function EncodeNode(v: NodeVal): Option<Page>
    requires WellFormed(v)
  {
    if NodeSize(v) > CELL_AREA_SIZE then None
    else
      FitsMeansSmallFields(v);
      Some(NodeHeader(v) + Cells(v) + Zeros(CELL_AREA_SIZE - NodeSize(v)))
  }

  // ---------- reading ----------

  datatype DecodeError = TooSmall | Truncated | UnknownType(t: byte)

  function ParseLeafCells(data: bytes, off: nat, n: nat): Option<seq<Entry>>
    requires off <= |data|
    decreases n
  {
    if n == 0 then Some([])
    else if off + 4 > |data| then None
    else
      var keyLen := ReadLE16(data, off);
      var valLen := ReadLE16(data, off + 2);
      var k := off + 4;
      if k + keyLen + valLen > |data| then None
      else
        match ParseLeafCells(data, k + keyLen + valLen, n - 1)
        case None => None
        case Some(rest) => Some([Entry(data[k..k + keyLen], data[k + keyLen..k + keyLen + valLen])] + rest)
  }

  function ParseInnerCells(data: bytes, off: nat, n: nat): Option<(seq<bytes>, seq<u32>)>
    requires off <= |data|
    decreases n
  {
    if n == 0 then Some(([], []))
    else if off + 6 > |data| then None
    else
      var kid := ReadLE32(data, off);
      var keyLen := ReadLE16(data, off + 4);
      var k := off + 6;
      if k + keyLen > |data| then None
      else
        match ParseInnerCells(data, k + keyLen, n - 1)
        case None => None
        case Some((seps, kids)) => Some(([data[k..k + keyLen]] + seps, [kid] + kids))
  }

  /** Total on every byte string. */
  function DecodeNode(data: bytes): (r: Result<NodeVal, DecodeError>)
  {
    if |data| < NODE_HEADER_SIZE then Failure(TooSmall)
    else
      var count := ReadLE16(data, 1);
      var right := ReadLE32(data, 3);
      if data[0] == NODE_INTERNAL then
        match ParseInnerCells(data, NODE_HEADER_SIZE, count)
        case None => Failure(Truncated)
        case Some((seps, kids)) => Success(InnerVal(seps, kids + [right]))
      else if data[0] == NODE_LEAF then
        match ParseLeafCells(data, NODE_HEADER_SIZE, count)
        case None => Failure(Truncated)
        case Some(ents) => Success(LeafVal(ents, right))
      else Failure(UnknownType(data[0]))
  }

  // ---------- round trip ----------

  lemma LeafCellParses(data: bytes, off: nat, e: Entry)
    requires |e.key| < 0x1_0000 && |e.val| < 0x1_0000
    requires off + EntrySize(e) <= |data| && data[off..off + EntrySize(e)] == LeafCell(e)
    ensures ReadLE16(data, off) == |e.key| && ReadLE16(data, off + 2) == |e.val|
    ensures data[off + 4..off + 4 + |e.key|] == e.key
    ensures data[off + 4 + |e.key|..off + EntrySize(e)] == e.val
  {
    assert LeafCell(e) == LE16(|e.key|) + (LE16(|e.val|) + (e.key + e.val));
    SplitSlice(data, off, LE16(|e.key|), LE16(|e.val|) + (e.key + e.val));
    SplitSlice(data, off + 2, LE16(|e.val|), e.key + e.val);
    SplitSlice(data, off + 4, e.key, e.val);
    LE16RoundTrip(data, off, |e.key|);
    LE16RoundTrip(data, off + 2, |e.val|);
  }

  lemma InnerCellParses(data: bytes, off: nat, sep: bytes, kid: u32)
    requires |sep| < 0x1_0000
    requires off + 6 + |sep| <= |data| && data[off..off + 6 + |sep|] == InnerCell(sep, kid)
    ensures ReadLE32(data, off) == kid && ReadLE16(data, off + 4) == |sep|
    ensures data[off + 6..off + 6 + |sep|] == sep
  {
    assert InnerCell(sep, kid) == LE32(kid) + (LE16(|sep|) + sep);
    SplitSlice(data, off, LE32(kid), LE16(|sep|) + sep);
    SplitSlice(data, off + 4, LE16(|sep|), sep);
    LE32RoundTrip(data, off, kid);
    LE16RoundTrip(data, off + 4, |sep|);
  }

  lemma {:induction false} ParseLeafInverts(data: bytes, off: nat, ents: seq<Entry>)
    requires LeafFields(ents)
    requires off + LeafSize(ents) <= |data| && data[off..off + LeafSize(ents)] == LeafCells(ents)
    ensures ParseLeafCells(data, off, |ents|) == Some(ents)
    decreases ents
  {
    hide LeafCell, ReadLE16;
    if ents != [] {
      var e := ents[0];
      SplitSlice(data, off, LeafCell(e), LeafCells(ents[1..]));
      LeafCellParses(data, off, e);
      var next := off + 4 + |e.key| + |e.val|;
      ParseLeafInverts(data, next, ents[1..]);
      assert ParseLeafCells(data, next, |ents| - 1) == Some(ents[1..]);
      assert [e] + ents[1..] == ents;
    }
  }

  lemma {:induction false} ParseInnerInverts(data: bytes, off: nat, seps: seq<bytes>, kids: seq<u32>)
    requires InnerFields(seps) && |kids| == |seps| + 1
    requires off + InnerSize(seps) <= |data| && data[off..off + InnerSize(seps)] == InnerCells(seps, kids)
    ensures ParseInnerCells(data, off, |seps|) == Some((seps, kids[..|seps|]))
    decreases seps
  {
    hide InnerCell, ReadLE16, ReadLE32;
    if seps != [] {
      SplitSlice(data, off, InnerCell(seps[0], kids[0]), InnerCells(seps[1..], kids[1..]));
      InnerCellParses(data, off, seps[0], kids[0]);
      var next := off + 6 + |seps[0]|;
      ParseInnerInverts(data, next, seps[1..], kids[1..]);
      assert ParseInnerCells(data, next, |seps| - 1) == Some((seps[1..], kids[1..][..|seps| - 1]));
      assert [seps[0]] + seps[1..] == seps;
      assert kids[..|seps|] == [kids[0]] + kids[1..][..|seps| - 1];
    }
  }

  lemma NodeHeaderParses(v: NodeVal, data: bytes)
    requires WellFormed(v) && CountOf(v) < 0x1_0000
    requires |data| >= NODE_HEADER_SIZE && data[..NODE_HEADER_SIZE] == NodeHeader(v)
    ensures data[0] == TypeOf(v) && ReadLE16(data, 1) == CountOf(v) && ReadLE32(data, 3) == RightOf(v)
  {
    var h := data[..NODE_HEADER_SIZE];
    assert data[0] == h[0];
    assert data[1..3] == h[1..3] == LE16(CountOf(v));
    assert data[3..7] == h[3..7] == LE32(RightOf(v));
    LE16RoundTrip(data, 1, CountOf(v));
    LE32RoundTrip(data, 3, RightOf(v));
  }

  /** A node is written exactly when its size function says it fits, and then reads back unchanged. */
  lemma NodeRoundTrip(v: NodeVal)
    requires WellFormed(v)
    ensures EncodeNode(v).Some? <==> NodeSize(v) <= CELL_AREA_SIZE
    ensures EncodeNode(v).Some? ==> DecodeNode(EncodeNode(v).value) == Success(v)
  {
    if NodeSize(v) <= CELL_AREA_SIZE {
      FitsMeansSmallFields(v);
      var p := EncodeNode(v).value;
      assert p[..NODE_HEADER_SIZE] == NodeHeader(v);
      assert p[NODE_HEADER_SIZE..NODE_HEADER_SIZE + NodeSize(v)] == Cells(v);
      NodeHeaderParses(v, p);
      match v
      case LeafVal(ents, _) =>
        ParseLeafInverts(p, NODE_HEADER_SIZE, ents);
      case InnerVal(seps, kids) =>
        ParseInnerInverts(p, NODE_HEADER_SIZE, seps, kids);
        assert kids == kids[..|seps|] + [kids[|seps|]];
    }
  }

  lemma {:induction false} ParsedLeafFits(data: bytes, off: nat, n: nat)
    requires off <= |data| && ParseLeafCells(data, off, n).Some?
    ensures var ents := ParseLeafCells(data, off, n).value;
            |ents| == n && off + LeafSize(ents) <= |data|
    decreases n
  {
    if n > 0 {
      var k := off + 4 + ReadLE16(data, off) + ReadLE16(data, off + 2);
      ParsedLeafFits(data, k, n - 1);
      var ents := ParseLeafCells(data, off, n).value;
      assert ents[1..] == ParseLeafCells(data, k, n - 1).value;
    }
  }

  lemma {:induction false} ParsedInnerFits(data: bytes, off: nat, n: nat)
    requires off <= |data| && ParseInnerCells(data, off, n).Some?
    ensures var (seps, kids) := ParseInnerCells(data, off, n).value;
            |seps| == |kids| == n && off + InnerSize(seps) <= |data|
    decreases n
  {
    if n > 0 {
      var k := off + 6 + ReadLE16(data, off + 4);
      ParsedInnerFits(data, k, n - 1);
      var (seps, kids) := ParseInnerCells(data, off, n).value;
      assert seps[1..] == ParseInnerCells(data, k, n - 1).value.0;
    }
  }

  /** Whatever a page holds, the decoder either refuses it or yields a node that fits on a page again. */
  lemma DecodedNodeFits(p: Page)
    requires DecodeNode(p).Success?
    ensures WellFormed(DecodeNode(p).value) && NodeSize(DecodeNode(p).value) <= CELL_AREA_SIZE
    ensures EncodeNode(DecodeNode(p).value).Some?
  {
    if p[0] == NODE_INTERNAL {
      ParsedInnerFits(p, NODE_HEADER_SIZE, ReadLE16(p, 1));
    } else {
      ParsedLeafFits(p, NODE_HEADER_SIZE, ReadLE16(p, 1));
    }
  }
}
