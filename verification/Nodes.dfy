/**
 The in-memory node and its serialisation, byte by byte, against the format
 of NodeFormat. Writing keeps what is done so far in front of the zeros of a
 fresh buffer; reading takes one cell after the other and never goes past the
 end of the page.
 */
module Nodes {
  import opened Wrappers
  import opened ByteStrings
  import opened FileHeaders
  import opened NodeFormat

  function Zip(keys: seq<bytes>, values: seq<bytes>): (ents: seq<Entry>)
    requires |keys| == |values|
    ensures |ents| == |keys|
    ensures forall i :: 0 <= i < |ents| ==> ents[i] == Entry(keys[i], values[i])
  {
    seq(|keys|, i requires 0 <= i < |keys| => Entry(keys[i], values[i]))
  }

  lemma ZipSnoc(keys: seq<bytes>, values: seq<bytes>, key: bytes, val: bytes)
    requires |keys| == |values|
    ensures Zip(keys + [key], values + [val]) == Zip(keys, values) + [Entry(key, val)]
  {
  }

  class Node {
    var nodeType: byte
    var keys: seq<bytes>
    var values: seq<bytes>    // leaves only
    var children: seq<u32>    // internal nodes only
    var rightPtr: u32         // next leaf or rightmost child

    ghost predicate Valid()
      reads this
    {
      || (nodeType == NODE_LEAF && |values| == |keys|)
      || (nodeType == NODE_INTERNAL && |children| == |keys|)
    }

    ghost function Val(): (v: NodeVal)
      requires Valid()
      reads this
      ensures WellFormed(v)
    {
      if nodeType == NODE_LEAF then LeafVal(Zip(keys, values), rightPtr)
      else InnerVal(keys, children + [rightPtr])
    }

    constructor MakeLeaf()
      ensures Valid() && Val() == LeafVal([], 0) && nodeType == NODE_LEAF
    {
      nodeType, keys, values, children, rightPtr := NODE_LEAF, [], [], [], 0;
    }

    constructor MakeInternal()
      ensures Valid() && Val() == InnerVal([], [0]) && nodeType == NODE_INTERNAL
      ensures keys == [] && children == []
    {
      nodeType, keys, values, children, rightPtr := NODE_INTERNAL, [], [], [], 0;
    }

    /** leafNodeSize */
    method LeafNodeSize() returns (size: nat)
      requires Valid() && nodeType == NODE_LEAF
      ensures size == LeafSize(Val().ents)
    {
      size := 0;
      ghost var ents := Val().ents;
      for i := 0 to |keys|
        invariant size == LeafSize(ents[..i])
      {
        size := size + 2 + 2 + |keys[i]| + |values[i]|;
        LeafSizeSnoc(ents, i);
      }
      assert ents[..|keys|] == ents;
    }

    /** internalNodeSize */
    method InternalNodeSize() returns (size: nat)
      requires Valid() && nodeType == NODE_INTERNAL
      ensures size == InnerSize(keys)
    {
      size := 0;
      for i := 0 to |keys|
        invariant size == InnerSize(keys[..i])
      {
        size := size + 2 + |keys[i]|;
        if i < |children| {
          size := size + 4;
        }
        InnerSizeSnoc(keys, i);
      }
      assert keys[..|keys|] == keys;
    }
  }

  // ---------- one more cell ----------

  lemma LeafSizeSnoc(ents: seq<Entry>, i: nat)
    requires i < |ents|
    ensures LeafSize(ents[..i + 1]) == LeafSize(ents[..i]) + EntrySize(ents[i])
  {
    var front, e := ents[..i], ents[i];
    assert ents[..i + 1] == front + [e];
    LeafSizeConcat(front, [e]);
    assert LeafSize([e]) == EntrySize(e) + LeafSize([]);
  }

  lemma LeafSizePrefix(ents: seq<Entry>, i: nat)
    requires i <= |ents|
    ensures LeafSize(ents[..i]) <= LeafSize(ents)
  {
    assert ents == ents[..i] + ents[i..];
    LeafSizeConcat(ents[..i], ents[i..]);
  }

  lemma InnerSizeSnoc(seps: seq<bytes>, i: nat)
    requires i < |seps|
    ensures InnerSize(seps[..i + 1]) == InnerSize(seps[..i]) + 6 + |seps[i]|
  {
    var front, s := seps[..i], seps[i];
    assert seps[..i + 1] == front + [s];
    InnerSizeConcat(front, [s]);
    assert InnerSize([s]) == 6 + |s| + InnerSize([]);
  }

  lemma InnerSizePrefix(seps: seq<bytes>, i: nat)
    requires i <= |seps|
    ensures InnerSize(seps[..i]) <= InnerSize(seps)
  {
    assert seps == seps[..i] + seps[i..];
    InnerSizeConcat(seps[..i], seps[i..]);
  }

  lemma {:induction false} LeafCellsSnoc(ents: seq<Entry>, e: Entry)
    requires LeafFields(ents) && |e.key| < 0x1_0000 && |e.val| < 0x1_0000
    ensures LeafFields(ents + [e])
    ensures LeafCells(ents + [e]) == LeafCells(ents) + LeafCell(e)
    decreases ents
  {
    hide LeafCell;
    if ents == [] {
      assert LeafCells([e]) == LeafCell(e) + LeafCells([]);
    } else {
      assert (ents + [e])[1..] == ents[1..] + [e];
      LeafCellsSnoc(ents[1..], e);
    }
  }

  lemma {:induction false} InnerCellsSnoc(seps: seq<bytes>, kids: seq<u32>, sep: bytes, kid: u32)
    requires InnerFields(seps) && |sep| < 0x1_0000 && |kids| == |seps| + 1
    ensures InnerFields(seps + [sep])
    ensures InnerCells(seps + [sep], kids + [kid]) == InnerCells(seps, kids) + InnerCell(sep, kids[|seps|])
    decreases seps
  {
    hide InnerCell;
    if seps == [] {
      assert InnerCells([sep], kids + [kid]) == InnerCell(sep, kids[0]) + InnerCells([], [kid]);
    } else {
      assert (seps + [sep])[1..] == seps[1..] + [sep] && (kids + [kid])[1..] == kids[1..] + [kid];
      InnerCellsSnoc(seps[1..], kids[1..], sep, kid);
    }
  }

  // ---------- writing ----------

  /** The first seven bytes; the count is cut to 16 bits as Go's conversion does. */
  method WriteNodeHeader(n: Node, buf: array<byte>) returns (ghost done: bytes)
    requires n.Valid() && Filled(buf, []) && buf.Length == PAGE_SIZE
    modifies buf
    ensures |done| == NODE_HEADER_SIZE && Filled(buf, done)
    ensures CountOf(n.Val()) < 0x1_0000 ==> done == NodeHeader(n.Val())
  {
    Append(buf, 0, [n.nodeType], []);
    Append(buf, 1, LE16(|n.keys| % 0x1_0000), [n.nodeType]);
    done := [n.nodeType] + LE16(|n.keys| % 0x1_0000);
    Append(buf, 3, LE32(n.rightPtr), done);
    done := done + LE32(n.rightPtr);
  }

  method AppendLeafCell(buf: array<byte>, off: nat, key: bytes, val: bytes, ghost done: bytes)
    requires Filled(buf, done) && off == |done| && off + 4 + |key| + |val| <= buf.Length <= PAGE_SIZE
    modifies buf
    ensures Filled(buf, done + LeafCell(Entry(key, val)))
  {
    var offset := off;
    Append(buf, offset, LE16(|key| % 0x1_0000), done);
    offset := offset + 2;
    Append(buf, offset, LE16(|val| % 0x1_0000), done + LE16(|key|));
    offset := offset + 2;
    Append(buf, offset, key, done + LE16(|key|) + LE16(|val|));
    offset := offset + |key|;
    Append(buf, offset, val, done + LE16(|key|) + LE16(|val|) + key);
    Regroup4(done, LE16(|key|), LE16(|val|), key, val);
  }

  method SerializeLeaf(n: Node, buf: array<byte>) returns (ok: bool)
    requires n.Valid() && n.nodeType == NODE_LEAF && Filled(buf, []) && buf.Length == PAGE_SIZE
    modifies buf
    ensures ok <==> EncodeNode(n.Val()).Some?
    ensures ok ==> buf[..] == EncodeNode(n.Val()).value
  {
    hide Zeros, LeafCell, InnerCell;
    ghost var ents := n.Val().ents;
    ghost var head := WriteNodeHeader(n, buf);
    var offset := NODE_HEADER_SIZE;
    for i := 0 to |n.keys|
      invariant offset == NODE_HEADER_SIZE + LeafSize(ents[..i]) <= PAGE_SIZE
      invariant LeafFields(ents[..i]) && Filled(buf, head + LeafCells(ents[..i]))
    {
      var key, val := n.keys[i], n.values[i];
      var needed := 2 + 2 + |key| + |val|;
      LeafSizeSnoc(ents, i);
      LeafSizePrefix(ents, i + 1);
      if offset + needed > PAGE_SIZE {
        return false;
      }
      AppendLeafCell(buf, offset, key, val, head + LeafCells(ents[..i]));
      offset := offset + needed;
      LeafCellDone(head, ents, i);
    }
    assert ents[..|n.keys|] == ents;
    FitsMeansSmallFields(n.Val());
    return true;
  }

  lemma LeafCellDone(head: bytes, ents: seq<Entry>, i: nat)
    requires i < |ents| && LeafFields(ents[..i]) && |ents[i].key| < 0x1_0000 && |ents[i].val| < 0x1_0000
    ensures LeafFields(ents[..i + 1])
    ensures head + LeafCells(ents[..i]) + LeafCell(ents[i]) == head + LeafCells(ents[..i + 1])
  {
    assert ents[..i + 1] == ents[..i] + [ents[i]];
    LeafCellsSnoc(ents[..i], ents[i]);
  }

  lemma Regroup4(p: bytes, a: bytes, b: bytes, c: bytes, d: bytes)
    ensures p + a + b + c + d == p + (a + b + c + d)
  {
  }

  method AppendKey(buf: array<byte>, off: nat, key: bytes, ghost done: bytes)
    requires Filled(buf, done) && off == |done| && off + 2 + |key| <= buf.Length <= PAGE_SIZE
    modifies buf
    ensures Filled(buf, done + LE16(|key|) + key)
  {
    Append(buf, off, LE16(|key| % 0x1_0000), done);
    Append(buf, off + 2, key, done + LE16(|key|));
  }

  method SerializeInternal(n: Node, buf: array<byte>) returns (ok: bool)
    requires n.Valid() && n.nodeType == NODE_INTERNAL && Filled(buf, []) && buf.Length == PAGE_SIZE
    modifies buf
    ensures ok <==> EncodeNode(n.Val()).Some?
    ensures ok ==> buf[..] == EncodeNode(n.Val()).value
  {
    hide Zeros, LeafCell, InnerCell;
    ghost var seps, kids := n.keys, n.Val().kids;
    ghost var head := WriteNodeHeader(n, buf);
    var offset := NODE_HEADER_SIZE;
    for i := 0 to |n.keys|
      invariant offset == NODE_HEADER_SIZE + InnerSize(seps[..i]) <= PAGE_SIZE
      invariant InnerFields(seps[..i]) && Filled(buf, head + InnerCells(seps[..i], kids[..i + 1]))
    {
      var key := n.keys[i];
      InnerSizeSnoc(seps, i);
      InnerSizePrefix(seps, i + 1);
      ghost var done := head + InnerCells(seps[..i], kids[..i + 1]);
      if i < |n.children| {
        if offset + 4 > PAGE_SIZE {
          return false;
        }
        Append(buf, offset, LE32(n.children[i]), done);
        done := done + LE32(n.children[i]);
        offset := offset + 4;
      }
      if offset + 2 + |key| > PAGE_SIZE {
        return false;
      }
      AppendKey(buf, offset, key, done);
      offset := offset + 2 + |key|;
      InnerCellDone(head, seps, kids, i);
    }
    assert seps[..|n.keys|] == seps && kids[..|n.keys| + 1] == kids;
    FitsMeansSmallFields(n.Val());
    return true;
  }

  lemma InnerCellDone(head: bytes, seps: seq<bytes>, kids: seq<u32>, i: nat)
    requires i < |seps| && |kids| == |seps| + 1 && InnerFields(seps[..i]) && |seps[i]| < 0x1_0000
    ensures InnerFields(seps[..i + 1])
    ensures head + InnerCells(seps[..i], kids[..i + 1]) + LE32(kids[i]) + LE16(|seps[i]|) + seps[i]
            == head + InnerCells(seps[..i + 1], kids[..i + 2])
  {
    assert seps[..i + 1] == seps[..i] + [seps[i]] && kids[..i + 2] == kids[..i + 1] + [kids[i + 1]];
    InnerCellsSnoc(seps[..i], kids[..i + 1], seps[i], kids[i + 1]);
    assert InnerCell(seps[i], kids[i]) == LE32(kids[i]) + LE16(|seps[i]|) + seps[i];
    Regroup4(head + InnerCells(seps[..i], kids[..i + 1]), LE32(kids[i]), LE16(|seps[i]|), seps[i], []);
  }

  method SerializeNode(n: Node) returns (r: Option<Page>)
    requires n.Valid()
    ensures r == EncodeNode(n.Val())
  {
    var buf := new byte[PAGE_SIZE](i => 0);
    assert Filled(buf, []);
    var ok;
    if n.nodeType == NODE_INTERNAL {
      ok := SerializeInternal(n, buf);
    } else {
      ok := SerializeLeaf(n, buf);
    }
    return if ok then Some(buf[..]) else None;
  }

  // ---------- reading ----------

  function PrependLeaf(ents: seq<Entry>, r: Option<seq<Entry>>): Option<seq<Entry>> {
    match r
    case None => None
    case Some(rest) => Some(ents + rest)
  }

  function PrependInner(seps: seq<bytes>, kids: seq<u32>, r: Option<(seq<bytes>, seq<u32>)>):
    Option<(seq<bytes>, seq<u32>)>
  {
    match r
    case None => None
    case Some((ss, ks)) => Some((seps + ss, kids + ks))
  }

  lemma PrependNothing(a: Option<seq<Entry>>, b: Option<(seq<bytes>, seq<u32>)>)
    ensures PrependLeaf([], a) == a && PrependInner([], [], b) == b
  {
    if a.Some? {
      assert [] + a.value == a.value;
    }
    if b.Some? {
      assert [] + b.value.0 == b.value.0 && [] + b.value.1 == b.value.1;
    }
  }

  lemma PrependLeafCell(ents: seq<Entry>, e: Entry, r: Option<seq<Entry>>)
    ensures PrependLeaf(ents, PrependLeaf([e], r)) == PrependLeaf(ents + [e], r)
  {
    if r.Some? {
      assert ents + ([e] + r.value) == ents + [e] + r.value;
    }
  }

  lemma PrependInnerCell(seps: seq<bytes>, kids: seq<u32>, s: bytes, c: u32, r: Option<(seq<bytes>, seq<u32>)>)
    ensures PrependInner(seps, kids, PrependInner([s], [c], r)) == PrependInner(seps + [s], kids + [c], r)
  {
    if r.Some? {
      assert seps + ([s] + r.value.0) == seps + [s] + r.value.0;
      assert kids + ([c] + r.value.1) == kids + [c] + r.value.1;
    }
  }

  /** One cell; n is how many are still to come, this one included. */
  method ReadLeafCell(data: bytes, off: nat, ghost n: nat) returns (ok: bool, key: bytes, val: bytes, next: nat)
    requires off <= |data| && n > 0
    ensures !ok ==> ParseLeafCells(data, off, n) == None
    ensures ok ==> next <= |data|
    ensures ok ==> ParseLeafCells(data, off, n) == PrependLeaf([Entry(key, val)], ParseLeafCells(data, next, n - 1))
  {
    var offset := off;
    if offset + 4 > |data| {
      return false, [], [], offset;
    }
    var keyLen := ReadLE16(data, offset);
    offset := offset + 2;
    var valLen := ReadLE16(data, offset);
    offset := offset + 2;
    if offset + keyLen + valLen > |data| {
      return false, [], [], offset;
    }
    key := data[offset..offset + keyLen];
    offset := offset + keyLen;
    val := data[offset..offset + valLen];
    offset := offset + valLen;
    return true, key, val, offset;
  }

  method DeserializeLeafCells(n: Node, data: bytes, keyCount: nat) returns (ok: bool)
    requires n.Valid() && n.nodeType == NODE_LEAF && n.keys == [] && |data| >= NODE_HEADER_SIZE
    modifies n
    ensures ok <==> ParseLeafCells(data, NODE_HEADER_SIZE, keyCount).Some?
    ensures ok ==>
              n.Valid() && n.Val() == LeafVal(ParseLeafCells(data, NODE_HEADER_SIZE, keyCount).value, old(n.rightPtr))
  {
    var offset: nat := NODE_HEADER_SIZE;
    ghost var ents: seq<Entry> := [];
    assert Zip(n.keys, n.values) == [];
    PrependNothing(ParseLeafCells(data, offset, keyCount), None);
    for i := 0 to keyCount
      invariant n.Valid() && n.nodeType == NODE_LEAF && n.rightPtr == old(n.rightPtr)
      invariant offset <= |data| && ents == Zip(n.keys, n.values)
      invariant ParseLeafCells(data, NODE_HEADER_SIZE, keyCount)
             == PrependLeaf(ents, ParseLeafCells(data, offset, keyCount - i))
    {
      var fits, key, val, next := ReadLeafCell(data, offset, keyCount - i);
      if !fits {
        return false;
      }
      PrependLeafCell(ents, Entry(key, val), ParseLeafCells(data, next, keyCount - i - 1));
      ZipSnoc(n.keys, n.values, key, val);
      n.keys := n.keys + [key];
      n.values := n.values + [val];
      ents := ents + [Entry(key, val)];
      offset := next;
    }
    return true;
  }

  method DeserializeInternalCells(n: Node, data: bytes, keyCount: nat) returns (ok: bool)
    requires n.Valid() && n.nodeType == NODE_INTERNAL && n.keys == [] && |data| >= NODE_HEADER_SIZE
    modifies n
    ensures ok <==> ParseInnerCells(data, NODE_HEADER_SIZE, keyCount).Some?
    ensures ok ==> n.Valid()
                   && var (seps, kids) := ParseInnerCells(data, NODE_HEADER_SIZE, keyCount).value;
                      n.Val() == InnerVal(seps, kids + [old(n.rightPtr)])
  {
    var offset: nat := NODE_HEADER_SIZE;
    PrependNothing(None, ParseInnerCells(data, offset, keyCount));
    for i := 0 to keyCount
      invariant n.Valid() && n.nodeType == NODE_INTERNAL && n.rightPtr == old(n.rightPtr)
      invariant offset <= |data|
      invariant ParseInnerCells(data, NODE_HEADER_SIZE, keyCount)
             == PrependInner(n.keys, n.children, ParseInnerCells(data, offset, keyCount - i))
    {
      ghost var cell, seps, kids := offset, n.keys, n.children;
      if offset + 4 > |data| {
        return false;
      }
      var childID := ReadLE32(data, offset);
      offset := offset + 4;
      if offset + 2 > |data| {
        return false;
      }
      var keyLen := ReadLE16(data, offset);
      offset := offset + 2;
      if offset + keyLen > |data| {
        return false;
      }
      var key := data[offset..offset + keyLen];
      n.children := n.children + [childID];
      n.keys := n.keys + [key];
      offset := offset + keyLen;
      assert ParseInnerCells(data, cell, keyCount - i)
          == PrependInner([key], [childID], ParseInnerCells(data, offset, keyCount - i - 1));
      PrependInnerCell(seps, kids, key, childID, ParseInnerCells(data, offset, keyCount - i - 1));
    }
    return true;
  }

  /** Every access is within data, whatever its bytes are. */
  method DeserializeNode(data: bytes) returns (r: Result<Node, DecodeError>)
    ensures r.Success? ==> fresh(r.value) && r.value.Valid() && DecodeNode(data) == Success(r.value.Val())
    ensures r.Failure? ==> DecodeNode(data) == Failure(r.error)
  {
    if |data| < NODE_HEADER_SIZE {
      return Failure(TooSmall);
    }
    var keyCount := ReadLE16(data, 1);
    if data[0] == NODE_INTERNAL {
      var n := new Node.MakeInternal();
      n.rightPtr := ReadLE32(data, 3);
      var ok := DeserializeInternalCells(n, data, keyCount);
      return if ok then Success(n) else Failure(Truncated);
    } else if data[0] == NODE_LEAF {
      var n := new Node.MakeLeaf();
      n.rightPtr := ReadLE32(data, 3);
      var ok := DeserializeLeafCells(n, data, keyCount);
      return if ok then Success(n) else Failure(Truncated);
    } else {
      return Failure(UnknownType(data[0]));
    }
  }
}
