/** Page 0 of the database file: the header and its codec. */
module FileHeaders {
  import opened Wrappers
  import opened ByteStrings

  const PAGE_SIZE := 4096
  const FILE_VERSION: u32 := 1
  const MAGIC_BYTES: bytes := [0x52, 0x41, 0x57, 0x54]  // "RAWT"

  type Page = p: bytes | |p| == PAGE_SIZE witness Zeros(PAGE_SIZE)

  datatype FileHeader = FileHeader(magic: bytes, version: u32, pageSize: u32,
                                   pageCount: u32, root: u32, freeHead: u32)

  datatype HeaderError = BadMagic | BadVersion(version: u32) | BadPageSize(pageSize: u32)

  predicate Supported(h: FileHeader) {
    h.magic == MAGIC_BYTES && h.version == FILE_VERSION && h.pageSize == PAGE_SIZE
  }

  function Fields(h: FileHeader): bytes {
    h.magic + LE32(h.version) + LE32(h.pageSize) + LE32(h.pageCount) + LE32(h.root) + LE32(h.freeHead)
  }

  function EncodeHeader(h: FileHeader): Page
    requires |h.magic| == 4
  {
    Fields(h) + Zeros(PAGE_SIZE - 24)
  }

  function RawHeader(p: Page): FileHeader {
    FileHeader(p[..4], ReadLE32(p, 4), ReadLE32(p, 8), ReadLE32(p, 12), ReadLE32(p, 16), ReadLE32(p, 20))
  }

  function DecodeHeader(p: Page): Result<FileHeader, HeaderError> {
    var h := RawHeader(p);
    if h.magic != MAGIC_BYTES then Failure(BadMagic)
    else if h.version != FILE_VERSION then Failure(BadVersion(h.version))
    else if h.pageSize != PAGE_SIZE then Failure(BadPageSize(h.pageSize))
    else Success(h)
  }

  lemma RawHeaderRoundTrip(h: FileHeader)
    requires |h.magic| == 4
    ensures RawHeader(EncodeHeader(h)) == h
  {
    var p := EncodeHeader(h);
    assert p[..4] == h.magic;
    assert p[4..8] == LE32(h.version);
    assert p[8..12] == LE32(h.pageSize);
    assert p[12..16] == LE32(h.pageCount);
    assert p[16..20] == LE32(h.root);
    assert p[20..24] == LE32(h.freeHead);
    LE32RoundTrip(p, 4, h.version);
    LE32RoundTrip(p, 8, h.pageSize);
    LE32RoundTrip(p, 12, h.pageCount);
    LE32RoundTrip(p, 16, h.root);
    LE32RoundTrip(p, 20, h.freeHead);
  }

  /** A written header is read back field by field exactly when this version of the program wrote it. */
  lemma HeaderRoundTrip(h: FileHeader)
    requires |h.magic| == 4
    ensures DecodeHeader(EncodeHeader(h)) == Success(h) <==> Supported(h)
    ensures DecodeHeader(EncodeHeader(h)).Success? <==> Supported(h)
  {
    RawHeaderRoundTrip(h);
  }
}
