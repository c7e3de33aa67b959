/**
 The pager: a page file behind a write-back cache, with a free list threaded
 through the free pages. The ghost view is what the pages hold, cached or not;
 the ghost free is the free list. A file by itself is an image when header
 and links in it say the same.
 */
module Pagers {
  import opened Wrappers
  import opened ByteStrings
  import opened FileHeaders
  import opened PageAllocation

  const MAX_BUFFER_PAGES := 256

  /** A free page holds the number of the next free page in its first four bytes. */
  ghost function Link(p: Page): u32 {
    ReadLE32(p, 0)
  }

  /** free lists, in order, the pages met by following links from head until 0. */
  ghost predicate FreeChain(view: seq<Page>, head: u32, free: seq<u32>)
    decreases free
  {
    if free == [] then head == 0
    else head == free[0] && 1 <= head < |view| && FreeChain(view, Link(view[head]), free[1..])
  }

  lemma {:induction false} FreeChainFrame(view: seq<Page>, view': seq<Page>, head: u32, free: seq<u32>)
    requires FreeChain(view, head, free) && |view| <= |view'|
    requires forall id :: id in free && id < |view| ==> view'[id] == view[id]
    ensures FreeChain(view', head, free)
    decreases free
  {
    if free != [] {
      FreeChainFrame(view, view', Link(view[head]), free[1..]);
    }
  }

  /** The links determine the list. */
  lemma {:induction false} FreeChainUnique(view: seq<Page>, head: u32, f: seq<u32>, g: seq<u32>)
    requires FreeChain(view, head, f) && FreeChain(view, head, g)
    ensures f == g
    decreases f
  {
    if f != [] && g != [] {
      FreeChainUnique(view, Link(view[head]), f[1..], g[1..]);
    }
  }

  lemma {:induction false} FreeChainSuffix(view: seq<Page>, head: u32, free: seq<u32>, i: nat)
    requires FreeChain(view, head, free) && i < |free|
    ensures FreeChain(view, free[i], free[i..])
    decreases i
  {
    if i > 0 {
      FreeChainSuffix(view, Link(view[head]), free[1..], i - 1);
      assert free[1..][i - 1..] == free[i..];
    }
  }

  /** A list that ends is acyclic: following the links never meets a page twice. */
  lemma FreeChainAcyclic(view: seq<Page>, head: u32, free: seq<u32>, i: nat, j: nat)
    requires FreeChain(view, head, free) && i < j < |free|
    ensures free[i] != free[j]
  {
    if free[i] == free[j] {
      FreeChainSuffix(view, head, free, i);
      FreeChainSuffix(view, head, free, j);
      FreeChainUnique(view, free[i], free[i..], free[j..]);
      assert false;
    }
  }

  lemma FreeChainMember(view: seq<Page>, head: u32, free: seq<u32>, id: u32)
    requires FreeChain(view, head, free) && id in free
    ensures 1 <= id < |view|
  {
    var i :| 0 <= i < |free| && free[i] == id;
    FreeChainSuffix(view, head, free, i);
  }

  lemma HeadOnce(view: seq<Page>, head: u32, free: seq<u32>)
    requires FreeChain(view, head, free) && free != []
    ensures head !in free[1..]
  {
    if head in free[1..] {
      var j :| 0 <= j < |free[1..]| && free[1..][j] == head;
      FreeChainAcyclic(view, head, free, 0, j + 1);
    }
  }

  lemma {:induction false} FreePagesOwned(view: seq<Page>, head: u32, free: seq<u32>)
    requires FreeChain(view, head, free)
    ensures forall p: u32 :: multiset(free)[p] <= if 1 <= p < |view| then 1 else 0
    decreases free
  {
    if free != [] {
      FreePagesOwned(view, Link(view[head]), free[1..]);
      assert free == [head] + free[1..];
      HeadOnce(view, head, free);
    }
  }

  /** Taking the head off the list and overwriting it. */
  lemma PopChain(view: seq<Page>, head: u32, free: seq<u32>, data: Page)
    requires FreeChain(view, head, free) && head != 0
    ensures free != [] && 1 <= head < |view| && head == free[0]
    ensures FreeChain(view[head := data], Link(view[head]), free[1..])
  {
    HeadOnce(view, head, free);
    FreeChainFrame(view, view[head := data], Link(view[head]), free[1..]);
  }

  /** On disk, too, the rest of the free list hangs together. */
  lemma PopImage(file: seq<Page>, h: FileHeader, free: seq<u32>, file': seq<Page>, h': FileHeader)
    requires IsImage(file, h, free) && free != [] && |file'| == |file|
    requires forall i :: 1 <= i < |file| ==> file'[i] == file[i]
    requires h' == h.(freeHead := if |free| > 1 then free[1] else 0) && file'[0] == EncodeHeader(h')
    ensures IsImage(file', h', free[1..])
  {
    hide EncodeHeader, ReadLE32;
    var pages, pages' := file[..h.pageCount], file'[..h.pageCount];
    var next := Link(pages[h.freeHead]);
    assert FreeChain(pages, next, free[1..]);
    FreeChainMembers(pages, next, free[1..]);
    FreeChainFrame(pages, pages', next, free[1..]);
  }

  lemma FreeChainMembers(view: seq<Page>, head: u32, free: seq<u32>)
    requires FreeChain(view, head, free)
    ensures forall id :: id in free ==> 1 <= id < |view|
    ensures head == if free == [] then 0 else free[0]
  {
    forall id | id in free
      ensures 1 <= id < |view|
    {
      FreeChainMember(view, head, free, id);
    }
  }

  lemma NothingFree(view: seq<Page>, free: seq<u32>, pages: seq<Page>)
    requires FreeChain(view, 0, free)
    ensures free == [] && FreeChain(pages, 0, free)
  {
  }

  lemma PushChain(view: seq<Page>, head: u32, free: seq<u32>, id: u32, data: Page)
    requires FreeChain(view, head, free) && 1 <= id < |view| && id !in free && Link(data) == head
    ensures FreeChain(view[id := data], id, [id] + free)
  {
    FreeChainFrame(view, view[id := data], head, free);
    assert ([id] + free)[1..] == free;
  }

  lemma OverwriteTwice(m: map<u32, Page>, id: u32, p: Page, q: Page)
    ensures m[id := p][id := q] == m[id := q]
  {
  }

  /** Nothing behind the link. */
  predicate LinkOnly(p: Page) {
    forall i :: 4 <= i < |p| ==> p[i] == 0
  }

  /** A free page pointing to the next one. */
  method LinkPage(next: u32) returns (data: Page)
    ensures Link(data) == next && LinkOnly(data)
  {
    var buf := new byte[PAGE_SIZE](i => 0);
    assert Filled(buf, []);
    Append(buf, 0, LE32(next), []);
    data := buf[..];
    assert data[0..4] == LE32(next);
    LE32RoundTrip(data, 0, next);
  }

  /** A file as a program would find it on disk: a supported header and the pages it announces. */
  ghost predicate IsImage(file: seq<Page>, h: FileHeader, free: seq<u32>) {
    && Supported(h)
    && 1 <= h.pageCount <= |file|
    && file[0] == EncodeHeader(h)
    && FreeChain(file[..h.pageCount], h.freeHead, free)
  }

  /** What a pager's pages, file and free list are at one moment. */
  datatype Snap = Snap(view: seq<Page>, file: seq<Page>, header: FileHeader, free: seq<u32>) {
    function A(): Alloc {
      Alloc(free, header.pageCount)
    }
  }

  /** The pages that were in the file are in it unchanged, and it still is the image of a file if it was. */
  ghost predicate FileKept(s: Snap, s': Snap) {
    && s'.header.root == s.header.root && s.header.pageCount <= s'.header.pageCount && |s.file| <= |s'.file|
    && (forall i: u32 :: 1 <= i < s.header.pageCount && i < |s.file| ==> s'.file[i] == s.file[i])
    && (IsImage(s.file, s.header, s.free) ==> IsImage(s'.file, s'.header, s'.free))
  }

  /** Page id has been handed out, zeroed; every other page reads as before. */
  ghost predicate Handed(s: Snap, s': Snap, id: u32) {
    && (id, s'.A()) == Pop(s.A()) && s'.header.root == s.header.root
    && 1 <= id < |s'.view| && |s.view| <= |s'.view|
    && (forall i: u32 :: 1 <= i < |s.view| && i != id ==> s'.view[i] == s.view[i])
    && s'.view[id] == Zeros(PAGE_SIZE)
    && (id == |s.view| ==> id < |s'.file| && s'.file[id] == Zeros(PAGE_SIZE))
    && FileKept(s, s')
  }

  lemma FileExtended(s: Snap, s': Snap)
    requires Supported(s.header) && s.free == [] == s'.free && s'.header == s.header.(pageCount := s'.header.pageCount)
    requires s.header.pageCount + 1 == s'.header.pageCount <= |s'.file| && |s.file| <= |s'.file|
    requires s'.file[0] == EncodeHeader(s'.header) && FreeChain(s'.file[..s'.header.pageCount], s.header.freeHead, [])
    requires forall i :: 1 <= i < s.header.pageCount && i < |s.file| ==> s'.file[i] == s.file[i]
    ensures FileKept(s, s')
  {
    hide EncodeHeader, FreeChain;
  }

  class Pager {
    var header: FileHeader
    var buffer: map<u32, Page>
    var dirty: set<u32>
    var file: seq<Page>
    /** The logical contents of the pages; entry 0 means nothing, the header is never read through the cache. */
    ghost var view: seq<Page>
    /** The free list from its head. */
    ghost var free: seq<u32>

    ghost predicate Valid()
      reads this
      ensures Valid() ==> 1 <= |view| == header.pageCount
    {
      && Supported(header)
      && 1 <= |view| == header.pageCount <= |file|
      && file[0] == EncodeHeader(header)
      && (forall id :: id in dirty ==> id in buffer && 1 <= id < |view|)
      && (forall id: u32 :: 1 <= id < |view| ==> view[id] == if id in buffer then buffer[id] else file[id])
      && (forall id: u32 :: 1 <= id < |view| && id in buffer && id !in dirty ==> buffer[id] == file[id])
      && FreeChain(view, header.freeHead, free)
    }

    ghost function State(): Alloc
      reads this`free, this`header
    {
      Alloc(free, header.pageCount)
    }

    ghost function Now(): Snap
      reads this`view, this`file, this`header, this`free
    {
      Snap(view, file, header, free)
    }

    /** Only for OpenPager: an empty cache over the file. */
    constructor Attach(file: seq<Page>)
      ensures this.file == file && buffer == map[] && dirty == {}
    {
      this.file, buffer, dirty := file, map[], {};
      header := FileHeader([0, 0, 0, 0], 0, 0, 0, 0, 0);
      view, free := [], [];
    }

    /** file.WriteAt at a page boundary; writing past the end grows the file with zeros. */
    method WriteAt(id: u32, data: Page)
      modifies this`file
      ensures |file| == if id < |old(file)| then |old(file)| else id as int + 1
      ensures file[id] == data
      ensures forall i :: 0 <= i < |old(file)| && i != id ==> file[i] == old(file)[i]
    {
      if id < |file| {
        file := file[id := data];
      } else {
        file := file + seq(id - |file|, i => Zeros(PAGE_SIZE)) + [data];
      }
    }

    method WriteHeader()
      requires |header.magic| == 4
      modifies this`file
      ensures |file| == if |old(file)| == 0 then 1 else |old(file)|
      ensures file[0] == EncodeHeader(header)
      ensures forall i :: 1 <= i < |old(file)| ==> file[i] == old(file)[i]
    {
      var buf := new byte[PAGE_SIZE](i => 0);
      assert Filled(buf, []);
      Append(buf, 0, header.magic, []);
      ghost var done := header.magic;
      Append(buf, 4, LE32(header.version), done);
      done := done + LE32(header.version);
      Append(buf, 8, LE32(header.pageSize), done);
      done := done + LE32(header.pageSize);
      Append(buf, 12, LE32(header.pageCount), done);
      done := done + LE32(header.pageCount);
      Append(buf, 16, LE32(header.root), done);
      done := done + LE32(header.root);
      Append(buf, 20, LE32(header.freeHead), done);
      WriteAt(0, buf[..]);
    }

    method ReadHeader() returns (r: Result<(), HeaderError>)
      requires file != []
      modifies this`header
      ensures match DecodeHeader(file[0])
              case Success(h) => r == Success(()) && header == h
              case Failure(e) => r == Failure(e)
    {
      var buf := file[0];
      header := header.(magic := buf[..4]);
      if header.magic != MAGIC_BYTES {
        return Failure(BadMagic);
      }
      header := header.(version := ReadLE32(buf, 4), pageSize := ReadLE32(buf, 8),
                        pageCount := ReadLE32(buf, 12), root := ReadLE32(buf, 16),
                        freeHead := ReadLE32(buf, 20));
      if header.version != FILE_VERSION {
        return Failure(BadVersion(header.version));
      }
      if header.pageSize != PAGE_SIZE {
        return Failure(BadPageSize(header.pageSize));
      }
      return Success(());
    }

    method InitNewFile()
      requires file == [] && buffer == map[] && dirty == {}
      modifies this
      ensures Valid() && header.root == 0 && State() == FRESH.a
      ensures file == [EncodeHeader(FileHeader([82, 65, 87, 84], 1, 4096, 1, 0, 0))]
      ensures buffer == map[] && dirty == {}
    {
      header := FileHeader(MAGIC_BYTES, FILE_VERSION, PAGE_SIZE, 1, 0, 0);
      WriteHeader();
      view, free := file, [];
    }

    /** Unlinks the head of the free list and clears its page. */
    method Unlink(id: u32, nextFree: u32)
      requires Valid() && id == header.freeHead != 0 && id < header.pageCount && nextFree == Link(view[id])
      modifies this
      ensures Valid() && Handed(old(Now()), Now(), id) && buffer == old(buffer)[id := Zeros(PAGE_SIZE)]
    {
      hide EncodeHeader, ReadLE32, Zeros, FreeChain;
      var clear := Zeros(PAGE_SIZE);
      PopChain(view, id, free, clear);
      header := header.(freeHead := nextFree);
      buffer := buffer[id := clear];
      dirty := dirty + {id};
      view, free := view[id := clear], free[1..];
      WriteHeader();
      FreeChainMembers(view, nextFree, free);
      if old(IsImage(file, header, free)) {
        PopImage(old(file), old(header), old(free), file, header);
      }
    }

    method RecyclePage() returns (id: u32)
      requires Valid() && header.freeHead != 0
      modifies this
      ensures Valid() && Handed(old(Now()), Now(), id) && buffer == old(buffer)[id := Zeros(PAGE_SIZE)]
    {
      hide EncodeHeader, ReadLE32, Zeros;
      id := header.freeHead;
      var data := ReadPage(id);
      OverwriteTwice(old(buffer), id, file[id], Zeros(PAGE_SIZE));
      Unlink(id, ReadLE32(data.value, 0));
    }

    /** The page count is a Go uint32: past the largest page number it wraps, and the pager is of no more use. */
    method ExtendFile() returns (id: u32)
      requires Valid() && header.freeHead == 0
      modifies this
      ensures id == old(header.pageCount) && buffer == old(buffer)[id := Zeros(PAGE_SIZE)]
      ensures if old(header.pageCount) < MAX_U32 then Valid() && Handed(old(Now()), Now(), id)
              else header == old(header).(pageCount := 0)
    {
      hide EncodeHeader, ReadLE32, FreeChain, Zeros, FileKept;
      id := header.pageCount;
      header := header.(pageCount := if header.pageCount == MAX_U32 then 0 else header.pageCount + 1);
      var empty := Zeros(PAGE_SIZE);
      WriteAt(id, empty);
      buffer := buffer[id := empty];
      dirty := dirty + {id};
      view := view + [empty];
      FreeChainFrame(old(view), view, header.freeHead, free);
      WriteHeader();
      if id < MAX_U32 {
        NothingFree(view, free, file[..header.pageCount]);
        FileExtended(old(Now()), Now());
      }
    }

    method AllocatePage() returns (id: u32)
      requires Valid()
      modifies this
      ensures buffer == old(buffer)[id := Zeros(PAGE_SIZE)]
      ensures if old(free) != [] || old(header.pageCount) < MAX_U32 then Valid() && Handed(old(Now()), Now(), id)
              else id == MAX_U32 && header == old(header).(pageCount := 0)
    {
      FreeListHead();
      if header.freeHead != 0 {
        id := RecyclePage();
      } else {
        id := ExtendFile();
      }
    }

    lemma FreeListHead()
      requires Valid()
      ensures header.freeHead == 0 <==> free == []
    {
    }

    /** A page that is not live, or already free, is accepted too; only then the free list is no list any more. */
    method FreePage(id: u32) returns (ok: bool)
      requires Valid()
      modifies this
      ensures ok == (id != 0)
      ensures !ok ==> unchanged(this)
      ensures ok ==> header == old(header).(freeHead := id) && dirty == old(dirty) + {id}
      ensures ok ==> file != [] && file[0] == EncodeHeader(header)
      ensures ok ==> buffer.Keys == old(buffer.Keys) + {id} && Link(buffer[id]) == old(header.freeHead)
      ensures ok ==> LinkOnly(buffer[id])
      ensures forall i :: i in old(buffer) && i != id ==> buffer[i] == old(buffer)[i]
      ensures 1 <= id < header.pageCount && id !in old(free) ==>
                && Valid() && State() == Push(old(State()), id) && |view| == |old(view)|
                && forall i: u32 :: 1 <= i < |view| && i != id ==> view[i] == old(view)[i]
    {
      hide EncodeHeader, ReadLE32, FreeChain, Zeros, LinkOnly;
      if id == 0 {
        return false;
      }
      var data := LinkPage(header.freeHead);
      ghost var permitted := 1 <= id < header.pageCount && id !in free;
      if permitted {
        PushChain(view, header.freeHead, free, id, data);
        view, free := view[id := data], [id] + free;
      }
      buffer := buffer[id := data];
      dirty := dirty + {id};
      header := header.(freeHead := id);
      WriteHeader();
      return true;
    }

    /** Reads may fill the cache but never change what any page holds. */
    method ReadPage(id: u32) returns (r: Option<Page>)
      requires Valid()
      modifies this`buffer
      ensures Valid()
      ensures r.None? <==> id >= header.pageCount
      ensures 1 <= id < header.pageCount ==> r == Some(view[id])
      ensures id < header.pageCount ==> r == Some(if id in old(buffer) then old(buffer)[id] else file[id])
      ensures buffer == if id < header.pageCount && id !in old(buffer) && |old(buffer)| < 256
                        then old(buffer)[id := file[id]] else old(buffer)
    {
      if id >= header.pageCount {
        return None;
      }
      if id in buffer {
        return Some(buffer[id]);
      }
      var data := file[id];
      if |buffer| < MAX_BUFFER_PAGES {
        buffer := buffer[id := data];
      }
      return Some(data);
    }

    /** Any page number is accepted; the pages stay sound when it is that of a page in use. */
    method WritePage(id: u32, data: bytes) returns (ok: bool)
      requires Valid()
      modifies this`buffer, this`dirty, this`view
      ensures ok == (|data| == PAGE_SIZE)
      ensures !ok ==> unchanged(this)
      ensures ok ==> buffer == old(buffer)[id := data] && dirty == old(dirty) + {id}
      ensures 1 <= id < header.pageCount && id !in free ==> Valid() && (ok ==> view == old(view)[id := data])
    {
      hide EncodeHeader, FreeChain;
      if |data| != PAGE_SIZE {
        return false;
      }
      buffer := buffer[id := data];
      dirty := dirty + {id};
      if 1 <= id < header.pageCount && id !in free {
        view := view[id := data];
        FreeChainFrame(old(view), view, header.freeHead, free);
      }
      return true;
    }

    /** The pages still to be written can be taken in any order, as Go's map iteration may. */
    method Flush()
      requires Valid()
      modifies this
      ensures Valid() && dirty == {}
      ensures view == old(view) && free == old(free) && header == old(header) && buffer == old(buffer)
      ensures forall id: u32 :: 1 <= id < |view| ==> file[id] == view[id]
    {
      hide EncodeHeader, FreeChain;
      var rest := dirty;
      while rest != {}
        invariant rest <= dirty && Valid()
        invariant view == old(view) && free == old(free) && header == old(header)
        invariant buffer == old(buffer) && dirty == old(dirty)
        invariant forall id :: id in dirty - rest ==> file[id] == buffer[id]
      {
        var id :| id in rest;
        WriteAt(id, buffer[id]);
        rest := rest - {id};
      }
      dirty := {};
    }

    method SetRootPage(id: u32)
      requires Valid()
      modifies this`header, this`file
      ensures Valid() && header == old(header).(root := id) && State() == old(State())
      ensures |file| == |old(file)| && forall i :: 1 <= i < |file| ==> file[i] == old(file)[i]
    {
      hide EncodeHeader, FreeChain;
      header := header.(root := id);
      WriteHeader();
    }

    /** Flushes and gives back the file the pager leaves behind. */
    method Close() returns (image: seq<Page>)
      requires Valid()
      modifies this
      ensures Valid() && view == old(view) && State() == old(State()) && header == old(header)
      ensures image == file && OnDisk()
    {
      Flush();
      FlushedIsImage();
      return file;
    }

    /** The file alone determines header, pages and free list. */
    ghost predicate OnDisk()
      reads this`file, this`header, this`free, this`view
    {
      && IsImage(file, header, free)
      && |view| == header.pageCount
      && forall id: u32 :: 1 <= id < |view| ==> file[id] == view[id]
    }

    /** The free list holds distinct pages of the file. */
    lemma FreeIsOwned()
      requires Valid()
      ensures forall p: u32 :: FreeTimes(State(), p) <= if 1 <= p < header.pageCount then 1 else 0
    {
      FreePagesOwned(view, header.freeHead, free);
    }

    lemma FlushedIsImage()
      requires Valid() && forall id: u32 :: 1 <= id < |view| ==> file[id] == view[id]
      ensures OnDisk()
    {
      var pages := file[..header.pageCount];
      forall id | id in free
        ensures 1 <= id < |view| && pages[id] == view[id]
      {
        FreeChainMember(view, header.freeHead, free, id);
      }
      FreeChainFrame(view, pages, header.freeHead, free);
    }
  }

  /**
   Opens a database file. A file of no pages is initialised; any other is
   accepted exactly when its first page decodes as a supported header.
   */
  method OpenPager(file: seq<Page>, ghost free: seq<u32>) returns (r: Result<Pager, HeaderError>)
    ensures r.Success? ==> fresh(r.value)
    ensures file == [] ==> r.Success? && r.value.Valid() && r.value.header.root == 0
                           && r.value.State() == FRESH.a && r.value.buffer == map[]
                           && r.value.file == [EncodeHeader(FileHeader([82, 65, 87, 84], 1, 4096, 1, 0, 0))]
    ensures file != [] ==> (r.Failure? <==> DecodeHeader(file[0]).Failure?)
    ensures file != [] && r.Failure? ==> r.error == DecodeHeader(file[0]).error
    ensures file != [] && r.Success? ==>
              var h := DecodeHeader(file[0]).value;
              && r.value.file == file && r.value.header == h
              && (IsImage(file, h, free) ==>
                    r.value.Valid() && r.value.free == free && r.value.view == file[..h.pageCount])
  {
    var p := new Pager.Attach(file);
    if file == [] {
      p.InitNewFile();
      return Success(p);
    }
    var status := p.ReadHeader();
    match status {
      case Failure(e) =>
        return Failure(e);
      case Success(_) =>
        p.free := free;
        p.view := if p.header.pageCount <= |file| then file[..p.header.pageCount] else [];
        return Success(p);
    }
  }

  /**
   The header page is written past the cache: once it has been read through
   the cache, reading it again shows the file as it was then. This is why the
   logical view of the pages starts at page 1.
   */
  method HeaderPageGoesStale() returns (p: Pager, seen: Page)
    ensures fresh(p) && p.Valid() && p.header.pageCount == 2
    ensures seen != p.file[0] && RawHeader(seen).pageCount == 1 && RawHeader(p.file[0]).pageCount == 2
  {
    hide EncodeHeader, ReadLE32;
    var open := OpenPager([], []);
    p := open.value;
    RawHeaderRoundTrip(p.header);
    var first := p.ReadPage(0);
    var id := p.AllocatePage();
    var again := p.ReadPage(0);
    RawHeaderRoundTrip(p.header);
    seen := again.value;
  }
}
