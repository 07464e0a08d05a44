/**
 Filling the pages of a loaded image: every page is cleared and then receives the file
 bytes of the segments on it, so that it holds what the plan says byte by byte.
 */
module Populate {
  import opened Common
  import opened Elf
  import opened Loader
  import opened FramePools

  // --- What the memory must hold ------------------------------------------------------

  predicate FileFits(segments: seq<Segment>, file: Bytes) {
    forall i :: 0 <= i < |segments| ==> segments[i].fileOffset + segments[i].fileSize <= |file|
  }

  /** The byte of a segment's file part at an address. */
  predicate HasFileByte(segment: Segment, x: nat) {
    segment.virtualAddress <= x < segment.virtualAddress + segment.fileSize
  }

  /** File bytes below each segment's file size, zero everywhere else. */
  function ByteAt(segments: seq<Segment>, file: Bytes, x: nat): Byte
    requires FileFits(segments, file)
  {
    if |segments| == 0 then 0
    else
      var segment := segments[|segments| - 1];
      if HasFileByte(segment, x) then file[segment.fileOffset + (x - segment.virtualAddress)]
                                      else ByteAt(segments[..|segments| - 1], file, x)
  }

  function PageBytes(segments: seq<Segment>, file: Bytes, address: nat): (page: Bytes)
    requires FileFits(segments, file)
    ensures |page| == PAGE_SIZE && forall o :: 0 <= o < PAGE_SIZE ==> page[o] == ByteAt(segments, file, address + o)
  {
    seq<Byte>(PAGE_SIZE, o requires 0 <= o < PAGE_SIZE => ByteAt(segments, file, address + o))
  }

  function ZeroPage(): (page: Bytes)
    ensures |page| == PAGE_SIZE && forall o :: 0 <= o < PAGE_SIZE ==> page[o] == 0
  {
    seq<Byte>(PAGE_SIZE, _ => 0)
  }

  // --- Where the bytes go -------------------------------------------------------------

  /** A store of pages by frame or by virtual address; `verdicts` says which operations it will serve. */
  class PageSink {
    var pages: map<nat, Bytes>
    var verdicts: seq<bool>

    constructor (pages: map<nat, Bytes>, verdicts: seq<bool>)
      ensures this.pages == pages && this.verdicts == verdicts
    {
      this.pages, this.verdicts := pages, verdicts;
    }

    predicate Reliable()
      reads this
    {
      forall i :: 0 <= i < |verdicts| ==> verdicts[i]
    }

    method Verdict() returns (verdict: bool)
      modifies this`verdicts
      ensures old(Reliable()) ==> verdict && Reliable()
    {
      verdict := |verdicts| == 0 || verdicts[0];
      verdicts := if |verdicts| == 0 then [] else verdicts[1..];
    }

    method Clear(key: nat) returns (r: Result<Unit, LoadError>)
      modifies this
      ensures r.Ok? ==> pages == old(pages)[key := ZeroPage()]
      ensures r.Err? ==> pages == old(pages)
      ensures old(Reliable()) ==> r.Ok? && Reliable()
    {
      var verdict := Verdict();
      if !verdict {
        return Err(Write);
      }
      pages := pages[key := ZeroPage()];
      r := Ok(Unit.Unit);
    }

    method WriteBytes(key: nat, offset: nat, bytes: Bytes) returns (r: Result<Unit, LoadError>)
      modifies this
      ensures r.Ok? ==> Writable(old(pages), key, offset, bytes)
                        && pages == old(pages)[key := Overlaid(PageIn(old(pages), key), offset, bytes)]
      ensures r.Err? ==> pages == old(pages)
      ensures old(Reliable()) ==> Reliable() && (r.Ok? <==> Writable(old(pages), key, offset, bytes))
    {
      var verdict := Verdict();
      if !verdict || !Writable(pages, key, offset, bytes) {
        return Err(Write);
      }
      pages := pages[key := Overlaid(PageIn(pages, key), offset, bytes)];
      r := Ok(Unit.Unit);
    }
  }

  /** Memory that was never written is zero. */
  function PageIn(pages: map<nat, Bytes>, key: nat): Bytes {
    if key in pages then pages[key] else ZeroPage()
  }

  predicate Writable(pages: map<nat, Bytes>, key: nat, offset: nat, bytes: Bytes) {
    offset + |bytes| <= |PageIn(pages, key)|
  }

  function Overlaid(page: Bytes, offset: nat, bytes: Bytes): Bytes
    requires offset + |bytes| <= |page|
  {
    page[..offset] + bytes + page[offset + |bytes|..]
  }

  // --- One page of one segment ----------------------------------------------------------

  datatype Chunk = Chunk(memoryOffset: nat, fileOffset: nat, length: nat)

  function Max(a: nat, b: nat): nat {
    if a < b then b else a
  }

  function Min(a: nat, b: nat): nat {
    if a < b then a else b
  }

  /** The part of a segment's file bytes that belongs on a page. */
  function ChunkOn(segment: Segment, address: nat): Option<Chunk> {
    var start, end := Max(address, segment.virtualAddress), Min(address + PAGE_SIZE, segment.End());
    if start >= end || start - segment.virtualAddress >= segment.fileSize then None
    else
      var into := start - segment.virtualAddress;
      Some(Chunk(start - address, segment.fileOffset + into, Min(end - start, segment.fileSize - into)))
  }

  /** Copying the chunk brings the page from the earlier segments' bytes to those with this segment. */
  lemma ChunkCompletes(segments: seq<Segment>, segment: Segment, file: Bytes, address: nat)
    requires FileFits(segments + [segment], file) && segment.fileSize <= segment.memorySize
    ensures FileFits(segments, file)
    ensures ChunkOn(segment, address).None? ==>
            PageBytes(segments + [segment], file, address) == PageBytes(segments, file, address)
    ensures ChunkOn(segment, address).Some? ==>
              var chunk := ChunkOn(segment, address).value;
              && chunk.memoryOffset + chunk.length <= PAGE_SIZE && chunk.fileOffset + chunk.length <= |file|
              && PageBytes(segments + [segment], file, address) ==
                 Overlaid(PageBytes(segments, file, address), chunk.memoryOffset,
                          file[chunk.fileOffset..chunk.fileOffset + chunk.length])
  {
    var more := segments + [segment];
    assert more[..|segments|] == segments;
    assert forall i :: 0 <= i < |segments| ==> segments[i] == more[i];
    assert more[|segments|] == segment;
    var before, after := PageBytes(segments, file, address), PageBytes(more, file, address);
    var chunk := ChunkOn(segment, address);
    if chunk.Some? {
      var c := chunk.value;
      var overlaid := Overlaid(before, c.memoryOffset, file[c.fileOffset..c.fileOffset + c.length]);
      forall o | 0 <= o < PAGE_SIZE
        ensures after[o] == overlaid[o]
      {
        assert HasFileByte(segment, address + o) <==> c.memoryOffset <= o < c.memoryOffset + c.length;
      }
    } else {
      forall o | 0 <= o < PAGE_SIZE
        ensures after[o] == before[o]
      {
        assert !HasFileByte(segment, address + o);
      }
    }
  }

  /** A page beside a segment's pages holds none of its bytes. */
  lemma NoChunkBeside(segment: Segment, address: nat)
    requires address % PAGE_SIZE == 0 && (address < AlignDown(segment.virtualAddress)
             || AlignUp(segment.End()) <= address)
    ensures ChunkOn(segment, address).None?
  {
  }

  // --- All pages ------------------------------------------------------------------

  /** A sink is addressed by frame, or by virtual address once the pages are mapped. */
  function Key(page: LoadedPage, mapped: bool): nat {
    if mapped then page.virtualAddress else page.frame
  }

  /** No two pages share an address or a place in the sink. */
  ghost predicate Apart(pages: seq<LoadedPage>, mapped: bool) {
    && (forall i :: 0 <= i < |pages| ==> pages[i].virtualAddress % PAGE_SIZE == 0)
    && (forall i, j :: 0 <= i < j < |pages| ==>
       pages[i].virtualAddress != pages[j].virtualAddress && Key(pages[i], mapped) != Key(pages[j], mapped))
  }

  /** Every page has a place of its own in the sink. */
  ghost predicate Keyed(pages: seq<LoadedPage>, mapped: bool) {
    && (forall i :: 0 <= i < |pages| ==> pages[i].virtualAddress % PAGE_SIZE == 0)
    && (forall i, j :: 0 <= i < j < |pages| ==> Key(pages[i], mapped) != Key(pages[j], mapped))
  }

  /** No page before it has its address. */
  predicate FirstAt(pages: seq<LoadedPage>, i: nat)
    requires i < |pages|
  {
    forall j :: 0 <= j < i ==> pages[j].virtualAddress != pages[i].virtualAddress
  }

  /**
   Pages below `limit` hold the bytes of `done`, the others those of `before`; a second page
   for an address stays zero.
   */
  ghost predicate Filled(pages: seq<LoadedPage>, mapped: bool, sink: map<nat, Bytes>, file: Bytes, done: seq<Segment>,
                         before: seq<Segment>, limit: nat) {
    && FileFits(done, file) && FileFits(before, file)
    && forall i :: 0 <= i < |pages| ==>
         && Key(pages[i], mapped) in sink
         && sink[Key(pages[i], mapped)] ==
            if FirstAt(pages, i) then PageBytes(if pages[i].virtualAddress < limit then
                done else before, file, pages[i].virtualAddress) else ZeroPage()
  }

  /** The first page for an address holds exactly what the plan says, any other one for it zeros. */
  ghost predicate Populated(pages: seq<LoadedPage>, mapped: bool, sink: map<nat, Bytes>, file: Bytes,
                            segments: seq<Segment>) {
    Filled(pages, mapped, sink, file, segments, segments, 0)
  }

  lemma ClearedFilled(pages: seq<LoadedPage>, mapped: bool, sink: map<nat, Bytes>, file: Bytes)
    requires forall i :: 0 <= i < |pages| ==> Key(pages[i], mapped) in sink && sink[Key(pages[i], mapped)] == ZeroPage()
    ensures Populated(pages, mapped, sink, file, [])
  {
    forall i | 0 <= i < |pages|
      ensures ZeroPage() == PageBytes([], file, pages[i].virtualAddress)
    {
    }
  }

  /** Before a segment's first page there is nothing to do for it, and after its last page nothing is left. */
  lemma FilledStart(pages: seq<LoadedPage>, mapped: bool, sink: map<nat, Bytes>, file: Bytes, before: seq<Segment>,
                    segment: Segment)
    requires Keyed(pages, mapped) && Populated(pages, mapped, sink, file, before) && FileFits(before + [segment], file)
             && segment.fileSize <= segment.memorySize
    ensures Filled(pages, mapped, sink, file, before + [segment], before, AlignDown(segment.virtualAddress))
  {
    forall i | 0 <= i < |pages| && pages[i].virtualAddress < AlignDown(segment.virtualAddress)
      ensures PageBytes(before + [segment], file, pages[i].virtualAddress)
              == PageBytes(before, file, pages[i].virtualAddress)
    {
      NoChunkBeside(segment, pages[i].virtualAddress);
      ChunkCompletes(before, segment, file, pages[i].virtualAddress);
    }
  }

  lemma FilledEnd(pages: seq<LoadedPage>, mapped: bool, sink: map<nat, Bytes>, file: Bytes, before: seq<Segment>,
                  segment: Segment)
    requires Keyed(pages, mapped) && FileFits(before + [segment], file) && segment.fileSize <= segment.memorySize
    requires Filled(pages, mapped, sink, file, before + [segment], before, AlignUp(segment.End()))
    ensures Populated(pages, mapped, sink, file, before + [segment])
  {
    forall i | 0 <= i < |pages| && AlignUp(segment.End()) <= pages[i].virtualAddress
      ensures PageBytes(before + [segment], file, pages[i].virtualAddress)
              == PageBytes(before, file, pages[i].virtualAddress)
    {
      NoChunkBeside(segment, pages[i].virtualAddress);
      ChunkCompletes(before, segment, file, pages[i].virtualAddress);
    }
  }

  /** One page on. */
  lemma FilledNext(pages: seq<LoadedPage>, mapped: bool, sink: map<nat, Bytes>, file: Bytes, done: seq<Segment>,
                   before: seq<Segment>, at: nat, page: Bytes)
    requires Keyed(pages, mapped) && at < |pages| && FirstAt(pages, at)
             && Filled(pages, mapped, sink, file, done, before, pages[at].virtualAddress)
    requires page == PageBytes(done, file, pages[at].virtualAddress)
    ensures Filled(pages, mapped, sink[Key(pages[at], mapped) := page], file, done, before,
                   pages[at].virtualAddress + PAGE_SIZE)
  {
    hide PageBytes, FileFits;
    var limit := pages[at].virtualAddress;
    forall i | 0 <= i < |pages|
      ensures FirstAt(pages, i) ==> (pages[i].virtualAddress < limit + PAGE_SIZE <==>
              pages[i].virtualAddress < limit || i == at)
      ensures i != at ==> Key(pages[i], mapped) != Key(pages[at], mapped)
    {
      assert i < at || at < i || i == at;
      assert pages[i].virtualAddress % PAGE_SIZE == 0 && limit % PAGE_SIZE == 0;
    }
  }

  predicate HasPage(pages: seq<LoadedPage>, address: nat) {
    exists i :: 0 <= i < |pages| && pages[i].virtualAddress == address
  }

  /** The image has a page for every part of a segment. */
  ghost predicate HasPages(pages: seq<LoadedPage>, segment: Segment) {
    forall k :: 0 <= k < PageCount(segment) ==> HasPage(pages, PageOfSegment(segment, k))
  }

  function PageOfSegment(segment: Segment, k: nat): nat {
    AlignDown(segment.virtualAddress) + k * PAGE_SIZE
  }

  lemma LastPage(segment: Segment)
    ensures PageOfSegment(segment, 0) == AlignDown(segment.virtualAddress)
            && PageOfSegment(segment, PageCount(segment)) == AlignUp(segment.End())
  {
  }

  predicate Sized(segments: seq<Segment>) {
    forall i :: 0 <= i < |segments| ==> segments[i].fileSize <= segments[i].memorySize
  }

  method PageFor(pages: seq<LoadedPage>, address: nat) returns (r: Option<nat>)
    ensures r.Some? <==> HasPage(pages, address)
    ensures r.Some? ==> r.value < |pages| && pages[r.value].virtualAddress == address && FirstAt(pages, r.value)
  {
    for i := 0 to |pages|
      invariant forall j :: 0 <= j < i ==> pages[j].virtualAddress != address
    {
      if pages[i].virtualAddress == address {
        return Some(i);
      }
    }
    r := None;
  }

  /** Clear every page, so that what no segment covers is zero. */
  method ClearPages(pages: seq<LoadedPage>, sink: PageSink, mapped: bool, ghost file: Bytes)
      returns (r: Result<Unit, LoadError>)
    modifies sink
    ensures r.Ok? ==> Populated(pages, mapped, sink.pages, file, [])
    ensures old(sink.Reliable()) ==> r.Ok? && sink.Reliable()
  {
    for i := 0 to |pages|
      invariant forall j :: 0 <= j < i ==> Key(pages[j], mapped) in sink.pages
                                           && sink.pages[Key(pages[j], mapped)] == ZeroPage()
      invariant old(sink.Reliable()) ==> sink.Reliable()
    {
      var cleared := sink.Clear(Key(pages[i], mapped));
      if cleared.Err? {
        return cleared;
      }
    }
    ClearedFilled(pages, mapped, sink.pages, file);
    r := Ok(Unit.Unit);
  }

  /** Put a chunk on its page. */
  method PutChunk(pages: seq<LoadedPage>, sink: PageSink, mapped: bool, at: nat, chunk: Chunk, bytes: Bytes,
                  ghost file: Bytes, ghost before: seq<Segment>, ghost segment: Segment)
    returns (r: Result<Unit, LoadError>)
    requires at < |pages| && FirstAt(pages, at) && FileFits(before + [segment], file)
             && segment.fileSize <= segment.memorySize
    requires ChunkOn(segment, pages[at].virtualAddress) == Some(chunk) && chunk.fileOffset + chunk.length <= |file|
    requires bytes == file[chunk.fileOffset..chunk.fileOffset + chunk.length]
    modifies sink
    ensures r.Ok? && Keyed(pages, mapped) && old(Filled(pages, mapped, sink.pages, file, before + [segment], before,
                                                        pages[at].virtualAddress)) ==>
              Filled(pages, mapped, sink.pages, file, before + [segment], before, pages[at].virtualAddress + PAGE_SIZE)
    ensures old(sink.Reliable()) ==> sink.Reliable()
    ensures old(sink.Reliable()) && Keyed(pages, mapped)
            && old(Filled(pages, mapped, sink.pages, file, before + [segment], before, pages[at].virtualAddress)) ==>
              r.Ok?
  {
    hide PageBytes, ChunkOn, ByteAt;
    ChunkCompletes(before, segment, file, pages[at].virtualAddress);
    if Keyed(pages, mapped) && Filled(pages, mapped, sink.pages, file, before + [segment], before,
                                      pages[at].virtualAddress) {
      FilledNext(pages, mapped, sink.pages, file, before + [segment], before, at,
                 PageBytes(before + [segment], file, pages[at].virtualAddress));
    }
    r := sink.WriteBytes(Key(pages[at], mapped), chunk.memoryOffset, bytes);
  }

  /** A page of a segment that gets no file bytes is complete as it is. */
  lemma SkipPage(pages: seq<LoadedPage>, mapped: bool, sink: map<nat, Bytes>, file: Bytes, before: seq<Segment>,
                 segment: Segment, at: nat)
    requires FileFits(before + [segment], file) && segment.fileSize <= segment.memorySize && at < |pages|
             && FirstAt(pages, at) && ChunkOn(segment, pages[at].virtualAddress).None?
    ensures Keyed(pages, mapped) && Filled(pages, mapped, sink, file, before + [segment], before,
                                           pages[at].virtualAddress) ==>
              Filled(pages, mapped, sink, file, before + [segment], before, pages[at].virtualAddress + PAGE_SIZE)
  {
    hide PageBytes, ChunkOn, ByteAt;
    ChunkCompletes(before, segment, file, pages[at].virtualAddress);
    if Keyed(pages, mapped) && Filled(pages, mapped, sink, file, before + [segment], before, pages[at].virtualAddress) {
      FilledNext(pages, mapped, sink, file, before + [segment], before, at,
                 PageBytes(before + [segment], file, pages[at].virtualAddress));
      assert sink[Key(pages[at], mapped) := sink[Key(pages[at], mapped)]] == sink;
    }
  }

  /** Copy one segment, page by page. */
  method PopulateSegment(pages: seq<LoadedPage>, segment: Segment, file: Bytes, sink: PageSink, mapped: bool,
                         ghost before: seq<Segment>)
    returns (r: Result<Unit, LoadError>)
    requires FileFits(before + [segment], file) && segment.fileSize <= segment.memorySize
    modifies sink
    ensures r.Ok? && Keyed(pages, mapped) && old(Populated(pages, mapped, sink.pages, file, before)) ==>
            Populated(pages, mapped, sink.pages, file, before + [segment])
    ensures old(sink.Reliable()) ==> sink.Reliable()
    ensures old(sink.Reliable()) && HasPages(pages, segment) && Keyed(pages, mapped)
            && old(Populated(pages, mapped, sink.pages, file, before)) ==>
              r.Ok?
  {
    hide PageBytes, ChunkOn, ByteAt, Filled, Keyed, AlignDown, AlignUp, PageCount, FileFits;
    LastPage(segment);
    ghost var sound := Keyed(pages, mapped) && Populated(pages, mapped, sink.pages, file, before);
    if sound {
      FilledStart(pages, mapped, sink.pages, file, before, segment);
    }
    for k := 0 to PageCount(segment)
      invariant old(sink.Reliable()) ==> sink.Reliable()
      invariant sound ==> Filled(pages, mapped, sink.pages, file, before + [segment], before, PageOfSegment(segment, k))
    {
      var at := PageFor(pages, PageOfSegment(segment, k));
      if at.None? {
        return Err(InvalidPlan);
      }
      NextPage(segment, k);
      var chunk := ChunkOn(segment, pages[at.value].virtualAddress);
      if chunk.None? {
        SkipPage(pages, mapped, sink.pages, file, before, segment, at.value);
      } else {
        ChunkFits(before, segment, file, pages[at.value].virtualAddress);
        var bytes := file[chunk.value.fileOffset..chunk.value.fileOffset + chunk.value.length];
        r := PutChunk(pages, sink, mapped, at.value, chunk.value, bytes, file, before, segment);
        if r.Err? {
          return;
        }
      }
    }
    if sound {
      FilledEnd(pages, mapped, sink.pages, file, before, segment);
    }
    r := Ok(Unit.Unit);
  }

  lemma NextPage(segment: Segment, k: nat)
    ensures PageOfSegment(segment, k + 1) == PageOfSegment(segment, k) + PAGE_SIZE
  {
  }

  lemma ChunkFits(before: seq<Segment>, segment: Segment, file: Bytes, address: nat)
    requires FileFits(before + [segment], file) && segment.fileSize <= segment.memorySize
             && ChunkOn(segment, address).Some?
    ensures ChunkOn(segment, address).value.fileOffset + ChunkOn(segment, address).value.length <= |file|
    ensures ChunkOn(segment, address).value.length <= PAGE_SIZE
  {
    ChunkCompletes(before, segment, file, address);
  }

  /** Fill an image from the bytes of its file, through frames or through its mapped addresses. */
  method PopulateImage(image: LoadedImage, plan: Plan, file: Bytes, sink: PageSink, mapped: bool)
      returns (r: Result<Unit, LoadError>)
    requires Sized(plan.segments)
    modifies sink
    ensures r.Ok? ==> plan.entry == image.entry && FileFits(plan.segments, file)
    ensures r.Ok? && Keyed(image.pages, mapped) ==> Populated(image.pages, mapped, sink.pages, file, plan.segments)
    ensures old(sink.Reliable()) && Ready(image.pages, image.entry, plan, file) && Keyed(image.pages, mapped) ==> r.Ok?
  {
    hide Filled, Keyed, HasPages;
    if plan.entry != image.entry || !FileFits(plan.segments, file) {
      return Err(InvalidPlan);
    }
    r := ClearPages(image.pages, sink, mapped, file);
    if r.Err? {
      return;
    }
    for index := 0 to |plan.segments|
      invariant old(sink.Reliable()) ==> sink.Reliable()
      invariant Keyed(image.pages, mapped) ==> Populated(image.pages, mapped, sink.pages, file, plan.segments[..index])
    {
      assert plan.segments[..index + 1] == plan.segments[..index] + [plan.segments[index]];
      r := PopulateSegment(image.pages, plan.segments[index], file, sink, mapped, plan.segments[..index]);
      if r.Err? {
        return;
      }
    }
    assert plan.segments[..|plan.segments|] == plan.segments;
    r := Ok(Unit.Unit);
  }

  /** The plan belongs to the image and fits the file. */
  ghost predicate Ready(pages: seq<LoadedPage>, entry: nat, plan: Plan, file: Bytes) {
    plan.entry == entry && FileFits(plan.segments, file) && forall s :: 0 <= s < |plan.segments| ==>
        HasPages(pages, plan.segments[s])
  }

  /** Read a chunk into the scratch buffer. */
  method ReadChunk(reader: ImageReader, chunk: Chunk, scratch: array<Byte>) returns (r: Result<Bytes, LoadError>)
    requires chunk.length <= scratch.Length
    modifies reader, scratch
    ensures r.Ok? ==> chunk.fileOffset + chunk.length <= |reader.image|
                      && r.value == reader.image[chunk.fileOffset..chunk.fileOffset + chunk.length]
    ensures old(reader.Reliable()) ==> reader.Reliable()
                                       && (chunk.fileOffset + chunk.length <= |reader.image| ==> r.Ok?)
  {
    var read := reader.Read(chunk.fileOffset, chunk.length);
    if read.Err? {
      return Err(LoadError.Read);
    }
    for i := 0 to chunk.length
      invariant forall j :: 0 <= j < i ==> scratch[j] == read.value[j]
      invariant old(reader.Reliable()) ==> reader.Reliable()
    {
      scratch[i] := read.value[i];
    }
    assert scratch[..chunk.length] == read.value;
    r := Ok(scratch[..chunk.length]);
  }

  method PopulateSegmentFromReader(pages: seq<LoadedPage>, segment: Segment, reader: ImageReader, scratch: array<Byte>,
                                   sink: PageSink, ghost before: seq<Segment>)
    returns (r: Result<Unit, LoadError>)
    requires FileFits(before + [segment], reader.image) && segment.fileSize <= segment.memorySize
             && scratch.Length >= PAGE_SIZE
    modifies sink, reader, scratch
    ensures r.Ok? && Keyed(pages, false) && old(Populated(pages, false, sink.pages, reader.image, before)) ==>
            Populated(pages, false, sink.pages, reader.image, before + [segment])
    ensures old(sink.Reliable() && reader.Reliable()) ==> sink.Reliable() && reader.Reliable()
    ensures old(sink.Reliable() && reader.Reliable()) && HasPages(pages, segment) && Keyed(pages, false)
            && old(Populated(pages, false, sink.pages, reader.image, before)) ==>
              r.Ok?
  {
    hide PageBytes, ChunkOn, ByteAt, Filled, Keyed, AlignDown, AlignUp, PageCount, FileFits;
    LastPage(segment);
    ghost var sound := Keyed(pages, false) && Populated(pages, false, sink.pages, reader.image, before);
    if sound {
      FilledStart(pages, false, sink.pages, reader.image, before, segment);
    }
    for k := 0 to PageCount(segment)
      invariant old(sink.Reliable() && reader.Reliable()) ==> sink.Reliable() && reader.Reliable()
      invariant sound ==> Filled(pages, false, sink.pages, reader.image, before + [segment], before,
                                 PageOfSegment(segment, k))
    {
      var at := PageFor(pages, PageOfSegment(segment, k));
      if at.None? {
        return Err(InvalidPlan);
      }
      NextPage(segment, k);
      var chunk := ChunkOn(segment, pages[at.value].virtualAddress);
      if chunk.None? {
        SkipPage(pages, false, sink.pages, reader.image, before, segment, at.value);
      } else {
        ChunkFits(before, segment, reader.image, pages[at.value].virtualAddress);
        var bytes := ReadChunk(reader, chunk.value, scratch);
        if bytes.Err? {
          return Err(bytes.error);
        }
        r := PutChunk(pages, sink, false, at.value, chunk.value, bytes.value, reader.image, before, segment);
        if r.Err? {
          return;
        }
      }
    }
    if sound {
      FilledEnd(pages, false, sink.pages, reader.image, before, segment);
    }
    r := Ok(Unit.Unit);
  }

  /** Fill an image from a reader, a page at a time through a scratch buffer. */
  method PopulateReader(image: LoadedImage, plan: Plan, reader: ImageReader, scratch: array<Byte>, sink: PageSink)
      returns (r: Result<Unit, LoadError>)
    requires Sized(plan.segments)
    modifies sink, reader, scratch
    ensures r.Ok? ==> plan.entry == image.entry && FileFits(plan.segments, reader.image)
    ensures r.Ok? && Keyed(image.pages, false) ==>
            Populated(image.pages, false, sink.pages, reader.image, plan.segments)
    ensures old(sink.Reliable() && reader.Reliable()) && Ready(image.pages, image.entry, plan, reader.image)
            && Keyed(image.pages, false) && scratch.Length >= PAGE_SIZE ==>
              r.Ok?
  {
    hide Filled, Keyed, HasPages;
    if plan.entry != image.entry || scratch.Length < PAGE_SIZE || !FileFits(plan.segments, reader.image) {
      return Err(InvalidPlan);
    }
    r := ClearPages(image.pages, sink, false, reader.image);
    if r.Err? {
      return;
    }
    for index := 0 to |plan.segments|
      invariant old(sink.Reliable() && reader.Reliable()) ==> sink.Reliable() && reader.Reliable()
      invariant Keyed(image.pages, false) ==> Populated(image.pages, false, sink.pages, reader.image,
                                                        plan.segments[..index])
    {
      assert plan.segments[..index + 1] == plan.segments[..index] + [plan.segments[index]];
      r := PopulateSegmentFromReader(image.pages, plan.segments[index], reader, scratch, sink, plan.segments[..index]);
      if r.Err? {
        return;
      }
    }
    assert plan.segments[..|plan.segments|] == plan.segments;
    r := Ok(Unit.Unit);
  }

  // --- What the bytes are -------------------------------------------------------------

  /** Filling through frames and filling through addresses gives every page the same bytes. */
  lemma SameMemory(pages: seq<LoadedPage>, byFrame: map<nat, Bytes>, byAddress: map<nat, Bytes>, file: Bytes,
                   segments: seq<Segment>, i: nat)
    requires Populated(pages, false, byFrame, file, segments) && Populated(pages, true, byAddress, file, segments)
             && i < |pages|
    ensures pages[i].frame in byFrame && pages[i].virtualAddress in byAddress
            && byFrame[pages[i].frame] == byAddress[pages[i].virtualAddress]
  {
    assert Key(pages[i], false) == pages[i].frame && Key(pages[i], true) == pages[i].virtualAddress;
  }

  predicate InSegment(segment: Segment, x: nat) {
    segment.virtualAddress <= x < segment.End()
  }

  lemma {:induction false} WantedPage(from: nat, count: nat, flags: MappingFlags, k: nat)
    requires k < count
    ensures k < |WantsFrom(from, count, flags)| && WantsFrom(from, count, flags)[k].address == from + k * PAGE_SIZE
    decreases count
  {
    WantsPrefix(from, count - 1, count, flags);
    WantsPrefix(from, count - 1, count - 1, flags);
    if k < count - 1 {
      WantedPage(from, count - 1, flags, k);
    }
  }

  /** The page of a byte is among those its segment wants. */
  lemma PageWanted(segments: seq<Segment>, s: nat, x: nat) returns (at: nat)
    requires s < |segments| && InSegment(segments[s], x)
    ensures |PlanWants(segments[..s])| <= at < |PlanWants(segments[..s + 1])|
            && PlanWants(segments[..s + 1])[at].address == AlignDown(x)
  {
    var segment := segments[s];
    assert segments[..s + 1][..s] == segments[..s];
    var k := x / PAGE_SIZE - segment.virtualAddress / PAGE_SIZE;
    WantedPage(AlignDown(segment.virtualAddress), PageCount(segment), segment.flags, k);
    at := |PlanWants(segments[..s])| + k;
  }

  /** Segments that share no page share no byte. */
  lemma {:induction false} SegmentsApart(segments: seq<Segment>, s: nat, t: nat, x: nat)
    requires s < t < |segments| && Distinct(Addresses(PlanWants(segments))) && InSegment(segments[s], x)
    ensures !InSegment(segments[t], x)
  {
    if InSegment(segments[t], x) {
      WantedTwice(segments, s, t, x);
    }
  }

  lemma {:induction false} WantedTwice(segments: seq<Segment>, s: nat, t: nat, x: nat)
    requires s < t < |segments| && InSegment(segments[s], x) && InSegment(segments[t], x)
    ensures !Distinct(Addresses(PlanWants(segments)))
  {
    hide PlanWants, AlignDown, InSegment, Distinct, Addresses;
    var a := PageWanted(segments, s, x);
    var b := PageWanted(segments, t, x);
    PlanPrefix(segments, s + 1);
    PlanPrefix(segments, t + 1);
    PlanPrefix(segments[..t], s + 1);
    assert segments[..t][..s + 1] == segments[..s + 1];
    SameAddress(PlanWants(segments), a, b);
  }

  lemma {:induction false} SameAddress(wants: seq<Want>, a: nat, b: nat)
    requires a < b < |wants| && wants[a].address == wants[b].address
    ensures !Distinct(Addresses(wants))
  {
    if Distinct(Addresses(wants)) {
      DistinctAt(Addresses(wants), a, b);
    }
  }

  /** Every byte of a segment is its file byte below the file size and zero above. */
  lemma {:induction false} SegmentByte(segments: seq<Segment>, file: Bytes, s: nat, x: nat)
    requires FileFits(segments, file) && Sized(segments) && Distinct(Addresses(PlanWants(segments))) && s < |segments|
             && InSegment(segments[s], x)
    ensures x < segments[s].virtualAddress + segments[s].fileSize ==>
            ByteAt(segments, file, x) == file[segments[s].fileOffset + (x - segments[s].virtualAddress)]
    ensures segments[s].virtualAddress + segments[s].fileSize <= x ==> ByteAt(segments, file, x) == 0
    decreases |segments|
  {
    hide Distinct;
    var last := |segments| - 1;
    if s < last {
      SegmentsApart(segments, s, last, x);
      PlanPrefix(segments, last);
      DistinctTake(Addresses(PlanWants(segments)), |PlanWants(segments[..last])|);
      assert Addresses(PlanWants(segments))[..|PlanWants(segments[..last])|] == Addresses(PlanWants(segments[..last]));
      SegmentByte(segments[..last], file, s, x);
    } else {
      forall t | 0 <= t < last
        ensures !InSegment(segments[t], x)
      {
        if InSegment(segments[t], x) {
          SegmentsApart(segments, t, last, x);
        }
      }
      NoSegmentByte(segments[..last], file, x);
    }
  }

  /** A byte of no segment, such as any byte of the stack, is zero. */
  lemma {:induction false} NoSegmentByte(segments: seq<Segment>, file: Bytes, x: nat)
    requires FileFits(segments, file) && Sized(segments) && forall t :: 0 <= t < |segments| ==>
             !InSegment(segments[t], x)
    ensures ByteAt(segments, file, x) == 0
  {
    if |segments| > 0 {
      NoSegmentByte(segments[..|segments| - 1], file, x);
    }
  }

  // --- Loaded images ----------------------------------------------------------------

  /** A loaded image has a page for every part of every segment. */
  lemma {:induction false} LoadedHasPages(pages: seq<LoadedPage>, segments: seq<Segment>, stackPages: nat, s: nat)
    requires WantsOf(pages) == AllWants(segments, stackPages) && s < |segments|
    ensures HasPages(pages, segments[s])
  {
    hide PlanWants, AlignDown, WantsFrom;
    WantsLength(pages);
    PlanPrefix(segments, s + 1);
    forall k | 0 <= k < PageCount(segments[s])
      ensures HasPage(pages, PageOfSegment(segments[s], k))
    {
      var at := SegmentWantAt(segments, s, k);
      assert pages[at].virtualAddress == PageOfSegment(segments[s], k);
    }
  }

  lemma SegmentWantAt(segments: seq<Segment>, s: nat, k: nat) returns (at: nat)
    requires s < |segments| && k < PageCount(segments[s])
    ensures at < |PlanWants(segments[..s + 1])|
            && PlanWants(segments[..s + 1])[at].address == PageOfSegment(segments[s], k)
  {
    assert segments[..s + 1][..s] == segments[..s];
    WantedPage(AlignDown(segments[s].virtualAddress), PageCount(segments[s]), segments[s].flags, k);
    at := |PlanWants(segments[..s])| + k;
  }

  /** No wanted page of a segment is in the stack's range. */
  ghost predicate StackClear(segments: seq<Segment>, stackPages: nat) {
    forall i :: 0 <= i < |PlanWants(segments)| ==>
      PlanWants(segments)[i].address < USER_STACK_BASE
          || USER_STACK_BASE + stackPages * PAGE_SIZE <= PlanWants(segments)[i].address
  }

  /** The segment's pages meet the stack's pages. */
  predicate ReachesStack(segment: Segment, stackPages: nat) {
    stackPages > 0 && AlignDown(segment.virtualAddress) < USER_STACK_BASE + stackPages * PAGE_SIZE
        && USER_STACK_BASE < AlignUp(segment.End())
  }

  /** The pages of a loaded image are apart exactly when no segment reaches the stack. */
  lemma {:induction false} LoadedApart(pages: seq<LoadedPage>, segments: seq<Segment>, stackPages: nat)
    requires WantsOf(pages) == AllWants(segments, stackPages) && Distinct(Addresses(PlanWants(segments)))
             && Distinct(FramesOf(pages))
    requires forall s :: 0 <= s < |segments| ==> segments[s].memorySize > 0
    ensures Apart(pages, false) <==> forall s :: 0 <= s < |segments| ==> !ReachesStack(segments[s], stackPages)
  {
    hide PlanWants, AlignDown, AlignUp, WantsFrom, Distinct, WantsOf, FramesOf, Apart;
    ApartIffClear(pages, segments, stackPages);
    if s :| 0 <= s < |segments| && ReachesStack(segments[s], stackPages) {
      var at := ReachingWant(segments, stackPages, s);
    } else {
      MissesStackClear(segments, stackPages);
    }
  }

  lemma OnePageSegment(segment: Segment)
    requires segment.virtualAddress % PAGE_SIZE == 0 && segment.memorySize == 1
    ensures Distinct(Addresses(PlanWants([segment])))
  {
    assert [segment][..0] == [];
    assert segment.virtualAddress / PAGE_SIZE * PAGE_SIZE == segment.virtualAddress;
    assert PageCount(segment) == 1;
    assert WantsFrom(segment.virtualAddress, 0, segment.flags) == [];
    assert PlanWants([segment]) == [Want(segment.virtualAddress, segment.flags)];
    assert Addresses(PlanWants([segment])) == [segment.virtualAddress];
  }

  /** A segment that reaches the stack wants a page in its range. */
  lemma ReachingWant(segments: seq<Segment>, stackPages: nat, s: nat) returns (at: nat)
    requires s < |segments| && segments[s].memorySize > 0 && ReachesStack(segments[s], stackPages)
    ensures at < |PlanWants(segments)| && USER_STACK_BASE <= PlanWants(segments)[at].address < USER_STACK_BASE
            + stackPages * PAGE_SIZE
  {
    hide PlanWants;
    var first := AlignDown(segments[s].virtualAddress);
    var k := if first < USER_STACK_BASE then (USER_STACK_BASE - first) / PAGE_SIZE else 0;
    at := SegmentWantAt(segments, s, k);
    PlanPrefix(segments, s + 1);
  }

  lemma {:induction false} MissesStackClear(segments: seq<Segment>, stackPages: nat)
    requires forall s :: 0 <= s < |segments| ==> !ReachesStack(segments[s], stackPages)
    ensures StackClear(segments, stackPages)
  {
    if |segments| > 0 && stackPages > 0 {
      var last := |segments| - 1;
      MissesStackClear(segments[..last], stackPages);
      var segment := segments[last];
      forall k | 0 <= k < |SegmentWants(segment)|
        ensures AlignDown(segment.virtualAddress) <= SegmentWants(segment)[k].address
        ensures SegmentWants(segment)[k].address + PAGE_SIZE <= AlignUp(segment.End())
      {
        WantsPrefix(AlignDown(segment.virtualAddress), 0, PageCount(segment), segment.flags);
        WantedPage(AlignDown(segment.virtualAddress), PageCount(segment), segment.flags, k);
        LastPage(segment);
      }
    }
  }

  lemma {:induction false} PlanAligned(segments: seq<Segment>, i: nat)
    requires i < |PlanWants(segments)|
    ensures PlanWants(segments)[i].address % PAGE_SIZE == 0
  {
    var last := |segments| - 1;
    var base := |PlanWants(segments[..last])|;
    if i < base {
      PlanAligned(segments[..last], i);
    } else {
      var segment := segments[last];
      WantsPrefix(AlignDown(segment.virtualAddress), 0, PageCount(segment), segment.flags);
      WantedPage(AlignDown(segment.virtualAddress), PageCount(segment), segment.flags, i - base);
    }
  }

  lemma {:induction false} FramesAt(pages: seq<LoadedPage>)
    ensures |FramesOf(pages)| == |pages| && forall i :: 0 <= i < |pages| ==> FramesOf(pages)[i] == pages[i].frame
  {
    if |pages| > 0 {
      FramesAt(pages[..|pages| - 1]);
    }
  }

  /** Two wanted pages have different addresses, unless one is a segment's page in the stack's range. */
  lemma {:induction false} WantsDiffer(segments: seq<Segment>, stackPages: nat, i: nat, j: nat)
    requires Distinct(Addresses(PlanWants(segments))) && StackClear(segments, stackPages)
             && i < j < |AllWants(segments, stackPages)|
    ensures AllWants(segments, stackPages)[i].address != AllWants(segments, stackPages)[j].address
  {
    hide PlanWants, Distinct;
    var plan, stack := PlanWants(segments), WantsFrom(USER_STACK_BASE, stackPages, DATA);
    WantsPrefix(USER_STACK_BASE, 0, stackPages, DATA);
    if j < |plan| {
      DistinctAt(Addresses(plan), i, j);
    } else {
      WantedPage(USER_STACK_BASE, stackPages, DATA, j - |plan|);
      if i >= |plan| {
        WantedPage(USER_STACK_BASE, stackPages, DATA, i - |plan|);
      }
    }
  }

  lemma AllAligned(segments: seq<Segment>, stackPages: nat, i: nat)
    requires i < |AllWants(segments, stackPages)|
    ensures AllWants(segments, stackPages)[i].address % PAGE_SIZE == 0
  {
    hide PlanWants;
    var plan := PlanWants(segments);
    WantsPrefix(USER_STACK_BASE, 0, stackPages, DATA);
    if i < |plan| {
      PlanAligned(segments, i);
    } else {
      WantedPage(USER_STACK_BASE, stackPages, DATA, i - |plan|);
    }
  }

  /** A segment's page in the stack's range has the address of a stack page. */
  lemma InStackTwice(segments: seq<Segment>, stackPages: nat, i: nat) returns (j: nat)
    requires i < |PlanWants(segments)|
    requires USER_STACK_BASE <= PlanWants(segments)[i].address < USER_STACK_BASE + stackPages * PAGE_SIZE
    ensures i < j < |AllWants(segments, stackPages)|
            && AllWants(segments, stackPages)[i].address == AllWants(segments, stackPages)[j].address
  {
    hide PlanWants;
    var plan := PlanWants(segments);
    PlanAligned(segments, i);
    var k := (plan[i].address - USER_STACK_BASE) / PAGE_SIZE;
    WantsPrefix(USER_STACK_BASE, 0, stackPages, DATA);
    WantedPage(USER_STACK_BASE, stackPages, DATA, k);
    j := |plan| + k;
  }

  lemma {:induction false} ApartIffClear(pages: seq<LoadedPage>, segments: seq<Segment>, stackPages: nat)
    requires WantsOf(pages) == AllWants(segments, stackPages) && Distinct(Addresses(PlanWants(segments)))
             && Distinct(FramesOf(pages))
    ensures Apart(pages, false) <==> StackClear(segments, stackPages)
  {
    hide PlanWants, AllWants, Distinct, FramesOf, WantsOf;
    WantsLength(pages);
    FramesAt(pages);
    if StackClear(segments, stackPages) {
      forall i | 0 <= i < |pages|
        ensures pages[i].virtualAddress % PAGE_SIZE == 0
      {
        AllAligned(segments, stackPages, i);
      }
      forall i, j | 0 <= i < j < |pages|
        ensures pages[i].virtualAddress != pages[j].virtualAddress && pages[i].frame != pages[j].frame
      {
        WantsDiffer(segments, stackPages, i, j);
        DistinctAt(FramesOf(pages), i, j);
      }
    } else {
      var i :| 0 <= i < |PlanWants(segments)| &&
        !(PlanWants(segments)[i].address < USER_STACK_BASE
            || USER_STACK_BASE + stackPages * PAGE_SIZE <= PlanWants(segments)[i].address);
      var j := InStackTwice(segments, stackPages, i);
      assert pages[i].virtualAddress == pages[j].virtualAddress;
    }
  }

  // --- From the file to memory ----------------------------------------------------------

  /** The frames of a loaded image are its own, whatever its addresses. */
  lemma {:induction false} LoadedKeyed(pages: seq<LoadedPage>, segments: seq<Segment>, stackPages: nat)
    requires WantsOf(pages) == AllWants(segments, stackPages) && Distinct(FramesOf(pages))
    ensures Keyed(pages, false)
  {
    hide PlanWants, AllWants, Distinct, FramesOf, WantsOf;
    WantsLength(pages);
    FramesAt(pages);
    forall i | 0 <= i < |pages|
      ensures pages[i].virtualAddress % PAGE_SIZE == 0
    {
      AllAligned(segments, stackPages, i);
    }
    forall i, j | 0 <= i < j < |pages|
      ensures pages[i].frame != pages[j].frame
    {
      DistinctAt(FramesOf(pages), i, j);
    }
  }

  predicate OnPage(page: LoadedPage, x: nat) {
    page.virtualAddress <= x < page.virtualAddress + PAGE_SIZE
  }

  /** The byte a segment asks for: its file byte below the file size, zero above. */
  function SegmentAt(segment: Segment, file: Bytes, x: nat): Byte
    requires InSegment(segment, x) && segment.fileOffset + segment.fileSize <= |file|
  {
    if x < segment.virtualAddress + segment.fileSize then file[segment.fileOffset + (x - segment.virtualAddress)] else 0
  }

  ghost predicate ByteIs(sink: map<nat, Bytes>, page: LoadedPage, x: nat, byte: Byte) {
    page.frame in sink && |sink[page.frame]| == PAGE_SIZE && OnPage(page, x)
        && sink[page.frame][x - page.virtualAddress] == byte
  }

  /** Every byte of a segment is on a page of the image's own, and there it is what the segment asks for. */
  ghost predicate SegmentsStand(pages: seq<LoadedPage>, count: nat, sink: map<nat, Bytes>, file: Bytes,
                                segments: seq<Segment>)
    requires count <= |pages| && FileFits(segments, file)
  {
    forall s, x :: 0 <= s < |segments| && InSegment(segments[s], x) ==>
      && (exists i :: 0 <= i < count && OnPage(pages[i], x))
      && (forall i :: 0 <= i < count && OnPage(pages[i], x) ==>
         ByteIs(sink, pages[i], x, SegmentAt(segments[s], file, x)))
  }

  /** What no segment covers on those pages is zero, and so are the stack's pages. */
  ghost predicate RestZero(pages: seq<LoadedPage>, count: nat, sink: map<nat, Bytes>, segments: seq<Segment>)
    requires count <= |pages|
  {
    && (forall i, x :: 0 <= i < count && OnPage(pages[i], x)
                       && (forall s :: 0 <= s < |segments| ==> !InSegment(segments[s], x)) ==>
                         ByteIs(sink, pages[i], x, 0))
    && (forall i :: count <= i < |pages| ==> pages[i].frame in sink && sink[pages[i].frame] == ZeroPage())
  }

  /** The segments' pages come first, each with an address of its own. */
  lemma {:induction false} SegmentPageFirst(pages: seq<LoadedPage>, segments: seq<Segment>, stackPages: nat, i: nat)
    requires WantsOf(pages) == AllWants(segments, stackPages) && Distinct(Addresses(PlanWants(segments)))
             && i < |PlanWants(segments)|
    ensures |PlanWants(segments)| <= |pages| && FirstAt(pages, i)
            && pages[i].virtualAddress == PlanWants(segments)[i].address && pages[i].virtualAddress % PAGE_SIZE == 0
  {
    hide PlanWants, Distinct, WantsOf;
    WantsLength(pages);
    PlanAligned(segments, i);
    forall j | 0 <= j < i
      ensures pages[j].virtualAddress != pages[i].virtualAddress
    {
      DistinctAt(Addresses(PlanWants(segments)), j, i);
    }
  }

  lemma {:induction false} ImageByte(pages: seq<LoadedPage>, sink: map<nat, Bytes>, file: Bytes, segments: seq<Segment>,
                                     stackPages: nat, i: nat, x: nat)
    requires WantsOf(pages) == AllWants(segments, stackPages) && Distinct(Addresses(PlanWants(segments)))
             && i < |PlanWants(segments)| <= |pages|
    requires Populated(pages, false, sink, file, segments) && OnPage(pages[i], x)
    ensures ByteIs(sink, pages[i], x, ByteAt(segments, file, x))
  {
    hide PlanWants, Distinct, WantsOf, ByteAt;
    SegmentPageFirst(pages, segments, stackPages, i);
    assert Key(pages[i], false) == pages[i].frame;
  }

  /** A loaded and populated image has every byte of its segments in memory. */
  lemma {:induction false} SegmentsInMemory(pages: seq<LoadedPage>, sink: map<nat, Bytes>, file: Bytes,
                                            segments: seq<Segment>, stackPages: nat)
    requires WantsOf(pages) == AllWants(segments, stackPages) && Distinct(Addresses(PlanWants(segments)))
             && Sized(segments) && FileFits(segments, file)
    requires Populated(pages, false, sink, file, segments) && |PlanWants(segments)| <= |pages|
    ensures SegmentsStand(pages, |PlanWants(segments)|, sink, file, segments)
  {
    hide PlanWants, Distinct, WantsOf, ByteAt, Filled, AllWants, ByteIs;
    var count := |PlanWants(segments)|;
    forall s, x | 0 <= s < |segments| && InSegment(segments[s], x)
      ensures exists i :: 0 <= i < count && OnPage(pages[i], x)
      ensures forall i :: 0 <= i < count && OnPage(pages[i], x) ==>
              ByteIs(sink, pages[i], x, SegmentAt(segments[s], file, x))
    {
      var at := PageWanted(segments, s, x);
      PlanPrefix(segments, s + 1);
      SegmentPageFirst(pages, segments, stackPages, at);
      assert OnPage(pages[at], x);
      SegmentByte(segments, file, s, x);
      forall i | 0 <= i < count && OnPage(pages[i], x)
        ensures ByteIs(sink, pages[i], x, SegmentAt(segments[s], file, x))
      {
        ImageByte(pages, sink, file, segments, stackPages, i, x);
      }
    }
  }

  /** A page of the stack is zero, even where a segment has a page of the same address. */
  lemma {:induction false} StackPageZero(pages: seq<LoadedPage>, sink: map<nat, Bytes>, file: Bytes,
                                         segments: seq<Segment>, stackPages: nat, i: nat)
    requires WantsOf(pages) == AllWants(segments, stackPages) && Sized(segments) && FileFits(segments, file)
    requires Populated(pages, false, sink, file, segments) && |PlanWants(segments)| <= i < |pages|
    ensures pages[i].frame in sink && sink[pages[i].frame] == ZeroPage()
  {
    hide PlanWants, WantsOf, ByteAt;
    assert Key(pages[i], false) == pages[i].frame;
    WantsLength(pages);
    AllAligned(segments, stackPages, i);
    if FirstAt(pages, i) {
      forall o | 0 <= o < PAGE_SIZE
        ensures PageBytes(segments, file, pages[i].virtualAddress)[o] == 0
      {
        forall s | 0 <= s < |segments| && InSegment(segments[s], pages[i].virtualAddress + o)
          ensures false
        {
          SecondPage(pages, segments, stackPages, i, s, pages[i].virtualAddress + o);
        }
        NoSegmentByte(segments, file, pages[i].virtualAddress + o);
      }
    }
  }

  /** A page of the stack with a byte of a segment on it is not the first for its address. */
  lemma {:induction false} SecondPage(pages: seq<LoadedPage>, segments: seq<Segment>, stackPages: nat, i: nat, s: nat,
                                      x: nat)
    requires WantsOf(pages) == AllWants(segments, stackPages) && |PlanWants(segments)| <= i < |pages| && s < |segments|
    requires OnPage(pages[i], x) && pages[i].virtualAddress % PAGE_SIZE == 0 && InSegment(segments[s], x)
    ensures !FirstAt(pages, i)
  {
    hide PlanWants, WantsOf, InSegment;
    WantsLength(pages);
    var at := PageWanted(segments, s, x);
    PlanPrefix(segments, s + 1);
    assert pages[at].virtualAddress == AlignDown(x) == pages[i].virtualAddress;
  }

  lemma {:induction false} RestInMemory(pages: seq<LoadedPage>, sink: map<nat, Bytes>, file: Bytes,
                                        segments: seq<Segment>, stackPages: nat)
    requires WantsOf(pages) == AllWants(segments, stackPages) && Distinct(Addresses(PlanWants(segments)))
             && Sized(segments) && FileFits(segments, file)
    requires Populated(pages, false, sink, file, segments) && |PlanWants(segments)| <= |pages|
    ensures RestZero(pages, |PlanWants(segments)|, sink, segments)
  {
    hide PlanWants, Distinct, WantsOf, ByteAt, Filled, AllWants, ByteIs;
    var count := |PlanWants(segments)|;
    forall i, x | 0 <= i < count && OnPage(pages[i], x) && forall s :: 0 <= s < |segments| ==>
        !InSegment(segments[s], x)
      ensures ByteIs(sink, pages[i], x, 0)
    {
      NoSegmentByte(segments, file, x);
      ImageByte(pages, sink, file, segments, stackPages, i, x);
    }
    forall i | count <= i < |pages|
      ensures pages[i].frame in sink && sink[pages[i].frame] == ZeroPage()
    {
      StackPageZero(pages, sink, file, segments, stackPages, i);
    }
  }

  /**
   An image in memory is what its file says: file bytes and zeros in the segments, zeros
   beside them and on the stack.
   */
  ghost predicate InMemory(pages: seq<LoadedPage>, sink: map<nat, Bytes>, file: Bytes, segments: seq<Segment>) {
    && FileFits(segments, file) && |PlanWants(segments)| <= |pages|
    && SegmentsStand(pages, |PlanWants(segments)|, sink, file, segments)
    && RestZero(pages, |PlanWants(segments)|, sink, segments)
  }

  datatype PackageError = Image | Load(load: LoadError) | Fill(fill: LoadError)

  /** From the bytes of a file to an image in memory; a failure gives every frame back. */
  method LoadPackage(reader: ImageReader, pool: FramePool, sink: PageSink, owner: nat)
      returns (r: Result<LoadedImage, PackageError>)
    requires pool.Valid()
    modifies reader, pool, sink
    ensures pool.Valid()
    ensures r.Ok? ==> Admissible(reader.image)
                      && WantsOf(r.value.pages) == AllWants(PlanOf(reader.image).segments, USER_STACK_PAGES)
    ensures r.Ok? ==> Took(r.value.pages, old(pool.free), old(pool.live), pool.free, pool.live)
    ensures r.Ok? ==> InMemory(r.value.pages, sink.pages, reader.image, PlanOf(reader.image).segments)
    ensures r.Err? ==> pool.free == old(pool.free) && pool.live == old(pool.live)
    ensures old(reader.Reliable() && sink.Reliable()) ==>
              (r.Ok? <==> Admissible(reader.image) && Loadable(PlanOf(reader.image).segments, USER_STACK_PAGES,
                                                               old(pool.available)))
  {
    hide FramePool.Valid, Took, WantsOf, FramesOf, PlanWants, AllWants, InMemory, Populated, HasPages, Keyed, Distinct,
         Addresses;
    var plan := ParseReader(reader);
    if plan.Err? {
      return Err(Image);
    }
    PlanSized(plan.value, reader.image);
    PoolApart(pool);
    var loaded := Loader.Load(plan.value, pool, USER_STACK_PAGES, owner);
    if loaded.Err? {
      return Err(PackageError.Load(loaded.error));
    }
    var image := loaded.value;
    ReadyToFill(image.pages, plan.value, reader.image, old(pool.free), old(pool.live), pool.free, pool.live,
                old(pool.available));
    var scratch := new Byte[PAGE_SIZE];
    var filled := PopulateReader(image, plan.value, reader, scratch, sink);
    if filled.Err? {
      TookBack(image.pages, old(pool.free), old(pool.live), pool.free, pool.live);
      image.Reclaim(pool);
      return Err(Fill(filled.error));
    }
    IsInMemory(image.pages, sink.pages, reader.image, plan.value.segments, old(pool.available));
    r := Ok(image);
  }

  lemma PlanSized(plan: Plan, file: Bytes)
    requires PlanOk(plan, |file|)
    ensures Sized(plan.segments) && FileFits(plan.segments, file)
  {
  }

  lemma {:induction false} ReadyToFill(pages: seq<LoadedPage>, plan: Plan, file: Bytes, free: set<nat>, live: map<nat,
                                       nat>,
                                       nowFree: set<nat>, nowLive: map<nat, nat>, available: nat)
    requires PlanOk(plan, |file|) && WantsOf(pages) == AllWants(plan.segments, USER_STACK_PAGES)
             && Took(pages, free, live, nowFree, nowLive)
    ensures Keyed(pages, false) && Ready(pages, plan.entry, plan, file)
  {
    hide WantsOf, FramesOf, AllWants, Keyed, Distinct, HasPages;
    PlanSized(plan, file);
    LoadedKeyed(pages, plan.segments, USER_STACK_PAGES);
    forall s | 0 <= s < |plan.segments|
      ensures HasPages(pages, plan.segments[s])
    {
      LoadedHasPages(pages, plan.segments, USER_STACK_PAGES, s);
    }
  }

  lemma {:induction false} IsInMemory(pages: seq<LoadedPage>, sink: map<nat, Bytes>, file: Bytes,
                                      segments: seq<Segment>, available: nat)
    requires WantsOf(pages) == AllWants(segments, USER_STACK_PAGES) && Loadable(segments, USER_STACK_PAGES, available)
             && Sized(segments) && FileFits(segments, file)
    requires Populated(pages, false, sink, file, segments)
    ensures InMemory(pages, sink, file, segments)
  {
    hide WantsOf, PlanWants, Populated, SegmentsStand, RestZero, Distinct, Addresses;
    WantsLength(pages);
    SegmentsInMemory(pages, sink, file, segments, USER_STACK_PAGES);
    RestInMemory(pages, sink, file, segments, USER_STACK_PAGES);
  }

  // --- A segment in the stack's place -----------------------------------------------------

  /** One page of code where the stack starts, with the entry on it. */
  function StackPlan(): Plan {
    Plan(USER_STACK_BASE, [Segment(0, USER_STACK_BASE, 1, 1, CODE)], 1)
  }

  lemma StackPlanWants()
    ensures PlanWants(StackPlan().segments) == [Want(USER_STACK_BASE, CODE)]
    ensures PlanOk(StackPlan(), 1) && forall available :: available >= 1 + USER_STACK_PAGES ==>
            Loadable(StackPlan().segments, USER_STACK_PAGES, available)
  {
    var segment := StackPlan().segments[0];
    OnePageSegment(segment);
    assert StackPlan().segments[..0] == [];
    WantsPrefix(USER_STACK_BASE, 0, USER_STACK_PAGES, DATA);
    assert InCode(segment, USER_STACK_BASE);
  }

  /** An admissible plan that loads, and the stack's first page is not what the plan says of its address. */
  method StackReached(byte: Byte, pool: FramePool, sink: PageSink) returns (image: LoadedImage)
    requires pool.Valid() && pool.available >= 1 + USER_STACK_PAGES && sink.Reliable() && byte != 0
    modifies pool, sink
    ensures PlanOk(StackPlan(), 1) && Loadable(StackPlan().segments, USER_STACK_PAGES, old(pool.available))
    ensures WantsOf(image.pages) == AllWants(StackPlan().segments, USER_STACK_PAGES) && !Apart(image.pages, false)
    ensures |image.pages| > 1 && image.pages[0].virtualAddress == image.pages[1].virtualAddress == USER_STACK_BASE
    ensures ByteIs(sink.pages, image.pages[0], USER_STACK_BASE, byte)
            && ByteIs(sink.pages, image.pages[1], USER_STACK_BASE, 0)
    ensures FileFits(StackPlan().segments, [byte])
            && PageBytes(StackPlan().segments, [byte], USER_STACK_BASE)[0] == byte
  {
    hide FramePool.Valid, Took, WantsOf, FramesOf, PlanWants, InMemory, HasPages, Keyed, Distinct, Addresses;
    var plan := StackPlan();
    StackPlanWants();
    var loaded := Loader.Load(plan, pool, USER_STACK_PAGES, 0);
    image := loaded.value;
    ReadyToFill(image.pages, plan, [byte], old(pool.free), old(pool.live), pool.free, pool.live, old(pool.available));
    var filled := PopulateImage(image, plan, [byte], sink, false);
    WantsLength(image.pages);
    WantedPage(USER_STACK_BASE, USER_STACK_PAGES, DATA, 0);
    assert image.pages[0].virtualAddress == image.pages[1].virtualAddress == USER_STACK_BASE;
    assert FirstAt(image.pages, 0) && !FirstAt(image.pages, 1);
    assert Key(image.pages[0], false) == image.pages[0].frame && Key(image.pages[1], false) == image.pages[1].frame;
    assert HasFileByte(plan.segments[0], USER_STACK_BASE);
  }
}
