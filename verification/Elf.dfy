/**
 Admission of ELF images: the fields of the file and program headers, and the load
 plan read from them.
 */
module Elf {
  import opened Common
  import opened Processes

  const MAX_PROGRAM_HEADERS: nat := 16
  const HEADER_BYTES: nat := 64
  const PROGRAM_HEADER_BYTES: nat := 56
  const FIRST_USER_ADDRESS: nat := 0x1000

  type Bytes = seq<Byte>

  // --- Little-endian fields -------------------------------------------------------

  function Little(bytes: Bytes): nat {
    if |bytes| == 0 then 0 else bytes[0] + 256 * Little(bytes[1..])
  }

  function Field(bytes: Bytes, offset: nat, size: nat): nat
    requires offset + size <= |bytes|
  {
    Little(bytes[offset..offset + size])
  }

  // --- Plans --------------------------------------------------------------------

  datatype Segment = Segment(fileOffset: nat, virtualAddress: nat, fileSize: nat, memorySize: nat,
                             flags: MappingFlags) {
    function End(): nat {
      virtualAddress + memorySize
    }
  }

  datatype Plan = Plan(entry: nat, segments: seq<Segment>, memoryBytes: nat)

  /** A segment fits its file and the user half, and is never writable and executable. */
  predicate SegmentOk(segment: Segment, length: nat) {
    && 0 < segment.memorySize <= MAX_IMAGE_BYTES && segment.fileSize <= segment.memorySize
    && segment.fileOffset + segment.fileSize <= length
    && FIRST_USER_ADDRESS <= segment.virtualAddress && segment.End() <= USER_LIMIT && segment.flags.Valid()
  }

  function TotalMemory(segments: seq<Segment>): nat {
    if |segments| == 0 then 0 else TotalMemory(segments[..|segments| - 1]) + segments[|segments| - 1].memorySize
  }

  predicate InCode(segment: Segment, entry: nat) {
    segment.flags.executable && segment.virtualAddress <= entry < segment.End()
  }

  /** Every segment is sound, together they are small enough, and one of them holds the entry as code. */
  ghost predicate PlanOk(plan: Plan, length: nat) {
    && 0 < |plan.segments| <= MAX_PROGRAM_HEADERS
    && (forall i :: 0 <= i < |plan.segments| ==> SegmentOk(plan.segments[i], length))
    && plan.memoryBytes == TotalMemory(plan.segments) <= MAX_IMAGE_BYTES
    && exists i :: 0 <= i < |plan.segments| && InCode(plan.segments[i], plan.entry)
  }

  // --- Headers ------------------------------------------------------------------

  datatype Header = Header(entry: nat, offset: nat, entrySize: nat, count: nat)

  predicate Magic(header: Bytes)
    requires |header| == HEADER_BYTES
  {
    && header[..4] == [0x7f, 0x45, 0x4c, 0x46] && header[4] == 2 && header[5] == 1
    && Field(header, 18, 2) == 0x3e && Field(header, 16, 2) == 2
  }

  function HeaderOf(header: Bytes): Header
    requires |header| == HEADER_BYTES
  {
    Header(Field(header, 24, 8), Field(header, 32, 8), Field(header, 54, 2), Field(header, 56, 2))
  }

  /** The program headers lie inside the file. */
  predicate HeaderOk(header: Header, length: nat) {
    && header.entry != 0 && header.entrySize >= PROGRAM_HEADER_BYTES && 0 < header.count <= MAX_PROGRAM_HEADERS
    && header.offset + header.entrySize * header.count <= length
  }

  /** Kind 1 is a segment to load; other kinds are skipped. */
  function SegmentOf(program: Bytes): Option<Segment>
    requires |program| == PROGRAM_HEADER_BYTES
  {
    if Field(program, 0, 4) != 1 then None
    else
      var flags := Field(program, 4, 4);
      Some(Segment(Field(program, 8, 8), Field(program, 16, 8), Field(program, 32, 8), Field(program, 40, 8),
                   MappingFlags(true, flags / 2 % 2 == 1, flags % 2 == 1)))
  }

  function ProgramAt(image: Bytes, header: Header, i: nat): Bytes
    requires HeaderOk(header, |image|) && i < header.count
    ensures |ProgramAt(image, header, i)| == PROGRAM_HEADER_BYTES
  {
    ProgramFits(header, i);
    image[header.offset + i * header.entrySize..header.offset + i * header.entrySize + PROGRAM_HEADER_BYTES]
  }

  lemma ProgramFits(header: Header, i: nat)
    requires header.entrySize >= PROGRAM_HEADER_BYTES && i < header.count
    ensures i * header.entrySize + PROGRAM_HEADER_BYTES <= header.entrySize * header.count
  {
    assert (i + 1) * header.entrySize <= header.count * header.entrySize;
  }

  /** The segments the first `count` program headers describe, in order. */
  function SegmentsOf(image: Bytes, header: Header, count: nat): seq<Segment>
    requires HeaderOk(header, |image|) && count <= header.count
  {
    if count == 0 then []
    else
      var segment := SegmentOf(ProgramAt(image, header, count - 1));
      SegmentsOf(image, header, count - 1) + if segment.Some? then [segment.value] else []
  }

  /** An image the kernel admits. */
  ghost predicate Admissible(image: Bytes) {
    && HEADER_BYTES <= |image| <= MAX_IMAGE_BYTES && Magic(image[..HEADER_BYTES])
    && HeaderOk(HeaderOf(image[..HEADER_BYTES]), |image|)
    && PlanOk(PlanOf(image), |image|)
  }

  ghost function PlanOf(image: Bytes): Plan
    requires HEADER_BYTES <= |image| && HeaderOk(HeaderOf(image[..HEADER_BYTES]), |image|)
  {
    var header := HeaderOf(image[..HEADER_BYTES]);
    var segments := SegmentsOf(image, header, header.count);
    Plan(header.entry, segments, TotalMemory(segments))
  }

  // --- Reading ------------------------------------------------------------------

  /** A source of image bytes; `verdicts` says which reads it will serve. */
  class ImageReader {
    const image: Bytes
    var verdicts: seq<bool>

    constructor (image: Bytes, verdicts: seq<bool>)
      ensures this.image == image && this.verdicts == verdicts
    {
      this.image, this.verdicts := image, verdicts;
    }

    /** No read will be refused. */
    predicate Reliable()
      reads this
    {
      forall i :: 0 <= i < |verdicts| ==> verdicts[i]
    }

    method Read(offset: nat, length: nat) returns (r: Result<Bytes, ProcessError>)
      modifies this`verdicts
      ensures r.Ok? ==> offset + length <= |image| && r.value == image[offset..offset + length]
      ensures old(Reliable()) ==> Reliable() && (r.Ok? <==> offset + length <= |image|)
      ensures r.Err? ==> r.error == ReadFailure
    {
      var verdict := |verdicts| == 0 || verdicts[0];
      verdicts := if |verdicts| == 0 then [] else verdicts[1..];
      if !verdict || offset + length > |image| {
        return Err(ReadFailure);
      }
      r := Ok(image[offset..offset + length]);
    }
  }

  method ReadExact(reader: ImageReader, offset: nat, length: nat) returns (r: Result<Bytes, ProcessError>)
    modifies reader
    ensures r.Ok? ==> offset + length <= |reader.image| && r.value == reader.image[offset..offset + length]
    ensures old(reader.Reliable()) ==> reader.Reliable() && (r.Ok? <==> offset + length <= |reader.image|)
  {
    if offset + length > |reader.image| {
      return Err(InvalidImage);
    }
    r := reader.Read(offset, length);
  }

  lemma {:induction false} TotalGrows(segments: seq<Segment>, k: nat)
    requires k <= |segments|
    ensures TotalMemory(segments[..k]) <= TotalMemory(segments)
  {
    if k < |segments| {
      TotalGrows(segments[..|segments| - 1], k);
      assert segments[..|segments| - 1][..k] == segments[..k];
    } else {
      assert segments[..k] == segments;
    }
  }

  lemma {:induction false} SegmentsPrefix(image: Bytes, header: Header, k: nat, count: nat)
    requires HeaderOk(header, |image|) && k <= count <= header.count
    ensures SegmentsOf(image, header, k) <= SegmentsOf(image, header, count)
    ensures |SegmentsOf(image, header, count)| <= count
    decreases count
  {
    if k < count {
      SegmentsPrefix(image, header, k, count - 1);
    } else if count > 0 {
      SegmentsPrefix(image, header, count - 1, count - 1);
    }
  }

  /** What the headers read so far make of the plan. */
  ghost predicate SoFar(segments: seq<Segment>, length: nat, memory: nat, entry: nat, inCode: bool) {
    && (forall i :: 0 <= i < |segments| ==> SegmentOk(segments[i], length))
    && memory == TotalMemory(segments) <= MAX_IMAGE_BYTES
    && (inCode <==> exists i :: 0 <= i < |segments| && InCode(segments[i], entry))
  }

  lemma SoFarMore(segments: seq<Segment>, length: nat, memory: nat, entry: nat, inCode: bool, segment: Segment)
    requires SoFar(segments, length, memory, entry, inCode) && SegmentOk(segment, length)
             && memory + segment.memorySize <= MAX_IMAGE_BYTES
    ensures SoFar(segments + [segment], length, memory + segment.memorySize, entry, inCode || InCode(segment, entry))
  {
    var more := segments + [segment];
    assert more[..|segments|] == segments;
    if inCode {
      var i :| 0 <= i < |segments| && InCode(segments[i], entry);
      assert InCode(more[i], entry);
    } else if InCode(segment, entry) {
      assert InCode(more[|segments|], entry);
    }
  }

  /** A segment that is refused spoils the whole image. */
  lemma {:induction false} Refused(image: Bytes, header: Header, k: nat, segment: Segment)
    requires HeaderOk(header, |image|) && k < header.count && SegmentOf(ProgramAt(image, header, k)) == Some(segment)
    requires !SegmentOk(segment, |image|) || TotalMemory(SegmentsOf(image, header, k)) + segment.memorySize
             > MAX_IMAGE_BYTES
    ensures !PlanOk(Plan(header.entry, SegmentsOf(image, header, header.count),
                         TotalMemory(SegmentsOf(image, header, header.count))), |image|)
  {
    var before, upTo, all := SegmentsOf(image, header, k), SegmentsOf(image, header, k + 1),
        SegmentsOf(image, header, header.count);
    SegmentsPrefix(image, header, k + 1, header.count);
    assert upTo == before + [segment] && upTo[..|before|] == before;
    assert all[|before|] == segment;
    TotalGrows(all, |upTo|);
    assert all[..|upTo|] == upTo;
  }

  lemma SliceOfSlice(bytes: Bytes, from: nat, to: nat, start: nat, end: nat)
    requires start <= end <= to - from && to <= |bytes|
    ensures bytes[from..to][start..end] == bytes[from + start..from + end]
  {
    var part, whole := bytes[from..to][start..end], bytes[from + start..from + end];
    forall i | 0 <= i < |part|
      ensures part[i] == whole[i]
    {
      assert part[i] == bytes[from..to][start + i] == bytes[from + start + i];
    }
  }

  /** One program header, from the block read ahead or on its own. */
  method ReadProgram(reader: ImageReader, header: Header, block: Bytes, index: nat)
      returns (r: Result<Bytes, ProcessError>)
    requires HeaderOk(header, |reader.image|) && index < header.count
    requires header.entrySize == PROGRAM_HEADER_BYTES ==>
             block == reader.image[header.offset..header.offset + header.entrySize * header.count]
    modifies reader
    ensures r.Ok? ==> r.value == ProgramAt(reader.image, header, index)
    ensures old(reader.Reliable()) ==> reader.Reliable() && r.Ok?
  {
    ProgramFits(header, index);
    if header.entrySize == PROGRAM_HEADER_BYTES {
      var start := index * PROGRAM_HEADER_BYTES;
      SliceOfSlice(reader.image, header.offset, header.offset + header.entrySize * header.count, start,
                   start + PROGRAM_HEADER_BYTES);
      r := Ok(block[start..start + PROGRAM_HEADER_BYTES]);
    } else {
      r := ReadExact(reader, header.offset + index * header.entrySize, PROGRAM_HEADER_BYTES);
    }
  }

  /** Read the headers of an image and make a plan of its segments. */
  method ParseReader(reader: ImageReader) returns (r: Result<Plan, ProcessError>)
    modifies reader
    ensures r.Ok? ==> Admissible(reader.image) && r.value == PlanOf(reader.image)
    ensures old(reader.Reliable()) ==> (r.Ok? <==> Admissible(reader.image)) && (r.Err? ==> r.error == InvalidImage)
                                       && reader.Reliable()
  {
    hide Magic, HeaderOf, PlanOk;
    var image := reader.image;
    if |image| < HEADER_BYTES || |image| > MAX_IMAGE_BYTES {
      return Err(InvalidImage);
    }
    var bytes := ReadExact(reader, 0, HEADER_BYTES);
    if bytes.Err? {
      return Err(bytes.error);
    }
    var header := HeaderOf(bytes.value);
    if !Magic(bytes.value) || !HeaderOk(header, |image|) {
      return Err(InvalidImage);
    }
    r := ParsePrograms(reader, header);
  }

  method ParsePrograms(reader: ImageReader, header: Header) returns (r: Result<Plan, ProcessError>)
    requires HeaderOk(header, |reader.image|)
    modifies reader
    ensures var segments := SegmentsOf(reader.image, header, header.count);
            var plan := Plan(header.entry, segments, TotalMemory(segments));
            && (r.Ok? ==> PlanOk(plan, |reader.image|) && r.value == plan)
            && (old(reader.Reliable()) ==> (r.Ok? <==> PlanOk(plan, |reader.image|))
                                           && (r.Err? ==> r.error == InvalidImage) && reader.Reliable())
  {
    hide SegmentOf, ProgramAt, TotalMemory, SegmentOk, InCode;
    var image := reader.image;
    var block: Bytes := [];
    if header.entrySize == PROGRAM_HEADER_BYTES {
      var read := ReadExact(reader, header.offset, header.entrySize * header.count);
      if read.Err? {
        return Err(read.error);
      }
      block := read.value;
    }
    var segments: seq<Segment>, memory: nat, inCode := [], 0, false;
    NothingYet(|image|, header.entry);
    for index := 0 to header.count
      invariant old(reader.Reliable()) ==> reader.Reliable()
      invariant segments == SegmentsOf(image, header, index) && SoFar(segments, |image|, memory, header.entry, inCode)
    {
      var program := ReadProgram(reader, header, block, index);
      if program.Err? {
        return Err(program.error);
      }
      var segment := SegmentOf(program.value);
      if segment.Some? {
        if !SegmentOk(segment.value, |image|) || memory + segment.value.memorySize > MAX_IMAGE_BYTES {
          Refused(image, header, index, segment.value);
          return Err(InvalidImage);
        }
        SoFarMore(segments, |image|, memory, header.entry, inCode, segment.value);
        segments, memory, inCode := segments + [segment.value], memory + segment.value.memorySize, inCode
            || InCode(segment.value, header.entry);
      }
    }
    SegmentsPrefix(image, header, 0, header.count);
    if |segments| == 0 || !inCode {
      return Err(InvalidImage);
    }
    r := Ok(Plan(header.entry, segments, memory));
  }

  lemma NothingYet(length: nat, entry: nat)
    ensures SoFar([], length, 0, entry, false)
  {
  }
}
