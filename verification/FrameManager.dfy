/**
 Per-frame records behind the free bitmap. A frame is claimed with a fresh
 generation stamp; the lease that carries the stamp is what later calls present.
 */
module FrameManagers {
  import opened Common
  import opened FreeBitmap
  import opened FrameRuns
  import MemoryMaps

  datatype FrameState = Zeroed | Dirty | Reserved

  datatype FrameError =
    | InvalidMap
    | Exhausted
    | InvalidFrame
    | StaleHandle
    | WrongOwner
    | AlreadyUsed
    | NotReservation
    | BatchCapacity

  const FREE: nat := 0
  const ACTIVE: nat := 1
  const RESERVED: nat := 2
  const ZEROED: nat := 3
  const GENERATIONS: nat := 65535
  const MAX_FRAMES: nat := 0x1_0000_0000
  const MAX_BATCH_FRAMES: nat := 64

  datatype FrameRecord = FrameRecord(generation: nat, owner: nat, state: nat)

  const EMPTY_RECORD := FrameRecord(1, 0, FREE)

  datatype FrameLease = FrameLease(slot: nat, address: nat, generation: nat, owner: nat, state: FrameState,
                                   homeCpu: nat)

  function StateCode(state: FrameState): (code: nat)
    ensures code != FREE
  {
    match state
    case Reserved => RESERVED
    case Zeroed => ZEROED
    case Dirty => ACTIVE
  }

  function StateOf(code: nat): Option<FrameState> {
    if code == ACTIVE then Some(Dirty)
    else if code == ZEROED then Some(Zeroed)
    else if code == RESERVED then Some(Reserved)
    else None
  }

  /** Sixteen-bit increment that skips zero. */
  function NextGeneration(current: nat): nat {
    var next := (current + 1) % 0x1_0000;
    if next == 0 then 1 else next
  }

  /** The stamp after `bumps` increments: they repeat with period 65535 and never before. */
  function Stamp(bumps: nat): nat {
    1 + bumps % GENERATIONS
  }

  lemma StampNext(bumps: nat)
    ensures Stamp(bumps + 1) == NextGeneration(Stamp(bumps))
  {
    if bumps % GENERATIONS == GENERATIONS - 1 {
      assert (bumps + 1) % GENERATIONS == 0;
    } else {
      assert (bumps + 1) % GENERATIONS == bumps % GENERATIONS + 1;
    }
  }

  /** Two stamps of one frame agree exactly when a whole number of periods lies between them. */
  lemma StampsAgree(left: nat, right: nat)
    requires left <= right
    ensures Stamp(left) == Stamp(right) <==> (right - left) % GENERATIONS == 0
  {
    assert right == left + (right - left);
    if (right - left) % GENERATIONS == 0 {
      var k := (right - left) / GENERATIONS;
      assert right == left + k * GENERATIONS;
    }
  }

  /** The order of checks of a presented lease. */
  function ValidateLease(records: seq<FrameRecord>, lease: FrameLease): Result<nat, FrameError> {
    if lease.slot >= |records| then Err(InvalidFrame)
    else
      var record := records[lease.slot];
      if record.state == FREE then Err(StaleHandle)
      else if record.generation != lease.generation then Err(StaleHandle)
      else if record.owner != lease.owner then Err(WrongOwner)
      else if StateOf(record.state) != Some(lease.state) then Err(StaleHandle)
      else Ok(lease.slot)
  }

  function Claimed(record: FrameRecord, owner: nat, state: FrameState): FrameRecord {
    FrameRecord(NextGeneration(record.generation), owner, StateCode(state))
  }

  function Released(record: FrameRecord): FrameRecord {
    FrameRecord(record.generation, 0, FREE)
  }

  function Refreshed(record: FrameRecord): FrameRecord {
    record.(generation := NextGeneration(record.generation))
  }

  // --- Invariants ---------------------------------------------------------------

  /** A free bit is set exactly for the frames whose record is FREE. */
  ghost predicate BitsMatch(free: seq<nat>, records: seq<FrameRecord>, count: nat) {
    && count <= |records|
    && (forall slot :: 0 <= slot < count ==> (IsFree(free, slot) <==> records[slot].state == FREE))
    && (forall slot :: count <= slot ==> !IsFree(free, slot))
  }

  ghost predicate RecordsOk(records: seq<FrameRecord>, count: nat) {
    && count <= |records|
    && (forall slot :: 0 <= slot < |records| ==>
       1 <= records[slot].generation <= GENERATIONS && records[slot].state <= 3)
    && (forall slot :: count <= slot < |records| ==> records[slot].state == FREE)
  }

  /** Records that are not FREE, one by one. */
  function UsedBelow(records: seq<FrameRecord>, n: nat): nat
    requires n <= |records|
  {
    if n == 0 then 0 else UsedBelow(records, n - 1) + (if records[n - 1].state != FREE then 1 else 0)
  }

  lemma {:induction false} FreePlusUsed(free: seq<nat>, records: seq<FrameRecord>, count: nat, n: nat)
    requires BitsMatch(free, records, count) && n <= count
    ensures FreeBelow(free, n) + UsedBelow(records, n) == n
  {
    if n > 0 {
      FreePlusUsed(free, records, count, n - 1);
    }
  }

  lemma {:induction false} FreeBelowBeyond(free: seq<nat>, count: nat, n: nat)
    requires forall slot :: count <= slot ==> !IsFree(free, slot)
    requires n >= count
    ensures FreeBelow(free, n) == FreeBelow(free, count)
  {
    if n > count {
      FreeBelowBeyond(free, count, n - 1);
    }
  }

  /** The population count of the bitmap and the frames in use add up to the frame count. */
  lemma {:induction false} AvailablePlusUsed(free: seq<nat>, summary: seq<nat>, records: seq<FrameRecord>, count: nat)
    requires Summarised(free, summary) && BitsMatch(free, records, count) && count <= 64 * |free|
    ensures Available(free) + UsedBelow(records, count) == count
  {
    AvailableCounts(free);
    FreeBelowBeyond(free, count, 64 * |free|);
    FreePlusUsed(free, records, count, count);
  }

  class FrameManager {
    var records: seq<FrameRecord>
    var free: seq<nat>
    var summary: seq<nat>
    var runs: seq<RunMetadata>
    var frameCount: nat
    /** Stamps each frame has been through. */
    ghost var bumps: seq<nat>

    ghost predicate Valid()
      reads this
    {
      && Laid(runs, frameCount)
      && frameCount <= MAX_FRAMES
      && Indexed()
      && RecordsOk(records, frameCount)
      && |bumps| == |records|
      && forall slot :: 0 <= slot < |records| ==> records[slot].generation == Stamp(bumps[slot])
    }

    /** The bitmap agrees with the records. */
    ghost predicate Indexed()
      reads this`free, this`summary, this`records, this`frameCount
    {
      && Summarised(free, summary)
      && frameCount <= 64 * |free|
      && BitsMatch(free, records, frameCount)
    }

    ghost function Address(slot: nat): nat
      reads this
      requires Laid(runs, frameCount) && slot < frameCount
    {
      AddressOf(runs, frameCount, slot)
    }

    method AvailableFrames() returns (available: nat)
      requires Valid()
      ensures available + UsedBelow(records, frameCount) == frameCount
    {
      available := 0;
      for w := 0 to |free|
        invariant available == Available(free[..w])
      {
        assert free[..w + 1][..w] == free[..w];
        available := available + Bits.CountOnes(free[w]);
      }
      assert free[..|free|] == free;
      AvailablePlusUsed(free, summary, records, frameCount);
    }

    /** Free every slot of a bitmap range while the manager is being set up. */
    method FreeRange(first: nat, last: nat)
      requires Summarised(free, summary) && first <= last <= 64 * |free|
      requires forall slot: nat :: IsFree(free, slot) <==> slot < first
      modifies this`free, this`summary
      ensures Summarised(free, summary) && |free| == old(|free|)
      ensures forall slot: nat :: IsFree(free, slot) <==> slot < last
    {
      hide IsFree, WithBit, SummaryWith;
      for slot := first to last
        invariant Summarised(free, summary) && |free| == old(|free|)
        invariant forall other: nat :: IsFree(free, other) <==> other < slot
      {
        forall other: nat
          ensures IsFree(WithBit(free, slot), other) <==> IsFree(free, other) || other == slot
        {
          WithBitSets(free, slot, other);
        }
        SetFreeSummarised(free, summary, slot);
        WithBitLength(free, slot);
        summary := SummaryWith(summary, slot);
        free := WithBit(free, slot);
      }
    }

    /** Number the frames of a normalised map, leaving the null page out. */
    constructor (map_: MemoryMaps.NormalizedMap)
      requires MemoryMaps.ValidRuns(map_.runs) && MemoryMaps.Gapped(map_.runs)
      requires map_.totalPages == MemoryMaps.PageTotal(map_.runs) <= MAX_FRAMES
      ensures Valid() && runs == Numbered(map_.runs)
      ensures forall slot :: 0 <= slot < frameCount ==> records[slot] == EMPTY_RECORD && bumps[slot] == 0
    {
      hide MemoryMaps.PageTotal, MemoryMaps.ValidRuns, MemoryMaps.Gapped, Numbered, TotalSlots, Summarised;
      runs, frameCount := [], 0;
      records := seq(map_.totalPages, _ => EMPTY_RECORD);
      bumps := seq(map_.totalPages, _ => 0);
      free := seq((map_.totalPages + 63) / 64, _ => 0);
      summary := seq(((map_.totalPages + 63) / 64 + 63) / 64, _ => 0);
      new;
      BlankBitmap(free, summary);
      NumberRuns(map_.runs);
      NumberedLaid(map_.runs);
    }

    /** Give each run its slots and mark them free. */
    method NumberRuns(source: seq<MemoryMaps.PhysicalRun>)
      requires MemoryMaps.PageTotal(source) <= 64 * |free| && Summarised(free, summary)
      requires runs == [] && frameCount == 0 && (forall slot: nat :: !IsFree(free, slot))
               && MemoryMaps.ValidRuns(source)
      modifies this`free, this`summary, this`runs, this`frameCount
      ensures runs == Numbered(source) && frameCount == TotalSlots(runs) <= MemoryMaps.PageTotal(source)
      ensures Summarised(free, summary) && |free| == old(|free|)
      ensures forall slot: nat :: IsFree(free, slot) <==> slot < frameCount
    {
      hide IsFree, Summarised;
      for index := 0 to |source|
        invariant runs == Numbered(source[..index]) && frameCount == TotalSlots(runs)
        invariant frameCount <= MemoryMaps.PageTotal(source[..index])
        invariant Summarised(free, summary) && |free| == old(|free|)
        invariant forall slot: nat :: IsFree(free, slot) <==> slot < frameCount
      {
        assert source[..index + 1][..index] == source[..index];
        PageTotalPrefix(source, index + 1);
        var start, pages := source[index].start, source[index].pages;
        if start == 0 {
          start, pages := PAGE_SIZE, pages - 1;
        }
        if pages == 0 {
          continue;
        }
        FreeRange(frameCount, frameCount + pages);
        runs := runs + [RunMetadata(start, pages, frameCount)];
        frameCount := frameCount + pages;
      }
      assert source[..|source|] == source;
    }

    /** Clear the record of a taken frame and mark it free again. */
    method ReleaseSlot(slot: nat)
      requires Valid() && slot < frameCount && records[slot].state != FREE
      modifies this`free, this`summary, this`records
      ensures Valid()
      ensures records == old(records)[slot := Released(old(records)[slot])]
    {
      hide IsFree, WithBit, SummaryWith;
      forall other: nat
        ensures IsFree(WithBit(free, slot), other) <==> IsFree(free, other) || other == slot
      {
        WithBitSets(free, slot, other);
      }
      SetFreeSummarised(free, summary, slot);
      WithBitLength(free, slot);
      records := records[slot := Released(records[slot])];
      summary := SummaryWith(summary, slot);
      free := WithBit(free, slot);
    }

    /** Take a free frame and stamp it. */
    method Claim(slot: nat, owner: nat, state: FrameState) returns (lease: FrameLease)
      requires Valid() && slot < frameCount && records[slot].state == FREE
      modifies this`free, this`summary, this`records, this`bumps
      ensures Valid()
      ensures records == old(records)[slot := Claimed(old(records)[slot], owner, state)]
      ensures bumps == old(bumps)[slot := old(bumps)[slot] + 1]
      ensures lease == FrameLease(slot, Address(slot), records[slot].generation, owner, state, 0)
    {
      hide IsFree, WithoutBit, SummaryWithout;
      forall other: nat
        ensures IsFree(WithoutBit(free, slot), other) <==> IsFree(free, other) && other != slot
      {
        WithoutBitClears(free, slot, other);
      }
      ClearFreeSummarised(free, summary, slot);
      WithBitLength(free, slot);
      free := WithoutBit(free, slot);
      summary := SummaryWithout(free, summary, slot);
      StampNext(bumps[slot]);
      records := records[slot := Claimed(records[slot], owner, state)];
      bumps := bumps[slot := bumps[slot] + 1];
      var address := AddressForSlot(slot);
      lease := FrameLease(slot, address, records[slot].generation, owner, state, 0);
    }

    method AddressForSlot(slot: nat) returns (address: nat)
      requires Laid(runs, frameCount) && slot < frameCount
      ensures address == Address(slot)
    {
      var id := IdForSlot(runs, frameCount, slot);
      address := runs[id.value.run].start + id.value.offset * PAGE_SIZE;
    }

    /** The lowest free frame of a slot range; an ill-formed range has none. */
    method FindFree(first: nat, last: nat) returns (r: Option<nat>)
      requires Valid()
      ensures r.Some? ==> first <= r.value < last <= frameCount && records[r.value].state == FREE
                          && NoneFreeRecord(records, first, r.value)
      ensures r.None? ==> first > last || last > frameCount || NoneFreeRecord(records, first, last)
    {
      if first > last || last > frameCount {
        return None;
      }
      r := FindFreeSlot(free, summary, first, last);
    }

    /** Allocate the lowest free frame of a slot range. */
    method TryAllocInRange(owner: nat, state: FrameState, first: nat, last: nat)
        returns (r: Result<FrameLease, FrameError>)
      requires Valid()
      modifies this`free, this`summary, this`records, this`bumps
      ensures Valid()
      ensures r == Err(InvalidFrame) <==> owner == 0 || first > last || last > frameCount
      ensures r == Err(Exhausted) <==> owner != 0 && first <= last <= frameCount
                                       && NoneFreeRecord(old(records), first, last)
      ensures r.Err? ==> (r.error == InvalidFrame || r.error == Exhausted) && records == old(records)
                         && bumps == old(bumps)
      ensures r.Ok? ==> first <= r.value.slot < last <= frameCount && old(records)[r.value.slot].state == FREE
      ensures r.Ok? ==> NoneFreeRecord(old(records), first, r.value.slot)
      ensures r.Ok? ==> records == old(records)[r.value.slot := Claimed(old(records)[r.value.slot], owner, state)]
      ensures r.Ok? ==> bumps == old(bumps)[r.value.slot := old(bumps)[r.value.slot] + 1]
      ensures r.Ok? ==> r.value == FrameLease(r.value.slot, Address(r.value.slot), records[r.value.slot].generation,
                                              owner, state, 0)
    {
      if owner == 0 || first > last || last > frameCount {
        return Err(InvalidFrame);
      }
      var slot := FindFree(first, last);
      if slot.None? {
        return Err(Exhausted);
      }
      var lease := Claim(slot.value, owner, state);
      r := Ok(lease);
    }

    method Free(lease: FrameLease) returns (r: Result<Unit, FrameError>)
      requires Valid()
      modifies this`free, this`summary, this`records
      ensures Valid()
      ensures ValidateLease(old(records), lease).Ok? ==>
              r.Ok? && records == old(records)[lease.slot := Released(old(records)[lease.slot])]
      ensures ValidateLease(old(records), lease).Err? ==>
              r == Err(ValidateLease(old(records), lease).error) && records == old(records)
    {
      var slot := ValidateLease(records, lease);
      if slot.Err? {
        return Err(slot.error);
      }
      ReleaseSlot(slot.value);
      r := Ok(Unit.Unit);
    }

    /** Re-stamp a frame that changes hands without becoming free. */
    method Refresh(lease: FrameLease) returns (r: Result<FrameLease, FrameError>)
      requires Valid()
      modifies this`records, this`bumps
      ensures Valid()
      ensures ValidateLease(old(records), lease).Ok? ==>
                && r.Ok? && records == old(records)[lease.slot := Refreshed(old(records)[lease.slot])]
                && bumps == old(bumps)[lease.slot := old(bumps)[lease.slot] + 1]
                && lease.slot < frameCount
                && r.value == lease.(address := Address(lease.slot), generation := records[lease.slot].generation)
      ensures ValidateLease(old(records), lease).Err? ==>
                r == Err(ValidateLease(old(records), lease).error) && records == old(records) && bumps == old(bumps)
    {
      var slot := ValidateLease(records, lease);
      if slot.Err? {
        return Err(slot.error);
      }
      StampNext(bumps[lease.slot]);
      records := records[lease.slot := Refreshed(records[lease.slot])];
      bumps := bumps[lease.slot := bumps[lease.slot] + 1];
      var address := AddressForSlot(lease.slot);
      r := Ok(lease.(address := address, generation := records[lease.slot].generation));
    }

    /** Every slot of a window is free. */
    method WindowFree(first: nat, count: nat) returns (all: bool)
      requires Valid() && first + count <= frameCount
      ensures all <==> FreeWindow(records, first, count)
    {
      for slot := first to first + count
        invariant forall k :: first <= k < slot ==> records[k].state == FREE
      {
        if !IsFree(free, slot) {
          return false;
        }
      }
      all := true;
    }

    /** The first window of `count` free frames that lies inside one run. */
    method FindWindow(count: nat) returns (r: Option<nat>)
      requires Valid() && count > 0
      ensures r.Some? ==> r.value + count <= frameCount && FreeWindow(records, r.value, count)
                          && InOneRun(runs, r.value, count)
      ensures r.Some? ==> forall first: nat :: first < r.value && InOneRun(runs, first, count) ==>
              !FreeWindow(records, first, count)
      ensures r.None? ==> NoWindow(runs, records, count)
    {
      for index := 0 to |runs|
        invariant forall run, first: nat :: 0 <= run < index && runs[run].firstSlot <= first
                                            && first + count <= runs[run].LastSlot() ==>
                    !FreeWindow(records, first, count)
      {
        LaidAt(runs, frameCount, index);
        var run := runs[index];
        if run.pages < count {
          continue;
        }
        for offset := 0 to run.pages - count + 1
          invariant forall first: nat :: run.firstSlot <= first < run.firstSlot + offset ==>
                    !FreeWindow(records, first, count)
        {
          var all := WindowFree(run.firstSlot + offset, count);
          if all {
            forall later | index < later < |runs|
              ensures run.LastSlot() <= runs[later].firstSlot
            {
              LaidOrdered(runs, frameCount, index, later);
            }
            return Some(run.firstSlot + offset);
          }
        }
      }
      r := None;
    }
  }

  ghost predicate FreeWindow(records: seq<FrameRecord>, first: nat, count: nat) {
    first + count <= |records| && forall slot :: first <= slot < first + count ==> records[slot].state == FREE
  }

  /** No run holds `count` free frames in a row. */
  ghost predicate NoWindow(runs: seq<RunMetadata>, records: seq<FrameRecord>, count: nat) {
    forall first: nat :: InOneRun(runs, first, count) ==> !FreeWindow(records, first, count)
  }

  ghost predicate InOneRun(runs: seq<RunMetadata>, first: nat, count: nat) {
    exists run :: 0 <= run < |runs| && runs[run].firstSlot <= first && first + count <= runs[run].LastSlot()
  }

  ghost predicate NoneFreeRecord(records: seq<FrameRecord>, first: nat, last: nat)
    requires last <= |records|
  {
    forall slot :: first <= slot < last ==> records[slot].state != FREE
  }

  // --- Numbering ----------------------------------------------------------------

  function TotalSlots(runs: seq<RunMetadata>): nat {
    if runs == [] then 0 else runs[|runs| - 1].LastSlot()
  }

  /** Slots of the runs of a map, in order; page zero is never handed out. */
  function Numbered(runs: seq<MemoryMaps.PhysicalRun>): seq<RunMetadata> {
    if runs == [] then [] else
    var front := Numbered(runs[..|runs| - 1]);
    var last := runs[|runs| - 1];
    var start := if last.start == 0 then PAGE_SIZE else last.start;
    var pages := if last.start == 0 && last.pages > 0 then last.pages - 1 else last.pages;
    if pages == 0 then front else front + [RunMetadata(start, pages, TotalSlots(front))]
  }

  lemma {:induction false} NumberedLaid(runs: seq<MemoryMaps.PhysicalRun>)
    requires MemoryMaps.ValidRuns(runs) && MemoryMaps.Gapped(runs)
    ensures Laid(Numbered(runs), TotalSlots(Numbered(runs)))
    ensures Numbered(runs) != [] ==> runs != [] && Numbered(runs)[|Numbered(runs)| - 1].End() <= runs[|runs| - 1].End()
    ensures TotalSlots(Numbered(runs)) <= MemoryMaps.PageTotal(runs)
  {
    if runs != [] {
      var before := runs[..|runs| - 1];
      NumberedLaid(before);
      var front := Numbered(before);
      var numbered := Numbered(runs);
      if |numbered| > |front| {
        assert numbered[..|numbered| - 1] == front;
        if before != [] {
          assert before[|before| - 1] == runs[|runs| - 2];
        }
      } else {
        assert before == [] || before[|before| - 1] == runs[|runs| - 2];
      }
    }
  }

  lemma {:induction false} PageTotalPrefix(runs: seq<MemoryMaps.PhysicalRun>, k: nat)
    requires k <= |runs|
    ensures MemoryMaps.PageTotal(runs[..k]) <= MemoryMaps.PageTotal(runs)
  {
    if k < |runs| {
      PageTotalPrefix(runs[..|runs| - 1], k);
      assert runs[..|runs| - 1][..k] == runs[..k];
    } else {
      assert runs[..k] == runs;
    }
  }

  lemma BlankBitmap(free: seq<nat>, summary: seq<nat>)
    requires |free| <= 64 * |summary|
    requires (forall w :: 0 <= w < |free| ==> free[w] == 0) && (forall w :: 0 <= w < |summary| ==> summary[w] == 0)
    ensures Summarised(free, summary) && forall slot: nat :: !IsFree(free, slot)
  {
    Bits.Pow2Monotone(0, 64);
    forall slot: nat
      ensures !IsFree(free, slot)
    {
      Bits.BitOfZero(slot % 64);
    }
    forall w | 0 <= w < |free|
      ensures !SummaryBit(summary, w)
    {
      Bits.BitOfZero(w % 64);
    }
  }

  lemma WithBitLength(words: seq<nat>, index: nat)
    requires index / 64 < |words|
    ensures |WithBit(words, index)| == |words| && |WithoutBit(words, index)| == |words|
  {
  }
}
