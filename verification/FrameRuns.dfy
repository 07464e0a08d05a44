/**
 Dense numbering of physical frames: consecutive slots across ascending runs, and
 the binary searches between slots, frame identities and addresses.
 */
module FrameRuns {
  import opened Common

  datatype RunMetadata = RunMetadata(start: nat, pages: nat, firstSlot: nat) {
    function End(): nat {
      start + pages * PAGE_SIZE
    }

    function LastSlot(): nat {
      firstSlot + pages
    }
  }

  /** A frame by its run and its offset in that run. */
  datatype FrameId = FrameId(run: nat, offset: nat)

  /** Runs number `count` slots without gaps and lie at ascending, disjoint addresses. */
  predicate Laid(runs: seq<RunMetadata>, count: nat) {
    if runs == [] then count == 0 else
    var front, last := runs[..|runs| - 1], runs[|runs| - 1];
    && last.pages > 0 && last.LastSlot() == count
    && last.start > 0 && last.start % PAGE_SIZE == 0
    && (front != [] ==> front[|front| - 1].End() <= last.start)
    && Laid(front, last.firstSlot)
  }

  lemma {:induction false} LaidOrdered(runs: seq<RunMetadata>, count: nat, i: nat, j: nat)
    requires Laid(runs, count) && i < j < |runs|
    ensures runs[i].LastSlot() <= runs[j].firstSlot && runs[i].End() <= runs[j].start
  {
    var front := runs[..|runs| - 1];
    if j == |runs| - 1 {
      LaidAt(front, runs[j].firstSlot, i);
      if i < j - 1 {
        LaidOrdered(front, runs[j].firstSlot, i, j - 1);
        LaidAt(front, runs[j].firstSlot, j - 1);
      }
    } else {
      LaidOrdered(front, runs[|runs| - 1].firstSlot, i, j);
    }
  }

  lemma {:induction false} LaidAt(runs: seq<RunMetadata>, count: nat, i: nat)
    requires Laid(runs, count) && i < |runs|
    ensures runs[i].pages > 0 && runs[i].LastSlot() <= count && runs[i].start > 0 && runs[i].start % PAGE_SIZE == 0
  {
    if i < |runs| - 1 {
      LaidAt(runs[..|runs| - 1], runs[|runs| - 1].firstSlot, i);
    }
  }

  // --- Specification ------------------------------------------------------------

  function IdOf(runs: seq<RunMetadata>, count: nat, slot: nat): (id: FrameId)
    requires Laid(runs, count) && slot < count
    ensures id.run < |runs| && id.offset < runs[id.run].pages && runs[id.run].firstSlot + id.offset == slot
  {
    var last := runs[|runs| - 1];
    if slot >= last.firstSlot then FrameId(|runs| - 1, slot - last.firstSlot)
    else IdOf(runs[..|runs| - 1], last.firstSlot, slot)
  }

  function AddressOf(runs: seq<RunMetadata>, count: nat, slot: nat): (address: nat)
    requires Laid(runs, count) && slot < count
  {
    var id := IdOf(runs, count, slot);
    runs[id.run].start + id.offset * PAGE_SIZE
  }

  /** An identity names one slot only. */
  lemma {:induction false} IdOfUnique(runs: seq<RunMetadata>, count: nat, id: FrameId)
    requires Laid(runs, count) && id.run < |runs| && id.offset < runs[id.run].pages
    ensures runs[id.run].firstSlot + id.offset < count
    ensures IdOf(runs, count, runs[id.run].firstSlot + id.offset) == id
  {
    LaidAt(runs, count, id.run);
    var other := IdOf(runs, count, runs[id.run].firstSlot + id.offset);
    if other.run < id.run {
      LaidOrdered(runs, count, other.run, id.run);
    } else if id.run < other.run {
      LaidOrdered(runs, count, id.run, other.run);
    }
  }

  /** Higher slots have higher addresses, at least a page apart. */
  lemma {:induction false} AddressesAscend(runs: seq<RunMetadata>, count: nat, low: nat, high: nat)
    requires Laid(runs, count) && low < high < count
    ensures AddressOf(runs, count, low) + PAGE_SIZE <= AddressOf(runs, count, high)
  {
    var a, b := IdOf(runs, count, low), IdOf(runs, count, high);
    if a.run < b.run {
      LaidOrdered(runs, count, a.run, b.run);
    } else if b.run < a.run {
      LaidOrdered(runs, count, b.run, a.run);
    }
  }

  /** Inside one run, consecutive slots are consecutive pages. */
  lemma {:induction false} AddressesContiguous(runs: seq<RunMetadata>, count: nat, run: nat, offset: nat, k: nat)
    requires Laid(runs, count) && run < |runs| && offset + k < runs[run].pages
    ensures runs[run].firstSlot + offset + k < count
    ensures AddressOf(runs, count, runs[run].firstSlot + offset + k)
            == AddressOf(runs, count, runs[run].firstSlot + offset) + k * PAGE_SIZE
  {
    IdOfUnique(runs, count, FrameId(run, offset));
    IdOfUnique(runs, count, FrameId(run, offset + k));
  }

  lemma {:induction false} AddressShaped(runs: seq<RunMetadata>, count: nat, slot: nat)
    requires Laid(runs, count) && slot < count
    ensures AddressOf(runs, count, slot) > 0 && AddressOf(runs, count, slot) % PAGE_SIZE == 0
  {
    LaidAt(runs, count, IdOf(runs, count, slot).run);
  }

  // --- Searches -----------------------------------------------------------------

  function SlotForId(runs: seq<RunMetadata>, id: FrameId): Option<nat> {
    if id.run < |runs| && id.offset < runs[id.run].pages then Some(runs[id.run].firstSlot + id.offset) else None
  }

  /** Binary search by slot. */
  method IdForSlot(runs: seq<RunMetadata>, ghost count: nat, slot: nat) returns (r: Option<FrameId>)
    requires Laid(runs, count)
    ensures r == if slot < count then Some(IdOf(runs, count, slot)) else None
  {
    var low, high := 0, |runs|;
    while low < high
      invariant 0 <= low <= high <= |runs|
      invariant low > 0 ==> runs[low - 1].LastSlot() <= slot
      invariant high < |runs| ==> slot < runs[high].firstSlot
    {
      var middle := (low + high) / 2;
      var run := runs[middle];
      if slot < run.firstSlot {
        high := middle;
      } else if slot >= run.firstSlot + run.pages {
        low := middle + 1;
      } else {
        IdOfUnique(runs, count, FrameId(middle, slot - run.firstSlot));
        return Some(FrameId(middle, slot - run.firstSlot));
      }
    }
    if slot < count {
      SlotBesideGap(runs, count, slot, low);
    }
    r := None;
  }

  /** A slot in range is below the end of the run before any gap, or beyond the start of the run after it. */
  lemma {:induction false} SlotBesideGap(runs: seq<RunMetadata>, count: nat, slot: nat, gap: nat)
    requires Laid(runs, count) && gap <= |runs| && slot < count
    ensures (gap > 0 && slot < runs[gap - 1].LastSlot()) || (gap < |runs| && runs[gap].firstSlot <= slot)
  {
    var id := IdOf(runs, count, slot);
    if id.run + 1 < gap {
      LaidOrdered(runs, count, id.run, gap - 1);
    } else if gap < id.run {
      LaidAt(runs, count, gap);
      LaidOrdered(runs, count, gap, id.run);
    }
  }

  /** Binary search by address. */
  method IdForAddress(runs: seq<RunMetadata>, ghost count: nat, raw: nat) returns (r: Option<FrameId>)
    requires Laid(runs, count)
    ensures r.Some? ==> SlotForId(runs, r.value).Some? && SlotForId(runs, r.value).value < count
                        && AddressOf(runs, count, SlotForId(runs, r.value).value) == raw
    ensures r.None? ==> forall slot :: 0 <= slot < count ==> AddressOf(runs, count, slot) != raw
  {
    if raw % PAGE_SIZE != 0 {
      forall slot | 0 <= slot < count
        ensures AddressOf(runs, count, slot) != raw
      {
        AddressShaped(runs, count, slot);
      }
      return None;
    }
    var low, high := 0, |runs|;
    while low < high
      invariant 0 <= low <= high <= |runs|
      invariant low > 0 ==> runs[low - 1].End() <= raw
      invariant high < |runs| ==> raw < runs[high].start
    {
      var middle := (low + high) / 2;
      var run := runs[middle];
      if raw < run.start {
        high := middle;
      } else if raw >= run.End() {
        low := middle + 1;
      } else {
        var id := FrameId(middle, (raw - run.start) / PAGE_SIZE);
        LaidAt(runs, count, middle);
        OffsetExact(run, raw);
        IdOfUnique(runs, count, id);
        return Some(id);
      }
    }
    forall slot | 0 <= slot < count
      ensures AddressOf(runs, count, slot) != raw
    {
      AddressOutside(runs, count, slot, raw, low);
    }
    r := None;
  }

  lemma OffsetExact(run: RunMetadata, raw: nat)
    requires run.start % PAGE_SIZE == 0 && raw % PAGE_SIZE == 0 && run.start <= raw < run.End()
    ensures (raw - run.start) / PAGE_SIZE < run.pages
    ensures run.start + (raw - run.start) / PAGE_SIZE * PAGE_SIZE == raw
  {
    assert (raw - run.start) % PAGE_SIZE == 0;
  }

  lemma {:induction false} AddressOutside(runs: seq<RunMetadata>, count: nat, slot: nat, raw: nat, gap: nat)
    requires Laid(runs, count) && gap <= |runs| && slot < count
    requires gap > 0 ==> runs[gap - 1].End() <= raw
    requires gap < |runs| ==> raw < runs[gap].start
    ensures AddressOf(runs, count, slot) != raw
  {
    var id := IdOf(runs, count, slot);
    if id.run < gap - 1 {
      LaidOrdered(runs, count, id.run, gap - 1);
      LaidAt(runs, count, gap - 1);
    } else if gap < id.run {
      LaidOrdered(runs, count, gap, id.run);
      LaidAt(runs, count, gap);
    }
  }

  /** Slot, identity and address determine each other. */
  lemma {:induction false} SearchesInverse(runs: seq<RunMetadata>, count: nat, slot: nat, other: nat)
    requires Laid(runs, count) && slot < count && other < count
    ensures SlotForId(runs, IdOf(runs, count, slot)) == Some(slot)
    ensures IdOf(runs, count, slot) == IdOf(runs, count, other) ==> slot == other
    ensures AddressOf(runs, count, slot) == AddressOf(runs, count, other) ==> slot == other
  {
    if slot < other {
      AddressesAscend(runs, count, slot, other);
    } else if other < slot {
      AddressesAscend(runs, count, other, slot);
    }
  }
}
