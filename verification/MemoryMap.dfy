/**
 Normalisation of the firmware memory map: the available descriptors, sorted and
 merged, with every unavailable descriptor and explicit exclusion cut out.
 */
module MemoryMaps {
  import opened Common

  const MAX_MEMORY_RUNS: nat := 256
  const WORD_LIMIT: nat := 0x1_0000_0000_0000_0000

  datatype PhysicalRun = PhysicalRun(start: nat, pages: nat) {
    function End(): nat {
      start + pages * PAGE_SIZE
    }

    /** What `NewRun` admits: page aligned, not empty, and its end fits a word. */
    predicate Valid() {
      start % PAGE_SIZE == 0 && pages > 0 && End() < WORD_LIMIT
    }

    predicate Covers(address: nat) {
      start <= address < End()
    }
  }

  function NewRun(start: nat, pages: nat): Option<PhysicalRun> {
    var run := PhysicalRun(start, pages);
    if run.Valid() then Some(run) else None
  }

  datatype MemoryDescriptor = MemoryDescriptor(physicalStart: nat, pages: nat, available: bool)

  datatype NormalizationError = InvalidDescriptor | Capacity

  predicate ValidRuns(runs: seq<PhysicalRun>) {
    forall k :: 0 <= k < |runs| ==> runs[k].Valid()
  }

  /** Some run covers the address. */
  predicate Covered(runs: seq<PhysicalRun>, address: nat) {
    |runs| > 0 && (runs[|runs| - 1].Covers(address) || Covered(runs[..|runs| - 1], address))
  }

  lemma {:induction false} CoveredBySomeRun(runs: seq<PhysicalRun>, address: nat)
    ensures Covered(runs, address) <==> exists k :: 0 <= k < |runs| && runs[k].Covers(address)
  {
    if |runs| > 0 {
      CoveredBySomeRun(runs[..|runs| - 1], address);
      if k :| 0 <= k < |runs| && runs[k].Covers(address) {
        assert k < |runs| - 1 ==> runs[..|runs| - 1][k].Covers(address);
      }
    }
  }

  lemma {:induction false} CoveredAppend(runs: seq<PhysicalRun>, run: PhysicalRun, address: nat)
    ensures Covered(runs + [run], address) <==> Covered(runs, address) || run.Covers(address)
  {
    assert (runs + [run])[..|runs|] == runs;
  }

  lemma {:induction false} CoveredConcat(left: seq<PhysicalRun>, right: seq<PhysicalRun>, address: nat)
    ensures Covered(left + right, address) <==> Covered(left, address) || Covered(right, address)
    decreases |right|
  {
    if right == [] {
      assert left + right == left;
    } else {
      var front, last := right[..|right| - 1], right[|right| - 1];
      assert left + right == (left + front) + [last];
      CoveredAppend(left + front, last, address);
      CoveredConcat(left, front, address);
    }
  }

  // --- Sorting ------------------------------------------------------------------

  ghost predicate Sorted(runs: seq<PhysicalRun>) {
    forall i, j :: 0 <= i < j < |runs| ==> runs[i].start <= runs[j].start
  }

  /** Insert from the right, past every run that starts later. */
  function Inserted(runs: seq<PhysicalRun>, run: PhysicalRun): (r: seq<PhysicalRun>)
    ensures |r| == |runs| + 1
  {
    if |runs| > 0 && runs[|runs| - 1].start > run.start then
      Inserted(runs[..|runs| - 1], run) + [runs[|runs| - 1]]
    else
      runs + [run]
  }

  function InsertionSorted(runs: seq<PhysicalRun>): (r: seq<PhysicalRun>)
    ensures |r| == |runs|
  {
    if runs == [] then [] else Inserted(InsertionSorted(runs[..|runs| - 1]), runs[|runs| - 1])
  }

  lemma {:induction false} InsertedKeepsElements(runs: seq<PhysicalRun>, run: PhysicalRun)
    ensures multiset(Inserted(runs, run)) == multiset(runs) + multiset{run}
  {
    if |runs| > 0 {
      assert runs == runs[..|runs| - 1] + [runs[|runs| - 1]];
      if runs[|runs| - 1].start > run.start {
        InsertedKeepsElements(runs[..|runs| - 1], run);
      }
    }
  }

  ghost predicate StartsBy(runs: seq<PhysicalRun>, bound: nat) {
    forall k :: 0 <= k < |runs| ==> runs[k].start <= bound
  }

  lemma {:induction false} InsertedSorted(runs: seq<PhysicalRun>, run: PhysicalRun, bound: nat)
    requires Sorted(runs) && StartsBy(runs, bound) && run.start <= bound
    ensures Sorted(Inserted(runs, run)) && StartsBy(Inserted(runs, run), bound)
  {
    if |runs| > 0 && runs[|runs| - 1].start > run.start {
      InsertedSorted(runs[..|runs| - 1], run, runs[|runs| - 1].start);
    }
  }

  lemma {:induction false} InsertedCovers(runs: seq<PhysicalRun>, run: PhysicalRun, address: nat)
    ensures Covered(Inserted(runs, run), address) <==> Covered(runs, address) || run.Covers(address)
  {
    if |runs| > 0 && runs[|runs| - 1].start > run.start {
      InsertedCovers(runs[..|runs| - 1], run, address);
      CoveredAppend(Inserted(runs[..|runs| - 1], run), runs[|runs| - 1], address);
    } else {
      CoveredAppend(runs, run, address);
    }
  }

  lemma {:induction false} InsertionSortCovers(runs: seq<PhysicalRun>, address: nat)
    ensures Covered(InsertionSorted(runs), address) <==> Covered(runs, address)
  {
    if runs != [] {
      InsertionSortCovers(runs[..|runs| - 1], address);
      InsertedCovers(InsertionSorted(runs[..|runs| - 1]), runs[|runs| - 1], address);
    }
  }

  lemma {:induction false} InsertionSortSorts(runs: seq<PhysicalRun>)
    ensures Sorted(InsertionSorted(runs)) && multiset(InsertionSorted(runs)) == multiset(runs)
  {
    if runs != [] {
      var front, last := runs[..|runs| - 1], runs[|runs| - 1];
      assert runs == front + [last];
      InsertionSortSorts(front);
      var sorted := InsertionSorted(front);
      var bound := if sorted == [] || sorted[|sorted| - 1].start < last.start then
          last.start else sorted[|sorted| - 1].start;
      InsertedSorted(sorted, last, bound);
      InsertedKeepsElements(InsertionSorted(front), last);
    }
  }

  lemma {:induction false} InsertionSortStep(runs: seq<PhysicalRun>, index: nat)
    requires index < |runs|
    ensures InsertionSorted(runs[..index + 1]) == Inserted(InsertionSorted(runs[..index]), runs[index])
  {
    assert runs[..index + 1][..index] == runs[..index];
  }

  /** The run to insert goes before the runs from `position` on. */
  ghost predicate GoesBelow(runs: seq<PhysicalRun>, run: PhysicalRun, position: nat)
    requires position <= |runs|
  {
    Inserted(runs, run) == Inserted(runs[..position], run) + runs[position..]
  }

  lemma {:induction false} GoesBelowAll(runs: seq<PhysicalRun>, run: PhysicalRun)
    ensures GoesBelow(runs, run, |runs|)
  {
    assert runs[..|runs|] == runs;
  }

  lemma {:induction false} GoesBelowOne(runs: seq<PhysicalRun>, run: PhysicalRun, position: nat)
    requires 0 < position <= |runs| && runs[position - 1].start > run.start && GoesBelow(runs, run, position)
    ensures GoesBelow(runs, run, position - 1)
  {
    assert runs[..position][..position - 1] == runs[..position - 1];
    assert runs[position - 1..] == [runs[position - 1]] + runs[position..];
  }

  lemma {:induction false} GoesHere(runs: seq<PhysicalRun>, run: PhysicalRun, position: nat, after: seq<PhysicalRun>)
    requires position <= |runs| && (position > 0 ==> runs[position - 1].start <= run.start)
             && GoesBelow(runs, run, position)
    requires |after| == |runs| + 1 && after[position] == run
    requires forall k {:trigger after[k]} :: 0 <= k < position ==> after[k] == runs[k]
    requires forall k {:trigger after[k]} :: position < k <= |runs| ==> after[k] == runs[k - 1]
    ensures after == Inserted(runs, run)
  {
    assert Inserted(runs[..position], run) == runs[..position] + [run];
    assert after == runs[..position] + [run] + runs[position..];
  }

  /** Move `ranges[index]` down into the sorted prefix before it. */
  method InsertInPlace(ranges: array<PhysicalRun>, index: nat)
    requires index < ranges.Length
    modifies ranges
    ensures ranges[..index + 1] == Inserted(old(ranges[..index]), old(ranges[index]))
    ensures forall k :: index < k < ranges.Length ==> ranges[k] == old(ranges[k])
  {
    hide Inserted, GoesBelow;
    var value := ranges[index];
    var position := index;
    ghost var prefix := ranges[..index];
    GoesBelowAll(prefix, value);
    while position > 0 && ranges[position - 1].start > value.start
      invariant 0 <= position <= index
      invariant forall k {:trigger ranges[k]} :: 0 <= k < position ==> ranges[k] == prefix[k]
      invariant forall k {:trigger ranges[k]} :: position < k <= index ==> ranges[k] == prefix[k - 1]
      invariant forall k {:trigger ranges[k]} :: index < k < ranges.Length ==> ranges[k] == old(ranges[k])
      invariant GoesBelow(prefix, value, position)
    {
      GoesBelowOne(prefix, value, position);
      ranges[position] := ranges[position - 1];
      position := position - 1;
    }
    ranges[position] := value;
    GoesHere(prefix, value, position, ranges[..index + 1]);
  }

  method SortRanges(ranges: array<PhysicalRun>, count: nat)
    requires count <= ranges.Length
    modifies ranges
    ensures ranges[..count] == InsertionSorted(old(ranges[..count]))
    ensures forall k :: count <= k < ranges.Length ==> ranges[k] == old(ranges[k])
  {
    hide Inserted, InsertionSorted;
    if count == 0 {
      NothingToSort();
      return;
    }
    ghost var before := ranges[..count];
    OneIsSorted(before);
    for index := 1 to count
      invariant ranges[..index] == InsertionSorted(before[..index])
      invariant forall k :: index <= k < count ==> ranges[k] == before[k]
      invariant forall k :: count <= k < ranges.Length ==> ranges[k] == old(ranges[k])
    {
      InsertionSortStep(before, index);
      InsertInPlace(ranges, index);
    }
    assert before[..count] == before;
  }

  lemma NothingToSort()
    ensures InsertionSorted([]) == []
  {
  }

  lemma {:induction false} OneIsSorted(runs: seq<PhysicalRun>)
    requires |runs| > 0
    ensures InsertionSorted(runs[..1]) == runs[..1]
  {
    InsertionSortStep(runs, 0);
    assert runs[..0] == [];
  }

  // --- Merging --------------------------------------------------------------------

  function Max(a: nat, b: nat): nat {
    if a >= b then a else b
  }

  /** Extend the last run when the next one starts inside or right after it. */
  function Absorbed(merged: seq<PhysicalRun>, run: PhysicalRun): seq<PhysicalRun> {
    if merged == [] then [run] else
    var last := merged[|merged| - 1];
    if run.start <= last.End() then
      merged[..|merged| - 1] + [PhysicalRun(last.start, (Max(last.End(), run.End()) - last.start) / PAGE_SIZE)]
    else
      merged + [run]
  }

  function Merged(runs: seq<PhysicalRun>): seq<PhysicalRun> {
    if runs == [] then [] else Absorbed(Merged(runs[..|runs| - 1]), runs[|runs| - 1])
  }

  /** Strictly ascending, and no two runs touch. */
  predicate Gapped(runs: seq<PhysicalRun>) {
    |runs| <= 1 || (runs[|runs| - 2].End() < runs[|runs| - 1].start && Gapped(runs[..|runs| - 1]))
  }

  lemma {:induction false} GappedAt(runs: seq<PhysicalRun>, i: nat, j: nat)
    requires Gapped(runs) && ValidRuns(runs) && i < j < |runs|
    ensures runs[i].End() < runs[j].start
  {
    var front := runs[..|runs| - 1];
    if j < |runs| - 1 {
      GappedAt(front, i, j);
    } else if i < j - 1 {
      GappedAt(front, i, j - 1);
    }
  }

  lemma MergedRun(last: PhysicalRun, run: PhysicalRun)
    requires last.Valid() && run.Valid() && last.start <= run.start <= last.End()
    ensures var joined := PhysicalRun(last.start, (Max(last.End(), run.End()) - last.start) / PAGE_SIZE);
            && joined.Valid()
            && joined.End() == Max(last.End(), run.End())
            && forall address: nat :: joined.Covers(address) <==> last.Covers(address) || run.Covers(address)
  {
    hide PhysicalRun.Valid, PhysicalRun.End, Aligned;
    AlignedEnd(last);
    AlignedEnd(run);
    Stretch(last.start, Max(last.End(), run.End()));
  }

  /** Absorbing a run that starts no earlier than the last keeps runs apart. */
  lemma {:induction false} AbsorbedNormal(merged: seq<PhysicalRun>, run: PhysicalRun)
    requires ValidRuns(merged) && Gapped(merged) && run.Valid()
             && (merged != [] ==> merged[|merged| - 1].start <= run.start)
    ensures ValidRuns(Absorbed(merged, run)) && Gapped(Absorbed(merged, run))
            && 0 < |Absorbed(merged, run)| <= |merged| + 1
    ensures Absorbed(merged, run)[|Absorbed(merged, run)| - 1].start <= run.start
  {
    hide PhysicalRun.Valid, PhysicalRun.End, Max;
    if merged != [] {
      var last := merged[|merged| - 1];
      if run.start <= last.End() {
        MergedRun(last, run);
        assert Absorbed(merged, run)[..|merged| - 1] == merged[..|merged| - 1];
      } else {
        assert Absorbed(merged, run)[..|merged|] == merged;
      }
    }
  }

  lemma {:induction false} AbsorbedCovers(merged: seq<PhysicalRun>, run: PhysicalRun, address: nat)
    requires ValidRuns(merged) && run.Valid() && (merged != [] ==> merged[|merged| - 1].start <= run.start)
    ensures Covered(Absorbed(merged, run), address) <==> Covered(merged, address) || run.Covers(address)
  {
    hide PhysicalRun.Valid, PhysicalRun.End, PhysicalRun.Covers, Covered, Aligned;
    if merged == [] {
      CoveredAppend(merged, run, address);
      assert merged + [run] == [run];
    } else {
      var front, last := merged[..|merged| - 1], merged[|merged| - 1];
      assert merged == front + [last];
      CoveredAppend(front, last, address);
      if run.start <= last.End() {
        MergedRun(last, run);
        AlignedEnd(last);
        CoveredAppend(front, PhysicalRun(last.start, (Max(last.End(), run.End()) - last.start) / PAGE_SIZE), address);
      } else {
        CoveredAppend(merged, run, address);
      }
    }
  }

  lemma {:induction false} MergedNormal(runs: seq<PhysicalRun>)
    requires ValidRuns(runs) && Sorted(runs)
    ensures ValidRuns(Merged(runs)) && Gapped(Merged(runs)) && |Merged(runs)| <= |runs|
    ensures runs != [] ==> Merged(runs) != [] && Merged(runs)[|Merged(runs)| - 1].start <= runs[|runs| - 1].start
  {
    hide PhysicalRun.Valid, Absorbed;
    if runs != [] {
      MergedNormal(runs[..|runs| - 1]);
      AbsorbedNormal(Merged(runs[..|runs| - 1]), runs[|runs| - 1]);
    }
  }

  lemma {:induction false} MergedCovers(runs: seq<PhysicalRun>, address: nat)
    requires ValidRuns(runs) && Sorted(runs)
    ensures Covered(Merged(runs), address) <==> Covered(runs, address)
  {
    hide PhysicalRun.Valid, PhysicalRun.Covers, Absorbed, Gapped, Covered;
    if runs != [] {
      var front, run := runs[..|runs| - 1], runs[|runs| - 1];
      MergedCovers(front, address);
      MergedNormal(front);
      AbsorbedCovers(Merged(front), run, address);
      assert runs == front + [run];
      CoveredAppend(front, run, address);
    }
  }

  lemma {:induction false} MergeStep(runs: seq<PhysicalRun>, index: nat)
    requires index < |runs|
    ensures Merged(runs[..index + 1]) == Absorbed(Merged(runs[..index]), runs[index])
  {
    assert runs[..index + 1][..index] == runs[..index];
  }

  /** Merge one more run into the first `output` entries. */
  method AbsorbInPlace(ranges: array<PhysicalRun>, output: nat, range: PhysicalRun) returns (grown: nat)
    requires output < ranges.Length
    modifies ranges
    ensures output <= grown <= output + 1
    ensures ranges[..grown] == Absorbed(old(ranges[..output]), range)
    ensures forall k :: output < k < ranges.Length ==> ranges[k] == old(ranges[k])
  {
    if output == 0 {
      ranges[0] := range;
      return 1;
    }
    ghost var before := ranges[..output];
    var previous := ranges[output - 1];
    assert previous == before[|before| - 1];
    if range.start <= previous.End() {
      var end := Max(previous.End(), range.End());
      ranges[output - 1] := PhysicalRun(previous.start, (end - previous.start) / PAGE_SIZE);
      assert ranges[..output - 1] == before[..output - 1];
      return output;
    }
    ranges[output] := range;
    assert ranges[..output] == before;
    grown := output + 1;
  }

  method MergeRanges(ranges: array<PhysicalRun>, count: nat) returns (output: nat)
    requires count <= ranges.Length
    modifies ranges
    ensures output <= count && ranges[..output] == Merged(old(ranges[..count]))
  {
    hide Absorbed, Merged;
    ghost var before := ranges[..count];
    output := 0;
    NothingToMerge();
    for index := 0 to count
      invariant 0 <= output <= index
      invariant ranges[..output] == Merged(before[..index])
      invariant forall k :: index <= k < count ==> ranges[k] == before[k]
    {
      MergeStep(before, index);
      output := AbsorbInPlace(ranges, output, ranges[index]);
    }
    assert before[..count] == before;
  }

  lemma NothingToMerge()
    ensures Merged([]) == []
  {
  }

  // --- Subtracting -----------------------------------------------------------------

  /** What an exclusion leaves of a run: nothing, one side, or both. */
  function Cut(candidate: PhysicalRun, exclusion: PhysicalRun): seq<PhysicalRun> {
    if exclusion.End() <= candidate.start || exclusion.start >= candidate.End() then
      [candidate]
    else
      (if exclusion.start > candidate.start then [PhysicalRun(candidate.start,
                                                              (exclusion.start - candidate.start) / PAGE_SIZE)] else [])
      + (if exclusion.End() < candidate.End() then [PhysicalRun(exclusion.End(),
                                                                (candidate.End() - exclusion.End()) / PAGE_SIZE)]
          else [])
  }

  function CutAll(runs: seq<PhysicalRun>, exclusion: PhysicalRun): seq<PhysicalRun> {
    if runs == [] then [] else CutAll(runs[..|runs| - 1], exclusion) + Cut(runs[|runs| - 1], exclusion)
  }

  function Carved(runs: seq<PhysicalRun>, exclusions: seq<PhysicalRun>): seq<PhysicalRun> {
    if exclusions == [] then runs else CutAll(Carved(runs, exclusions[..|exclusions| - 1]),
                                              exclusions[|exclusions| - 1])
  }

  predicate Aligned(address: nat) {
    address % PAGE_SIZE == 0
  }

  lemma AlignedEnd(run: PhysicalRun)
    requires run.Valid()
    ensures Aligned(run.start) && Aligned(run.End()) && run.start < run.End() < WORD_LIMIT
  {
  }

  /** The page count of an aligned stretch spans it exactly. */
  lemma Stretch(start: nat, end: nat)
    requires start < end < WORD_LIMIT && Aligned(start) && Aligned(end)
    ensures PhysicalRun(start, (end - start) / PAGE_SIZE).Valid()
    ensures PhysicalRun(start, (end - start) / PAGE_SIZE).End() == end
  {
    assert (end - start) % PAGE_SIZE == 0;
  }

  lemma {:induction false} CutCovers(candidate: PhysicalRun, exclusion: PhysicalRun, address: nat)
    requires candidate.Valid() && exclusion.Valid()
    ensures ValidRuns(Cut(candidate, exclusion))
    ensures Covered(Cut(candidate, exclusion), address) <==> candidate.Covers(address) && !exclusion.Covers(address)
  {
    hide PhysicalRun.Valid, PhysicalRun.End, Aligned;
    AlignedEnd(candidate);
    AlignedEnd(exclusion);
    if exclusion.End() <= candidate.start || exclusion.start >= candidate.End() {
      CoveredAppend([], candidate, address);
    } else {
      var left, right: seq<PhysicalRun> := [], [];
      if exclusion.start > candidate.start {
        Stretch(candidate.start, exclusion.start);
        left := [PhysicalRun(candidate.start, (exclusion.start - candidate.start) / PAGE_SIZE)];
        CoveredAppend([], left[0], address);
      }
      if exclusion.End() < candidate.End() {
        Stretch(exclusion.End(), candidate.End());
        right := [PhysicalRun(exclusion.End(), (candidate.End() - exclusion.End()) / PAGE_SIZE)];
        CoveredAppend([], right[0], address);
      }
      assert Cut(candidate, exclusion) == left + right;
      CoveredConcat(left, right, address);
    }
  }

  lemma {:induction false} CutAllCovers(runs: seq<PhysicalRun>, exclusion: PhysicalRun, address: nat)
    requires ValidRuns(runs) && exclusion.Valid()
    ensures ValidRuns(CutAll(runs, exclusion))
    ensures Covered(CutAll(runs, exclusion), address) <==> Covered(runs, address) && !exclusion.Covers(address)
  {
    if runs != [] {
      var front, last := runs[..|runs| - 1], runs[|runs| - 1];
      CutAllCovers(front, exclusion, address);
      CutCovers(last, exclusion, address);
      CoveredConcat(CutAll(front, exclusion), Cut(last, exclusion), address);
    }
  }

  lemma {:induction false} CarvedCovers(runs: seq<PhysicalRun>, exclusions: seq<PhysicalRun>, address: nat)
    requires ValidRuns(runs) && ValidRuns(exclusions)
    ensures ValidRuns(Carved(runs, exclusions))
    ensures Covered(Carved(runs, exclusions), address) <==> Covered(runs, address) && !Covered(exclusions, address)
  {
    if exclusions != [] {
      var front, last := exclusions[..|exclusions| - 1], exclusions[|exclusions| - 1];
      CarvedCovers(runs, front, address);
      CutAllCovers(Carved(runs, front), last, address);
    }
  }

  method PushRange(ranges: array<PhysicalRun>, count: nat, range: PhysicalRun) returns (ok: bool)
    requires count <= ranges.Length
    modifies ranges
    ensures ok <==> count < ranges.Length
    ensures ok ==> ranges[..count + 1] == old(ranges[..count]) + [range]
    ensures !ok ==> ranges[..] == old(ranges[..])
  {
    ok := count < ranges.Length;
    if ok {
      ranges[count] := range;
    }
  }

  /** Append what is left of one run to the output; fails exactly when it does not fit. */
  method Subtract(candidate: PhysicalRun, exclusion: PhysicalRun, output: array<PhysicalRun>, count: nat)
    returns (r: Result<nat, NormalizationError>)
    requires count <= output.Length
    modifies output
    ensures r.Ok? <==> count + |Cut(candidate, exclusion)| <= output.Length
    ensures r.Ok? ==> r.value == count + |Cut(candidate, exclusion)|
                      && output[..r.value] == old(output[..count]) + Cut(candidate, exclusion)
    ensures r.Err? ==> r.error == Capacity
  {
    var next := count;
    if exclusion.End() <= candidate.start || exclusion.start >= candidate.End() {
      var ok := PushRange(output, next, candidate);
      return if ok then Ok(next + 1) else Err(Capacity);
    }
    if exclusion.start > candidate.start {
      var ok := PushRange(output, next, PhysicalRun(candidate.start, (exclusion.start - candidate.start) / PAGE_SIZE));
      if !ok {
        return Err(Capacity);
      }
      next := next + 1;
    }
    if exclusion.End() < candidate.End() {
      var ok := PushRange(output, next, PhysicalRun(exclusion.End(), (candidate.End() - exclusion.End()) / PAGE_SIZE));
      if !ok {
        return Err(Capacity);
      }
      next := next + 1;
    }
    r := Ok(next);
  }

  lemma {:induction false} CutAllPrefixShorter(runs: seq<PhysicalRun>, exclusion: PhysicalRun, k: nat)
    requires k <= |runs|
    ensures |CutAll(runs[..k], exclusion)| <= |CutAll(runs, exclusion)|
  {
    if k == |runs| {
      assert runs[..k] == runs;
    } else {
      CutAllPrefixShorter(runs[..|runs| - 1], exclusion, k);
      assert runs[..|runs| - 1][..k] == runs[..k];
    }
  }

  /** Cut one exclusion out of every current run. */
  method SubtractFromAll(current: array<PhysicalRun>, count: nat, exclusion: PhysicalRun, scratch: array<PhysicalRun>)
    returns (r: Result<nat, NormalizationError>)
    requires count <= current.Length && current != scratch
    modifies scratch
    ensures r.Ok? <==> |CutAll(current[..count], exclusion)| <= scratch.Length
    ensures r.Ok? ==> r.value <= scratch.Length && scratch[..r.value] == CutAll(current[..count], exclusion)
    ensures r.Err? ==> r.error == Capacity
  {
    var written: nat := 0;
    ghost var runs := current[..count];
    for index := 0 to count
      invariant written <= scratch.Length
      invariant scratch[..written] == CutAll(runs[..index], exclusion)
    {
      assert runs[..index + 1][..index] == runs[..index];
      CutAllPrefixShorter(runs, exclusion, index + 1);
      var step := Subtract(current[index], exclusion, scratch, written);
      if step.Err? {
        return Err(step.error);
      }
      written := step.value;
    }
    assert runs[..count] == runs;
    r := Ok(written);
  }

  /** Every intermediate result fits the fixed arrays. */
  predicate Fits(runs: seq<PhysicalRun>, exclusions: seq<PhysicalRun>) {
    && |Carved(runs, exclusions)| <= MAX_MEMORY_RUNS
    && (exclusions == [] || Fits(runs, exclusions[..|exclusions| - 1]))
  }

  lemma {:induction false} FitsPrefix(runs: seq<PhysicalRun>, exclusions: seq<PhysicalRun>, k: nat)
    requires k <= |exclusions| && Fits(runs, exclusions)
    ensures Fits(runs, exclusions[..k])
  {
    if k == |exclusions| {
      assert exclusions[..k] == exclusions;
    } else {
      FitsPrefix(runs, exclusions[..|exclusions| - 1], k);
      assert exclusions[..|exclusions| - 1][..k] == exclusions[..k];
    }
  }

  /** Once nothing is left, further exclusions change nothing. */
  lemma {:induction false} CarvedEmptyStays(runs: seq<PhysicalRun>, exclusions: seq<PhysicalRun>, k: nat)
    requires k <= |exclusions| && Carved(runs, exclusions[..k]) == [] && Fits(runs, exclusions[..k])
    ensures Carved(runs, exclusions) == [] && Fits(runs, exclusions)
  {
    if k == |exclusions| {
      assert exclusions[..k] == exclusions;
    } else {
      var front := exclusions[..|exclusions| - 1];
      assert front[..k] == exclusions[..k];
      CarvedEmptyStays(runs, front, k);
    }
  }

  /** One exclusion, through the scratch array and back. */
  method CarveOne(current: array<PhysicalRun>, count: nat, exclusion: PhysicalRun, scratch: array<PhysicalRun>)
    returns (r: Result<nat, NormalizationError>)
    requires count <= current.Length == scratch.Length && current != scratch
    modifies current, scratch
    ensures r.Ok? <==> |CutAll(old(current[..count]), exclusion)| <= scratch.Length
    ensures r.Ok? ==> r.value <= scratch.Length && current[..r.value] == CutAll(old(current[..count]), exclusion)
    ensures r.Err? ==> r.error == Capacity
  {
    r := SubtractFromAll(current, count, exclusion, scratch);
    if r.Ok? {
      forall i | 0 <= i < r.value {
        current[i] := scratch[i];
      }
      assert current[..r.value] == scratch[..r.value];
    }
  }

  /** Cut every exclusion out of `current[..count]` in place. */
  method CarveRanges(current: array<PhysicalRun>, count: nat, exclusions: seq<PhysicalRun>)
      returns (r: Result<nat, NormalizationError>)
    requires count <= current.Length == MAX_MEMORY_RUNS
    modifies current
    ensures r.Ok? <==> Fits(old(current[..count]), exclusions)
    ensures r.Ok? ==> r.value <= MAX_MEMORY_RUNS && current[..r.value] == Carved(old(current[..count]), exclusions)
    ensures r.Err? ==> r.error == Capacity
  {
    var scratch := new PhysicalRun[MAX_MEMORY_RUNS];
    var left: nat := count;
    ghost var runs := current[..count];
    assert exclusions[..0] == [];
    for index := 0 to |exclusions|
      invariant left <= MAX_MEMORY_RUNS
      invariant current[..left] == Carved(runs, exclusions[..index])
      invariant Fits(runs, exclusions[..index])
    {
      assert exclusions[..index + 1][..index] == exclusions[..index];
      var step := CarveOne(current, left, exclusions[index], scratch);
      if step.Err? {
        if Fits(runs, exclusions) {
          FitsPrefix(runs, exclusions, index + 1);
        }
        return Err(step.error);
      }
      left := step.value;
      if left == 0 {
        CarvedEmptyStays(runs, exclusions, index + 1);
        return Ok(0);
      }
    }
    assert exclusions[..|exclusions|] == exclusions;
    r := Ok(left);
  }

  // --- The whole pass ---------------------------------------------------------------

  /** Runs of the descriptors with the given availability, in map order. */
  function RunsOf(descriptors: seq<MemoryDescriptor>, available: bool): (runs: seq<PhysicalRun>)
    ensures |runs| <= |descriptors|
  {
    if descriptors == [] then [] else
    var last := descriptors[|descriptors| - 1];
    RunsOf(descriptors[..|descriptors| - 1], available)
    + (if last.available == available then [PhysicalRun(last.physicalStart, last.pages)] else [])
  }

  lemma {:induction false} NoRuns(available: bool)
    ensures RunsOf([], available) == []
  {
  }

  lemma {:induction false} RunsOfStep(descriptors: seq<MemoryDescriptor>, index: nat, available: bool)
    requires index < |descriptors|
    ensures RunsOf(descriptors[..index + 1], available) ==
            if descriptors[index].available == available
            then RunsOf(descriptors[..index], available)
                 + [PhysicalRun(descriptors[index].physicalStart, descriptors[index].pages)]
            else RunsOf(descriptors[..index], available)
  {
    assert descriptors[..index + 1][..index] == descriptors[..index];
  }

  predicate ValidDescriptors(descriptors: seq<MemoryDescriptor>) {
    forall k :: 0 <= k < |descriptors| ==> PhysicalRun(descriptors[k].physicalStart, descriptors[k].pages).Valid()
  }

  lemma {:induction false} RunsOfValid(descriptors: seq<MemoryDescriptor>, available: bool)
    requires ValidDescriptors(descriptors)
    ensures ValidRuns(RunsOf(descriptors, available))
  {
    if descriptors != [] {
      RunsOfValid(descriptors[..|descriptors| - 1], available);
    }
  }

  /** Sort and merge in place. */
  method Tidy(ranges: array<PhysicalRun>, count: nat) returns (output: nat)
    requires count <= ranges.Length && ValidRuns(ranges[..count])
    modifies ranges
    ensures output <= count
    ensures ranges[..output] == Tidied(old(ranges[..count]))
  {
    SortRanges(ranges, count);
    output := MergeRanges(ranges, count);
  }

  function Tidied(runs: seq<PhysicalRun>): seq<PhysicalRun> {
    Merged(InsertionSorted(runs))
  }

  lemma {:induction false} ValidInserted(runs: seq<PhysicalRun>, run: PhysicalRun)
    requires ValidRuns(runs) && run.Valid()
    ensures ValidRuns(Inserted(runs, run))
  {
    if |runs| > 0 && runs[|runs| - 1].start > run.start {
      ValidInserted(runs[..|runs| - 1], run);
    }
  }

  lemma {:induction false} ValidInsertionSorted(runs: seq<PhysicalRun>)
    requires ValidRuns(runs)
    ensures ValidRuns(InsertionSorted(runs))
  {
    if runs != [] {
      ValidInsertionSorted(runs[..|runs| - 1]);
      ValidInserted(InsertionSorted(runs[..|runs| - 1]), runs[|runs| - 1]);
    }
  }

  /** Tidying keeps what is covered and leaves separated, ascending runs. */
  lemma {:induction false} TidiedNormal(runs: seq<PhysicalRun>, address: nat)
    requires ValidRuns(runs)
    ensures ValidRuns(Tidied(runs)) && Gapped(Tidied(runs)) && |Tidied(runs)| <= |runs|
    ensures Covered(Tidied(runs), address) <==> Covered(runs, address)
  {
    ValidInsertionSorted(runs);
    InsertionSortSorts(runs);
    InsertionSortCovers(runs, address);
    MergedNormal(InsertionSorted(runs));
    MergedCovers(InsertionSorted(runs), address);
  }

  datatype NormalizedMap = NormalizedMap(runs: seq<PhysicalRun>, totalPages: nat)

  function PageTotal(runs: seq<PhysicalRun>): nat {
    if runs == [] then 0 else PageTotal(runs[..|runs| - 1]) + runs[|runs| - 1].pages
  }

  function PagesFrom(low: nat, count: nat): set<nat> {
    if count == 0 then {} else PagesFrom(low, count - 1) + {low + count - 1}
  }

  lemma {:induction false} PagesFromInterval(low: nat, count: nat, page: nat)
    ensures page in PagesFrom(low, count) <==> low <= page < low + count
  {
    if count > 0 {
      PagesFromInterval(low, count - 1, page);
    }
  }

  lemma {:induction false} PagesFromSize(low: nat, count: nat)
    ensures |PagesFrom(low, count)| == count
  {
    if count > 0 {
      PagesFromSize(low, count - 1);
      PagesFromInterval(low, count - 1, low + count - 1);
    }
  }

  /** The numbers of every page in the runs. */
  function PageSet(runs: seq<PhysicalRun>): set<nat> {
    if runs == [] then {} else
    PageSet(runs[..|runs| - 1]) + PagesFrom(runs[|runs| - 1].start / PAGE_SIZE, runs[|runs| - 1].pages)
  }

  /** A page number is in the set exactly when its first byte is covered. */
  lemma {:induction false} PageSetCovered(runs: seq<PhysicalRun>, page: nat)
    requires ValidRuns(runs)
    ensures page in PageSet(runs) <==> Covered(runs, page * PAGE_SIZE)
  {
    if runs != [] {
      var last := runs[|runs| - 1];
      PageSetCovered(runs[..|runs| - 1], page);
      PagesFromInterval(last.start / PAGE_SIZE, last.pages, page);
    }
  }

  /** The page counter of separated runs is the size of the set of pages. */
  lemma {:induction false} PageTotalCounts(runs: seq<PhysicalRun>)
    requires ValidRuns(runs) && Gapped(runs)
    ensures |PageSet(runs)| == PageTotal(runs)
  {
    if runs != [] {
      var front, last := runs[..|runs| - 1], runs[|runs| - 1];
      PageTotalCounts(front);
      var pages := PagesFrom(last.start / PAGE_SIZE, last.pages);
      PagesFromSize(last.start / PAGE_SIZE, last.pages);
      forall page | page in PageSet(front)
        ensures page !in pages
      {
        PagesFromInterval(last.start / PAGE_SIZE, last.pages, page);
        PageSetCovered(front, page);
        CoveredBySomeRun(front, page * PAGE_SIZE);
        var k :| 0 <= k < |front| && front[k].Covers(page * PAGE_SIZE);
        GappedAt(runs, k, |runs| - 1);
      }
      assert PageSet(front) !! pages;
    }
  }

  /** Every exclusion: the map's unavailable descriptors, then the explicit ones. */
  function Excluded(descriptors: seq<MemoryDescriptor>, exclusions: seq<PhysicalRun>): seq<PhysicalRun> {
    RunsOf(descriptors, false) + exclusions
  }

  /** Sort the descriptors into two fixed arrays, then append the explicit exclusions. */
  method Gather(descriptors: seq<MemoryDescriptor>, exclusions: seq<PhysicalRun>, available: array<PhysicalRun>,
                excluded: array<PhysicalRun>)
    returns (r: Result<(nat, nat), NormalizationError>)
    requires |descriptors| <= MAX_MEMORY_RUNS
    requires available.Length == excluded.Length == MAX_MEMORY_RUNS && available != excluded
    modifies available, excluded
    ensures r == Err(InvalidDescriptor) <==> !ValidDescriptors(descriptors)
    ensures r.Ok? <==> ValidDescriptors(descriptors) && |Excluded(descriptors, exclusions)| <= MAX_MEMORY_RUNS
    ensures r.Ok? ==> r.value.0 <= MAX_MEMORY_RUNS && available[..r.value.0] == RunsOf(descriptors, true)
    ensures r.Ok? ==> r.value.1 <= MAX_MEMORY_RUNS && excluded[..r.value.1] == Excluded(descriptors, exclusions)
  {
    hide PhysicalRun.Valid, RunsOf;
    NoRuns(true);
    NoRuns(false);
    var usable, cut: nat := 0, 0;
    for index := 0 to |descriptors|
      invariant usable <= index && available[..usable] == RunsOf(descriptors[..index], true)
      invariant cut <= index && excluded[..cut] == RunsOf(descriptors[..index], false)
      invariant ValidDescriptors(descriptors[..index])
    {
      RunsOfStep(descriptors, index, true);
      RunsOfStep(descriptors, index, false);
      var run := NewRun(descriptors[index].physicalStart, descriptors[index].pages);
      if run.None? {
        return Err(InvalidDescriptor);
      }
      if descriptors[index].available {
        var _ := PushRange(available, usable, run.value);
        usable := usable + 1;
      } else {
        var _ := PushRange(excluded, cut, run.value);
        cut := cut + 1;
      }
    }
    assert descriptors[..|descriptors|] == descriptors;
    for index := 0 to |exclusions|
      invariant cut <= MAX_MEMORY_RUNS && excluded[..cut] == RunsOf(descriptors, false) + exclusions[..index]
      invariant available[..usable] == RunsOf(descriptors, true)
    {
      var ok := PushRange(excluded, cut, exclusions[index]);
      if !ok {
        return Err(Capacity);
      }
      cut := cut + 1;
      assert exclusions[..index + 1] == exclusions[..index] + [exclusions[index]];
    }
    assert exclusions[..|exclusions|] == exclusions;
    r := Ok((usable, cut));
  }

  method CountPages(runs: seq<PhysicalRun>) returns (total: nat)
    ensures total == PageTotal(runs)
  {
    total := 0;
    for index := 0 to |runs|
      invariant total == PageTotal(runs[..index])
    {
      assert runs[..index + 1][..index] == runs[..index];
      total := total + runs[index].pages;
    }
    assert runs[..|runs|] == runs;
  }

  predicate HasRoom(descriptors: seq<MemoryDescriptor>, exclusions: seq<PhysicalRun>) {
    && |Excluded(descriptors, exclusions)| <= MAX_MEMORY_RUNS
    && Fits(Tidied(RunsOf(descriptors, true)), Tidied(Excluded(descriptors, exclusions)))
  }

  /** What normalisation promises about its runs. */
  ghost predicate Normal(runs: seq<PhysicalRun>, descriptors: seq<MemoryDescriptor>, exclusions: seq<PhysicalRun>) {
    && ValidRuns(runs) && Gapped(runs)
    && forall address: nat {:trigger Covered(runs, address)} ::
         Covered(runs, address) <==> Covered(RunsOf(descriptors, true), address)
                                     && !Covered(Excluded(descriptors, exclusions), address)
  }

  lemma {:induction false} CarvedNormal(descriptors: seq<MemoryDescriptor>, exclusions: seq<PhysicalRun>)
    requires ValidDescriptors(descriptors) && ValidRuns(exclusions)
    ensures ValidRuns(Carved(Tidied(RunsOf(descriptors, true)), Tidied(Excluded(descriptors, exclusions))))
    ensures Normal(Tidied(Carved(Tidied(RunsOf(descriptors, true)), Tidied(Excluded(descriptors, exclusions)))),
                   descriptors, exclusions)
  {
    var usable, excluded := RunsOf(descriptors, true), Excluded(descriptors, exclusions);
    RunsOfValid(descriptors, true);
    RunsOfValid(descriptors, false);
    TidiedNormal(usable, 0);
    TidiedNormal(excluded, 0);
    var carved := Carved(Tidied(usable), Tidied(excluded));
    CarvedCovers(Tidied(usable), Tidied(excluded), 0);
    TidiedNormal(carved, 0);
    forall address: nat {:trigger Covered(Tidied(carved), address)}
      ensures Covered(Tidied(carved), address) <==> Covered(usable, address) && !Covered(excluded, address)
    {
      TidiedNormal(usable, address);
      TidiedNormal(excluded, address);
      CarvedCovers(Tidied(usable), Tidied(excluded), address);
      TidiedNormal(carved, address);
    }
  }

  method NormalizeMemoryMap(descriptors: seq<MemoryDescriptor>, exclusions: seq<PhysicalRun>)
    returns (r: Result<NormalizedMap, NormalizationError>)
    requires |descriptors| <= MAX_MEMORY_RUNS && ValidRuns(exclusions)
    ensures r == Err(InvalidDescriptor) <==> |exclusions| <= MAX_MEMORY_RUNS && !ValidDescriptors(descriptors)
    ensures r.Ok? <==> |exclusions| <= MAX_MEMORY_RUNS && ValidDescriptors(descriptors)
                       && HasRoom(descriptors, exclusions)
    ensures r.Ok? ==> Normal(r.value.runs, descriptors, exclusions) && |r.value.runs| <= MAX_MEMORY_RUNS
    ensures r.Ok? ==> r.value.totalPages == PageTotal(r.value.runs) == |PageSet(r.value.runs)|
  {
    if |exclusions| > MAX_MEMORY_RUNS {
      return Err(Capacity);
    }
    var available := new PhysicalRun[MAX_MEMORY_RUNS];
    var excluded := new PhysicalRun[MAX_MEMORY_RUNS];
    var gathered := Gather(descriptors, exclusions, available, excluded);
    if gathered.Err? {
      return Err(gathered.error);
    }
    RunsOfValid(descriptors, true);
    RunsOfValid(descriptors, false);
    CarvedNormal(descriptors, exclusions);
    var availableCount := Tidy(available, gathered.value.0);
    var excludedCount := Tidy(excluded, gathered.value.1);
    var carved := CarveRanges(available, availableCount, excluded[..excludedCount]);
    if carved.Err? {
      return Err(carved.error);
    }
    var count := Tidy(available, carved.value);
    var runs := available[..count];
    PageTotalCounts(runs);
    var total := CountPages(runs);
    r := Ok(NormalizedMap(runs, total));
  }
}
