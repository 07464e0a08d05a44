/**
 Registering a loaded image with its process: runs of consecutive pages become one
 mapping each, and nothing about any page is lost.
 */
module ImageMapping {
  import opened Common
  import opened Processes

  const MAX_MAPPED_PAGES: nat := MAX_IMAGE_BYTES / PAGE_SIZE

  function PageOf(mapping: VirtualMapping, k: nat): LoadedPage {
    LoadedPage(mapping.virtualAddress + k * PAGE_SIZE, mapping.physicalAddress + k * PAGE_SIZE, mapping.flags)
  }

  /** The first `count` pages a mapping stands for. */
  function Expand(mapping: VirtualMapping, count: nat): seq<LoadedPage> {
    if count == 0 then []
    else Expand(mapping, count - 1) + [PageOf(mapping, count - 1)]
  }

  function Flatten(mappings: seq<VirtualMapping>): seq<LoadedPage> {
    if |mappings| == 0 then []
    else Flatten(mappings[..|mappings| - 1]) + Expand(mappings[|mappings| - 1], mappings[|mappings| - 1].pages)
  }

  /** The page lies in the mapping, at its own frame and with its own flags. */
  predicate Stands(mapping: VirtualMapping, page: LoadedPage) {
    && mapping.virtualAddress <= page.virtualAddress && page.virtualAddress + PAGE_SIZE <= mapping.End()
    && page.frame == mapping.physicalAddress + (page.virtualAddress - mapping.virtualAddress)
    && page.flags == mapping.flags
  }

  lemma {:induction false} ExpandAt(mapping: VirtualMapping, count: nat, k: nat)
    requires k < count
    ensures |Expand(mapping, count)| == count
    ensures Expand(mapping, count)[k] == PageOf(mapping, k)
    decreases count
  {
    if k < count - 1 {
      ExpandAt(mapping, count - 1, k);
    } else if k > 0 {
      ExpandAt(mapping, count - 1, k - 1);
    }
  }

  /** Every page of the flattened mappings stands in one of them. */
  lemma {:induction false} PageStands(mappings: seq<VirtualMapping>, i: nat) returns (at: nat, k: nat)
    requires i < |Flatten(mappings)|
    ensures at < |mappings| && k < mappings[at].pages && Flatten(mappings)[i] == PageOf(mappings[at], k)
            && Stands(mappings[at], Flatten(mappings)[i])
  {
    var last := |mappings| - 1;
    if i < |Flatten(mappings[..last])| {
      at, k := PageStands(mappings[..last], i);
    } else {
      at, k := last, i - |Flatten(mappings[..last])|;
      ExpandLength(mappings[last], mappings[last].pages);
      ExpandAt(mappings[last], mappings[last].pages, k);
    }
  }

  /** Every page of a mapping is among the flattened ones. */
  lemma {:induction false} FlattenHas(mappings: seq<VirtualMapping>, mapping: VirtualMapping, k: nat)
    requires mapping in mappings && k < mapping.pages
    ensures PageOf(mapping, k) in Flatten(mappings)
  {
    var last := |mappings| - 1;
    if mapping in mappings[..last] {
      FlattenHas(mappings[..last], mapping, k);
    } else {
      ExpandAt(mapping, mapping.pages, k);
      assert Expand(mapping, mapping.pages)[k] in Expand(mapping, mapping.pages);
    }
  }

  lemma {:induction false} ExpandLength(mapping: VirtualMapping, count: nat)
    ensures |Expand(mapping, count)| == count
  {
    if count > 0 {
      ExpandLength(mapping, count - 1);
    }
  }

  /** The longest run from `index` on has `count` pages. */
  ghost predicate RunAt(pages: seq<LoadedPage>, index: nat, count: nat) {
    && 0 < count && index + count <= |pages| && pages[index..index + count] == Expand(RunOf(pages[index], count), count)
    && (index + count < |pages| ==> !Continues(pages[index + count - 1], pages[index + count]))
  }

  /** The run from `index` on makes no sound mapping, or the space cannot take it. */
  ghost predicate Stuck(space: Space, pages: seq<LoadedPage>, index: nat) {
    exists count ::
      && RunAt(pages, index, count)
      && var mapping := RunOf(pages[index], count);
         NewMapping(mapping.virtualAddress, mapping.physicalAddress, count, mapping.flags, MAX_MAPPED_PAGES).None?
             || !Mappable(space, mapping)
  }

  /** How many pages from `index` on continue each other in address, frame and flags. */
  method RunLength(pages: seq<LoadedPage>, index: nat) returns (count: nat)
    requires index < |pages|
    ensures RunAt(pages, index, count)
  {
    count := 1;
    assert Expand(RunOf(pages[index], 1), 1) == Expand(RunOf(pages[index], 1), 0) + [pages[index]];
    while index + count < |pages| && Continues(pages[index + count - 1], pages[index + count])
      invariant 0 < count <= |pages| - index
      invariant pages[index..index + count] == Expand(RunOf(pages[index], count), count)
    {
      RunOn(pages, index, count);
      count := count + 1;
    }
  }

  function RunOf(first: LoadedPage, count: nat): VirtualMapping {
    VirtualMapping(first.virtualAddress, first.frame, count, first.flags)
  }

  predicate Continues(previous: LoadedPage, next: LoadedPage) {
    && previous.flags == next.flags
    && previous.virtualAddress + PAGE_SIZE == next.virtualAddress && previous.frame + PAGE_SIZE == next.frame
  }

  lemma {:induction false} ExpandSame(first: LoadedPage, a: nat, b: nat, count: nat)
    ensures Expand(RunOf(first, a), count) == Expand(RunOf(first, b), count)
  {
    if count > 0 {
      ExpandSame(first, a, b, count - 1);
    }
  }

  lemma RunOn(pages: seq<LoadedPage>, index: nat, count: nat)
    requires 0 < count && index + count < |pages| && Continues(pages[index + count - 1], pages[index + count])
    requires pages[index..index + count] == Expand(RunOf(pages[index], count), count)
    ensures pages[index..index + count + 1] == Expand(RunOf(pages[index], count + 1), count + 1)
  {
    ExpandAt(RunOf(pages[index], count), count, count - 1);
    assert pages[index..index + count][count - 1] == pages[index + count - 1];
    ExpandSame(pages[index], count, count + 1, count);
    assert pages[index..index + count + 1] == pages[index..index + count] + [pages[index + count]];
  }

  /** The space has all the new mappings, and apart from them what it had. */
  ghost predicate Gained(before: Mappings, after: Mappings, mapped: seq<VirtualMapping>) {
    && |after| == |before|
    && (forall m :: m in mapped ==> Some(m) in after)
    && (forall i :: 0 <= i < |before| ==> after[i] == before[i]
                                          || (before[i].None? && after[i].Some? && after[i].value in mapped))
  }

  lemma GainedOne(before: Mappings, middle: Mappings, mapped: seq<VirtualMapping>, i: nat, mapping: VirtualMapping)
    requires Gained(before, middle, mapped) && i < |middle| && middle[i].None?
    ensures Gained(before, middle[i := Some(mapping)], mapped + [mapping])
  {
    var after := middle[i := Some(mapping)];
    forall m | m in mapped + [mapping]
      ensures Some(m) in after
    {
      if m in mapped {
        var j :| 0 <= j < |middle| && middle[j] == Some(m);
        assert after[j] == Some(m);
      } else {
        assert after[i] == Some(m);
      }
    }
  }

  /** The space of a process has the root and exactly these mappings. */
  ghost predicate Lodged(table: ProcessTable, process: Handle, root: nat, runs: seq<VirtualMapping>)
    reads table
  {
    && SpaceHere(table, process) && SpaceOf(table.slots, table.spaces, process).root == Some(root)
    && Gained(NoMappings(), SpaceOf(table.slots, table.spaces, process).mappings, runs)
  }

  /** The space of a process. */
  ghost predicate SpaceHere(table: ProcessTable, process: Handle)
    reads table
  {
    && process.slot < |table.slots| && table.slots[process.slot].space.Some?
    && table.slots[process.slot].space.value.slot < |table.spaces|
  }

  lemma RunningHasSpace(table: ProcessTable, process: Handle)
    requires table.Valid() && table.IsRunning(process)
    ensures SpaceHere(table, process)
  {
  }

  /** Map the pages of an image into a running process, run by run. */
  method MapLoadedPages(table: ProcessTable, process: Handle, pages: seq<LoadedPage>)
      returns (r: Result<Unit, ProcessError>, ghost mapped: seq<VirtualMapping>)
    requires table.Valid() && table.IsRunning(process) && SpaceHere(table, process)
    modifies table`spaces
    ensures table.Valid() && SpaceHere(table, process)
    ensures table.spaces == WithSpace(table.slots, old(table.spaces), process,
                                      SpaceOf(table.slots, table.spaces, process))
    ensures Gained(SpaceOf(table.slots, old(table.spaces), process).mappings,
                   SpaceOf(table.slots, table.spaces, process).mappings, mapped)
    ensures SpaceOf(table.slots, table.spaces, process).root == SpaceOf(table.slots, old(table.spaces), process).root
    ensures r.Ok? ==> Flatten(mapped) == pages
    ensures r.Err? ==> Flatten(mapped) < pages
                       && Stuck(SpaceOf(table.slots, table.spaces, process), pages, |Flatten(mapped)|)
  {
    hide ProcessTable.Valid, Expand, Gained, NewMapping, Mappable;
    mapped := [];
    GainedNone(SpaceOf(table.slots, table.spaces, process).mappings);
    var index := 0;
    while index < |pages|
      invariant index <= |pages| && table.Valid() && SpaceHere(table, process)
      invariant table.spaces == WithSpace(table.slots, old(table.spaces), process,
                                          SpaceOf(table.slots, table.spaces, process))
      invariant Gained(SpaceOf(table.slots, old(table.spaces), process).mappings,
                       SpaceOf(table.slots, table.spaces, process).mappings, mapped)
      invariant SpaceOf(table.slots, table.spaces, process).root
                == SpaceOf(table.slots, old(table.spaces), process).root
      invariant Flatten(mapped) == pages[..index]
    {
      var count := RunLength(pages, index);
      var mapping := NewMapping(pages[index].virtualAddress, pages[index].frame, count, pages[index].flags,
                                MAX_MAPPED_PAGES);
      if mapping.None? {
        assert Stuck(SpaceOf(table.slots, table.spaces, process), pages, index);
        return Err(AddressSpaceError), mapped;
      }
      MappingIs(pages[index], count);
      ghost var before := SpaceOf(table.slots, table.spaces, process);
      r := table.Map(process, mapping.value);
      if r.Err? {
        assert Stuck(SpaceOf(table.slots, table.spaces, process), pages, index);
        return;
      }
      ghost var at :| MappedAt(before, SpaceOf(table.slots, table.spaces, process), at, mapping.value);
      GainedOne(SpaceOf(table.slots, old(table.spaces), process).mappings, before.mappings, mapped, at, mapping.value);
      FlattenOne(mapped, mapping.value);
      mapped := mapped + [mapping.value];
      assert pages[..index + count] == pages[..index] + pages[index..index + count];
      index := index + count;
    }
    assert pages[..|pages|] == pages;
    r := Ok(Unit.Unit);
  }

  lemma MappingIs(first: LoadedPage, count: nat)
    ensures var mapping := NewMapping(first.virtualAddress, first.frame, count, first.flags, MAX_MAPPED_PAGES);
            mapping.Some? ==> mapping.value == RunOf(first, count) && MappingOk(mapping.value)
  {
  }

  lemma GainedNone(mappings: Mappings)
    ensures Gained(mappings, mappings, [])
  {
  }

  lemma {:induction false} FlattenOne(mappings: seq<VirtualMapping>, mapping: VirtualMapping)
    ensures Flatten(mappings + [mapping]) == Flatten(mappings) + Expand(mapping, mapping.pages)
  {
    assert (mappings + [mapping])[..|mappings|] == mappings;
  }
}
