/**
 Bounded construction of one address space's page tables.

 The builder owns its table frames, links them on demand and writes one leaf per
 mapped page. `mapped` is the finite map the tables stand for: `Valid` says that
 the processor's user-mode walk from the root agrees with it on every page.
 */
module PageTables {
  import opened Common
  import opened PageWalk
  import opened FramePools

  const USER_PML4_INDEX: Index := 2

  /** One root plus one private path for each of the 536 image pages, 4 heap pages and 1 more. */
  const MAX_PAGE_TABLE_FRAMES: nat := 1 + (536 + 4 + 1) * 3

  datatype PageTableError =
    | Capacity
    | Exhausted
    | Memory
    | InvalidMapping
    | InvalidVirtualAddress
    | InvalidFrame
    | InvalidFlags
    | Conflict

  /** The page a user may name: not the null page, page aligned, in the lower half. */
  predicate MappableAddress(virtualAddress: nat) {
    virtualAddress != 0 && PageAligned(virtualAddress) && virtualAddress < USER_LIMIT
  }

  function ValidatePage(page: LoadedPage): Option<PageTableError> {
    if !MappableAddress(page.virtualAddress) then
      Some(InvalidVirtualAddress)
    else if !FrameShaped(page.frame) then
      Some(InvalidFrame)
    else if !page.flags.Valid() then
      Some(InvalidFlags)
    else
      None
  }

  function PoolFailure(error: PoolError): PageTableError {
    match error
    case Exhausted => PageTableError.Exhausted
    case InvalidMap => PageTableError.Memory
  }

  // --- Table memory ---------------------------------------------------------

  /**
   Storage of table frames, this builder's and everybody else's. The adapter may
   refuse any operation: `verdicts` holds its coming answers, and an exhausted
   list means it accepts.
   */
  class TableMemory {
    var tables: Tables
    var verdicts: seq<bool>
    var invalidated: seq<nat>

    constructor (tables: Tables, verdicts: seq<bool>)
      ensures this.tables == tables && this.verdicts == verdicts && invalidated == []
    {
      this.tables := tables;
      this.verdicts := verdicts;
      invalidated := [];
    }

    ghost predicate Reliable()
      reads this
    {
      forall k :: 0 <= k < |verdicts| ==> verdicts[k]
    }

    method Accept() returns (ok: bool)
      modifies this`verdicts
      ensures old(Reliable()) ==> ok && Reliable()
    {
      if verdicts == [] {
        return true;
      }
      ok := verdicts[0];
      verdicts := verdicts[1..];
    }

    method Clear(frame: nat) returns (ok: bool)
      modifies this`verdicts, this`tables
      ensures tables == if ok then old(tables)[frame := ZeroTable()] else old(tables)
      ensures old(Reliable()) ==> ok && Reliable()
    {
      ok := Accept();
      if ok {
        tables := tables[frame := ZeroTable()];
      }
    }

    method Read(frame: nat, index: Index) returns (r: Option<Entry>)
      modifies this`verdicts
      ensures r.Some? ==> frame in tables && r.value == tables[frame][index]
      ensures old(Reliable()) ==> Reliable() && (r.Some? <==> frame in tables)
    {
      var ok := Accept();
      r := if ok && frame in tables then Some(tables[frame][index]) else None;
    }

    method Write(frame: nat, index: Index, entry: Entry) returns (ok: bool)
      modifies this`verdicts, this`tables
      ensures ok ==> frame in old(tables) && tables == Written(old(tables), frame, index, entry)
      ensures !ok ==> tables == old(tables)
      ensures old(Reliable()) ==> Reliable() && (ok <==> frame in old(tables))
    {
      ok := Accept();
      if frame !in tables {
        ok := false;
      } else if ok {
        tables := tables[frame := tables[frame][index := entry]];
      }
    }

    /** Overwrite a whole table. */
    method Fill(frame: nat, contents: Table) returns (ok: bool)
      modifies this`verdicts, this`tables
      ensures tables == if ok then old(tables)[frame := contents] else old(tables)
      ensures old(Reliable()) ==> ok && Reliable()
    {
      ok := Accept();
      if ok {
        tables := tables[frame := contents];
      }
    }

    method InvalidatePage(virtualAddress: nat)
      modifies this`invalidated
      ensures invalidated == old(invalidated) + [virtualAddress]
    {
      invalidated := invalidated + [virtualAddress];
    }
  }

  // --- The abstract map -----------------------------------------------------

  datatype Leaf = Leaf(frame: nat, writable: bool, executable: bool)

  type Mappings = map<nat, Leaf>

  function LeafOf(page: LoadedPage): Leaf {
    Leaf(page.frame, page.flags.writable, page.flags.executable)
  }

  ghost function PageAddresses(pages: seq<LoadedPage>): set<nat> {
    set page | page in pages :: page.virtualAddress
  }

  function Lookup(mapped: Mappings, virtualAddress: nat): Access {
    if virtualAddress in mapped then
      Page(mapped[virtualAddress].frame, mapped[virtualAddress].writable, mapped[virtualAddress].executable)
    else
      Fault
  }

  /** The user-mode walk agrees with the map on every page of the 48-bit space. */
  ghost predicate Translates(tables: Tables, root: nat, mapped: Mappings) {
    forall virtualAddress: nat {:trigger RouteTo(virtualAddress)} ::
      PageAligned(virtualAddress) && virtualAddress < 2 * USER_LIMIT ==>
        Walk(tables, root, RouteTo(virtualAddress), 0) == Lookup(mapped, virtualAddress)
  }

  ghost predicate WellMapped(mapped: Mappings) {
    forall virtualAddress :: virtualAddress in mapped ==>
      && MappableAddress(virtualAddress)
      && FrameShaped(mapped[virtualAddress].frame)
      && !(mapped[virtualAddress].writable && mapped[virtualAddress].executable)
  }

  /** Every entry there is leads to a table of the kernel's. */
  ghost predicate Outside(table: Table, frames: set<nat>) {
    forall index: Index :: table[index].present ==> Inherited(table[index], frames)
  }

  /** The tables laid out in a tree stand for the map. */
  ghost predicate Realises(tables: Tables, layout: Layout, pool: set<nat>, mapped: Mappings) {
    Tree(tables, layout, pool) && Translates(tables, layout[Top], mapped) && WellMapped(mapped)
  }

  /** A lone root stands for the empty map exactly when its entries lead to the kernel's tables. */
  lemma {:induction false} RootRealises(tables: Tables, root: nat, frames: set<nat>)
    requires root in tables
    ensures Realises(tables, map[Top := root], frames, map[]) <==> Outside(tables[root], frames)
  {
    var layout: Layout := map[Top := root];
    if Outside(tables[root], frames) {
      forall page: nat {:trigger RouteTo(page)} | PageAligned(page) && page < 2 * USER_LIMIT
        ensures Walk(tables, root, RouteTo(page), 0) == Lookup(map[], page)
      {
      }
    } else {
      var index: Index :| tables[root][index].present && !Inherited(tables[root][index], frames);
      assert !InteriorEntry(tables, layout, frames, Top, index);
    }
  }

  lemma RealisesTree(tables: Tables, layout: Layout, pool: set<nat>, mapped: Mappings)
    requires Realises(tables, layout, pool, mapped)
    ensures Top in layout && forall position :: position in layout ==> layout[position] in tables
  {
  }

  lemma {:induction false} RealisesInterior(tables: Tables, layout: Layout, pool: set<nat>, mapped: Mappings,
                                            position: Position, index: Index)
    requires Realises(tables, layout, pool, mapped)
    requires position in layout && Depth(position) < 3
    ensures layout[position] in tables && InteriorEntry(tables, layout, pool, position, index)
    ensures Under(position, index) in layout ==> Links(tables[layout[position]][index], layout, Under(position, index))
  {
    var below := Under(position, index);
    assert InteriorEntry(tables, layout, pool, position, index);
    assert below in layout ==> Attached(tables, layout, below);
  }

  /** At the leaf table the entry and the map say the same. */
  lemma RealisesLeaf(tables: Tables, layout: Layout, pool: set<nat>, mapped: Mappings, virtualAddress: nat)
    requires Realises(tables, layout, pool, mapped)
    requires PageAligned(virtualAddress) && virtualAddress < USER_LIMIT
    requires On(RouteTo(virtualAddress), 3) in layout
    ensures layout[On(RouteTo(virtualAddress), 3)] in tables
    ensures var entry := tables[layout[On(RouteTo(virtualAddress), 3)]][RouteTo(virtualAddress).leaf];
            && (entry.present <==> virtualAddress in mapped)
            && (entry.present ==> entry.address != 0 && entry.address == mapped[virtualAddress].frame)
  {
    var route := RouteTo(virtualAddress);
    WalkReaches(tables, layout, pool, route, 3);
    var entry := tables[layout[On(route, 3)]][route.leaf];
    assert LeafShaped(entry);
  }

  /** Where the descent breaks off there is no translation. */
  lemma RealisesGap(tables: Tables, layout: Layout, pool: set<nat>, mapped: Mappings, virtualAddress: nat, level: nat)
    requires Realises(tables, layout, pool, mapped)
    requires PageAligned(virtualAddress) && virtualAddress < USER_LIMIT
    requires level < 3 && On(RouteTo(virtualAddress), level) in layout
             && On(RouteTo(virtualAddress), level + 1) !in layout
    ensures virtualAddress !in mapped
  {
    var route := RouteTo(virtualAddress);
    WalkReaches(tables, layout, pool, route, level);
    assert InteriorEntry(tables, layout, pool, On(route, level), route.At(level));
  }

  lemma {:induction false} OnInjective(left: Route, right: Route)
    requires On(left, 4) == On(right, 4)
    ensures left == right
  {
    assert On(left, 3) == On(right, 3);
    assert On(left, 2) == On(right, 2);
    assert On(left, 1) == On(right, 1);
  }

  /** Writing a leaf at a page's own slot updates the map at that page and nowhere else. */
  lemma RealisesAfterLeafWrite(before: Tables, layout: Layout, pool: set<nat>, mapped: Mappings, virtualAddress: nat,
                               entry: Entry,
                               updated: Mappings)
    requires Realises(before, layout, pool, mapped)
    requires PageAligned(virtualAddress) && virtualAddress < 2 * USER_LIMIT
    requires On(RouteTo(virtualAddress), 3) in layout && LeafShaped(entry)
    requires WellMapped(updated) && updated - {virtualAddress} == mapped - {virtualAddress}
    requires Lookup(updated, virtualAddress) == if entry.present
             then Page(entry.address, entry.writable, !entry.noExecute) else Fault
    ensures Realises(Written(before, layout[On(RouteTo(virtualAddress), 3)], RouteTo(virtualAddress).leaf, entry),
                     layout, pool, updated)
  {
    var route := RouteTo(virtualAddress);
    var leaf := On(route, 3);
    var after := Written(before, layout[leaf], route.leaf, entry);
    TreeAfterLeafWrite(before, layout, pool, leaf, route.leaf, entry);
    forall other: nat {:trigger RouteTo(other)} | PageAligned(other) && other < 2 * USER_LIMIT
      ensures Walk(after, layout[Top], RouteTo(other), 0) == Lookup(updated, other)
    {
      if other == virtualAddress {
        WalkReaches(after, layout, pool, route, 3);
      } else {
        if RouteTo(other) == route {
          RouteInjective(other, virtualAddress);
        }
        if On(RouteTo(other), 4) == On(route, 4) {
          OnInjective(RouteTo(other), route);
        }
        WalkAfterLeafWrite(before, layout, pool, leaf, route.leaf, entry, RouteTo(other), 0);
        assert On(RouteTo(other), 0) == Top;
        assert other in updated <==> other in (updated - {virtualAddress});
        assert other in mapped <==> other in (mapped - {virtualAddress});
        assert other in updated ==> updated[other] == (updated - {virtualAddress})[other];
        assert other in mapped ==> mapped[other] == (mapped - {virtualAddress})[other];
      }
    }
  }

  lemma WellMappedAdd(tables: Tables, layout: Layout, pool: set<nat>, mapped: Mappings, page: LoadedPage)
    requires Realises(tables, layout, pool, mapped) && ValidatePage(page).None?
    ensures WellMapped(mapped[page.virtualAddress := LeafOf(page)])
    ensures LeafShaped(LeafEntry(page.frame, page.flags.writable, page.flags.executable))
  {
  }

  lemma WellMappedRemove(tables: Tables, layout: Layout, pool: set<nat>, mapped: Mappings, virtualAddress: nat)
    requires Realises(tables, layout, pool, mapped)
    ensures WellMapped(mapped - {virtualAddress}) && LeafShaped(EMPTY_ENTRY)
    ensures virtualAddress in mapped ==> MappableAddress(virtualAddress)
  {
  }

  /** Hanging an empty table in an absent slot leaves the map as it was. */
  lemma {:induction false} RealisesAfterLink(before: Tables, layout: Layout, pool: set<nat>, mapped: Mappings,
                                             parent: Position, index: Index, child: nat)
    requires Realises(before, layout, pool, mapped)
    requires parent in layout && Depth(parent) < 3 && !before[layout[parent]][index].present
    requires Unplaced(layout, child) && child in before && before[child] == ZeroTable()
    ensures Under(parent, index) !in layout
    ensures Realises(Written(before, layout[parent], index, LinkEntry(child)), layout[Under(parent, index) := child],
                     pool, mapped)
  {
    var after := Written(before, layout[parent], index, LinkEntry(child));
    TreeAfterLink(before, layout, pool, parent, index, child);
    forall page: nat {:trigger RouteTo(page)} | PageAligned(page) && page < 2 * USER_LIMIT
      ensures Walk(after, layout[Top], RouteTo(page), 0) == Lookup(mapped, page)
    {
      assert On(RouteTo(page), 0) == Top;
      WalkAfterLink(before, layout, pool, parent, index, child, RouteTo(page), 0);
    }
  }

  /** Frames outside the tree do not matter. */
  lemma RealisesIgnoresUnlinked(before: Tables, after: Tables, layout: Layout, pool: set<nat>, mapped: Mappings)
    requires Realises(before, layout, pool, mapped)
    requires forall position :: position in layout ==>
             layout[position] in after && after[layout[position]] == before[layout[position]]
    ensures Realises(after, layout, pool, mapped)
  {
    TreeIgnoresUnlinked(before, after, layout, pool);
    forall page: nat {:trigger RouteTo(page)} | PageAligned(page) && page < 2 * USER_LIMIT
      ensures Walk(after, layout[Top], RouteTo(page), 0) == Lookup(mapped, page)
    {
      assert On(RouteTo(page), 0) == Top;
      WalkIgnoresUnlinked(before, after, layout, pool, RouteTo(page), 0);
    }
  }

  /** Interior tables a page still lacks below `level`. */
  function Missing(layout: Layout, route: Route, level: nat): nat
    requires level <= 3
    decreases 3 - level
  {
    if level == 3 then 0
    else (if On(route, level + 1) in layout then 0 else 1) + Missing(layout, route, level + 1)
  }

  lemma {:induction false} MissingBelow(layout: Layout, position: Position, table: nat, route: Route, level: nat)
    requires level <= 3 && Depth(position) <= level
    ensures Missing(layout[position := table], route, level) == Missing(layout, route, level)
    decreases 3 - level
  {
    if level < 3 {
      assert On(route, level + 1) != position;
      MissingBelow(layout, position, table, route, level + 1);
    }
  }

  /** Take a frame from the pool and clear it; a refusal gives the frame back. */
  method AcquireCleared(owner: nat, pool: FramePool, memory: TableMemory) returns (r: Result<nat, PageTableError>)
    requires pool.Valid()
    modifies pool, memory`tables, memory`verdicts
    ensures pool.Valid() && pool.Universe() == old(pool.Universe())
    ensures r.Ok? ==> r.value in old(pool.free) && pool.free == old(pool.free) - {r.value}
    ensures r.Ok? ==> pool.live == old(pool.live)[r.value := owner] && pool.available == old(pool.available) - 1
    ensures r.Ok? ==> memory.tables == old(memory.tables)[r.value := ZeroTable()]
    ensures r.Err? ==> pool.free == old(pool.free) && pool.live == old(pool.live)
                       && pool.available == old(pool.available)
    ensures r.Err? ==> memory.tables == old(memory.tables)
    ensures old(memory.Reliable()) ==> memory.Reliable() && (r.Ok? <==> old(pool.available) > 0)
  {
    hide FramePool.Counted;
    var granted := pool.AllocateFor(owner);
    if granted.Err? {
      return Err(PoolFailure(granted.error));
    }
    var cleared := memory.Clear(granted.value);
    if !cleared {
      var _ := pool.Release(granted.value);
      return Err(PageTableError.Memory);
    }
    r := Ok(granted.value);
  }

  // --- The builder ------------------------------------------------------------

  class PageTableBuilder {
    var frames: seq<nat>
    var root: nat
    var mappedPages: nat
    const owner: nat
    ghost var owned: set<nat>
    ghost var layout: Layout
    ghost var mapped: Mappings

    ghost predicate Valid(pool: FramePool, memory: TableMemory)
      reads this, pool, memory`tables
    {
      && pool.Valid()
      && 0 < |frames| <= MAX_PAGE_TABLE_FRAMES
      && OwnedFrames(pool)
      && Realises(memory.tables, layout, pool.Universe(), mapped)
      && layout[Top] == root
      && (forall position :: position in layout ==> layout[position] in owned)
      && mappedPages == |mapped|
    }

    ghost predicate OwnedFrames(pool: FramePool)
      reads this`frames, this`owned, pool`live
    {
      && owned <= pool.live.Keys
      && (forall frame :: frame in frames <==> frame in owned)
      && Distinct(frames)
    }

    /** Everything outside this builder's frames is left as it was. */
    twostate predicate SparesOthers(memory: TableMemory)
      reads this, memory
    {
      forall frame :: frame in old(memory.tables) && frame !in owned ==>
        frame in memory.tables && memory.tables[frame] == old(memory.tables)[frame]
    }

    /** The builder may have taken frames from the pool, and nothing else moved there. */
    twostate predicate Grew(pool: FramePool)
      reads this, pool
    {
      && old(owned) <= owned <= old(owned) + old(pool.free)
      && pool.free == old(pool.free) - owned
      && pool.available + |frames| == old(pool.available) + |old(frames)|
      && pool.Universe() == old(pool.Universe())
      && (forall frame :: frame in old(pool.live) ==> frame in pool.live && pool.live[frame] == old(pool.live)[frame])
    }

    /** The root slot of a route leads into this builder's tables, or is still absent. */
    ghost predicate RootOpen(route: Route, memory: TableMemory)
      reads this, memory
      requires layout.Keys >= {Top} && root in memory.tables
    {
      On(route, 1) in layout || !memory.tables[root][route.root].present
    }

    /** Every table a route still needs can be had. */
    ghost predicate Reachable(route: Route, pool: FramePool, memory: TableMemory)
      reads this, pool, memory
      requires Valid(pool, memory)
    {
      && RootOpen(route, memory)
      && Missing(layout, route, 0) <= pool.available
      && |frames| + Missing(layout, route, 0) <= MAX_PAGE_TABLE_FRAMES
    }

    /** A new root, seeded with the kernel's mappings when there is a kernel root to inherit. */
    constructor (pool: FramePool, memory: TableMemory, owner: nat, frame: nat)
      requires pool.Valid() && frame in pool.live && frame in memory.tables
      ensures root == frame && frames == [frame] && owned == {frame} && mapped == map[] && this.owner == owner
      ensures Valid(pool, memory) <==> Outside(memory.tables[frame], pool.Universe())
    {
      hide Realises, Outside;
      this.owner := owner;
      frames := [frame];
      owned := {frame};
      root := frame;
      mappedPages := 0;
      layout := map[Top := frame];
      mapped := map[];
      new;
      RootRealises(memory.tables, frame, pool.Universe());
      assert Distinct(frames[..0]);
      assert OwnedFrames(pool);
    }

    method AllocateTable(pool: FramePool, memory: TableMemory) returns (r: Result<nat, PageTableError>)
      requires Valid(pool, memory)
      modifies this`frames, this`owned, pool, memory`tables, memory`verdicts
      ensures Valid(pool, memory) && Grew(pool) && SparesOthers(memory)
      ensures r.Ok? ==> frames == old(frames) + [r.value] && r.value in old(pool.free)
      ensures r.Ok? ==> memory.tables == old(memory.tables)[r.value := ZeroTable()]
      ensures r.Err? ==> frames == old(frames) && memory.tables == old(memory.tables)
      ensures old(memory.Reliable()) ==>
                && memory.Reliable()
                && (r.Ok? <==> |old(frames)| < MAX_PAGE_TABLE_FRAMES && old(pool.available) > 0)
    {
      hide Realises, FramePool.Counted, Distinct;
      if |frames| == MAX_PAGE_TABLE_FRAMES {
        return Err(Capacity);
      }
      ghost var before := memory.tables;
      r := AcquireCleared(owner, pool, memory);
      if r.Err? {
        return;
      }
      var frame := r.value;
      DistinctAppend(frames, frame);
      frames := frames + [frame];
      owned := owned + {frame};
      RealisesTree(before, layout, pool.Universe(), mapped);
      assert forall position :: position in layout ==> layout[position] != frame;
      RealisesIgnoresUnlinked(before, memory.tables, layout, pool.Universe(), mapped);
    }

    /** Hang a new, empty table in the absent slot a route meets at `level`. */
    method HangTable(route: Route, level: nat, table: nat, pool: FramePool, memory: TableMemory)
      returns (r: Result<nat, PageTableError>)
      requires Valid(pool, memory)
      requires level < 3 && On(route, level) in layout && table == layout[On(route, level)]
      requires !memory.tables[table][route.At(level)].present
      modifies this`frames, this`owned, this`layout, pool, memory`tables, memory`verdicts
      ensures Valid(pool, memory) && Grew(pool) && SparesOthers(memory)
      ensures On(route, level + 1) !in old(layout)
      ensures r.Ok? ==> layout == old(layout)[On(route, level + 1) := r.value] && frames == old(frames) + [r.value]
                        && r.value in old(pool.free)
      ensures old(memory.Reliable()) ==>
                && memory.Reliable()
                && (r.Ok? <==> |old(frames)| < MAX_PAGE_TABLE_FRAMES && old(pool.available) > 0)
    {
      hide Realises, FramePool.Valid, Distinct, Links, InteriorEntry;
      ghost var below := On(route, level + 1);
      OwnedNotFree(pool, memory);
      RealisesInterior(memory.tables, layout, pool.Universe(), mapped, On(route, level), route.At(level));
      var granted := AllocateTable(pool, memory);
      if granted.Err? {
        return Err(granted.error);
      }
      var child := granted.value;
      ghost var before := memory.tables;
      assert Unplaced(layout, child);
      RealisesAfterLink(before, layout, pool.Universe(), mapped, On(route, level), route.At(level), child);
      var linked := memory.Write(table, route.At(level), LinkEntry(child));
      if !linked {
        return Err(PageTableError.Memory);
      }
      layout := layout[below := child];
      r := Ok(child);
    }

    /** One step of the descent: follow the entry at `level`, or hang a new table there. */
    method StepDown(route: Route, level: nat, table: nat, pool: FramePool, memory: TableMemory)
      returns (r: Result<nat, PageTableError>)
      requires Valid(pool, memory)
      requires level < 3 && On(route, level) in layout && table == layout[On(route, level)]
      modifies this`frames, this`owned, this`layout, pool, memory`tables, memory`verdicts
      ensures Valid(pool, memory) && Grew(pool) && SparesOthers(memory)
      ensures r.Ok? ==> On(route, level + 1) in layout && r.value == layout[On(route, level + 1)]
      ensures r.Ok? ==> On(route, level + 1) in old(layout) || !old(memory.tables)[table][route.At(level)].present
      ensures r.Ok? ==> |frames| + Missing(layout, route, level + 1) == |old(frames)|
                        + Missing(old(layout), route, level)
      ensures old(memory.Reliable()) ==>
                && memory.Reliable()
                && (r.Ok? <==> || On(route, level + 1) in old(layout)
                               || (&& !old(memory.tables)[table][route.At(level)].present
                                   && |old(frames)| < MAX_PAGE_TABLE_FRAMES && old(pool.available) > 0))
    {
      hide Realises, FramePool.Counted, Distinct;
      ghost var below := On(route, level + 1);
      OwnedNotFree(pool, memory);
      RealisesInterior(memory.tables, layout, pool.Universe(), mapped, On(route, level), route.At(level));
      var read := memory.Read(table, route.At(level));
      if read.None? {
        return Err(PageTableError.Memory);
      }
      var entry := read.value;
      if entry.present {
        if entry.huge || entry.address == 0 {
          return Err(Conflict);
        }
        if entry.address !in frames {
          return Err(PageTableError.Memory);
        }
        return Ok(entry.address);
      }
      r := HangTable(route, level, table, pool, memory);
      if r.Ok? {
        MissingBelow(old(layout), below, r.value, route, level + 1);
      }
    }

    /** Descend to the leaf table of a route, building the interior tables it lacks. */
    method Descend(route: Route, pool: FramePool, memory: TableMemory) returns (r: Result<nat, PageTableError>)
      requires Valid(pool, memory)
      modifies this`frames, this`owned, this`layout, pool, memory`tables, memory`verdicts
      ensures Valid(pool, memory) && Grew(pool) && SparesOthers(memory)
      ensures r.Ok? ==> On(route, 3) in layout && r.value == layout[On(route, 3)]
      ensures old(memory.Reliable()) ==>
                && memory.Reliable()
                && (r.Ok? <==> old(Reachable(route, pool, memory)))
    {
      hide Valid, Realises, FramePool.Valid;
      Realised(pool, memory);
      OwnedNotFree(pool, memory);
      RealisesTree(memory.tables, layout, pool.Universe(), mapped);
      var table := root;
      var level := 0;
      ghost var needed := Missing(layout, route, 0);
      while level < 3
        invariant 0 <= level <= 3
        invariant Valid(pool, memory) && Grew(pool) && SparesOthers(memory)
        invariant On(route, level) in layout && table == layout[On(route, level)]
        invariant old(memory.Reliable()) ==> memory.Reliable()
        invariant |frames| + Missing(layout, route, level) == |old(frames)| + needed
        invariant level == 0 ==> unchanged(memory`tables) && layout == old(layout) && frames == old(frames)
        invariant level > 0 ==> old(RootOpen(route, memory))
      {
        Realised(pool, memory);
        RealisesInterior(memory.tables, layout, pool.Universe(), mapped, On(route, level), route.At(level));
        var step := StepDown(route, level, table, pool, memory);
        if step.Err? {
          return Err(step.error);
        }
        table := step.value;
        level := level + 1;
      }
      Realised(pool, memory);
      r := Ok(table);
    }

    /** Replace a page's leaf entry; the map then reads `updated` and the page counter `count`. */
    method WriteLeaf(virtualAddress: nat, table: nat, entry: Entry, ghost updated: Mappings, count: nat,
                     pool: FramePool, memory: TableMemory)
      returns (ok: bool)
      requires Valid(pool, memory)
      requires PageAligned(virtualAddress) && virtualAddress < USER_LIMIT
      requires On(RouteTo(virtualAddress), 3) in layout && table == layout[On(RouteTo(virtualAddress), 3)]
      requires LeafShaped(entry) && WellMapped(updated) && |updated| == count
      requires updated - {virtualAddress} == mapped - {virtualAddress}
      requires Lookup(updated, virtualAddress) == if entry.present
               then Page(entry.address, entry.writable, !entry.noExecute) else Fault
      modifies this`mapped, this`mappedPages, memory`tables, memory`verdicts
      ensures Valid(pool, memory) && SparesOthers(memory)
      ensures if ok then mapped == updated else mapped == old(mapped) && memory.tables == old(memory.tables)
      ensures old(memory.Reliable()) ==> ok && memory.Reliable()
    {
      hide Realises, WellMapped, LeafShaped, RouteTo, On, FramePool.Valid, OwnedFrames;
      RealisesTree(memory.tables, layout, pool.Universe(), mapped);
      RealisesAfterLeafWrite(memory.tables, layout, pool.Universe(), mapped, virtualAddress, entry, updated);
      ok := memory.Write(table, RouteTo(virtualAddress).leaf, entry);
      if ok {
        mapped := updated;
        mappedPages := count;
      }
    }

    /** Map one page. Success adds exactly this page to the map; failure changes no translation. */
    method MapPage(page: LoadedPage, pool: FramePool, memory: TableMemory) returns (r: Result<Unit, PageTableError>)
      requires Valid(pool, memory)
      modifies this, pool, memory
      ensures Valid(pool, memory) && Grew(pool) && SparesOthers(memory)
      ensures memory.invalidated == old(memory.invalidated) && root == old(root)
      ensures r.Ok? ==> page.virtualAddress !in old(mapped)
                        && mapped == old(mapped)[page.virtualAddress := LeafOf(page)]
      ensures r.Err? ==> mapped == old(mapped)
      ensures ValidatePage(page).Some? ==> r == Err(ValidatePage(page).value) && frames == old(frames)
                                           && memory.tables == old(memory.tables)
      ensures old(memory.Reliable()) ==>
                && memory.Reliable()
                && (r.Ok? <==> && ValidatePage(page).None?
                               && page.virtualAddress !in old(mapped)
                               && old(Reachable(RouteTo(page.virtualAddress), pool, memory)))
    {
      hide Valid, Realises, WellMapped, LeafShaped, FrameShaped, RouteTo, On, Reachable, FramePool.Valid;
      OwnedNotFree(pool, memory);
      var invalid := ValidatePage(page);
      if invalid.Some? {
        return Err(invalid.value);
      }
      var route := RouteTo(page.virtualAddress);
      var descent := Descend(route, pool, memory);
      if descent.Err? {
        return Err(descent.error);
      }
      var table := descent.value;
      Realised(pool, memory);
      RealisesLeaf(memory.tables, layout, pool.Universe(), mapped, page.virtualAddress);
      var read := memory.Read(table, route.leaf);
      if read.None? {
        return Err(PageTableError.Memory);
      }
      if read.value.present {
        return Err(Conflict);
      }
      var leaf := LeafEntry(page.frame, page.flags.writable, page.flags.executable);
      ghost var updated := mapped[page.virtualAddress := LeafOf(page)];
      WellMappedAdd(memory.tables, layout, pool.Universe(), mapped, page);
      assert updated - {page.virtualAddress} == mapped - {page.virtualAddress};
      var written := WriteLeaf(page.virtualAddress, table, leaf, updated, mappedPages + 1, pool, memory);
      if !written {
        return Err(PageTableError.Memory);
      }
      r := Ok(Unit.Unit);
    }

    /** Map every page of an image, stopping at the first that cannot be mapped. */
    method MapImage(pages: seq<LoadedPage>, pool: FramePool, memory: TableMemory)
        returns (r: Result<Unit, PageTableError>)
      requires Valid(pool, memory)
      modifies this, pool, memory
      ensures Valid(pool, memory) && Grew(pool) && root == old(root)
      ensures r.Ok? ==> forall i :: 0 <= i < |pages| ==>
              pages[i].virtualAddress in mapped && mapped[pages[i].virtualAddress] == LeafOf(pages[i])
      ensures forall page :: page in old(mapped) ==> page in mapped && mapped[page] == old(mapped)[page]
      ensures r.Ok? ==> mapped.Keys == old(mapped).Keys + PageAddresses(pages)
    {
      hide Valid, SparesOthers, Reachable, FramePool.Valid, ValidatePage, LeafOf;
      OwnedNotFree(pool, memory);
      for index := 0 to |pages|
        invariant Valid(pool, memory) && Grew(pool) && root == old(root)
        invariant forall i :: 0 <= i < index ==>
                  pages[i].virtualAddress in mapped && mapped[pages[i].virtualAddress] == LeafOf(pages[i])
        invariant forall page :: page in old(mapped) ==> page in mapped && mapped[page] == old(mapped)[page]
        invariant mapped.Keys == old(mapped).Keys + PageAddresses(pages[..index])
      {
        r := MapPage(pages[index], pool, memory);
        if r.Err? {
          return;
        }
        assert pages[..index + 1] == pages[..index] + [pages[index]];
      }
      assert pages[..|pages|] == pages;
      r := Ok(Unit.Unit);
    }

    lemma Realised(pool: FramePool, memory: TableMemory)
      requires Valid(pool, memory)
      ensures Realises(memory.tables, layout, pool.Universe(), mapped) && mappedPages == |mapped| && layout[Top] == root
              && |frames| <= MAX_PAGE_TABLE_FRAMES
    {
      hide Realises;
    }

    lemma OwnedNotFree(pool: FramePool, memory: TableMemory)
      requires Valid(pool, memory)
      ensures owned !! pool.free && owned <= pool.live.Keys && OwnedFrames(pool) && pool.Valid()
    {
      hide Realises;
    }

    /** What the builder claims of table memory and a pool. */
    ghost predicate Claims(tables: Tables, universe: set<nat>)
      reads this
    {
      && 0 < |frames| <= MAX_PAGE_TABLE_FRAMES && (forall frame :: frame in frames <==> frame in owned)
      && Distinct(frames)
      && Realises(tables, layout, universe, mapped) && layout[Top] == root
      && (forall position :: position in layout ==> layout[position] in owned)
      && mappedPages == |mapped|
    }

    lemma ClaimsNow(pool: FramePool, memory: TableMemory)
      requires Valid(pool, memory)
      ensures Claims(memory.tables, pool.Universe())
    {
      hide Realises;
    }

    /** Frames the builder does not own do not matter to it. */
    lemma StaysValid(pool: FramePool, memory: TableMemory, tables: Tables)
      requires Claims(tables, pool.Universe()) && pool.Valid() && owned <= pool.live.Keys
      requires forall frame :: frame in owned && frame in tables ==>
               frame in memory.tables && memory.tables[frame] == tables[frame]
      ensures Valid(pool, memory)
    {
      hide Realises, FramePool.Valid;
      RealisesTree(tables, layout, pool.Universe(), mapped);
      RealisesIgnoresUnlinked(tables, memory.tables, layout, pool.Universe(), mapped);
    }

    /** Follow present entries only, down to the leaf table of a route. */
    method Follow(virtualAddress: nat, pool: FramePool, memory: TableMemory) returns (r: Result<nat, PageTableError>)
      requires Valid(pool, memory)
      requires PageAligned(virtualAddress) && virtualAddress < USER_LIMIT
      modifies memory`verdicts
      ensures r.Ok? ==> On(RouteTo(virtualAddress), 3) in layout && r.value == layout[On(RouteTo(virtualAddress), 3)]
      ensures r.Err? ==> r.error == PageTableError.Memory || r.error == InvalidMapping
      ensures old(memory.Reliable()) ==> memory.Reliable() && (virtualAddress in mapped ==> r.Ok?)
    {
      hide Realises, RouteTo, FramePool.Counted, Distinct;
      var route := RouteTo(virtualAddress);
      RealisesTree(memory.tables, layout, pool.Universe(), mapped);
      var table := root;
      var level := 0;
      while level < 3
        invariant 0 <= level <= 3
        invariant On(route, level) in layout && table == layout[On(route, level)]
        invariant old(memory.Reliable()) ==> memory.Reliable()
      {
        RealisesInterior(memory.tables, layout, pool.Universe(), mapped, On(route, level), route.At(level));
        if On(route, level + 1) !in layout {
          RealisesGap(memory.tables, layout, pool.Universe(), mapped, virtualAddress, level);
        }
        var read := memory.Read(table, route.At(level));
        if read.None? {
          return Err(PageTableError.Memory);
        }
        var entry := read.value;
        if !entry.present || entry.huge || entry.address == 0 {
          return Err(InvalidMapping);
        }
        if entry.address !in frames {
          return Err(PageTableError.Memory);
        }
        table := entry.address;
        level := level + 1;
      }
      r := Ok(table);
    }

    /** Remove one page. Success removes exactly this page and yields its frame; failure changes no translation. */
    method UnmapPage(virtualAddress: nat, pool: FramePool, memory: TableMemory) returns (r: Result<nat, PageTableError>)
      requires Valid(pool, memory)
      modifies this`mapped, this`mappedPages, memory
      ensures Valid(pool, memory) && SparesOthers(memory)
      ensures r.Ok? ==> virtualAddress in old(mapped) && r.value == old(mapped)[virtualAddress].frame
      ensures r.Ok? ==> mapped == old(mapped) - {virtualAddress}
      ensures r.Ok? ==> memory.invalidated == old(memory.invalidated) + [virtualAddress]
      ensures r.Err? ==> mapped == old(mapped) && memory.invalidated == old(memory.invalidated)
                         && memory.tables == old(memory.tables)
      ensures r == Err(InvalidVirtualAddress) <==> !MappableAddress(virtualAddress)
      ensures old(memory.Reliable()) ==> memory.Reliable() && (r.Ok? <==> virtualAddress in old(mapped))
    {
      hide Valid, Realises, RouteTo, On, LeafShaped, WellMapped;
      Realised(pool, memory);
      WellMappedRemove(memory.tables, layout, pool.Universe(), mapped, virtualAddress);
      if !MappableAddress(virtualAddress) {
        return Err(InvalidVirtualAddress);
      }
      var descent := Follow(virtualAddress, pool, memory);
      if descent.Err? {
        return Err(descent.error);
      }
      var table := descent.value;
      RealisesLeaf(memory.tables, layout, pool.Universe(), mapped, virtualAddress);
      var read := memory.Read(table, RouteTo(virtualAddress).leaf);
      if read.None? {
        return Err(PageTableError.Memory);
      }
      if !read.value.present || read.value.address == 0 {
        return Err(InvalidMapping);
      }
      ghost var updated := mapped - {virtualAddress};
      assert |updated| == |mapped| - 1 by {
        assert mapped.Keys == updated.Keys + {virtualAddress};
      }
      var written := WriteLeaf(virtualAddress, table, EMPTY_ENTRY, updated, if mappedPages == 0 then
          0 else mappedPages - 1, pool, memory);
      if !written {
        return Err(PageTableError.Memory);
      }
      memory.InvalidatePage(virtualAddress);
      r := Ok(read.value.address);
    }

    /** Give every table frame back at once. */
    method Reclaim(pool: FramePool)
      requires pool.Valid() && OwnedFrames(pool)
      modifies this, pool
      ensures pool.Valid() && pool.Universe() == old(pool.Universe())
      ensures pool.live == old(pool.live) - old(owned)
      ensures frames == [] && owned == {} && mappedPages == 0 && mapped == map[]
      ensures OwnedFrames(pool)
    {
      hide FramePool.Counted;
      var index := 0;
      while index < |frames|
        invariant 0 <= index <= |frames|
        invariant pool.Valid() && pool.Universe() == old(pool.Universe())
        invariant unchanged(this)
        invariant forall k :: index <= k < |frames| ==> frames[k] in pool.live
        invariant pool.live == old(pool.live) - (set frame | frame in frames[..index])
      {
        forall k | index < k < |frames|
          ensures frames[k] != frames[index]
        {
          DistinctAt(frames, index, k);
        }
        assert frames[..index + 1] == frames[..index] + [frames[index]];
        var _ := pool.Release(frames[index]);
        index := index + 1;
      }
      assert (set frame | frame in frames[..index]) == owned;
      frames, owned, mappedPages, mapped, layout := [], {}, 0, map[], map[];
      assert Distinct(frames);
    }
  }

  // --- Creation ---------------------------------------------------------------

  /** Kernel mappings lose USER, and the slot reserved for user images is emptied. */
  function Sanitized(kernel: seq<Entry>): (table: Table)
    requires |kernel| == ENTRY_COUNT
  {
    seq(ENTRY_COUNT, i requires 0 <= i < ENTRY_COUNT => if i == USER_PML4_INDEX then
        EMPTY_ENTRY else kernel[i].(user := false))
  }

  method SanitizeInheritedRoot(root: array<Entry>)
    requires root.Length == ENTRY_COUNT
    modifies root
    ensures root[..] == Sanitized(old(root[..]))
  {
    for index := 0 to ENTRY_COUNT
      invariant forall k :: 0 <= k < index ==> root[k] == old(root[k]).(user := false)
      invariant forall k :: index <= k < ENTRY_COUNT ==> root[k] == old(root[k])
    {
      root[index] := root[index].(user := false);
    }
    root[USER_PML4_INDEX] := EMPTY_ENTRY;
  }

  /** The contents a new root starts with. */
  function Seed(kernel: Option<Table>): Table {
    if kernel.Some? then Sanitized(kernel.value) else ZeroTable()
  }

  /** No table of the kernel's lies in the pool, apart from what the user slot had. */
  ghost predicate RootApart(kernel: Option<Table>, frames: set<nat>) {
    kernel.Some? ==> forall index: Index :: index != USER_PML4_INDEX && kernel.value[index].present ==>
        kernel.value[index].address !in frames
  }

  lemma SeedOutside(kernel: Option<Table>, frames: set<nat>)
    ensures Outside(Seed(kernel), frames) <==> RootApart(kernel, frames)
  {
    if kernel.Some? {
      forall index: Index
        ensures Seed(kernel)[index] == if index == USER_PML4_INDEX then
                EMPTY_ENTRY else kernel.value[index].(user := false)
      {
      }
    }
  }

  /** Copy the active root into a cleared one and sanitise it; an adapter without one does nothing. */
  method SeedKernelRoot(root: nat, kernel: Option<Table>, memory: TableMemory) returns (ok: bool)
    requires root in memory.tables && memory.tables[root] == ZeroTable()
    modifies memory`tables, memory`verdicts
    ensures memory.tables == if ok then old(memory.tables)[root := Seed(kernel)] else old(memory.tables)
    ensures old(memory.Reliable()) ==> ok && memory.Reliable()
  {
    if kernel.None? {
      assert memory.tables == memory.tables[root := ZeroTable()];
      return true;
    }
    var copy := new Entry[ENTRY_COUNT](i requires 0 <= i < ENTRY_COUNT => kernel.value[i]);
    assert copy[..] == kernel.value;
    SanitizeInheritedRoot(copy);
    ok := memory.Fill(root, copy[..]);
  }

  /** A new address space, inheriting `kernel` when the adapter has an active root to copy. */
  method NewForOwner(pool: FramePool, memory: TableMemory, owner: nat, kernel: Option<Table>)
    returns (r: Result<PageTableBuilder, PageTableError>)
    requires pool.Valid()
    modifies pool, memory
    ensures pool.Valid() && pool.Universe() == old(pool.Universe())
    ensures r.Err? ==> pool.free == old(pool.free) && pool.live == old(pool.live)
    ensures r.Ok? ==> fresh(r.value) && r.value.mapped == map[] && r.value.owner == owner
    ensures r.Ok? ==> (r.value.Valid(pool, memory) <==> RootApart(kernel, pool.Universe()))
    ensures r.Ok? ==> r.value.frames == [r.value.root] && r.value.owned == {r.value.root}
                      && r.value.root in old(pool.free)
    ensures r.Ok? ==> pool.live == old(pool.live)[r.value.root := owner]
    ensures r.Ok? ==> r.value.root in memory.tables
    ensures r.Ok? ==> memory.tables[r.value.root] == Seed(kernel)
    ensures forall frame :: frame in old(memory.tables) && frame !in old(pool.free) ==>
              frame in memory.tables && memory.tables[frame] == old(memory.tables)[frame]
    ensures old(memory.Reliable()) ==> memory.Reliable() && (r.Ok? <==> old(pool.available) > 0)
  {
    hide Realises, Distinct, FramePool.Counted, FrameShaped, Seed, RootApart, Outside, PageTableBuilder.Valid;
    var granted := AcquireCleared(owner, pool, memory);
    if granted.Err? {
      return Err(granted.error);
    }
    var root := granted.value;
    var ok := SeedKernelRoot(root, kernel, memory);
    if !ok {
      var _ := pool.Release(root);
      return Err(PageTableError.Memory);
    }
    var builder := new PageTableBuilder(pool, memory, owner, root);
    SeedOutside(kernel, pool.Universe());
    r := Ok(builder);
  }

  // --- Whole runs ---------------------------------------------------------------

  datatype Command = Map(page: LoadedPage) | Unmap(virtualAddress: nat)

  /** The map a run of commands leaves, given which of them succeeded. */
  function Replay(mapped: Mappings, commands: seq<Command>, succeeded: seq<bool>): Mappings
    requires |commands| == |succeeded|
  {
    if commands == [] then mapped else
    var last := |commands| - 1;
    var before := Replay(mapped, commands[..last], succeeded[..last]);
    if !succeeded[last] then before else
    match commands[last]
    case Map(page) => before[page.virtualAddress := LeafOf(page)]
    case Unmap(virtualAddress) => before - {virtualAddress}
  }

  /** After any run the processor translates exactly the pages the successful commands left mapped. */
  method Run(tables: PageTableBuilder, commands: seq<Command>, pool: FramePool, memory: TableMemory)
      returns (succeeded: seq<bool>)
    requires tables.Valid(pool, memory)
    modifies tables, pool, memory
    ensures tables.Valid(pool, memory) && tables.root == old(tables.root)
    ensures |succeeded| == |commands| && tables.mapped == Replay(old(tables.mapped), commands, succeeded)
    ensures Translates(memory.tables, tables.root, Replay(old(tables.mapped), commands, succeeded))
    ensures tables.mappedPages == |Replay(old(tables.mapped), commands, succeeded)|
    ensures tables.SparesOthers(memory)
  {
    hide Tree, Translates, WellMapped, FramePool.Counted, Distinct, PageTableBuilder.Reachable;
    succeeded := [];
    for index := 0 to |commands|
      invariant tables.Valid(pool, memory) && tables.root == old(tables.root) && tables.SparesOthers(memory)
      invariant old(tables.owned) <= tables.owned
      invariant |succeeded| == index && tables.mapped == Replay(old(tables.mapped), commands[..index], succeeded)
    {
      assert commands[..index + 1][..index] == commands[..index];
      ghost var before := succeeded;
      match commands[index] {
        case Map(page) =>
          var mapping := tables.MapPage(page, pool, memory);
          succeeded := succeeded + [mapping.Ok?];
        case Unmap(virtualAddress) =>
          var removal := tables.UnmapPage(virtualAddress, pool, memory);
          succeeded := succeeded + [removal.Ok?];
      }
      assert succeeded[..index] == before;
    }
    assert commands[..|commands|] == commands;
  }
}
