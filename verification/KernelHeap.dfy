/**
 The kernel heap: small objects in one frame each, large ones in consecutive frames,
 behind handles with generations, and a byte quota for each owner.

 `Valid` supposes that every other user of the frame allocator frees each of its
 leases once.
 */
module KernelHeaps {
  import opened Common
  import opened FrameManagers
  import opened FrameLedger
  import opened SmpFrames
  import opened FrameRuns
  import opened HeapLedger

  const USIZE_MAX: nat := 0xffff_ffff_ffff_ffff

  datatype HeapError =
    | InterruptContext
    | WouldBlock
    | Exhausted
    | Quota
    | InvalidHandle
    | WrongOwner
    | StaleHandle
    | InvalidRequest

  datatype HeapAllocation =
    HeapAllocation(item: Item, generation: nat, owner: nat, bytes: nat, address: nat, pages: Option<seq<FrameLease>>)

  predicate Asked(cpu: nat, owner: nat, bytes: nat) {
    cpu < MAX_MEMORY_CPUS && owner != 0 && bytes != 0
  }

  /** What an interrupt may ask for: a small object on a sound alignment. */
  predicate Small(bytes: nat, alignment: nat) {
    bytes <= SLAB_LIMIT && PowerOfTwo(alignment) && alignment <= PAGE_SIZE
  }

  predicate AllUsed(slots: seq<HeapSlot>) {
    forall i :: 0 <= i < |slots| ==> slots[i].used
  }

  /** A CPU's cache has a dirty frame of the owner. */
  predicate Cached(cache: seq<FrameLease>, owner: nat) {
    exists lease :: lease in cache && lease.owner == owner && lease.state == Dirty
  }

  function AllocFailure(error: AllocationError): HeapError {
    match error
    case WouldBlock => HeapError.WouldBlock
    case Exhausted => HeapError.Exhausted
    case StaleHandle => HeapError.StaleHandle
    case WrongOwner => HeapError.WrongOwner
    case _ => HeapError.InvalidHandle
  }

  function FreeFailureOf(freed: Result<Unit, AllocationError>): HeapError {
    match freed
    case Ok(_) => HeapError.InvalidHandle
    case Err(error) => AllocFailure(error)
  }

  /** 32-bit handle generations skip zero. */
  function NextHandle(generation: nat): nat {
    var next := (generation + 1) % 0x1_0000_0000;
    if next == 0 then 1 else next
  }

  class KernelHeap {
    const frames: SmpFrameAllocator
    var slots: seq<HeapSlot>
    var records: seq<PageRecord>
    var leases: seq<LeaseRecord>
    var caches: seq<seq<nat>>
    var quotas: seq<HeapLedger.Quota>
    ghost var backing: Backing

    ghost predicate Valid()
      reads this, frames, frames.manager
    {
      && frames.Valid() && frames.Exact()
      && |caches| == MAX_MEMORY_CPUS
      && Backed(slots, records, leases, backing, frames.held)
      && Charged(slots, records, quotas)
    }

    /** The frames of other holders are as they were. */
    twostate predicate SparesOthers()
      reads this, frames
    {
      frames.held - backing.Keys == old(frames.held) - old(backing).Keys
    }

    /** Only `item` changed among the objects, from `before` to `after`. */
    twostate predicate OnlyChanged(item: Item, before: Option<Extent>, after: Option<Extent>)
      reads this
    {
      && old(LiveExtent(slots, records, item)) == before && LiveExtent(slots, records, item) == after
      && forall other :: other != item ==> LiveExtent(slots, records, other) == old(LiveExtent(slots, records, other))
    }

    /** The handle names a live object. */
    ghost predicate Names(allocation: HeapAllocation)
      reads this
    {
      && LiveExtent(slots, records, allocation.item)
         == Some(Extent(allocation.owner, allocation.bytes, allocation.address))
      && match allocation.item
         case SlabItem(i) => slots[i].generation == allocation.generation
         case PagesItem(r) =>
           && records[r].generation == allocation.generation
           && allocation.pages.Some? && BatchOf(records[r], leases, allocation.pages.value)
    }

    constructor (frames: SmpFrameAllocator, slots: seq<HeapSlot>, records: seq<PageRecord>, leases: seq<LeaseRecord>)
      requires frames.Valid() && frames.Exact()
      requires forall i :: 0 <= i < |slots| ==> !slots[i].used
      requires forall r :: 0 <= r < |records| ==> !records[r].used
      ensures Valid() && this.frames == frames && this.slots == slots && this.records == records
              && this.leases == leases && backing == map[]
      ensures forall who :: 0 <= who < MAX_QUOTAS ==> quotas[who] == HeapLedger.Quota(USIZE_MAX, 0)
    {
      this.frames := frames;
      this.slots, this.records, this.leases := slots, records, leases;
      caches := seq(MAX_MEMORY_CPUS, _ => []);
      quotas := seq(MAX_QUOTAS, _ => HeapLedger.Quota(USIZE_MAX, 0));
      backing := map[];
      new;
      forall who | 0 <= who < MAX_QUOTAS
        ensures SlabBytes(slots, who) == 0 && RecordBytes(records, who) == 0
      {
        NothingCharged(slots, records, who);
      }
    }

    method SetQuota(owner: nat, bytes: nat) returns (r: Result<Unit, HeapError>)
      requires Valid()
      modifies this`quotas
      ensures Valid() && (r.Ok? <==> owner < MAX_QUOTAS)
      ensures r.Ok? ==> quotas == old(quotas)[owner := old(quotas)[owner].(limit := bytes)]
      ensures r.Err? ==> quotas == old(quotas)
    {
      if owner >= |quotas| {
        return Err(HeapError.InvalidRequest);
      }
      quotas := quotas[owner := quotas[owner].(limit := bytes)];
      r := Ok(Unit.Unit);
    }

    /** The lowest unused slot. */
    method FindSlot() returns (r: Option<nat>)
      ensures r.Some? ==> r.value < |slots| && !slots[r.value].used && forall i :: 0 <= i < r.value ==> slots[i].used
      ensures r.None? ==> forall i :: 0 <= i < |slots| ==> slots[i].used
    {
      for i := 0 to |slots|
        invariant forall j :: 0 <= j < i ==> slots[j].used
      {
        if !slots[i].used {
          return Some(i);
        }
      }
      r := None;
    }

    method FindRecord() returns (r: Option<nat>)
      ensures r.Some? ==> r.value < |records| && !records[r.value].used && forall i :: 0 <= i < r.value ==>
              records[i].used
      ensures r.None? ==> forall i :: 0 <= i < |records| ==> records[i].used
    {
      for i := 0 to |records|
        invariant forall j :: 0 <= j < i ==> records[j].used
      {
        if !records[i].used {
          return Some(i);
        }
      }
      r := None;
    }

    /** The first place where `pages` lease records in a row are unused. */
    method FindLeaseRange(pages: nat) returns (r: Option<nat>)
      ensures r.Some? ==> pages > 0 && Vacancy(leases, r.value, pages) && forall start :: 0 <= start < r.value ==>
              !Vacancy(leases, start, pages)
      ensures r.None? ==> pages == 0 || forall start: nat :: !Vacancy(leases, start, pages)
    {
      if pages == 0 || pages > |leases| {
        return None;
      }
      for start := 0 to |leases| - pages + 1
        invariant forall earlier :: 0 <= earlier < start ==> !Vacancy(leases, earlier, pages)
      {
        if Vacancy(leases, start, pages) {
          return Some(start);
        }
      }
      r := None;
    }

    /** Give an unused slot a frame that was just issued to the heap. */
    method InstallSlab(index: nat, owner: nat, bytes: nat, frame: FrameLease) returns (allocation: HeapAllocation)
      requires frames.Valid() && frames.Exact() && |caches| == MAX_MEMORY_CPUS
      requires Backed(slots, records, leases, backing, frames.held) && Charged(slots, records, quotas)
      requires index < |slots| && !slots[index].used && HeldBy(frames.held, frame) && frame.slot !in backing
      requires 0 < owner < MAX_QUOTAS && 0 < bytes <= SLAB_LIMIT
      modifies this`slots, this`quotas, this`backing
      ensures Valid() && Names(allocation) && backing.Keys == old(backing).Keys + {frame.slot}
      ensures allocation.item.SlabItem? && OnlyChanged(allocation.item, None, Some(Extent(owner, bytes, frame.address)))
      ensures quotas == old(quotas)[owner := old(quotas)[owner].(used := old(quotas)[owner].used + bytes)]
    {
      hide Backed, Charged, SmpFrameAllocator.Valid, SmpFrameAllocator.Exact;
      var slot := HeapSlot(true, NextHandle(slots[index].generation), owner, bytes, frame.address, Some(frame));
      ChargedLength(slots, records, quotas);
      ChargedSlab(slots, records, quotas, index, slot, owner, quotas[owner].used + bytes);
      BackedSlabIn(slots, records, leases, backing, frames.held, index, slot, frame);
      slots := slots[index := slot];
      quotas := quotas[owner := quotas[owner].(used := quotas[owner].used + bytes)];
      backing := backing[frame.slot := Use(SlabItem(index), 0)];
      allocation := HeapAllocation(SlabItem(index), slot.generation, owner, bytes, frame.address, None);
    }

    /** One frame for the heap, which it did not have; in interrupts only a cached one. */
    method ObtainFrame(cpu: nat, owner: nat, interrupt: bool) returns (r: Result<FrameLease, AllocationError>)
      requires Valid() && cpu < MAX_MEMORY_CPUS && owner != 0
      modifies frames, frames.manager
      ensures Valid()
      ensures r.Err? ==> frames.held == old(frames.held)
      ensures r.Err? && !interrupt ==> r.error == AllocationError.Exhausted
                                       && NoFrame(old(frames.manager.records), frames.manager.frameCount)
      ensures interrupt ==> (r.Err? <==> !Cached(old(frames.pools)[cpu], owner))
                            && (r.Err? ==> r.error == AllocationError.WouldBlock)
      ensures r.Ok? ==> HeldBy(frames.held, r.value) && r.value.slot !in backing
                        && frames.held - {r.value.slot} == old(frames.held)
      ensures r.Ok? ==> r.value.address % PAGE_SIZE == 0
    {
      hide Backed, Charged, SmpFrameAllocator.Valid, SmpFrameAllocator.Exact, AddressOf, Laid;
      if interrupt {
        r := frames.TryAllocIrq(cpu, owner, Dirty);
      } else {
        r := frames.TryAlloc(cpu, owner, Dirty);
      }
      if r.Ok? {
        Received(slots, records, leases, backing, old(frames.held), r.value);
        FramesAligned(frames, r.value);
      }
    }

    /** A small object: the slot last freed on this CPU if it is still unused, else the lowest. */
    method AllocSlab(cpu: nat, owner: nat, bytes: nat) returns (r: Result<HeapAllocation, HeapError>)
      requires Valid() && cpu < MAX_MEMORY_CPUS && 0 < owner < MAX_QUOTAS && 0 < bytes <= SLAB_LIMIT
      modifies this, frames, frames.manager
      ensures Valid() && SparesOthers()
      ensures r.Ok? ==> r.value.item.SlabItem? && Granted(r.value, owner, bytes)
      ensures r.Err? ==> Untouched() && r.error == HeapError.Exhausted
      ensures r.Err? ==> (forall i :: 0 <= i < |slots| ==> slots[i].used)
                         || NoFrame(old(frames.manager.records), frames.manager.frameCount)
    {
      hide Backed, Charged, SmpFrameAllocator.Valid, SmpFrameAllocator.Exact, NoFrame;
      ChargedLength(slots, records, quotas);
      var cached: Option<nat> := None;
      if |caches[cpu]| > 0 {
        cached := Some(caches[cpu][|caches[cpu]| - 1]);
        caches := caches[cpu := caches[cpu][..|caches[cpu]| - 1]];
      }
      var index := cached;
      if !(cached.Some? && cached.value < |slots| && !slots[cached.value].used) {
        index := FindSlot();
      }
      if index.None? {
        return Err(HeapError.Exhausted);
      }
      var frame := ObtainFrame(cpu, owner, false);
      if frame.Err? {
        return Err(AllocFailure(frame.error));
      }
      var allocation := InstallSlab(index.value, owner, bytes, frame.value);
      r := Ok(allocation);
    }

    /** Consecutive frames for the heap, none of which it had. */
    method ObtainBatch(owner: nat, pages: nat) returns (r: Result<seq<FrameLease>, AllocationError>)
      requires Valid()
      modifies frames, frames.manager
      ensures Valid()
      ensures r.Err? ==> frames.held == old(frames.held)
      ensures r.Err? && owner != 0 && pages > 0 ==>
                || (r.error == AllocationError.BatchCapacity && pages > MAX_BATCH_FRAMES)
                || (r.error == AllocationError.Exhausted
                   && NoWindow(frames.manager.runs, old(frames.manager.records), pages))
      ensures r.Ok? ==> 0 < |r.value| == pages <= MAX_BATCH_FRAMES && DistinctSlots(r.value)
                        && frames.held - SlotsOf(r.value) == old(frames.held)
      ensures r.Ok? ==> r.value[0].address % PAGE_SIZE == 0 && forall k :: 0 <= k < pages ==>
              r.value[k].slot !in backing
      ensures r.Ok? ==> forall k :: 0 <= k < pages ==>
              HeldBy(frames.held, r.value[k]) && r.value[k].address == r.value[0].address + k * PAGE_SIZE
    {
      hide Backed, Charged, SmpFrameAllocator.Valid, SmpFrameAllocator.Exact, FreshStamps, Laid, HeldGrew, InOneRun,
           AddressOf;
      r := frames.AllocContiguous(owner, pages, Dirty);
      if r.Ok? {
        ReceivedBatch(slots, records, leases, backing, old(frames.held), frames.held, r.value);
        WindowAddresses(frames.manager.runs, frames.manager.frameCount, r.value);
        FramesAligned(frames, r.value[0]);
      }
    }

    /** A large object: consecutive frames, one lease record for each. */
    method AllocPages(owner: nat, bytes: nat) returns (r: Result<HeapAllocation, HeapError>)
      requires Valid() && 0 < owner < MAX_QUOTAS && SLAB_LIMIT < bytes
      modifies this, frames, frames.manager
      ensures Valid() && SparesOthers()
      ensures r.Ok? ==> r.value.item.PagesItem? && Granted(r.value, owner, bytes)
      ensures r.Err? ==>
              && Untouched()
              && (|| r.error == HeapError.Exhausted
                  || (r.error == HeapError.InvalidHandle && PagesFor(bytes) > MAX_BATCH_FRAMES))
      ensures r == Err(HeapError.Exhausted) ==>
                || (forall i :: 0 <= i < |records| ==> records[i].used)
                || (forall start: nat :: !Vacancy(leases, start, PagesFor(bytes)))
                || NoWindow(frames.manager.runs, old(frames.manager.records), PagesFor(bytes))
    {
      hide Backed, Charged, SmpFrameAllocator.Valid, SmpFrameAllocator.Exact, DistinctSlots, SlotsOf;
      ChargedLength(slots, records, quotas);
      var index := FindRecord();
      if index.None? {
        return Err(HeapError.Exhausted);
      }
      var pages := PagesFor(bytes);
      var start := FindLeaseRange(pages);
      if start.None? {
        return Err(HeapError.Exhausted);
      }
      var batch := ObtainBatch(owner, pages);
      if batch.Err? {
        return Err(AllocFailure(batch.error));
      }
      var allocation := InstallPages(index.value, start.value, owner, bytes, batch.value);
      r := Ok(allocation);
    }

    /** Write a batch into its lease records. */
    method FillLeases(start: nat, batch: seq<FrameLease>)
      requires start + |batch| <= |leases|
      modifies this`leases
      ensures LeasesFilled(old(leases), leases, start, batch)
    {
      for offset := 0 to |batch|
        invariant LeasesFilled(old(leases), leases, start, batch[..offset])
      {
        leases := leases[start + offset := LeaseRecord(true, Some(batch[offset]))];
      }
      assert batch[..|batch|] == batch;
    }

    method InstallPages(index: nat, start: nat, owner: nat, bytes: nat, batch: seq<FrameLease>)
        returns (allocation: HeapAllocation)
      requires frames.Valid() && frames.Exact() && |caches| == MAX_MEMORY_CPUS
      requires Backed(slots, records, leases, backing, frames.held) && Charged(slots, records, quotas)
      requires index < |records| && !records[index].used && Vacancy(leases, start, |batch|)
      requires 0 < owner < MAX_QUOTAS && SLAB_LIMIT < bytes && 0 < |batch| == PagesFor(bytes) <= MAX_BATCH_FRAMES
      requires DistinctSlots(batch) && forall k :: 0 <= k < |batch| ==> batch[k].slot !in backing
      requires forall k :: 0 <= k < |batch| ==>
               HeldBy(frames.held, batch[k]) && batch[k].address == batch[0].address + k * PAGE_SIZE
      modifies this`records, this`leases, this`quotas, this`backing
      ensures Valid() && Names(allocation) && backing.Keys == old(backing).Keys + SlotsOf(batch)
      ensures allocation.item.PagesItem? && OnlyChanged(allocation.item, None,
                                                        Some(Extent(owner, bytes, batch[0].address)))
      ensures quotas == old(quotas)[owner := old(quotas)[owner].(used := old(quotas)[owner].used + bytes)]
    {
      hide Backed, Charged, SmpFrameAllocator.Valid, SmpFrameAllocator.Exact, LeasesFilled, BatchOf, Assigned, SlotsOf,
           DistinctSlots;
      var record := PageRecord(true, NextHandle(records[index].generation), owner, bytes, batch[0].address, start,
                               |batch|);
      ghost var before := leases;
      FillLeases(start, batch);
      PagesInstalled(slots, records, before, leases, backing, frames.held, quotas, index, record, batch);
      records := records[index := record];
      quotas := quotas[owner := quotas[owner].(used := quotas[owner].used + bytes)];
      backing := Assigned(backing, index, batch);
      allocation := HeapAllocation(PagesItem(index), record.generation, owner, bytes, batch[0].address, Some(batch));
    }

    /** Allocate outside interrupts. */
    method Alloc(cpu: nat, owner: nat, bytes: nat, alignment: nat, interrupt: bool)
        returns (r: Result<HeapAllocation, HeapError>)
      requires Valid()
      modifies this, frames, frames.manager
      ensures Valid() && SparesOthers()
      ensures r == Err(HeapError.InterruptContext) <==> interrupt
      ensures r == Err(HeapError.InvalidRequest) <==> !interrupt && !WellFormed(cpu, owner, bytes, alignment)
      ensures r == Err(HeapError.Quota) <==> !interrupt && WellFormed(cpu, owner, bytes, alignment)
                                             && OverQuota(old(quotas), owner, bytes)
      ensures r.Ok? ==> Granted(r.value, owner, bytes) && r.value.address % alignment == 0
      ensures r.Ok? ==> (r.value.item.SlabItem? <==> bytes <= SLAB_LIMIT)
      ensures r.Err? ==> Untouched()
    {
      hide Backed, Charged, SmpFrameAllocator.Valid, SmpFrameAllocator.Exact, PowerOfTwo;
      if interrupt {
        return Err(HeapError.InterruptContext);
      }
      ChargedLength(slots, records, quotas);
      if !WellFormed(cpu, owner, bytes, alignment) {
        return Err(HeapError.InvalidRequest);
      }
      if OverQuota(quotas, owner, bytes) {
        return Err(HeapError.Quota);
      }
      if bytes > SLAB_LIMIT {
        r := AllocPages(owner, bytes);
      } else {
        r := AllocSlab(cpu, owner, bytes);
      }
      if r.Ok? {
        PageAligned(r.value.address, alignment);
      }
    }

    /** Allocate a small object from what is at hand: a cached frame and an unused slot. */
    method TryAllocIrq(cpu: nat, owner: nat, bytes: nat, alignment: nat) returns (r: Result<HeapAllocation, HeapError>)
      requires Valid()
      modifies this, frames, frames.manager
      ensures Valid() && SparesOthers()
      ensures r == Err(HeapError.InvalidRequest) <==>
              !Asked(cpu, owner, bytes) || (Small(bytes, alignment) && owner >= MAX_QUOTAS)
      ensures r == Err(HeapError.Quota) <==> Asked(cpu, owner, bytes) && Small(bytes, alignment) && owner < MAX_QUOTAS
                                             && OverQuota(old(quotas), owner, bytes)
      ensures r == Err(HeapError.Exhausted) <==>
                Asked(cpu, owner, bytes) && Small(bytes, alignment) && owner < MAX_QUOTAS
                    && !OverQuota(old(quotas), owner, bytes) && AllUsed(old(slots))
      ensures r == Err(HeapError.WouldBlock) <==>
                && Asked(cpu, owner, bytes)
                && (!Small(bytes, alignment) || (owner < MAX_QUOTAS && !OverQuota(old(quotas), owner, bytes)
                   && !AllUsed(old(slots)) && !Cached(old(frames.pools)[cpu], owner)))
      ensures r.Err? ==> r.error in {HeapError.InvalidRequest, HeapError.Quota, HeapError.Exhausted,
                                     HeapError.WouldBlock}
      ensures r.Ok? ==> Granted(r.value, owner, bytes) && r.value.address % alignment == 0 && r.value.item.SlabItem?
      ensures r.Err? ==> Untouched()
    {
      hide Backed, Charged, SmpFrameAllocator.Valid, SmpFrameAllocator.Exact, PowerOfTwo;
      ChargedLength(slots, records, quotas);
      if cpu >= MAX_MEMORY_CPUS || owner == 0 || bytes == 0 {
        return Err(HeapError.InvalidRequest);
      }
      if !Small(bytes, alignment) {
        return Err(HeapError.WouldBlock);
      }
      if owner >= |quotas| {
        return Err(HeapError.InvalidRequest);
      }
      if OverQuota(quotas, owner, bytes) {
        return Err(HeapError.Quota);
      }
      var index := FindSlot();
      if index.None? {
        return Err(HeapError.Exhausted);
      }
      var frame := ObtainFrame(cpu, owner, true);
      if frame.Err? {
        return Err(AllocFailure(frame.error));
      }
      PageAligned(frame.value.address, alignment);
      var allocation := InstallSlab(index.value, owner, bytes, frame.value);
      r := Ok(allocation);
    }

    /** Free through a handle. */
    method Free(cpu: nat, allocation: HeapAllocation) returns (r: Result<Unit, HeapError>)
      requires Valid()
      modifies this, frames, frames.manager
      ensures Valid() && SparesOthers()
      ensures r.Ok? <==> old(Names(allocation)) && (allocation.item.SlabItem? ==> cpu < MAX_MEMORY_CPUS)
      ensures r.Ok? ==> Released(allocation)
      ensures r.Err? ==> Untouched()
    {
      hide Backed, Charged, SmpFrameAllocator.Valid, SmpFrameAllocator.Exact;
      match allocation.item {
        case PagesItem(index) => r := FreePages(index, allocation);
        case SlabItem(index) => r := FreeSlab(cpu, index, allocation);
      }
    }

    method FreeSlab(cpu: nat, index: nat, allocation: HeapAllocation) returns (r: Result<Unit, HeapError>)
      requires Valid() && allocation.item == SlabItem(index)
      modifies this, frames, frames.manager
      ensures Valid() && SparesOthers()
      ensures r.Ok? <==> old(Names(allocation)) && cpu < MAX_MEMORY_CPUS
      ensures r.Ok? ==> Released(allocation)
      ensures r.Err? ==> Untouched()
    {
      hide Backed, Charged, SmpFrameAllocator.Valid, SmpFrameAllocator.Exact, SlabBytes, RecordBytes;
      if index >= |slots| {
        return Err(HeapError.InvalidHandle);
      }
      var slot := slots[index];
      if !slot.used || slot.generation != allocation.generation {
        return Err(HeapError.StaleHandle);
      }
      if slot.owner != allocation.owner {
        return Err(HeapError.WrongOwner);
      }
      if slot.address != allocation.address || slot.bytes != allocation.bytes {
        return Err(HeapError.InvalidHandle);
      }
      var cleared := slot.(used := false, frame := None, address := 0);
      SlabRemoved(slots, records, leases, backing, frames.held, quotas, index, cleared);
      if slot.frame.None? {
        return Err(HeapError.InvalidHandle);
      }
      var freed := frames.Free(cpu, slot.frame.value);
      if freed.Err? {
        return Err(AllocFailure(freed.error));
      }
      slots := slots[index := cleared];
      backing := Without(backing, SlabItem(index));
      Discharge(allocation.owner, allocation.bytes);
      if |caches[cpu]| < FRAME_CACHE_CAPACITY {
        caches := caches[cpu := caches[cpu] + [index % 0x1_0000]];
      }
      r := Ok(Unit.Unit);
    }

    method Discharge(owner: nat, bytes: nat)
      modifies this`quotas
      ensures quotas == if owner < |old(quotas)| then Discharged(old(quotas), owner, bytes) else old(quotas)
    {
      if owner < |quotas| {
        var quota := quotas[owner];
        quotas := quotas[owner := quota.(used := SaturatingSub(quota.used, bytes))];
      }
    }

    /** The frames in a record's lease records, if they are all there. */
    method PageBatch(record: PageRecord) returns (r: Result<seq<FrameLease>, HeapError>)
      ensures r.Ok? <==> AllPresent(record, leases) && record.leaseCount <= MAX_BATCH_FRAMES
      ensures r.Err? ==> r.error == HeapError.InvalidHandle
      ensures r.Ok? ==> BatchOf(record, leases, r.value)
    {
      if record.leaseStart + record.leaseCount > |leases| {
        return Err(HeapError.InvalidHandle);
      }
      var batch := [];
      for k := 0 to record.leaseCount
        invariant |batch| == k <= MAX_BATCH_FRAMES
        invariant forall j :: record.leaseStart <= j < record.leaseStart + k ==> leases[j].used && leases[j].lease.Some?
        invariant forall j :: 0 <= j < k ==> leases[record.leaseStart + j] == LeaseRecord(true, Some(batch[j]))
      {
        var lease := leases[record.leaseStart + k];
        if !lease.used || lease.lease.None? {
          return Err(HeapError.InvalidHandle);
        }
        if |batch| == MAX_BATCH_FRAMES {
          return Err(HeapError.InvalidHandle);
        }
        batch := batch + [lease.lease.value];
      }
      r := Ok(batch);
    }

    /** Empty a record's lease records. */
    method EmptyLeases(start: nat, count: nat)
      requires start + count <= |leases|
      modifies this`leases
      ensures LeasesEmptied(old(leases), leases, start, count)
    {
      for offset := 0 to count
        invariant LeasesEmptied(old(leases), leases, start, offset)
      {
        leases := leases[start + offset := NO_LEASE];
      }
    }

    method FreePages(index: nat, allocation: HeapAllocation) returns (r: Result<Unit, HeapError>)
      requires Valid() && allocation.item == PagesItem(index)
      modifies this, frames, frames.manager
      ensures Valid() && SparesOthers()
      ensures r.Ok? <==> old(Names(allocation))
      ensures r.Ok? ==> Released(allocation)
      ensures r.Err? ==> Untouched()
    {
      hide Backed, Charged, SmpFrameAllocator.Valid, SmpFrameAllocator.Exact, LeasesEmptied, SlotsOf, DistinctSlots,
           BatchOf, AllPresent, Without, Discharged;
      if index >= |records| {
        return Err(HeapError.InvalidHandle);
      }
      var record := records[index];
      if !record.used || record.generation != allocation.generation {
        return Err(HeapError.StaleHandle);
      }
      if record.owner != allocation.owner {
        return Err(HeapError.WrongOwner);
      }
      if record.address != allocation.address || record.bytes != allocation.bytes {
        return Err(HeapError.InvalidHandle);
      }
      ghost var leasesBefore, heldBefore := leases, frames.held;
      RecordPresent(slots, records, leases, backing, frames.held, index);
      var batch := PageBatch(record);
      if batch.Err? {
        return Err(HeapError.InvalidHandle);
      }
      if allocation.pages.Some? {
        BatchUnique(record, leases, batch.value, allocation.pages.value);
      }
      if allocation.pages != Some(batch.value) {
        return Err(HeapError.InvalidHandle);
      }
      BatchServes(slots, records, leases, backing, frames.held, index, batch.value);
      var freed := frames.FreeDirectBatch(batch.value);
      if freed.Err? {
        return Err(FreeFailureOf(freed));
      }
      EmptyLeases(record.leaseStart, record.leaseCount);
      var cleared := record.(used := false, owner := 0, bytes := 0, address := 0, leaseStart := 0, leaseCount := 0);
      PagesRemoved(slots, records, leasesBefore, leases, backing, heldBefore, quotas, index, cleared, batch.value);
      records := records[index := cleared];
      backing := Without(backing, PagesItem(index));
      Discharge(allocation.owner, allocation.bytes);
      r := Ok(Unit.Unit);
    }

    /** Free the object that starts at an address. */
    method FreeAddress(cpu: nat, address: nat) returns (r: Result<Unit, HeapError>)
      requires Valid()
      modifies this, frames, frames.manager
      ensures Valid() && SparesOthers()
      ensures r.Ok? ==> address != 0 && exists allocation ::
              Released(allocation) && old(StartsAt(slots, records, allocation.item, address))
      ensures r.Err? ==>
              && Untouched()
              && (address == 0 || cpu >= MAX_MEMORY_CPUS || forall item :: !StartsAt(slots, records, item, address))
    {
      hide Backed, Charged, SmpFrameAllocator.Valid, SmpFrameAllocator.Exact;
      if address == 0 {
        return Err(HeapError.InvalidHandle);
      }
      for index := 0 to |slots|
        invariant Valid() && Untouched() && frames.held == old(frames.held)
        invariant forall i :: 0 <= i < index ==> !(slots[i].used && slots[i].address == address)
      {
        var slot := slots[index];
        if slot.used && slot.address == address {
          var allocation := HeapAllocation(SlabItem(index), slot.generation, slot.owner, slot.bytes, slot.address,
                                           None);
          r := Free(cpu, allocation);
          return;
        }
      }
      r := FreePagesAt(cpu, address);
    }

    method FreePagesAt(cpu: nat, address: nat) returns (r: Result<Unit, HeapError>)
      requires Valid() && address != 0 && forall i :: 0 <= i < |slots| ==>
               !(slots[i].used && slots[i].address == address)
      modifies this, frames, frames.manager
      ensures Valid() && SparesOthers()
      ensures r.Ok? ==> exists allocation :: Released(allocation)
                                             && old(StartsAt(slots, records, allocation.item, address))
      ensures r.Err? ==> Untouched() && forall item :: !StartsAt(slots, records, item, address)
    {
      hide Backed, Charged, SmpFrameAllocator.Valid, SmpFrameAllocator.Exact;
      for index := 0 to |records|
        invariant Valid() && Untouched() && frames.held == old(frames.held)
        invariant forall i :: 0 <= i < index ==> !(records[i].used && records[i].address == address)
      {
        var record := records[index];
        if record.used && record.address == address {
          RecordPresent(slots, records, leases, backing, frames.held, index);
          var batch := PageBatch(record);
          if batch.Err? {
            return Err(HeapError.InvalidHandle);
          }
          var allocation := HeapAllocation(PagesItem(index), record.generation, record.owner, record.bytes,
                                           record.address, Some(batch.value));
          r := Free(cpu, allocation);
          return;
        }
      }
      r := Err(HeapError.InvalidHandle);
    }

    /** What an owner's live objects add up to; for owners with a quota that is what it counts. */
    method LiveBytes(owner: nat) returns (total: nat)
      requires Valid()
      ensures total == SlabBytes(slots, owner) + RecordBytes(records, owner)
      ensures owner < MAX_QUOTAS ==> total == quotas[owner].used
    {
      hide Backed, SmpFrameAllocator.Valid, SmpFrameAllocator.Exact;
      total := 0;
      for i := 0 to |slots|
        invariant total == SlabBytes(slots[..i], owner)
      {
        assert slots[..i + 1][..i] == slots[..i];
        total := total + SlabCharge(slots[i], owner);
      }
      assert slots[..|slots|] == slots;
      var pages: nat := 0;
      for i := 0 to |records|
        invariant pages == RecordBytes(records[..i], owner)
      {
        assert records[..i + 1][..i] == records[..i];
        pages := pages + RecordCharge(records[i], owner);
      }
      assert records[..|records|] == records;
      total := total + pages;
    }

    /** In every valid heap no byte belongs to two live objects. */
    lemma ObjectsDisjoint(a: Item, b: Item, x: nat)
      requires Valid()
      requires LiveExtent(slots, records, a).Some? && Occupies(LiveExtent(slots, records, a).value, x)
      requires LiveExtent(slots, records, b).Some? && Occupies(LiveExtent(slots, records, b).value, x)
      ensures a == b
    {
      OneObjectPerByte(slots, records, leases, backing, frames.held, frames.manager.runs, frames.manager.frameCount, a,
                       b, x);
    }

    /** The object is gone and its owner discharged; nothing else changed. */
    twostate predicate Released(allocation: HeapAllocation)
      reads this
    {
      && OnlyChanged(allocation.item, Some(Extent(allocation.owner, allocation.bytes, allocation.address)), None)
      && allocation.owner < |old(quotas)| && allocation.bytes <= old(quotas)[allocation.owner].used
      && quotas == Discharged(old(quotas), allocation.owner, allocation.bytes)
    }

    /** A new live object of exactly the bytes asked for, on a page boundary, charged to its owner. */
    twostate predicate Granted(allocation: HeapAllocation, owner: nat, bytes: nat)
      reads this
    {
      && Names(allocation) && allocation.owner == owner && allocation.bytes == bytes
      && allocation.address % PAGE_SIZE == 0
      && OnlyChanged(allocation.item, None, Some(Extent(owner, bytes, allocation.address)))
      && owner < |old(quotas)| && quotas == old(quotas)[owner :=
                                                        old(quotas)[owner].(used := old(quotas)[owner].used + bytes)]
    }

    /** Nothing the heap keeps has changed, but for hints. */
    twostate predicate Untouched()
      reads this
    {
      slots == old(slots) && records == old(records) && leases == old(leases) && quotas == old(quotas)
          && backing == old(backing)
    }
  }

  /** A frame just issued was not one of the heap's. */
  lemma Received(slots: seq<HeapSlot>, records: seq<PageRecord>, leases: seq<LeaseRecord>, backing: Backing,
                 held: map<nat, FrameLease>, frame: FrameLease)
    requires Backed(slots, records, leases, backing, held) && frame.slot !in held
    ensures frame.slot !in backing && Backed(slots, records, leases, backing, held[frame.slot := frame])
  {
    BackedSpared(slots, records, leases, backing, held, held[frame.slot := frame]);
  }

  lemma ReceivedBatch(slots: seq<HeapSlot>, records: seq<PageRecord>, leases: seq<LeaseRecord>, backing: Backing,
                      before: map<nat, FrameLease>,
                      after: map<nat, FrameLease>, batch: seq<FrameLease>)
    requires Backed(slots, records, leases, backing, before) && |batch| > 0
             && HeldGrew(before, after, batch[0].slot, |batch|)
    requires forall k :: 0 <= k < |batch| ==> batch[k].slot == batch[0].slot + k && batch[k].slot !in before
    ensures DistinctSlots(batch) && (forall k :: 0 <= k < |batch| ==> batch[k].slot !in backing)
    ensures Backed(slots, records, leases, backing, after)
    ensures after - SlotsOf(batch) == before
  {
    forall slot | batch[0].slot <= slot < batch[0].slot + |batch|
      ensures slot !in before && slot in SlotsOf(batch)
    {
      assert batch[slot - batch[0].slot].slot == slot;
    }
    BackedSpared(slots, records, leases, backing, before, after);
  }

  lemma {:induction false} PagesInstalled(slots: seq<HeapSlot>, records: seq<PageRecord>, leases: seq<LeaseRecord>,
                                          leases': seq<LeaseRecord>, backing: Backing,
                       held: map<nat, FrameLease>, quotas: seq<HeapLedger.Quota>, r: nat, record: PageRecord,
                           batch: seq<FrameLease>)
    requires Backed(slots, records, leases, backing, held) && Charged(slots, records, quotas) && r < |records|
             && !records[r].used
    requires record.used && SLAB_LIMIT < record.bytes && 0 < record.owner < MAX_QUOTAS
    requires record.leaseCount == |batch| == PagesFor(record.bytes) <= MAX_BATCH_FRAMES
    requires LeasesFilled(leases, leases', record.leaseStart, batch) && Vacancy(leases, record.leaseStart, |batch|)
    requires DistinctSlots(batch) && forall k :: 0 <= k < |batch| ==> batch[k].slot !in backing
    requires forall k :: 0 <= k < |batch| ==>
             HeldBy(held, batch[k]) && batch[k].address == record.address + k * PAGE_SIZE
    ensures Backed(slots, records[r := record], leases', Assigned(backing, r, batch), held)
    ensures Assigned(backing, r, batch).Keys == backing.Keys + SlotsOf(batch) && BatchOf(record, leases', batch)
    ensures |quotas| == MAX_QUOTAS
    ensures Charged(slots, records[r := record],
                    quotas[record.owner := quotas[record.owner].(used := quotas[record.owner].used + record.bytes)])
  {
    hide Backed, Charged, LeasesFilled, BatchOf, Assigned, SlotsOf, DistinctSlots;
    ChargedLength(slots, records, quotas);
    ChargedPages(slots, records, quotas, r, record, record.owner, quotas[record.owner].used + record.bytes);
    BackedPagesIn(slots, records, leases, leases', backing, held, r, record, batch);
    FilledBatch(leases, leases', record, batch);
  }

  lemma FilledBatch(before: seq<LeaseRecord>, after: seq<LeaseRecord>, record: PageRecord, batch: seq<FrameLease>)
    requires LeasesFilled(before, after, record.leaseStart, batch) && record.leaseCount == |batch|
    ensures BatchOf(record, after, batch)
  {
  }

  /** Frames are on page boundaries. */
  lemma FramesAligned(frames: SmpFrameAllocator, frame: FrameLease)
    requires frames.Valid() && HeldBy(frames.held, frame)
    ensures frame.address % PAGE_SIZE == 0
  {
    AddressShaped(frames.manager.runs, frames.manager.frameCount, frame.slot);
  }

  /** Consecutive frames of one run have consecutive addresses. */
  lemma {:induction false} WindowAddresses(runs: seq<RunMetadata>, count: nat, batch: seq<FrameLease>)
    requires Laid(runs, count) && |batch| > 0 && InOneRun(runs, batch[0].slot, |batch|)
             && batch[0].slot + |batch| <= count
    requires forall k :: 0 <= k < |batch| ==>
             batch[k].slot == batch[0].slot + k && batch[k].address == AddressOf(runs, count, batch[0].slot + k)
    ensures forall k :: 0 <= k < |batch| ==> batch[k].address == batch[0].address + k * PAGE_SIZE
  {
    var run :| 0 <= run < |runs| && runs[run].firstSlot <= batch[0].slot
        && batch[0].slot + |batch| <= runs[run].LastSlot();
    forall k | 0 <= k < |batch|
      ensures batch[k].address == batch[0].address + k * PAGE_SIZE
    {
      AddressesContiguous(runs, count, run, batch[0].slot - runs[run].firstSlot, k);
    }
  }

  function Discharged(quotas: seq<HeapLedger.Quota>, owner: nat, bytes: nat): seq<HeapLedger.Quota>
    requires owner < |quotas|
  {
    var quota := quotas[owner];
    quotas[owner := quota.(used := SaturatingSub(quota.used, bytes))]
  }

  lemma SlabRemoved(slots: seq<HeapSlot>, records: seq<PageRecord>, leases: seq<LeaseRecord>, backing: Backing,
                    held: map<nat, FrameLease>, quotas: seq<HeapLedger.Quota>, i: nat, slot: HeapSlot)
    requires Backed(slots, records, leases, backing, held) && Charged(slots, records, quotas) && i < |slots|
             && slots[i].used && !slot.used
    ensures slots[i].frame.Some? && HeldBy(held, slots[i].frame.value) && slots[i].frame.value.slot in backing
    ensures Without(backing, SlabItem(i)).Keys == backing.Keys - {slots[i].frame.value.slot}
    ensures Backed(slots[i := slot], records, leases, Without(backing, SlabItem(i)), held - {slots[i].frame.value.slot})
    ensures slots[i].owner < MAX_QUOTAS == |quotas| && slots[i].bytes <= quotas[slots[i].owner].used
    ensures Charged(slots[i := slot], records, Discharged(quotas, slots[i].owner, slots[i].bytes))
  {
    hide Charged, SlabsBacked, RecordsBacked, NoneIdle;
    BackedSlabOut(slots, records, leases, backing, held, i, slot);
    SlabOwner(slots, backing, held, i);
    ChargedLength(slots, records, quotas);
    ChargedCovers(slots, records, quotas, SlabItem(i));
    ChargedSlab(slots, records, quotas, i, slot, slots[i].owner, quotas[slots[i].owner].used - slots[i].bytes);
  }

  lemma PagesRemoved(slots: seq<HeapSlot>, records: seq<PageRecord>, leases: seq<LeaseRecord>,
                     leases': seq<LeaseRecord>, backing: Backing,
                     held: map<nat, FrameLease>, quotas: seq<HeapLedger.Quota>, r: nat, record: PageRecord,
                         batch: seq<FrameLease>)
    requires Backed(slots, records, leases, backing, held) && Charged(slots, records, quotas) && r < |records|
             && records[r].used && !record.used
    requires BatchOf(records[r], leases, batch)
             && LeasesEmptied(leases, leases', records[r].leaseStart, records[r].leaseCount)
    ensures Without(backing, PagesItem(r)).Keys == backing.Keys - SlotsOf(batch) && SlotsOf(batch) <= backing.Keys
    ensures Backed(slots, records[r := record], leases', Without(backing, PagesItem(r)), held - SlotsOf(batch))
    ensures records[r].owner < MAX_QUOTAS == |quotas| && records[r].bytes <= quotas[records[r].owner].used
    ensures Charged(slots, records[r := record], Discharged(quotas, records[r].owner, records[r].bytes))
  {
    hide Charged, Backed, BatchOf, LeasesEmptied, SlotsOf, RecordBytes, SlabBytes;
    BackedPagesOut(slots, records, leases, leases', backing, held, r, record, batch);
    RecordPresent(slots, records, leases, backing, held, r);
    ChargedLength(slots, records, quotas);
    ChargedCovers(slots, records, quotas, PagesItem(r));
    ChargedPages(slots, records, quotas, r, record, records[r].owner, quotas[records[r].owner].used - records[r].bytes);
  }

  predicate StartsAt(slots: seq<HeapSlot>, records: seq<PageRecord>, item: Item, address: nat) {
    LiveExtent(slots, records, item).Some? && LiveExtent(slots, records, item).value.address == address
  }

  predicate AllPresent(record: PageRecord, leases: seq<LeaseRecord>) {
    && record.leaseStart + record.leaseCount <= |leases|
    && forall j :: record.leaseStart <= j < record.leaseStart + record.leaseCount ==>
       leases[j].used && leases[j].lease.Some?
  }

  lemma RecordPresent(slots: seq<HeapSlot>, records: seq<PageRecord>, leases: seq<LeaseRecord>, backing: Backing,
                      held: map<nat, FrameLease>, r: nat)
    requires Backed(slots, records, leases, backing, held) && r < |records| && records[r].used
    ensures AllPresent(records[r], leases) && records[r].leaseCount <= MAX_BATCH_FRAMES
    ensures records[r].owner < MAX_QUOTAS && records[r].leaseStart + records[r].leaseCount <= |leases|
  {
    assert RecordBacked(records[r], r, leases, backing, held);
    forall j | records[r].leaseStart <= j < records[r].leaseStart + records[r].leaseCount
      ensures leases[j].used && leases[j].lease.Some?
    {
      var k := j - records[r].leaseStart;
      assert LeaseBacked(leases[records[r].leaseStart + k], Use(PagesItem(r), k), records[r].address + k * PAGE_SIZE,
                         backing, held);
    }
  }

  lemma BatchUnique(record: PageRecord, leases: seq<LeaseRecord>, batch: seq<FrameLease>, other: seq<FrameLease>)
    requires BatchOf(record, leases, batch)
    ensures BatchOf(record, leases, other) <==> other == batch
  {
    if BatchOf(record, leases, other) {
      forall k | 0 <= k < |batch|
        ensures batch[k] == other[k]
      {
        assert leases[record.leaseStart + k] == LeaseRecord(true, Some(batch[k]));
      }
    }
  }

  lemma SlabOwner(slots: seq<HeapSlot>, backing: Backing, held: map<nat, FrameLease>, i: nat)
    requires SlabsBacked(slots, backing, held) && i < |slots| && slots[i].used
    ensures slots[i].owner < MAX_QUOTAS
  {
    assert SlabBacked(slots[i], i, backing, held);
  }

  predicate WellFormed(cpu: nat, owner: nat, bytes: nat, alignment: nat) {
    cpu < MAX_MEMORY_CPUS && 0 < owner < MAX_QUOTAS && bytes > 0 && PowerOfTwo(alignment) && alignment <= PAGE_SIZE
  }

  predicate OverQuota(quotas: seq<HeapLedger.Quota>, owner: nat, bytes: nat)
    requires owner < |quotas|
  {
    quotas[owner].used + bytes > USIZE_MAX || quotas[owner].used + bytes > quotas[owner].limit
  }

  ghost predicate NoFrame(records: seq<FrameRecord>, count: nat) {
    count <= |records| ==> NoneFreeRecord(records, 0, count)
  }

  predicate Vacancy(leases: seq<LeaseRecord>, start: nat, pages: nat) {
    start + pages <= |leases| && forall j :: start <= j < start + pages ==> !leases[j].used
  }

  lemma ChargedLength(slots: seq<HeapSlot>, records: seq<PageRecord>, quotas: seq<HeapLedger.Quota>)
    requires Charged(slots, records, quotas)
    ensures |quotas| == MAX_QUOTAS
  {
  }

  lemma {:induction false} NothingCharged(slots: seq<HeapSlot>, records: seq<PageRecord>, who: nat)
    requires forall i :: 0 <= i < |slots| ==> !slots[i].used
    requires forall r :: 0 <= r < |records| ==> !records[r].used
    ensures SlabBytes(slots, who) == 0 && RecordBytes(records, who) == 0
    decreases |slots| + |records|
  {
    if |slots| > 0 {
      NothingCharged(slots[..|slots| - 1], records, who);
    } else if |records| > 0 {
      NothingCharged(slots, records[..|records| - 1], who);
    }
  }
}
