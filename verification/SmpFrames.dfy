/**
 Frame allocation from several CPUs: per-CPU caches, remote-free queues and
 word-aligned shards over one frame manager. Each call is one uncontended step.

 `held` is the lease each slot's holder has, `issued` every pair of slot and stamp
 ever handed out. `Valid` is kept whatever callers free, including the same lease
 twice on different CPUs; `Exact` is kept when each lease is freed once.
 */
module SmpFrames {
  import opened Common
  import opened FrameManagers
  import opened FrameLedger
  import opened FrameShards
  import FrameRuns

  const FRAME_CACHE_REFILL: nat := 8

  datatype AllocationError = WouldBlock | Exhausted | InvalidCpu | InvalidOwner | StaleHandle | WrongOwner |
      BatchCapacity

  function FreeFailure(error: FrameError): AllocationError {
    if error == FrameError.WrongOwner then AllocationError.WrongOwner else AllocationError.StaleHandle
  }

  lemma SwapRemovedWithin(pools: Pools, p: nat, i: nat)
    requires p < |pools| && i < |pools[p]|
    ensures Within(pools[p := SwapRemoved(pools[p], i)], pools)
  {
    var after: Pools := pools[p := SwapRemoved(pools[p], i)];
    forall q: nat, j: nat {:trigger after[q][j]} | 0 <= q < |after| && 0 <= j < |after[q]|
      ensures after[q][j] in pools[q]
    {
      if q == p && j == i {
        assert after[q][j] == pools[p][|pools[p]| - 1];
      } else {
        assert after[q][j] == pools[q][j];
      }
    }
  }

  class SmpFrameAllocator {
    const manager: FrameManager
    var pools: Pools
    ghost var held: map<nat, FrameLease>
    ghost var issued: set<(nat, nat)>
    ghost var place: map<nat, Place>

    ghost predicate Valid()
      reads this, manager
    {
      && manager.Valid()
      && Bounded(pools)
      && Sound(pools, manager.records, manager.bumps, held, issued)
      && Addressed()
    }

    /** Holders know where their frames are. */
    ghost predicate Addressed()
      reads this`held, manager`runs, manager`frameCount
    {
      FrameRuns.Laid(manager.runs, manager.frameCount) &&
      forall slot :: slot in held ==> slot < manager.frameCount
                                      && held[slot].address == FrameRuns.AddressOf(manager.runs, manager.frameCount,
          slot)
    }

    /** Every frame is free, at one pool position, or with one holder. */
    ghost predicate Exact()
      reads this, manager
    {
      && Accounted(pools, manager.records, manager.frameCount, held, place)
      && Settled(place, manager.frameCount)
    }

    constructor (manager: FrameManager)
      requires manager.Valid()
      requires forall slot :: 0 <= slot < manager.frameCount ==> manager.records[slot].state == FREE
      ensures Valid() && Exact() && held == map[] && issued == {} && this.manager == manager
    {
      this.manager := manager;
      pools := seq(2 * MAX_MEMORY_CPUS, _ => []);
      held := map[];
      issued := {};
      place := VacantPlaces(manager.frameCount);
    }

    /** Every frame but one is settled; that one is between two places. */
    ghost predicate ExactBut(slot: nat)
      reads this, manager
    {
      && Accounted(pools, manager.records, manager.frameCount, held, place)
      && slot < manager.frameCount && slot in place && place[slot] == Transit
      && Settled(place - {slot}, manager.frameCount)
    }

    // --- Steps ------------------------------------------------------------------

    /** Take a lease out of a pool; the last one moves into its position. */
    method TakeAt(p: nat, i: nat) returns (lease: FrameLease)
      requires Valid() && p < |pools| && i < |pools[p]|
      modifies this`pools, this`place
      ensures Valid() && lease == old(pools)[p][i] && pools == old(pools)[p := SwapRemoved(old(pools)[p], i)]
      ensures lease.slot < |manager.records| && lease.homeCpu < MAX_MEMORY_CPUS
      ensures ValidateLease(manager.records, lease).Ok? ==> Unheld(held, manager.bumps, lease.slot)
      ensures old(Exact()) ==> ExactBut(lease.slot) && ValidateLease(manager.records, lease).Ok?
    {
      hide Sound, Accounted, Addressed, FrameManager.Valid;
      lease := pools[p][i];
      SwapRemovedWithin(pools, p, i);
      SoundWithin(pools, pools[p := SwapRemoved(pools[p], i)], manager.records, manager.bumps, held, issued);
      TakenUnheld(pools, manager.records, manager.bumps, held, issued, p, i);
      if Exact() {
        AccountedTake(pools, manager.records, manager.frameCount, held, place, p, i);
        AccountedAt(pools, manager.records, manager.frameCount, held, place, p, i);
        SettledTaken(pools, manager.records, place, manager.frameCount, held, p, i);
        place := PlacesTaken(pools, place, p, i);
      }
      pools := pools[p := SwapRemoved(pools[p], i)];
    }

    /** Give the frame of a lease that nobody holds a fresh stamp. */
    method Restamp(lease: FrameLease) returns (r: Result<FrameLease, AllocationError>)
      requires Valid() && (ValidateLease(manager.records, lease).Ok? ==> Unheld(held, manager.bumps, lease.slot))
      modifies manager`records, manager`bumps
      ensures Aged(old(manager.bumps), manager.bumps)
      ensures Valid() && (old(ExactBut(lease.slot)) ==> ExactBut(lease.slot))
      ensures r.Ok? <==> lease.slot < manager.frameCount && ValidateLease(old(manager.records), lease).Ok?
      ensures r.Ok? ==> NewStamp(pools, issued, manager.records, manager.bumps, lease.slot)
                        && Unheld(held, manager.bumps, lease.slot)
      ensures r.Ok? ==> ValidateLease(manager.records, r.value).Ok? && r.value.slot == lease.slot
                        && r.value.homeCpu == lease.homeCpu
      ensures r.Ok? ==> r.value.owner == lease.owner && r.value.state == lease.state
                        && r.value.address == manager.Address(lease.slot)
      ensures r.Ok? ==> manager.records == old(manager.records)[lease.slot :=
                                                                Refreshed(old(manager.records)[lease.slot])]
      ensures r.Err? ==> manager.records == old(manager.records) && manager.bumps == old(manager.bumps)
      ensures r.Err? ==> r.error == AllocationError.StaleHandle || r.error == AllocationError.WrongOwner
    {
      hide Sound, Accounted, Addressed, Settled, ShardFrom, FrameManager.Indexed, NewStamp, Unheld;
      var shard := ShardForSlot(manager.frameCount, lease.slot);
      ShardExists(manager.frameCount, lease.slot);
      if shard.None? {
        return Err(AllocationError.StaleHandle);
      }
      ghost var records, bumps := manager.records, manager.bumps;
      var refreshed := manager.Refresh(lease);
      if refreshed.Err? {
        return Err(FreeFailure(refreshed.error));
      }
      SoundAfterStamp(pools, records, bumps, held, issued, lease.slot, Refreshed(records[lease.slot]));
      if old(ExactBut(lease.slot)) {
        AccountedChange(pools, records, manager.frameCount, held, place, lease.slot, Refreshed(records[lease.slot]),
                        Transit);
        assert place[lease.slot := Transit] == place;
      }
      r := Ok(refreshed.value);
    }

    /** Hand a freshly stamped frame to a holder. */
    ghost method Hold(lease: FrameLease)
      requires Valid() && NewStamp(pools, issued, manager.records, manager.bumps, lease.slot)
      requires ValidateLease(manager.records, lease).Ok? && lease.homeCpu < MAX_MEMORY_CPUS
      requires lease.slot < manager.frameCount && lease.address == manager.Address(lease.slot)
      modifies this`held, this`issued, this`place
      ensures Valid() && held == old(held)[lease.slot := lease]
              && issued == old(issued) + {(lease.slot, lease.generation)}
      ensures Unwrapped(manager.bumps, lease.slot) ==> (lease.slot, lease.generation) !in old(issued)
      ensures old(ExactBut(lease.slot)) ==> Exact() && lease.slot !in old(held)
    {
      hide Sound, Accounted, FrameManager.Indexed, NewStamp, RecordsOk, Settled;
      SoundAfterHold(pools, manager.records, manager.bumps, held, issued, lease);
      if ExactBut(lease.slot) {
        AccountedHold(pools, manager.records, manager.frameCount, held, place, lease);
        SettledPut(place, lease.slot, Held, manager.frameCount);
        place := place[lease.slot := Held];
      }
      held := held[lease.slot := lease];
      issued := issued + {(lease.slot, lease.generation)};
    }

    /** Put the current lease of a frame nobody holds into a pool with room. */
    method Store(p: nat, lease: FrameLease)
      requires Valid() && p < |pools| && |pools[p]| < FRAME_CACHE_CAPACITY && Unheld(held, manager.bumps, lease.slot)
      requires ValidateLease(manager.records, lease).Ok? && lease.homeCpu < MAX_MEMORY_CPUS
      modifies this`pools, this`place
      ensures Valid() && pools == old(pools)[p := old(pools)[p] + [lease]]
      ensures old(ExactBut(lease.slot)) ==> Exact()
    {
      hide Sound, Accounted, Addressed, FrameManager.Valid, Settled;
      SoundAfterStore(pools, manager.records, manager.bumps, held, issued, p, lease);
      if ExactBut(lease.slot) {
        AccountedStore(pools, manager.records, manager.frameCount, held, place, p, lease);
        SettledPut(place, lease.slot, Pooled(p, |pools[p]|), manager.frameCount);
        place := place[lease.slot := Pooled(p, |pools[p]|)];
      }
      pools := pools[p := pools[p] + [lease]];
    }

    /** The holder of a slot, if any, gives it up. */
    ghost method GiveUp(slot: nat)
      requires Valid()
      modifies this`held, this`place
      ensures Valid() && held == old(held) - {slot} && Unheld(held, manager.bumps, slot)
      ensures old(Exact()) && slot in old(held) ==> ExactBut(slot)
    {
      hide Sound, Accounted, FrameManager.Valid;
      SoundAfterGiveUp(pools, manager.records, manager.bumps, held, issued, slot);
      if Exact() && slot in held {
        AccountedGiveUp(pools, manager.records, manager.frameCount, held, place, slot);
        place := place[slot := Transit];
      }
      held := held - {slot};
    }

    /** Make the frame of a valid lease that nobody holds free. */
    method ReleaseFrame(lease: FrameLease)
      requires Valid() && ValidateLease(manager.records, lease).Ok? && Unheld(held, manager.bumps, lease.slot)
      modifies manager`records, manager`free, manager`summary, this`place
      ensures Valid() && manager.records == old(manager.records)[lease.slot :=
                                                                 Released(old(manager.records)[lease.slot])]
      ensures old(ExactBut(lease.slot)) ==> Exact()
    {
      hide Sound, Accounted, Addressed, Settled, Unheld, FrameManager.Indexed;
      ghost var records := manager.records;
      var _ := manager.Free(lease);
      SoundAfterRelease(pools, records, manager.bumps, held, issued, lease.slot);
      if old(ExactBut(lease.slot)) {
        AccountedChange(pools, records, manager.frameCount, held, place, lease.slot, Released(records[lease.slot]),
                        Vacant);
        SettledPut(place, lease.slot, Vacant, manager.frameCount);
        place := place[lease.slot := Vacant];
      }
    }

    /** Claim a free frame for a holder on `cpu`. */
    method ClaimSlot(slot: nat, owner: nat, state: FrameState, cpu: nat) returns (lease: FrameLease)
      requires Valid() && slot < manager.frameCount && manager.records[slot].state == FREE && cpu < MAX_MEMORY_CPUS
      modifies manager`records, manager`free, manager`summary, manager`bumps, this`held, this`issued, this`place
      ensures Valid() && Issued(lease, slot, owner, state, cpu)
      ensures manager.records == old(manager.records)[slot := Claimed(old(manager.records)[slot], owner, state)]
      ensures manager.bumps == old(manager.bumps)[slot := old(manager.bumps)[slot] + 1]
      ensures old(Exact()) ==> Exact()
    {
      hide Sound, Accounted, Settled, NewStamp, Unheld, FrameManager.Indexed, Addressed;
      ghost var records, bumps := manager.records, manager.bumps;
      FreeUnheld(pools, records, bumps, held, issued, slot);
      var claimed := manager.Claim(slot, owner, state);
      SoundAfterStamp(pools, records, bumps, held, issued, slot, Claimed(records[slot], owner, state));
      if old(Exact()) {
        AccountedVacant(pools, records, manager.frameCount, held, place, slot);
        AccountedChange(pools, records, manager.frameCount, held, place, slot, Claimed(records[slot], owner, state),
                        Transit);
        SettledRest(place, slot, manager.frameCount);
        place := place[slot := Transit];
      }
      lease := claimed.(homeCpu := cpu);
      UnheldAfter(old(held), bumps, manager.bumps, slot);
      Hold(lease);
    }

    /** `lease` was just issued for `slot`: it is held, and no holder or earlier stamp stands against it. */
    twostate predicate Issued(lease: FrameLease, slot: nat, owner: nat, state: FrameState, cpu: nat)
      reads this, manager
    {
      && lease.slot == slot < manager.frameCount && lease.owner == owner && lease.state == state && lease.homeCpu == cpu
      && FrameRuns.Laid(manager.runs, manager.frameCount) && lease.address == manager.Address(slot)
      && held == old(held)[slot := lease] && issued == old(issued) + {(slot, lease.generation)}
      && (Unwrapped(manager.bumps, slot) ==> slot !in old(held) && (slot, lease.generation) !in old(issued))
      && (old(Exact()) ==> slot !in old(held))
    }

    // --- Operations ---------------------------------------------------------------

    /** Move one remotely freed lease into the CPU's cache, or back to its queue when the cache is full. */
    method DrainOne(cpu: nat)
      requires Valid() && cpu < MAX_MEMORY_CPUS && |pools[RemoteOf(cpu)]| > 0
      modifies this`pools, this`place, manager`records, manager`bumps
      ensures Aged(old(manager.bumps), manager.bumps)
      ensures Valid() && (old(Exact()) ==> Exact())
      ensures SameFree(old(manager.records), manager.records)
      ensures if ValidateLease(old(manager.records), LastOf(old(pools)[RemoteOf(cpu)])).Ok?
              then exists lease :: Drained(old(pools), pools, cpu, lease) && ValidateLease(manager.records, lease).Ok?
              else pools == Dropped(old(pools), RemoteOf(cpu))
      ensures old(Exact()) ==> ValidateLease(old(manager.records), LastOf(old(pools)[RemoteOf(cpu)])).Ok?
    {
      hide Sound, Accounted, Settled, NewStamp, Unheld, Addressed, FrameManager.Indexed;
      var lease := TakeAt(RemoteOf(cpu), |pools[RemoteOf(cpu)]| - 1);
      var restamped := Restamp(lease);
      if restamped.Ok? {
        var mine := restamped.value.(homeCpu := cpu);
        if |pools[cpu]| < FRAME_CACHE_CAPACITY {
          Store(cpu, mine);
        } else {
          Store(RemoteOf(cpu), mine);
        }
        assert Drained(old(pools), pools, cpu, mine);
      }
    }

    /**
     Drain a few remotely freed leases. With every lease current, the newest of the queue
     move to the end of the cache, as many as the refill and the cache allow.
     */
    method DrainRemote(cpu: nat)
      requires Valid() && cpu < MAX_MEMORY_CPUS
      modifies this`pools, this`place, manager`records, manager`bumps
      ensures Aged(old(manager.bumps), manager.bumps)
      ensures Valid() && (old(Exact()) ==> Exact())
      ensures SameFree(old(manager.records), manager.records)
      ensures old(Exact()) ==> Moved(old(pools), pools, cpu, Movable(old(pools), cpu, FRAME_CACHE_REFILL))
    {
      hide Sound, Accounted, Settled, Addressed, FrameManager.Valid, ValidateLease, Moved, Movable;
      MovedNone(pools, cpu);
      for round := 0 to FRAME_CACHE_REFILL
        invariant Valid() && (old(Exact()) ==> Exact()) && Aged(old(manager.bumps), manager.bumps)
        invariant SameFree(old(manager.records), manager.records)
        invariant old(Exact()) ==> Moved(old(pools), pools, cpu, Movable(old(pools), cpu, round))
      {
        if |pools[RemoteOf(cpu)]| == 0 {
          MovedAll(old(pools), pools, cpu, round);
          return;
        }
        ghost var before := pools;
        DrainOne(cpu);
        if old(Exact()) {
          MovedOne(old(pools), before, pools, cpu, round);
        }
      }
    }

    /** Take the most recent lease of a CPU's cache with the given owner and state. */
    method PopMatching(cpu: nat, owner: nat, state: FrameState) returns (r: Option<FrameLease>)
      requires Valid() && cpu < MAX_MEMORY_CPUS
      modifies this`pools, this`place
      ensures Valid()
      ensures r.Some? ==> exists i: nat ::
                Newest(old(pools)[cpu], i, owner, state) && r.value == old(pools)[cpu][i]
                    && pools == old(pools)[cpu := SwapRemoved(old(pools)[cpu], i)]
      ensures r.Some? ==> r.value in old(pools)[cpu] && r.value.owner == owner && r.value.state == state
                          && r.value.homeCpu < MAX_MEMORY_CPUS
      ensures r.Some? && ValidateLease(manager.records, r.value).Ok? ==> Unheld(held, manager.bumps, r.value.slot)
      ensures r.Some? && old(Exact()) ==> ExactBut(r.value.slot) && ValidateLease(manager.records, r.value).Ok?
      ensures r.None? ==> pools == old(pools) && (old(Exact()) ==> Exact())
                          && forall lease :: lease in old(pools)[cpu] ==>
                            lease.owner != owner || lease.state != state
    {
      hide Sound, Accounted, Settled, Addressed, FrameManager.Valid, Unheld;
      var cache := pools[cpu];
      var i := |cache|;
      while i > 0
        invariant 0 <= i <= |cache|
        invariant forall k :: i <= k < |cache| ==> cache[k].owner != owner || cache[k].state != state
      {
        i := i - 1;
        if cache[i].owner == owner && cache[i].state == state {
          assert Newest(cache, i, owner, state);
          var lease := TakeAt(cpu, i);
          return Some(lease);
        }
      }
      r := None;
    }

    /** Reuse a cached frame of the same owner and state under a fresh stamp; a useless lease is dropped. */
    method TakeCached(cpu: nat, owner: nat, state: FrameState) returns (r: Option<Result<FrameLease, AllocationError>>)
      requires Valid() && cpu < MAX_MEMORY_CPUS
      modifies this`pools, this`place, this`held, this`issued, manager`records, manager`bumps
      ensures Aged(old(manager.bumps), manager.bumps)
      ensures Valid() && (old(Exact()) ==> Exact())
      ensures r.Some? && r.value.Ok? ==> Issued(r.value.value, r.value.value.slot, owner, state, cpu)
      ensures r.Some? && r.value.Err? ==> r.value.error == AllocationError.StaleHandle
                                          || r.value.error == AllocationError.WrongOwner
      ensures !(r.Some? && r.value.Ok?) ==> held == old(held) && issued == old(issued)
                                            && manager.records == old(manager.records)
      ensures r.Some? <==> exists lease :: lease in old(pools)[cpu] && lease.owner == owner && lease.state == state
      ensures old(Exact()) && r.Some? ==> r.value.Ok?
    {
      hide Sound, Accounted, Settled, Addressed, NewStamp, FrameManager.Indexed;
      var cached := PopMatching(cpu, owner, state);
      if cached.None? {
        return None;
      }
      var restamped := Restamp(cached.value);
      if restamped.Err? {
        return Some(Err(restamped.error));
      }
      var lease := restamped.value.(homeCpu := cpu);
      Hold(lease);
      r := Some(Ok(lease));
    }

    /** Allocate the lowest free frame of one shard. */
    method ClaimInShard(shard: nat, owner: nat, state: FrameState, cpu: nat) returns (r: Option<FrameLease>)
      requires Valid() && shard < MAX_FRAME_SHARDS && owner != 0 && cpu < MAX_MEMORY_CPUS
      modifies manager`records, manager`free, manager`summary, manager`bumps, this`held, this`issued, this`place
      ensures Aged(old(manager.bumps), manager.bumps)
      ensures Valid() && (old(Exact()) ==> Exact())
      ensures r.Some? ==> Issued(r.value, r.value.slot, owner, state, cpu)
                          && LowestIn(old(manager.records), manager.frameCount, shard, r.value.slot)
      ensures r.None? ==> held == old(held) && issued == old(issued) && manager.records == old(manager.records)
      ensures r.None? ==> NoneIn(manager.records, manager.frameCount, shard)
    {
      hide Sound, Accounted, Settled, Addressed, Boundary, FrameManager.Indexed;
      var first, last := ShardFirst(manager.frameCount, shard), ShardLast(manager.frameCount, shard);
      var slot := manager.FindFree(first, last);
      if slot.None? {
        return None;
      }
      var lease := ClaimSlot(slot.value, owner, state, cpu);
      r := Some(lease);
    }

    /** Try the shards in turn, starting with the CPU's own. */
    method ClaimFromShards(owner: nat, state: FrameState, cpu: nat) returns (r: Option<FrameLease>)
      requires Valid() && owner != 0 && cpu < MAX_MEMORY_CPUS
      modifies manager`records, manager`free, manager`summary, manager`bumps, this`held, this`issued, this`place
      ensures Aged(old(manager.bumps), manager.bumps)
      ensures Valid() && (old(Exact()) ==> Exact())
      ensures r.Some? ==> Issued(r.value, r.value.slot, owner, state, cpu)
      ensures r.Some? ==> exists turn :: 0 <= turn < MAX_FRAME_SHARDS
                                         && InTurn(old(manager.records), manager.frameCount, cpu, turn, r.value.slot)
      ensures r.None? ==> held == old(held) && issued == old(issued) && manager.records == old(manager.records)
      ensures r.None? ==> NoneFreeRecord(manager.records, 0, manager.frameCount)
    {
      hide Sound, Accounted, Settled, Addressed, FrameManager.Indexed, InShard, LowestIn, NoneIn;
      for turn := 0 to MAX_FRAME_SHARDS
        invariant Valid() && (old(Exact()) ==> Exact()) && Aged(old(manager.bumps), manager.bumps)
        invariant held == old(held) && issued == old(issued) && manager.records == old(manager.records)
        invariant forall earlier :: 0 <= earlier < turn ==>
                  NoneIn(manager.records, manager.frameCount, ShardInTurn(cpu, earlier))
      {
        r := ClaimInShard(ShardInTurn(cpu, turn), owner, state, cpu);
        if r.Some? {
          assert InTurn(old(manager.records), manager.frameCount, cpu, turn, r.value.slot);
          return;
        }
      }
      AllShardsTried(manager.records, manager.frameCount, cpu);
      r := None;
    }

    /** Allocate one frame: a cached one if it fits, else from the shards, starting with the CPU's own. */
    method TryAlloc(cpu: nat, owner: nat, state: FrameState) returns (r: Result<FrameLease, AllocationError>)
      requires Valid()
      modifies this`pools, this`place, this`held, this`issued, manager`records, manager`free, manager`summary,
               manager`bumps
      ensures Aged(old(manager.bumps), manager.bumps)
      ensures Valid() && (old(Exact()) ==> Exact())
      ensures r == Err(AllocationError.InvalidCpu) <==> cpu >= MAX_MEMORY_CPUS || owner == 0
      ensures r.Ok? ==> Issued(r.value, r.value.slot, owner, state, cpu)
      ensures r.Err? ==> held == old(held) && issued == old(issued)
      ensures r.Err? && r.error != AllocationError.InvalidCpu ==>
              r.error == AllocationError.Exhausted && NoneFreeRecord(old(manager.records), 0, manager.frameCount)
    {
      hide Sound, Accounted, Settled, Addressed, FrameManager.Indexed, ShardFirst, ShardLast, InShard;
      if cpu >= MAX_MEMORY_CPUS || owner == 0 {
        return Err(AllocationError.InvalidCpu);
      }
      DrainRemote(cpu);
      var cached := TakeCached(cpu, owner, state);
      if cached.Some? && cached.value.Ok? {
        return cached.value;
      }
      var claimed := ClaimFromShards(owner, state, cpu);
      if claimed.Some? {
        return Ok(claimed.value);
      }
      r := Err(AllocationError.Exhausted);
    }

    /** Interrupt path: a cached frame or nothing. */
    method TryAllocIrq(cpu: nat, owner: nat, state: FrameState) returns (r: Result<FrameLease, AllocationError>)
      requires Valid()
      modifies this`pools, this`place, this`held, this`issued, manager`records, manager`bumps
      ensures Aged(old(manager.bumps), manager.bumps)
      ensures Valid() && (old(Exact()) ==> Exact())
      ensures r == Err(AllocationError.InvalidCpu) <==> cpu >= MAX_MEMORY_CPUS || owner == 0
      ensures r == Err(AllocationError.WouldBlock) <==>
                cpu < MAX_MEMORY_CPUS && owner != 0 && !exists lease ::
                    lease in old(pools)[cpu] && lease.owner == owner && lease.state == state
      ensures r.Ok? ==> Issued(r.value, r.value.slot, owner, state, cpu)
      ensures r.Err? ==> held == old(held) && issued == old(issued)
      ensures r.Err? ==> r.error in {AllocationError.InvalidCpu, AllocationError.WouldBlock,
                                     AllocationError.StaleHandle, AllocationError.WrongOwner}
      ensures r.Err? && old(Exact()) ==> r.error == AllocationError.InvalidCpu || r.error == AllocationError.WouldBlock
    {
      hide Sound, Accounted, Settled, Addressed, FrameManager.Indexed;
      if cpu >= MAX_MEMORY_CPUS || owner == 0 {
        return Err(AllocationError.InvalidCpu);
      }
      var cached := TakeCached(cpu, owner, state);
      if cached.None? {
        return Err(AllocationError.WouldBlock);
      }
      r := cached.value;
    }

    /** The pool a freed lease goes to: its home CPU's cache, or that CPU's queue when freed elsewhere. */
    function Destination(cpu: nat, lease: FrameLease): nat {
      if lease.homeCpu == cpu then cpu else RemoteOf(lease.homeCpu)
    }

    /** Free a lease: park it in its pool, or release the frame when the pool is full. */
    method Free(cpu: nat, lease: FrameLease) returns (r: Result<Unit, AllocationError>)
      requires Valid()
      modifies this`pools, this`place, this`held, manager`records, manager`free, manager`summary
      ensures Valid()
      ensures r.Ok? <==> && cpu < MAX_MEMORY_CPUS && lease.homeCpu < MAX_MEMORY_CPUS && lease.slot < manager.frameCount
                         && ValidateLease(old(manager.records), lease).Ok?
                         && lease !in old(pools)[Destination(cpu, lease)]
      ensures r.Ok? ==> held == old(held) - {lease.slot}
      ensures r.Ok? ==> if |old(pools)[Destination(cpu, lease)]| < FRAME_CACHE_CAPACITY
                        then pools == old(pools)[Destination(cpu, lease) :=
                                                 old(pools)[Destination(cpu, lease)] + [lease]]
                            && manager.records == old(manager.records)
                        else pools == old(pools) && manager.records
                             == old(manager.records)[lease.slot := Released(old(manager.records)[lease.slot])]
      ensures r.Err? ==> unchanged(this) && manager.records == old(manager.records)
      ensures cpu < MAX_MEMORY_CPUS && HeldBy(old(held), lease)
              && (Unwrapped(manager.bumps, lease.slot) || old(Exact())) ==>
                r.Ok?
      ensures old(Exact()) && HeldBy(old(held), lease) ==> Exact()
    {
      hide Sound, Accounted, Settled, Unheld, FrameManager.Indexed;
      HolderMayFree(pools, manager.records, manager.bumps, held, issued, lease);
      if Exact() {
        AccountedHolderMayFree(pools, manager.records, manager.frameCount, held, place, lease);
      }
      if cpu >= MAX_MEMORY_CPUS || lease.homeCpu >= MAX_MEMORY_CPUS {
        return Err(AllocationError.InvalidCpu);
      }
      ShardExists(manager.frameCount, lease.slot);
      if ShardForSlot(manager.frameCount, lease.slot).None? {
        return Err(AllocationError.StaleHandle);
      }
      var validation := ValidateLease(manager.records, lease);
      if validation.Err? {
        return Err(FreeFailure(validation.error));
      }
      var pool := Destination(cpu, lease);
      if lease in pools[pool] {
        return Err(AllocationError.StaleHandle);
      }
      GiveUp(lease.slot);
      if |pools[pool]| < FRAME_CACHE_CAPACITY {
        Store(pool, lease);
      } else {
        ReleaseFrame(lease);
      }
      r := Ok(Unit.Unit);
    }

    /** Release every frame of a CPU's cache, stopping at a lease that is no longer valid. */
    method FlushCpuCache(cpu: nat)
      requires Valid()
      modifies this`pools, this`place, manager`records, manager`free, manager`summary
      ensures Valid()
      ensures old(Exact()) ==> Exact() && (cpu < MAX_MEMORY_CPUS ==> pools[cpu] == [])
      ensures cpu < MAX_MEMORY_CPUS ==> Flushed(old(pools), pools, cpu, old(manager.records), manager.records,
                                                manager.frameCount)
    {
      hide Sound, Accounted, Settled, Unheld, Addressed, FrameManager.Indexed, Flushed, ValidateLease;
      if cpu >= MAX_MEMORY_CPUS {
        return;
      }
      FlushedNone(pools, cpu, manager.records, manager.frameCount);
      while |pools[cpu]| > 0
        invariant Valid() && (old(Exact()) ==> Exact())
        invariant Flushed(old(pools), pools, cpu, old(manager.records), manager.records, manager.frameCount)
        decreases |pools[cpu]|
      {
        var last := |pools[cpu]| - 1;
        var lease := pools[cpu][last];
        if Exact() {
          AccountedAt(pools, manager.records, manager.frameCount, held, place, cpu, last);
        }
        ShardExists(manager.frameCount, lease.slot);
        FlushedOne(old(pools), pools, cpu, old(manager.records), manager.records, manager.frameCount);
        if ShardForSlot(manager.frameCount, lease.slot).None? {
          var _ := TakeAt(cpu, last);
          continue;
        }
        if ValidateLease(manager.records, lease).Err? {
          return;
        }
        var taken := TakeAt(cpu, last);
        ReleaseFrame(taken);
      }
    }

    /** Claim `count` free frames in a row, all inside one run of physical memory. */
    method AllocContiguous(owner: nat, count: nat, state: FrameState)
        returns (r: Result<seq<FrameLease>, AllocationError>)
      requires Valid()
      modifies manager`records, manager`free, manager`summary, manager`bumps, this`held, this`issued, this`place
      ensures Aged(old(manager.bumps), manager.bumps)
      ensures Valid() && (old(Exact()) ==> Exact())
      ensures r == Err(AllocationError.InvalidOwner) <==> owner == 0
      ensures r == Err(AllocationError.BatchCapacity) <==> owner != 0 && (count == 0 || count > MAX_BATCH_FRAMES)
      ensures r == Err(AllocationError.Exhausted) <==>
              owner != 0 && 0 < count <= MAX_BATCH_FRAMES && NoWindow(manager.runs, old(manager.records), count)
      ensures r.Err? ==> held == old(held) && issued == old(issued)
      ensures r.Err? ==> r.error in {AllocationError.InvalidOwner, AllocationError.BatchCapacity,
                                     AllocationError.Exhausted}
      ensures r.Ok? ==> 0 < count <= MAX_BATCH_FRAMES && |r.value| == count
      ensures r.Ok? && old(Exact()) ==> forall k :: 0 <= k < count ==> r.value[k].slot !in old(held)
      ensures r.Ok? ==> InOneRun(manager.runs, r.value[0].slot, count)
                        && IssuedWindow(r.value, r.value[0].slot, count, owner, state)
    {
      hide Sound, Accounted, Settled, Addressed, FrameManager.Indexed;
      if owner == 0 {
        return Err(AllocationError.InvalidOwner);
      }
      if count == 0 || count > MAX_BATCH_FRAMES {
        return Err(AllocationError.BatchCapacity);
      }
      var first := manager.FindWindow(count);
      if first.None? {
        return Err(AllocationError.Exhausted);
      }
      if Exact() {
        AccountedWindow(pools, manager.records, manager.frameCount, held, place, first.value, count);
      }
      var leases := ClaimWindow(first.value, count, owner, state);
      r := Ok(leases);
    }

    method ClaimWindow(first: nat, count: nat, owner: nat, state: FrameState) returns (leases: seq<FrameLease>)
      requires Valid() && first + count <= manager.frameCount && FreeWindow(manager.records, first, count)
      modifies manager`records, manager`free, manager`summary, manager`bumps, this`held, this`issued, this`place
      ensures Aged(old(manager.bumps), manager.bumps)
      ensures Valid() && (old(Exact()) ==> Exact())
      ensures IssuedWindow(leases, first, count, owner, state)
    {
      hide Sound, Accounted, Settled, Addressed, FrameManager.Indexed, FrameRuns.AddressOf, FrameRuns.Laid, FreshStamps,
           Aged, WindowOf, HeldGrew;
      WindowNone(held, manager.runs, manager.frameCount, first, owner, state);
      AgedStep(manager.bumps, manager.bumps, 0);
      assert FreshStamps([], held, issued, issued, manager.bumps) by {
        FreshStampsNone(held, issued, manager.bumps);
      }
      leases := [];
      for k := 0 to count
        invariant Valid() && (old(Exact()) ==> Exact()) && Aged(old(manager.bumps), manager.bumps)
        invariant IssuedWindow(leases, first, k, owner, state)
        invariant forall slot :: first + k <= slot < first + count ==> manager.records[slot].state == FREE
      {
        ghost var heldBefore, issuedBefore, bumpsBefore := held, issued, manager.bumps;
        var lease := ClaimSlot(first + k, owner, state, 0);
        AgedStep(old(manager.bumps), bumpsBefore, first + k);
        HeldGrewOne(old(held), heldBefore, first, k, lease);
        WindowOne(leases, heldBefore, manager.runs, manager.frameCount, first, owner, state, lease);
        HeldBeforeToo(old(held), heldBefore, first, k);
        FreshStampsOne(leases, old(held), old(issued), issuedBefore, bumpsBefore, manager.bumps, lease);
        leases := leases + [lease];
      }
    }

    /** The leases of a window of consecutive slots, all issued by this call. */
    twostate predicate IssuedWindow(leases: seq<FrameLease>, first: nat, count: nat, owner: nat, state: FrameState)
      reads this, manager
    {
      && FrameRuns.Laid(manager.runs, manager.frameCount) && first + count <= manager.frameCount && |leases| == count
      && WindowOf(leases, held, manager.runs, manager.frameCount, first, owner, state)
      && HeldGrew(old(held), held, first, count)
      && FreshStamps(leases, old(held), old(issued), issued, manager.bumps)
    }

    /** Every lease of a batch names a frame, occurs once and is valid. */
    method CheckBatch(batch: seq<FrameLease>) returns (r: Result<Unit, AllocationError>)
      requires Valid()
      ensures r.Ok? <==> |batch| > 0 && Releasable(batch, manager.records, manager.frameCount)
    {
      hide Sound, FrameManager.Valid, Addressed, ShardFrom, ValidateLease;
      if |batch| == 0 {
        return Err(AllocationError.BatchCapacity);
      }
      for index := 0 to |batch|
        invariant forall k :: 0 <= k < index ==> batch[k].slot < manager.frameCount && batch[k] !in batch[..k]
      {
        ShardExists(manager.frameCount, batch[index].slot);
        if ShardForSlot(manager.frameCount, batch[index].slot).None? || batch[index] in batch[..index] {
          return Err(AllocationError.StaleHandle);
        }
      }
      for index := 0 to |batch|
        invariant forall k :: 0 <= k < index ==> ValidateLease(manager.records, batch[k]).Ok?
      {
        var validation := ValidateLease(manager.records, batch[index]);
        if validation.Err? {
          return Err(FreeFailure(validation.error));
        }
      }
      r := Ok(Unit.Unit);
    }

    lemma HoldersRelease(batch: seq<FrameLease>)
      requires Exact() && DistinctSlots(batch) && forall k :: 0 <= k < |batch| ==> HeldBy(held, batch[k])
      ensures Releasable(batch, manager.records, manager.frameCount)
    {
      HeldReleasable(pools, manager.records, manager.frameCount, held, place, batch);
    }

    /** Make the frame of a valid lease free, past the pools. */
    method FreeFrame(lease: FrameLease)
      requires Valid() && ValidateLease(manager.records, lease).Ok?
      modifies this`place, this`held, manager`records, manager`free, manager`summary
      ensures Valid() && held == old(held) - {lease.slot}
              && manager.records == old(manager.records)[lease.slot := Released(old(manager.records)[lease.slot])]
      ensures old(Exact()) && HeldBy(old(held), lease) ==> Exact()
    {
      hide Sound, Accounted, Settled, Unheld, FrameManager.Indexed, Addressed;
      GiveUp(lease.slot);
      ReleaseFrame(lease);
    }

    /**
     Release a whole batch at once, past the pools: all of it is checked before any frame is
     freed. Two leases of one frame pass the check; the second is then stale, and what came
     before it is freed.
     */
    method FreeDirectBatch(batch: seq<FrameLease>) returns (r: Result<Unit, AllocationError>)
      requires Valid()
      modifies this`place, this`held, manager`records, manager`free, manager`summary
      ensures Valid()
      ensures r.Ok? <==> |batch| > 0 && Releasable(batch, old(manager.records), manager.frameCount)
                         && DistinctSlots(batch)
      ensures DistinctSlots(batch) && r.Err? ==>
              held == old(held) && manager.records == old(manager.records) && place == old(place)
      ensures r.Ok? ==> held == old(held) - SlotsOf(batch)
                        && FreedSlots(old(manager.records), manager.records, SlotsOf(batch))
      ensures r.Err? && |batch| > 0 && Releasable(batch, old(manager.records), manager.frameCount) ==>
                && r.error == AllocationError.StaleHandle
                && exists k: nat :: Repeats(batch, k) && held == old(held) - SlotsOf(batch[..k])
                                    && FreedSlots(old(manager.records), manager.records, SlotsOf(batch[..k]))
      ensures HeldShrank(old(held), held, SlotsOf(batch))
      ensures DistinctSlots(batch) && old(Exact()) && (forall k :: 0 <= k < |batch| ==> HeldBy(old(held), batch[k])) ==>
                Exact() && (|batch| > 0 ==> r.Ok?)
    {
      hide Valid, Exact, ValidateLease, SlotsOf, HeldShrank, Releasable, FreedSlots, DistinctSlots;
      ShrankPart(held, batch, 0);
      ShrankPart(held, batch, |batch|);
      NoSlots(batch[..0]);
      if DistinctSlots(batch) && Exact() && forall k :: 0 <= k < |batch| ==> HeldBy(held, batch[k]) {
        HoldersRelease(batch);
      }
      var checked := CheckBatch(batch);
      if checked.Err? {
        return Err(checked.error);
      }
      for index := 0 to |batch|
        invariant Valid()
        invariant held == old(held) - SlotsOf(batch[..index])
                  && FreedSlots(old(manager.records), manager.records, SlotsOf(batch[..index]))
        invariant DistinctSlots(batch[..index])
        invariant DistinctSlots(batch) && old(Exact())
                  && (forall k :: 0 <= k < |batch| ==> HeldBy(old(held), batch[k])) ==>
                    Exact()
      {
        var lease := batch[index];
        ShrankPart(old(held), batch, index);
        StillValid(batch, old(manager.records), manager.records, manager.frameCount, index);
        if ValidateLease(manager.records, lease).Err? {
          return Err(AllocationError.StaleHandle);
        }
        NextFreed(batch, old(manager.records), manager.records, index);
        FreeFrame(lease);
      }
      assert batch[..|batch|] == batch;
      r := Ok(Unit.Unit);
    }
  }

  function LastOf(queue: seq<FrameLease>): FrameLease
    requires |queue| > 0
  {
    queue[|queue| - 1]
  }

  function Dropped(pools: Pools, p: nat): Pools
    requires p < |pools| && |pools[p]| > 0
  {
    pools[p := pools[p][..|pools[p]| - 1]]
  }

  /**
   The newest lease of a CPU's queue has moved to its cache, or within the queue when the
   cache is full, under another stamp.
   */
  ghost predicate Drained(before: Pools, after: Pools, cpu: nat, lease: FrameLease)
    requires cpu < MAX_MEMORY_CPUS && |before| == 2 * MAX_MEMORY_CPUS && |before[RemoteOf(cpu)]| > 0
  {
    var rest := Dropped(before, RemoteOf(cpu));
    && lease.slot == LastOf(before[RemoteOf(cpu)]).slot && lease.homeCpu == cpu
    && after == if |before[cpu]| < FRAME_CACHE_CAPACITY then
       rest[cpu := before[cpu] + [lease]] else rest[RemoteOf(cpu) := rest[RemoteOf(cpu)] + [lease]]
  }

  /** How many leases `rounds` rounds move from a CPU's queue to its cache. */
  function Movable(pools: Pools, cpu: nat, rounds: nat): (m: nat)
    requires cpu < MAX_MEMORY_CPUS && |pools| == 2 * MAX_MEMORY_CPUS
    ensures m <= |pools[RemoteOf(cpu)]|
  {
    var room := SaturatingSub(FRAME_CACHE_CAPACITY, |pools[cpu]|);
    var limit := if rounds < room then rounds else room;
    if limit < |pools[RemoteOf(cpu)]| then limit else |pools[RemoteOf(cpu)]|
  }

  /** The `m` newest leases of the queue stand at the end of the cache, newest first; all else is where it was. */
  ghost predicate Moved(before: Pools, after: Pools, cpu: nat, m: nat) {
    && cpu < MAX_MEMORY_CPUS && |before| == |after| == 2 * MAX_MEMORY_CPUS && m <= |before[RemoteOf(cpu)]|
    && after == before[cpu := after[cpu]][RemoteOf(cpu) := after[RemoteOf(cpu)]]
    && |after[cpu]| == |before[cpu]| + m && after[cpu][..|before[cpu]|] == before[cpu]
    && (forall k :: |before[cpu]| <= k < |after[cpu]| ==>
       after[cpu][k].slot == before[RemoteOf(cpu)][|before[RemoteOf(cpu)]| - 1 - (k - |before[cpu]|)].slot)
    && |after[RemoteOf(cpu)]| == |before[RemoteOf(cpu)]| - m
    && (forall k :: 0 <= k < |after[RemoteOf(cpu)]| ==> after[RemoteOf(cpu)][k].slot == before[RemoteOf(cpu)][k].slot)
  }

  lemma MovedNone(pools: Pools, cpu: nat)
    requires cpu < MAX_MEMORY_CPUS && |pools| == 2 * MAX_MEMORY_CPUS
    ensures Moved(pools, pools, cpu, Movable(pools, cpu, 0))
  {
  }

  lemma MovedAll(before: Pools, now: Pools, cpu: nat, round: nat)
    requires cpu < MAX_MEMORY_CPUS && |before| == |now| == 2 * MAX_MEMORY_CPUS && |now[RemoteOf(cpu)]| == 0
             && round <= FRAME_CACHE_REFILL
    ensures Moved(before, now, cpu, Movable(before, cpu, round)) ==>
            Movable(before, cpu, round) == Movable(before, cpu, FRAME_CACHE_REFILL)
  {
  }

  lemma MovedOne(before: Pools, now: Pools, after: Pools, cpu: nat, round: nat)
    requires cpu < MAX_MEMORY_CPUS && |before| == 2 * MAX_MEMORY_CPUS
             && Moved(before, now, cpu, Movable(before, cpu, round)) && |now[RemoteOf(cpu)]| > 0
    requires exists lease :: Drained(now, after, cpu, lease)
    ensures Moved(before, after, cpu, Movable(before, cpu, round + 1))
  {
    var lease :| Drained(now, after, cpu, lease);
  }

  /** Exactly the records of the slots became free. */
  ghost predicate FreedSlots(before: seq<FrameRecord>, after: seq<FrameRecord>, slots: set<nat>) {
    |after| == |before| && forall slot :: 0 <= slot < |before| ==>
        after[slot] == if slot in slots then Released(before[slot]) else before[slot]
  }

  /** The lease at `k` is the first for a slot that an earlier one has. */
  ghost predicate Repeats(batch: seq<FrameLease>, k: nat) {
    k < |batch| && DistinctSlots(batch[..k]) && batch[k].slot in SlotsOf(batch[..k])
  }

  /** The next lease of a releasable batch still holds exactly when its slot is not among those just freed. */
  lemma {:induction false} StillValid(batch: seq<FrameLease>, before: seq<FrameRecord>, now: seq<FrameRecord>,
                                      count: nat, index: nat)
    requires index < |batch| && Releasable(batch, before, count) && FreedSlots(before, now, SlotsOf(batch[..index]))
             && DistinctSlots(batch[..index])
    ensures ValidateLease(now, batch[index]).Ok? <==> batch[index].slot !in SlotsOf(batch[..index])
    ensures ValidateLease(now, batch[index]).Err? ==> Repeats(batch, index) && !DistinctSlots(batch)
  {
    var slot := batch[index].slot;
    assert ValidateLease(before, batch[index]).Ok?;
    assert now[slot] == if slot in SlotsOf(batch[..index]) then Released(before[slot]) else before[slot];
    if slot in SlotsOf(batch[..index]) {
      var i :| 0 <= i < index && batch[..index][i].slot == slot;
      assert batch[i].slot == batch[index].slot;
    }
  }

  lemma {:induction false} NextFreed(batch: seq<FrameLease>, before: seq<FrameRecord>, now: seq<FrameRecord>,
                                     index: nat)
    requires index < |batch| && FreedSlots(before, now, SlotsOf(batch[..index])) && DistinctSlots(batch[..index])
    requires ValidateLease(now, batch[index]).Ok? && batch[index].slot !in SlotsOf(batch[..index])
    ensures batch[index].slot < |now| && FreedSlots(before, now[batch[index].slot := Released(now[batch[index].slot])],
                                                    SlotsOf(batch[..index + 1]))
    ensures DistinctSlots(batch[..index + 1])
            && SlotsOf(batch[..index + 1]) == SlotsOf(batch[..index]) + {batch[index].slot}
  {
    SlotsOfOne(batch, index);
    forall i | 0 <= i < index
      ensures batch[i].slot != batch[index].slot
    {
      assert batch[..index][i] in batch[..index];
    }
  }

  /**
   What is gone from a CPU's cache is free; the rest of it and all other pools are as they
   were; no free frame was taken.
   */
  ghost predicate Flushed(before: Pools, after: Pools, cpu: nat, records: seq<FrameRecord>, records': seq<FrameRecord>,
                          count: nat)
    requires cpu < |before|
  {
    && |after| == |before| && after == before[cpu := after[cpu]] && after[cpu] <= before[cpu]
    && count <= |records| == |records'|
    && (forall k :: |after[cpu]| <= k < |before[cpu]| && before[cpu][k].slot < count ==>
       records'[before[cpu][k].slot].state == FREE)
    && (forall slot :: 0 <= slot < count && records[slot].state == FREE ==> records'[slot].state == FREE)
  }

  lemma {:induction false} FlushedNone(pools: Pools, cpu: nat, records: seq<FrameRecord>, count: nat)
    requires cpu < |pools| && count <= |records|
    ensures Flushed(pools, pools, cpu, records, records, count)
  {
    assert pools[cpu := pools[cpu]] == pools;
  }

  lemma {:induction false} FlushedOne(before: Pools, pools: Pools, cpu: nat, records: seq<FrameRecord>,
                                      records': seq<FrameRecord>, count: nat)
    requires cpu < |before| && Flushed(before, pools, cpu, records, records', count) && |pools[cpu]| > 0
    ensures var slot := pools[cpu][|pools[cpu]| - 1].slot;
            var after := pools[cpu := SwapRemoved(pools[cpu], |pools[cpu]| - 1)];
            if slot < count then Flushed(before, after, cpu, records, records'[slot := Released(records'[slot])], count)
            else Flushed(before, after, cpu, records, records', count)
  {
    var last := |pools[cpu]| - 1;
    assert pools[cpu][last] == before[cpu][last];
    assert SwapRemoved(pools[cpu], last) == pools[cpu][..last];
  }

  ghost predicate DistinctSlots(batch: seq<FrameLease>) {
    forall i, j :: 0 <= i < j < |batch| ==> batch[i].slot != batch[j].slot
  }

  function SlotsOf(batch: seq<FrameLease>): set<nat> {
    set lease <- batch :: lease.slot
  }

  /** Only slots of `freed` are held no longer; the others are held as before. */
  ghost predicate HeldShrank(before: map<nat, FrameLease>, after: map<nat, FrameLease>, freed: set<nat>) {
    after.Keys <= before.Keys && before.Keys - after.Keys <= freed && forall slot :: slot in after ==>
        after[slot] == before[slot]
  }

  lemma ShrankPart(held: map<nat, FrameLease>, batch: seq<FrameLease>, k: nat)
    requires k <= |batch|
    ensures HeldShrank(held, held - SlotsOf(batch[..k]), SlotsOf(batch)) && HeldShrank(held, held, SlotsOf(batch))
  {
  }

  lemma NoSlots(batch: seq<FrameLease>)
    requires |batch| == 0
    ensures SlotsOf(batch) == {} && DistinctSlots(batch)
            && forall records :: FreedSlots(records, records, SlotsOf(batch))
  {
  }

  predicate Releasable(batch: seq<FrameLease>, records: seq<FrameRecord>, count: nat) {
    forall k :: 0 <= k < |batch| ==> batch[k].slot < count && batch[k] !in batch[..k]
                                     && ValidateLease(records, batch[k]).Ok?
  }

  /** The slots freed so far, and whether the next one is among them. */
  lemma SlotsOfOne(batch: seq<FrameLease>, index: nat)
    requires index < |batch|
    ensures SlotsOf(batch[..index + 1]) == SlotsOf(batch[..index]) + {batch[index].slot}
    ensures DistinctSlots(batch) ==> batch[index].slot !in SlotsOf(batch[..index])
  {
    assert batch[..index + 1] == batch[..index] + [batch[index]];
  }

  lemma HeldReleasable(pools: Pools, records: seq<FrameRecord>, count: nat, held: map<nat, FrameLease>, place: map<nat,
                       Place>, batch: seq<FrameLease>)
    requires Accounted(pools, records, count, held, place) && DistinctSlots(batch)
    requires forall k :: 0 <= k < |batch| ==> HeldBy(held, batch[k])
    ensures Releasable(batch, records, count)
  {
    forall k | 0 <= k < |batch|
      ensures batch[k].slot < count && batch[k] !in batch[..k] && ValidateLease(records, batch[k]).Ok?
    {
      assert batch[k].slot in held;
    }
  }

  /** Exactly the window was added to what is held. */
  ghost predicate HeldGrew(before: map<nat, FrameLease>, after: map<nat, FrameLease>, first: nat, count: nat) {
    && (forall slot :: slot in after <==> slot in before || first <= slot < first + count)
    && (forall slot :: slot in before && !(first <= slot < first + count) ==> after[slot] == before[slot])
  }

  /** The leases' stamps are new, and nobody held their frames. */
  ghost predicate FreshStamps(leases: seq<FrameLease>, held: map<nat, FrameLease>, before: set<(nat, nat)>,
                              after: set<(nat, nat)>, bumps: seq<nat>) {
    && before <= after
    && forall k :: 0 <= k < |leases| ==>
         && (leases[k].slot, leases[k].generation) in after
         && (Unwrapped(bumps, leases[k].slot) ==>
            leases[k].slot !in held && (leases[k].slot, leases[k].generation) !in before)
  }

  /** Leases of consecutive slots, held under one owner. */
  ghost predicate WindowOf(leases: seq<FrameLease>, held: map<nat, FrameLease>, runs: seq<FrameRuns.RunMetadata>,
                           frameCount: nat,
                           first: nat, owner: nat, state: FrameState)
    requires FrameRuns.Laid(runs, frameCount) && first + |leases| <= frameCount
  {
    && (forall k :: 0 <= k < |leases| ==> leases[k].slot == first + k && leases[k].owner == owner
                                          && leases[k].state == state)
    && (forall k :: 0 <= k < |leases| ==> leases[k].address == FrameRuns.AddressOf(runs, frameCount, first + k)
                                          && HeldBy(held, leases[k]))
  }

  lemma {:induction false} WindowOne(leases: seq<FrameLease>, held: map<nat, FrameLease>,
                                     runs: seq<FrameRuns.RunMetadata>, frameCount: nat,
                  first: nat, owner: nat, state: FrameState, lease: FrameLease)
    requires FrameRuns.Laid(runs, frameCount) && first + |leases| < frameCount
             && WindowOf(leases, held, runs, frameCount, first, owner, state)
    requires lease.slot == first + |leases| && lease.owner == owner && lease.state == state
    requires lease.address == FrameRuns.AddressOf(runs, frameCount, lease.slot)
    ensures WindowOf(leases + [lease], held[lease.slot := lease], runs, frameCount, first, owner, state)
  {
    hide FrameRuns.AddressOf, FrameRuns.Laid;
  }

  lemma {:induction false} WindowNone(held: map<nat, FrameLease>, runs: seq<FrameRuns.RunMetadata>, frameCount: nat,
                                      first: nat, owner: nat, state: FrameState)
    requires FrameRuns.Laid(runs, frameCount) && first <= frameCount
    ensures WindowOf([], held, runs, frameCount, first, owner, state) && HeldGrew(held, held, first, 0)
  {
  }

  lemma HeldBeforeToo(before: map<nat, FrameLease>, after: map<nat, FrameLease>, first: nat, count: nat)
    requires HeldGrew(before, after, first, count)
    ensures before.Keys <= after.Keys
  {
  }

  lemma HeldGrewOne(before: map<nat, FrameLease>, middle: map<nat, FrameLease>, first: nat, count: nat,
                    lease: FrameLease)
    requires HeldGrew(before, middle, first, count)
    ensures HeldGrew(before, middle[first + count := lease], first, count + 1)
  {
  }

  lemma FreshStampsNone(held: map<nat, FrameLease>, issued: set<(nat, nat)>, bumps: seq<nat>)
    ensures FreshStamps([], held, issued, issued, bumps)
  {
  }

  lemma FreshStampsOne(leases: seq<FrameLease>, held: map<nat, FrameLease>, before: set<(nat, nat)>,
                       middle: set<(nat, nat)>,
                       bumps: seq<nat>, after: seq<nat>, lease: FrameLease)
    requires FreshStamps(leases, held, before, middle, bumps)
    requires Aged(bumps, after)
    requires Unwrapped(after, lease.slot) ==> lease.slot !in held && (lease.slot, lease.generation) !in middle
    ensures FreshStamps(leases + [lease], held, before, middle + {(lease.slot, lease.generation)}, after)
  {
  }

  function ShardInTurn(cpu: nat, turn: nat): nat {
    (cpu + turn) % MAX_FRAME_SHARDS
  }

  ghost predicate NoneIn(records: seq<FrameRecord>, count: nat, shard: nat) {
    forall slot :: 0 <= slot < count && slot < |records| && InShard(count, shard, slot) ==> records[slot].state != FREE
  }

  /** The lowest free slot of a shard. */
  ghost predicate LowestIn(records: seq<FrameRecord>, count: nat, shard: nat, slot: nat) {
    && slot < count <= |records| && InShard(count, shard, slot) && records[slot].state == FREE
    && forall lower :: 0 <= lower < slot && InShard(count, shard, lower) ==> records[lower].state != FREE
  }

  /** The lowest free slot of the shard tried at a turn, when no shard tried before had any. */
  ghost predicate InTurn(records: seq<FrameRecord>, count: nat, cpu: nat, turn: nat, slot: nat) {
    && LowestIn(records, count, ShardInTurn(cpu, turn), slot)
    && forall earlier :: 0 <= earlier < turn ==> NoneIn(records, count, ShardInTurn(cpu, earlier))
  }

  /** Four consecutive remainders are all the shards. */
  lemma ShardVisited(cpu: nat, shard: nat) returns (turn: nat)
    requires shard < MAX_FRAME_SHARDS
    ensures turn < MAX_FRAME_SHARDS && ShardInTurn(cpu, turn) == shard
  {
    turn := (shard + MAX_FRAME_SHARDS - cpu % MAX_FRAME_SHARDS) % MAX_FRAME_SHARDS;
  }

  lemma AllShardsTried(records: seq<FrameRecord>, count: nat, cpu: nat)
    requires count <= |records| && forall turn :: 0 <= turn < MAX_FRAME_SHARDS ==>
             NoneIn(records, count, ShardInTurn(cpu, turn))
    ensures NoneFreeRecord(records, 0, count)
  {
    hide InShard, ShardInTurn;
    forall slot | 0 <= slot < count
      ensures records[slot].state != FREE
    {
      ShardsPartition(count, slot);
      var shard :| 0 <= shard < MAX_FRAME_SHARDS && InShard(count, shard, slot);
      var turn := ShardVisited(cpu, shard);
      assert NoneIn(records, count, ShardInTurn(cpu, turn));
    }
  }

  /** The last entry of a cache with the owner and state. */
  predicate Newest(cache: seq<FrameLease>, i: nat, owner: nat, state: FrameState) {
    && i < |cache| && cache[i].owner == owner && cache[i].state == state
    && forall k :: i < k < |cache| ==> cache[k].owner != owner || cache[k].state != state
  }

  ghost predicate HeldBy(held: map<nat, FrameLease>, lease: FrameLease) {
    lease.slot in held && held[lease.slot] == lease
  }

  /** A holder's lease is valid and in no pool. */
  lemma HolderMayFree(pools: Pools, records: seq<FrameRecord>, bumps: seq<nat>, held: map<nat, FrameLease>,
                      issued: set<(nat, nat)>, lease: FrameLease)
    requires Sound(pools, records, bumps, held, issued)
    ensures HeldBy(held, lease) ==> lease.homeCpu < MAX_MEMORY_CPUS
    ensures HeldBy(held, lease) && Unwrapped(bumps, lease.slot) ==>
              ValidateLease(records, lease).Ok? && forall p :: 0 <= p < |pools| ==> lease !in pools[p]
  {
    if HeldBy(held, lease) {
      assert Current(held, lease.slot, records, bumps);
      if Unwrapped(bumps, lease.slot) {
        forall p | 0 <= p < |pools|
          ensures lease !in pools[p]
        {
          forall i | 0 <= i < |pools[p]|
            ensures pools[p][i] != lease
          {
            assert Dated(pools[p][i], records, bumps);
          }
        }
      }
    }
  }

  lemma AccountedHolderMayFree(pools: Pools, records: seq<FrameRecord>, count: nat, held: map<nat, FrameLease>,
                               place: map<nat, Place>, lease: FrameLease)
    requires Accounted(pools, records, count, held, place)
    ensures HeldBy(held, lease) ==> ValidateLease(records, lease).Ok? && forall p :: 0 <= p < |pools| ==>
            lease !in pools[p]
  {
    if HeldBy(held, lease) {
      forall p | 0 <= p < |pools|
        ensures lease !in pools[p]
      {
        forall i | 0 <= i < |pools[p]|
          ensures pools[p][i] != lease
        {
        }
      }
    }
  }

  /** The same frames are free. */
  ghost predicate SameFree(before: seq<FrameRecord>, after: seq<FrameRecord>) {
    |after| == |before| && forall slot :: 0 <= slot < |before| ==>
        (after[slot].state == FREE <==> before[slot].state == FREE)
  }

  lemma AccountedVacant(pools: Pools, records: seq<FrameRecord>, count: nat, held: map<nat, FrameLease>, place: map<nat,
                        Place>, slot: nat)
    requires Accounted(pools, records, count, held, place) && slot < count && records[slot].state == FREE
    ensures slot in place && place[slot] == Vacant
  {
  }

  lemma AccountedWindow(pools: Pools, records: seq<FrameRecord>, count: nat, held: map<nat, FrameLease>, place: map<nat,
                        Place>, first: nat, length: nat)
    requires Accounted(pools, records, count, held, place) && first + length <= count
             && FreeWindow(records, first, length)
    ensures forall slot :: first <= slot < first + length ==> slot !in held
  {
  }

  lemma SettledRest(place: map<nat, Place>, slot: nat, count: nat)
    requires Settled(place, count)
    ensures Settled(place[slot := Transit] - {slot}, count)
  {
  }

  lemma UnheldAfter(held: map<nat, FrameLease>, before: seq<nat>, after: seq<nat>, slot: nat)
    requires Unheld(held, before, slot) && slot < |before| == |after| && after[slot] >= before[slot]
    ensures Unwrapped(after, slot) ==> slot !in held
  {
  }

  /** A slot belongs to a shard exactly when it is a frame. */
  lemma ShardExists(count: nat, slot: nat)
    ensures ShardForSlot(count, slot).Some? <==> slot < count
  {
    hide Boundary;
    if slot < count {
      ShardsPartition(count, slot);
    }
  }

  /** All `count` slots free. */
  ghost function VacantPlaces(count: nat): (place: map<nat, Place>)
    ensures forall slot :: slot in place <==> 0 <= slot < count
    ensures forall slot :: slot in place ==> place[slot] == Vacant
  {
    if count == 0 then map[] else VacantPlaces(count - 1)[count - 1 := Vacant]
  }

  lemma SettledPut(place: map<nat, Place>, slot: nat, next: Place, count: nat)
    requires Settled(place - {slot}, count) && next != Transit
    ensures Settled(place[slot := next], count)
  {
    var after, rest := place[slot := next], place - {slot};
    forall other | 0 <= other < count && other in after
      ensures after[other] != Transit
    {
      assert other != slot ==> other in rest && rest[other] == after[other];
    }
  }

  lemma SettledTaken(pools: Pools, records: seq<FrameRecord>, place: map<nat, Place>, count: nat, held: map<nat,
                     FrameLease>, p: nat, i: nat)
    requires Accounted(pools, records, count, held, place) && Settled(place, count) && p < |pools| && i < |pools[p]|
    ensures Settled(PlacesTaken(pools, place, p, i) - {pools[p][i].slot}, count)
    ensures PlacesTaken(pools, place, p, i)[pools[p][i].slot] == Transit
  {
  }

  predicate Bounded(pools: Pools) {
    |pools| == 2 * MAX_MEMORY_CPUS && forall p :: 0 <= p < |pools| ==> |pools[p]| <= FRAME_CACHE_CAPACITY
  }

  lemma AccountedAt(pools: Pools, records: seq<FrameRecord>, count: nat, held: map<nat, FrameLease>, place: map<nat,
                    Place>, p: nat, i: nat)
    requires Accounted(pools, records, count, held, place) && p < |pools| && i < |pools[p]|
    ensures pools[p][i].slot < count && ValidateLease(records, pools[p][i]).Ok?
  {
  }
}
