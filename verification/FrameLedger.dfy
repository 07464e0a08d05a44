/**
 Who may use a frame: the leases waiting in per-CPU caches and remote-free queues,
 the leases out with holders, and the stamps ever issued, against the records.

 A frame's stamps repeat after 65535 increments, so every claim about a frame is
 made while it has been stamped fewer times than that.
 */
module FrameLedger {
  import opened Common
  import opened FrameManagers

  const MAX_MEMORY_CPUS: nat := 8
  const FRAME_CACHE_CAPACITY: nat := 16

  /** Pool `cpu` is that CPU's cache, pool `8 + cpu` its remote-free queue. */
  type Pools = seq<seq<FrameLease>>

  function RemoteOf(cpu: nat): nat {
    MAX_MEMORY_CPUS + cpu
  }

  predicate Unwrapped(bumps: seq<nat>, slot: nat) {
    slot < |bumps| && bumps[slot] < GENERATIONS
  }

  /** Stamps only move on. */
  ghost predicate Aged(before: seq<nat>, after: seq<nat>) {
    |before| == |after| && forall slot :: 0 <= slot < |before| ==> before[slot] <= after[slot]
  }

  lemma AgedStep(before: seq<nat>, middle: seq<nat>, slot: nat)
    ensures Aged(before, before)
    ensures slot < |middle| ==> Aged(middle, middle[slot := middle[slot] + 1])
    ensures Aged(before, middle) && slot < |middle| ==> Aged(before, middle[slot := middle[slot] + 1])
  {
  }

  ghost predicate Stamped(records: seq<FrameRecord>, bumps: seq<nat>) {
    |bumps| == |records| && forall slot :: 0 <= slot < |records| ==> records[slot].generation == Stamp(bumps[slot])
  }

  /** A lease is no newer than its frame's record. */
  predicate Dated(lease: FrameLease, records: seq<FrameRecord>, bumps: seq<nat>) {
    && lease.slot < |records| && lease.homeCpu < MAX_MEMORY_CPUS
    && (Unwrapped(bumps, lease.slot) ==> lease.generation <= records[lease.slot].generation)
  }

  ghost predicate PoolsDated(pools: Pools, records: seq<FrameRecord>, bumps: seq<nat>) {
    forall p, i {:trigger pools[p][i]} :: 0 <= p < |pools| && 0 <= i < |pools[p]| ==> Dated(pools[p][i], records, bumps)
  }

  /** A holder's lease is the current one. */
  predicate Current(held: map<nat, FrameLease>, slot: nat, records: seq<FrameRecord>, bumps: seq<nat>)
    requires slot in held
  {
    && slot < |records| && held[slot].slot == slot && held[slot].homeCpu < MAX_MEMORY_CPUS
    && (Unwrapped(bumps, slot) ==> ValidateLease(records, held[slot]).Ok?)
  }

  ghost predicate HeldCurrent(held: map<nat, FrameLease>, records: seq<FrameRecord>, bumps: seq<nat>) {
    forall slot :: slot in held ==> Current(held, slot, records, bumps)
  }

  /** Nothing in the pools can be handed out while a holder has the frame. */
  ghost predicate Exclusive(pools: Pools, held: map<nat, FrameLease>, records: seq<FrameRecord>, bumps: seq<nat>) {
    forall p, i {:trigger pools[p][i]} :: 0 <= p < |pools| && 0 <= i < |pools[p]| ==>
      var lease := pools[p][i];
      lease.slot in held && Unwrapped(bumps, lease.slot) && lease.slot < |records| ==>
          lease.generation < records[lease.slot].generation
  }

  ghost predicate IssuedDated(issued: set<(nat, nat)>, records: seq<FrameRecord>, bumps: seq<nat>) {
    forall stamp :: stamp in issued ==>
      stamp.0 < |records| && (Unwrapped(bumps, stamp.0) ==> stamp.1 <= records[stamp.0].generation)
  }

  ghost predicate Sound(pools: Pools, records: seq<FrameRecord>, bumps: seq<nat>, held: map<nat, FrameLease>,
                        issued: set<(nat, nat)>) {
    && Stamped(records, bumps)
    && PoolsDated(pools, records, bumps)
    && HeldCurrent(held, records, bumps)
    && Exclusive(pools, held, records, bumps)
    && IssuedDated(issued, records, bumps)
  }

  /** Every pooled lease was pooled before. */
  ghost predicate Within(pools: Pools, before: Pools) {
    && |pools| == |before|
    && forall p, i {:trigger pools[p][i]} :: 0 <= p < |pools| && 0 <= i < |pools[p]| ==> pools[p][i] in before[p]
  }

  /** The record of a slot was just stamped: everything pooled or issued for it is older. */
  ghost predicate NewStamp(pools: Pools, issued: set<(nat, nat)>, records: seq<FrameRecord>, bumps: seq<nat>,
                           slot: nat) {
    slot < |records| && Unwrapped(bumps, slot) ==>
      && (forall p, i {:trigger pools[p][i]} :: 0 <= p < |pools| && 0 <= i < |pools[p]| && pools[p][i].slot == slot ==>
            pools[p][i].generation < records[slot].generation)
      && (forall stamp :: stamp in issued && stamp.0 == slot ==> stamp.1 < records[slot].generation)
  }

  /** No holder can have a frame whose lease is about to be stamped. */
  ghost predicate Unheld(held: map<nat, FrameLease>, bumps: seq<nat>, slot: nat) {
    slot in held ==> !Unwrapped(bumps, slot)
  }

  /** A frame nobody holds is stamped anew. */
  lemma SoundAfterStamp(pools: Pools, records: seq<FrameRecord>, bumps: seq<nat>, held: map<nat, FrameLease>,
                        issued: set<(nat, nat)>,
                        slot: nat, record: FrameRecord)
    requires Sound(pools, records, bumps, held, issued) && slot < |records| && Unheld(held, bumps, slot)
    requires record.generation == NextGeneration(records[slot].generation)
    ensures Sound(pools, records[slot := record], bumps[slot := bumps[slot] + 1], held, issued)
    ensures NewStamp(pools, issued, records[slot := record], bumps[slot := bumps[slot] + 1], slot)
    ensures Unheld(held, bumps[slot := bumps[slot] + 1], slot)
  {
    StampNext(bumps[slot]);
    var records', bumps' := records[slot := record], bumps[slot := bumps[slot] + 1];
    assert Unwrapped(bumps', slot) ==> record.generation == records[slot].generation + 1;
    forall p, i {:trigger pools[p][i]} | 0 <= p < |pools| && 0 <= i < |pools[p]|
      ensures Dated(pools[p][i], records', bumps')
    {
      assert Dated(pools[p][i], records, bumps);
    }
  }

  /** A freshly stamped frame goes to a holder; its pair of slot and stamp was never issued before. */
  lemma SoundAfterHold(pools: Pools, records: seq<FrameRecord>, bumps: seq<nat>, held: map<nat, FrameLease>,
                       issued: set<(nat, nat)>, lease: FrameLease)
    requires Sound(pools, records, bumps, held, issued) && NewStamp(pools, issued, records, bumps, lease.slot)
    requires ValidateLease(records, lease).Ok? && lease.homeCpu < MAX_MEMORY_CPUS
    ensures Sound(pools, records, bumps, held[lease.slot := lease], issued + {(lease.slot, lease.generation)})
    ensures Unwrapped(bumps, lease.slot) ==> (lease.slot, lease.generation) !in issued
  {
    forall p, i {:trigger pools[p][i]} | 0 <= p < |pools| && 0 <= i < |pools[p]|
      ensures pools[p][i].slot in held[lease.slot := lease] && Unwrapped(bumps, pools[p][i].slot) ==>
              pools[p][i].generation < records[pools[p][i].slot].generation
    {
      assert Dated(pools[p][i], records, bumps);
    }
  }

  /** A lease taken out of a pool is either useless or of a frame nobody holds. */
  lemma TakenUnheld(pools: Pools, records: seq<FrameRecord>, bumps: seq<nat>, held: map<nat, FrameLease>,
                    issued: set<(nat, nat)>, p: nat, i: nat)
    requires Sound(pools, records, bumps, held, issued) && p < |pools| && i < |pools[p]|
    ensures pools[p][i].slot < |records| && pools[p][i].homeCpu < MAX_MEMORY_CPUS
    ensures ValidateLease(records, pools[p][i]).Ok? ==> Unheld(held, bumps, pools[p][i].slot)
  {
    assert Dated(pools[p][i], records, bumps);
  }

  /** A free frame has no holder. */
  lemma FreeUnheld(pools: Pools, records: seq<FrameRecord>, bumps: seq<nat>, held: map<nat, FrameLease>,
                   issued: set<(nat, nat)>, slot: nat)
    requires Sound(pools, records, bumps, held, issued) && slot < |records| && records[slot].state == FREE
    ensures Unheld(held, bumps, slot)
  {
    assert slot in held ==> Current(held, slot, records, bumps);
  }

  /** A current lease of a frame nobody holds is stored in a pool. */
  lemma SoundAfterStore(pools: Pools, records: seq<FrameRecord>, bumps: seq<nat>, held: map<nat, FrameLease>,
                        issued: set<(nat, nat)>,
                        pool: nat, lease: FrameLease)
    requires Sound(pools, records, bumps, held, issued) && pool < |pools| && Unheld(held, bumps, lease.slot)
    requires ValidateLease(records, lease).Ok? && lease.homeCpu < MAX_MEMORY_CPUS
    ensures Sound(pools[pool := pools[pool] + [lease]], records, bumps, held, issued)
  {
    var after: Pools := pools[pool := pools[pool] + [lease]];
    forall p: nat, i: nat {:trigger after[p][i]} | 0 <= p < |after| && 0 <= i < |after[p]|
      ensures Dated(after[p][i], records, bumps)
      ensures after[p][i].slot in held && Unwrapped(bumps, after[p][i].slot) ==>
              after[p][i].generation < records[after[p][i].slot].generation
    {
      if p == pool && i == |pools[pool]| {
        assert after[p][i] == lease;
      } else {
        assert after[p][i] == pools[p][i];
      }
    }
  }

  /** A holder gives its lease up. */
  lemma SoundAfterGiveUp(pools: Pools, records: seq<FrameRecord>, bumps: seq<nat>, held: map<nat, FrameLease>,
                         issued: set<(nat, nat)>, slot: nat)
    requires Sound(pools, records, bumps, held, issued)
    ensures Sound(pools, records, bumps, held - {slot}, issued) && Unheld(held - {slot}, bumps, slot)
  {
    forall p, i {:trigger pools[p][i]} | 0 <= p < |pools| && 0 <= i < |pools[p]|
      ensures pools[p][i].slot in held - {slot} && Unwrapped(bumps, pools[p][i].slot)
              && pools[p][i].slot < |records| ==>
                pools[p][i].generation < records[pools[p][i].slot].generation
    {
    }
  }

  /** A frame nobody holds becomes free. */
  lemma SoundAfterRelease(pools: Pools, records: seq<FrameRecord>, bumps: seq<nat>, held: map<nat, FrameLease>,
                          issued: set<(nat, nat)>, slot: nat)
    requires Sound(pools, records, bumps, held, issued) && slot < |records| && Unheld(held, bumps, slot)
    ensures Sound(pools, records[slot := Released(records[slot])], bumps, held, issued)
  {
    var records' := records[slot := Released(records[slot])];
    forall p, i {:trigger pools[p][i]} | 0 <= p < |pools| && 0 <= i < |pools[p]|
      ensures Dated(pools[p][i], records', bumps)
    {
      assert Dated(pools[p][i], records, bumps);
    }
  }

  /** Dropping leases from the pools is harmless. */
  lemma SoundWithin(before: Pools, pools: Pools, records: seq<FrameRecord>, bumps: seq<nat>, held: map<nat, FrameLease>,
                    issued: set<(nat, nat)>)
    requires Sound(before, records, bumps, held, issued) && Within(pools, before)
    ensures Sound(pools, records, bumps, held, issued)
  {
    forall p, i {:trigger pools[p][i]} | 0 <= p < |pools| && 0 <= i < |pools[p]|
      ensures Dated(pools[p][i], records, bumps)
      ensures pools[p][i].slot in held && Unwrapped(bumps, pools[p][i].slot) ==>
              pools[p][i].generation < records[pools[p][i].slot].generation
    {
      var k :| 0 <= k < |before[p]| && before[p][k] == pools[p][i];
    }
  }

  // --- Accounting: every frame is in one place -----------------------------------

  datatype Place = Vacant | Pooled(pool: nat, index: nat) | Held | Transit

  /** The place claimed for a slot is where the slot is. */
  predicate PlaceTrue(pools: Pools, records: seq<FrameRecord>, held: map<nat, FrameLease>, place: Place, slot: nat)
    requires slot < |records|
  {
    match place
    case Vacant => records[slot].state == FREE
    case Pooled(p, i) => p < |pools| && i < |pools[p]| && pools[p][i].slot == slot
    case Held => slot in held
    case Transit => true
  }

  /**
   Each slot has one place: free in the bitmap, at one position of one pool, with
   one holder, or (inside an operation) in transit. Pools and holders contain
   current leases only, and nothing that is not placed.
   */
  ghost predicate Accounted(pools: Pools, records: seq<FrameRecord>, count: nat, held: map<nat, FrameLease>,
                            place: map<nat, Place>) {
    && count <= |records|
    && (forall slot :: 0 <= slot < count ==> slot in place && PlaceTrue(pools, records, held, place[slot], slot))
    && (forall slot :: 0 <= slot < count && records[slot].state == FREE ==> place[slot] == Vacant)
    && (forall p, i {:trigger pools[p][i]} :: 0 <= p < |pools| && 0 <= i < |pools[p]| ==>
          && pools[p][i].slot < count && place[pools[p][i].slot] == Pooled(p, i)
          && ValidateLease(records, pools[p][i]).Ok?)
    && (forall slot :: slot in held ==>
          slot < count && place[slot] == Held && held[slot].slot == slot && ValidateLease(records, held[slot]).Ok?)
  }

  ghost predicate Settled(place: map<nat, Place>, count: nat) {
    forall slot :: 0 <= slot < count && slot in place ==> place[slot] != Transit
  }

  /** Exactly one of: free, at exactly one pool position, held. */
  lemma OnePlaceEach(pools: Pools, records: seq<FrameRecord>, count: nat, held: map<nat, FrameLease>, place: map<nat,
                     Place>, slot: nat)
    requires Accounted(pools, records, count, held, place) && Settled(place, count) && slot < count
    ensures records[slot].state == FREE ==> slot !in held && forall p, i :: 0 <= p < |pools| && 0 <= i < |pools[p]| ==>
            pools[p][i].slot != slot
    ensures slot in held ==> records[slot].state != FREE && forall p, i :: 0 <= p < |pools| && 0 <= i < |pools[p]| ==>
            pools[p][i].slot != slot
    ensures records[slot].state != FREE && slot !in held ==>
            exists p, i :: 0 <= p < |pools| && 0 <= i < |pools[p]| && pools[p][i].slot == slot
    ensures forall p, i, q, j :: 0 <= p < |pools| && 0 <= i < |pools[p]| && 0 <= q < |pools| && 0 <= j < |pools[q]|
                                 && pools[p][i].slot == slot == pools[q][j].slot ==>
                                   p == q && i == j
  {
    if records[slot].state != FREE && slot !in held {
      var where := place[slot];
      assert pools[where.pool][where.index].slot == slot;
    }
  }

  function PlacesTaken(pools: Pools, place: map<nat, Place>, p: nat, i: nat): map<nat, Place>
    requires p < |pools| && i < |pools[p]|
  {
    place[pools[p][|pools[p]| - 1].slot := Pooled(p, i)][pools[p][i].slot := Transit]
  }

  /** The leases left in the pools are where the places say. */
  lemma TakenPooled(pools: Pools, records: seq<FrameRecord>, count: nat, held: map<nat, FrameLease>, place: map<nat,
                    Place>, p: nat, i: nat, q: nat, j: nat)
    requires Accounted(pools, records, count, held, place) && p < |pools| && i < |pools[p]|
    requires q < |pools| && j < |pools[p := SwapRemoved(pools[p], i)][q]|
    ensures var lease := pools[p := SwapRemoved(pools[p], i)][q][j];
            lease.slot < count && PlacesTaken(pools, place, p, i)[lease.slot] == Pooled(q, j)
                && ValidateLease(records, lease).Ok?
  {
    hide ValidateLease, PlaceTrue;
    var last := |pools[p]| - 1;
    var after: Pools := pools[p := SwapRemoved(pools[p], i)];
    assert place[pools[p][i].slot] == Pooled(p, i) && place[pools[p][last].slot] == Pooled(p, last);
    if q == p && j == i {
      assert after[q][j] == pools[p][last];
    } else {
      assert after[q][j] == pools[q][j];
    }
  }

  /** Taking a lease out of a pool leaves its slot in transit. */
  lemma AccountedTake(pools: Pools, records: seq<FrameRecord>, count: nat, held: map<nat, FrameLease>, place: map<nat,
                      Place>, p: nat, i: nat)
    requires Accounted(pools, records, count, held, place) && p < |pools| && i < |pools[p]|
    ensures Accounted(pools[p := SwapRemoved(pools[p], i)], records, count, held, PlacesTaken(pools, place, p, i))
  {
    hide ValidateLease;
    var last := |pools[p]| - 1;
    var after: Pools := pools[p := SwapRemoved(pools[p], i)];
    var place' := PlacesTaken(pools, place, p, i);
    var taken, moved := pools[p][i].slot, pools[p][last].slot;
    forall q: nat, j: nat {:trigger after[q][j]} | 0 <= q < |after| && 0 <= j < |after[q]|
      ensures after[q][j].slot < count && place'[after[q][j].slot] == Pooled(q, j)
              && ValidateLease(records, after[q][j]).Ok?
    {
      TakenPooled(pools, records, count, held, place, p, i, q, j);
    }
    forall slot | 0 <= slot < count
      ensures slot in place' && PlaceTrue(after, records, held, place'[slot], slot)
    {
      if slot != taken && slot != moved && place[slot].Pooled? {
        var where := place[slot];
        assert pools[where.pool][where.index].slot == slot;
      }
    }
  }

  /** A slot in transit is stored in a pool under its current lease. */
  lemma AccountedStore(pools: Pools, records: seq<FrameRecord>, count: nat, held: map<nat, FrameLease>, place: map<nat,
                       Place>, p: nat, lease: FrameLease)
    requires Accounted(pools, records, count, held, place) && p < |pools|
    requires lease.slot < count && place[lease.slot] == Transit && ValidateLease(records, lease).Ok?
    ensures Accounted(pools[p := pools[p] + [lease]], records, count, held, place[lease.slot := Pooled(p, |pools[p]|)])
  {
    var after: Pools := pools[p := pools[p] + [lease]];
    var place' := place[lease.slot := Pooled(p, |pools[p]|)];
    forall q: nat, j: nat {:trigger after[q][j]} | 0 <= q < |after| && 0 <= j < |after[q]|
      ensures after[q][j].slot < count && place'[after[q][j].slot] == Pooled(q, j)
              && ValidateLease(records, after[q][j]).Ok?
    {
      if !(q == p && j == |pools[p]|) {
        assert after[q][j] == pools[q][j];
      }
    }
    forall slot | 0 <= slot < count
      ensures slot in place' && PlaceTrue(after, records, held, place'[slot], slot)
    {
      if slot != lease.slot && place[slot].Pooled? {
        var where := place[slot];
        assert pools[where.pool][where.index].slot == slot;
      }
    }
  }

  /** The record of a slot in transit may change, to FREE if the slot becomes vacant. */
  lemma AccountedChange(pools: Pools, records: seq<FrameRecord>, count: nat, held: map<nat, FrameLease>, place: map<nat,
                        Place>, slot: nat,
                        record: FrameRecord, next: Place)
    requires Accounted(pools, records, count, held, place) && slot < count
    requires place[slot] == Transit || place[slot] == Vacant
    requires next == if record.state == FREE then Vacant else Transit
    ensures Accounted(pools, records[slot := record], count, held, place[slot := next])
  {
    var place' := place[slot := next];
    var records' := records[slot := record];
    forall other | 0 <= other < count
      ensures other in place' && PlaceTrue(pools, records', held, place'[other], other)
    {
      assert other != slot ==> PlaceTrue(pools, records, held, place[other], other);
    }
  }

  /** A slot in transit goes to a holder. */
  lemma AccountedHold(pools: Pools, records: seq<FrameRecord>, count: nat, held: map<nat, FrameLease>, place: map<nat,
                      Place>, lease: FrameLease)
    requires Accounted(pools, records, count, held, place)
    requires lease.slot < count && place[lease.slot] == Transit && ValidateLease(records, lease).Ok?
    ensures lease.slot !in held && Accounted(pools, records, count, held[lease.slot := lease],
                                             place[lease.slot := Held])
  {
    var place' := place[lease.slot := Held];
    forall other | 0 <= other < count
      ensures other in place' && PlaceTrue(pools, records, held[lease.slot := lease], place'[other], other)
    {
      assert PlaceTrue(pools, records, held, place[other], other);
    }
  }

  /** A holder gives its slot up. */
  lemma AccountedGiveUp(pools: Pools, records: seq<FrameRecord>, count: nat, held: map<nat, FrameLease>, place: map<nat,
                        Place>, slot: nat)
    requires Accounted(pools, records, count, held, place) && slot in held
    ensures slot < count && Accounted(pools, records, count, held - {slot}, place[slot := Transit])
  {
    var place' := place[slot := Transit];
    forall other | 0 <= other < count
      ensures other in place' && PlaceTrue(pools, records, held - {slot}, place'[other], other)
    {
      assert PlaceTrue(pools, records, held, place[other], other);
    }
  }
}
