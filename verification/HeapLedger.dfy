/**
 What the kernel heap keeps about its live objects: one frame for a small object, a
 run of consecutive frames for a large one, and the bytes charged to each owner.

 `backing` says, for each frame the heap holds, which page of which object it is.
 */
module HeapLedger {
  import opened Common
  import opened FrameManagers
  import opened SmpFrames
  import opened FrameRuns
  import Bits

  const MAX_QUOTAS: nat := 32
  const SLAB_LIMIT: nat := 512

  datatype HeapSlot = HeapSlot(used: bool, generation: nat, owner: nat, bytes: nat, address: nat,
                               frame: Option<FrameLease>)

  datatype PageRecord =
    PageRecord(used: bool, generation: nat, owner: nat, bytes: nat, address: nat, leaseStart: nat, leaseCount: nat)

  datatype LeaseRecord = LeaseRecord(used: bool, lease: Option<FrameLease>)

  const NO_LEASE := LeaseRecord(false, None)

  datatype Quota = Quota(limit: nat, used: nat)

  datatype Item = SlabItem(index: nat) | PagesItem(index: nat)

  datatype Extent = Extent(owner: nat, bytes: nat, address: nat)

  datatype Use = Use(item: Item, page: nat)

  type Backing = map<nat, Use>

  function PagesFor(bytes: nat): nat {
    (bytes + PAGE_SIZE - 1) / PAGE_SIZE
  }

  // --- Live objects -----------------------------------------------------------

  /** A live object's owner and bytes, or None. */
  function LiveExtent(slots: seq<HeapSlot>, records: seq<PageRecord>, item: Item): Option<Extent> {
    match item
    case SlabItem(i) =>
      if i < |slots| && slots[i].used then Some(Extent(slots[i].owner, slots[i].bytes, slots[i].address)) else None
    case PagesItem(r) =>
      if r < |records| && records[r].used then Some(Extent(records[r].owner, records[r].bytes, records[r].address))
                                               else None
  }

  predicate Occupies(extent: Extent, x: nat) {
    extent.address <= x < extent.address + extent.bytes
  }

  /** `frame` is in the heap's hands as the page of an object, at `address`. */
  ghost predicate Serves(frame: FrameLease, use: Use, address: nat, backing: Backing, held: map<nat, FrameLease>) {
    HeldBy(held, frame) && frame.slot in backing && backing[frame.slot] == use && frame.address == address
  }

  ghost predicate SlabBacked(slot: HeapSlot, i: nat, backing: Backing, held: map<nat, FrameLease>) {
    && 0 < slot.bytes <= SLAB_LIMIT && 0 < slot.owner < MAX_QUOTAS
    && slot.frame.Some? && Serves(slot.frame.value, Use(SlabItem(i), 0), slot.address, backing, held)
  }

  ghost predicate LeaseBacked(lease: LeaseRecord, use: Use, address: nat, backing: Backing, held: map<nat,
                              FrameLease>) {
    lease.used && lease.lease.Some? && Serves(lease.lease.value, use, address, backing, held)
  }

  ghost predicate RecordBacked(record: PageRecord, r: nat, leases: seq<LeaseRecord>, backing: Backing, held: map<nat,
                               FrameLease>) {
    && SLAB_LIMIT < record.bytes <= record.leaseCount * PAGE_SIZE && 0 < record.owner < MAX_QUOTAS
    && record.leaseStart + record.leaseCount <= |leases| && record.leaseCount <= MAX_BATCH_FRAMES
    && forall k :: 0 <= k < record.leaseCount ==>
         LeaseBacked(leases[record.leaseStart + k], Use(PagesItem(r), k), record.address + k * PAGE_SIZE, backing, held)
  }

  ghost predicate SlabsBacked(slots: seq<HeapSlot>, backing: Backing, held: map<nat, FrameLease>) {
    forall i :: 0 <= i < |slots| && slots[i].used ==> SlabBacked(slots[i], i, backing, held)
  }

  ghost predicate RecordsBacked(records: seq<PageRecord>, leases: seq<LeaseRecord>, backing: Backing, held: map<nat,
                                FrameLease>) {
    forall r :: 0 <= r < |records| && records[r].used ==> RecordBacked(records[r], r, leases, backing, held)
  }

  /** The frame is needed by the live object it is assigned to. */
  ghost predicate Needed(use: Use, frame: FrameLease, slots: seq<HeapSlot>, records: seq<PageRecord>,
                         leases: seq<LeaseRecord>) {
    match use.item
    case SlabItem(i) => i < |slots| && slots[i].used && slots[i].frame == Some(frame)
    case PagesItem(r) =>
      && r < |records| && records[r].used && use.page < records[r].leaseCount
      && records[r].leaseStart + use.page < |leases|
      && leases[records[r].leaseStart + use.page] == LeaseRecord(true, Some(frame))
  }

  ghost predicate NoneIdle(slots: seq<HeapSlot>, records: seq<PageRecord>, leases: seq<LeaseRecord>, backing: Backing,
                           held: map<nat, FrameLease>) {
    forall frame :: frame in backing ==> frame in held && held[frame].slot == frame
                                         && Needed(backing[frame], held[frame], slots, records, leases)
  }

  /** Every live object has its frames, and every frame of the heap its live object. */
  ghost predicate Backed(slots: seq<HeapSlot>, records: seq<PageRecord>, leases: seq<LeaseRecord>, backing: Backing,
                         held: map<nat, FrameLease>) {
    && SlabsBacked(slots, backing, held)
    && RecordsBacked(records, leases, backing, held)
    && NoneIdle(slots, records, leases, backing, held)
  }

  // --- Disjointness -----------------------------------------------------------

  /** Every holder's lease tells its frame's address. */
  ghost predicate Located(held: map<nat, FrameLease>, runs: seq<RunMetadata>, count: nat) {
    Laid(runs, count) && forall slot :: slot in held ==>
        slot < count && held[slot].address == AddressOf(runs, count, slot)
  }

  /** The frame behind one byte of a live object. */
  lemma FrameBehind(slots: seq<HeapSlot>, records: seq<PageRecord>, leases: seq<LeaseRecord>, backing: Backing,
                    held: map<nat, FrameLease>,
                    runs: seq<RunMetadata>, count: nat, item: Item, x: nat) returns (slot: nat)
    requires Backed(slots, records, leases, backing, held) && Located(held, runs, count)
    requires LiveExtent(slots, records, item).Some? && Occupies(LiveExtent(slots, records, item).value, x)
    ensures slot < count && AddressOf(runs, count, slot) <= x < AddressOf(runs, count, slot) + PAGE_SIZE
    ensures slot in backing && backing[slot].item == item
  {
    match item {
      case SlabItem(i) =>
        assert SlabBacked(slots[i], i, backing, held);
        slot := slots[i].frame.value.slot;
      case PagesItem(r) =>
        var k := (x - records[r].address) / PAGE_SIZE;
        assert RecordBacked(records[r], r, leases, backing, held);
        assert LeaseBacked(leases[records[r].leaseStart + k], Use(PagesItem(r), k), records[r].address + k * PAGE_SIZE,
                           backing, held);
        slot := leases[records[r].leaseStart + k].lease.value.slot;
    }
  }

  /** No byte belongs to two live objects. */
  lemma OneObjectPerByte(slots: seq<HeapSlot>, records: seq<PageRecord>, leases: seq<LeaseRecord>, backing: Backing,
                         held: map<nat, FrameLease>,
                         runs: seq<RunMetadata>, count: nat, a: Item, b: Item, x: nat)
    requires Backed(slots, records, leases, backing, held) && Located(held, runs, count)
    requires LiveExtent(slots, records, a).Some? && Occupies(LiveExtent(slots, records, a).value, x)
    requires LiveExtent(slots, records, b).Some? && Occupies(LiveExtent(slots, records, b).value, x)
    ensures a == b
  {
    hide Backed, Located, LiveExtent, AddressOf, Laid;
    LocatedLaid(held, runs, count);
    var s := FrameBehind(slots, records, leases, backing, held, runs, count, a, x);
    var t := FrameBehind(slots, records, leases, backing, held, runs, count, b, x);
    if s < t {
      AddressesAscend(runs, count, s, t);
    } else if t < s {
      AddressesAscend(runs, count, t, s);
    }
  }

  lemma {:induction false} LocatedLaid(held: map<nat, FrameLease>, runs: seq<RunMetadata>, count: nat)
    requires Located(held, runs, count)
    ensures Laid(runs, count)
  {
  }

  // --- Changes ----------------------------------------------------------------

  /** Everything the heap holds is still held under the same lease. */
  ghost predicate Spared(backing: Backing, before: map<nat, FrameLease>, after: map<nat, FrameLease>) {
    forall slot :: slot in backing && slot in before ==> slot in after && after[slot] == before[slot]
  }

  /** Other holders of frames do not matter to the heap. */
  lemma BackedSpared(slots: seq<HeapSlot>, records: seq<PageRecord>, leases: seq<LeaseRecord>, backing: Backing,
                     before: map<nat, FrameLease>, after: map<nat, FrameLease>)
    requires Backed(slots, records, leases, backing, before) && Spared(backing, before, after)
    ensures Backed(slots, records, leases, backing, after)
  {
    forall i | 0 <= i < |slots| && slots[i].used
      ensures SlabBacked(slots[i], i, backing, after)
    {
      assert SlabBacked(slots[i], i, backing, before);
    }
    forall r | 0 <= r < |records| && records[r].used
      ensures RecordBacked(records[r], r, leases, backing, after)
    {
      assert RecordBacked(records[r], r, leases, backing, before);
      forall k | 0 <= k < records[r].leaseCount
        ensures LeaseBacked(leases[records[r].leaseStart + k], Use(PagesItem(r), k), records[r].address + k * PAGE_SIZE,
                            backing, after)
      {
        assert LeaseBacked(leases[records[r].leaseStart + k], Use(PagesItem(r), k), records[r].address + k * PAGE_SIZE,
                           backing, before);
      }
    }
  }

  /** Uses of items other than the excepted one are kept, with their leases. */
  ghost predicate KeepsUses(backing: Backing, backing': Backing, leases: seq<LeaseRecord>, leases': seq<LeaseRecord>,
                            except: Option<Item>) {
    && |leases| == |leases'|
    && (forall slot :: slot in backing && Some(backing[slot].item) != except ==>
       slot in backing' && backing'[slot] == backing[slot])
    && (forall j :: 0 <= j < |leases| && LeaseKept(leases[j], backing, except) ==> leases'[j] == leases[j])
  }

  ghost predicate LeaseKept(lease: LeaseRecord, backing: Backing, except: Option<Item>) {
    lease.used && lease.lease.Some? && lease.lease.value.slot in backing
        && Some(backing[lease.lease.value.slot].item) != except
  }

  lemma RecordsKeep(records: seq<PageRecord>, leases: seq<LeaseRecord>, leases': seq<LeaseRecord>, backing: Backing,
                    backing': Backing,
                    held: map<nat, FrameLease>, except: Option<Item>)
    requires RecordsBacked(records, leases, backing, held) && KeepsUses(backing, backing', leases, leases', except)
    ensures forall r :: 0 <= r < |records| && records[r].used && Some(PagesItem(r)) != except ==>
            RecordBacked(records[r], r, leases', backing', held)
  {
    forall r | 0 <= r < |records| && records[r].used && Some(PagesItem(r)) != except
      ensures RecordBacked(records[r], r, leases', backing', held)
    {
      assert RecordBacked(records[r], r, leases, backing, held);
      forall k | 0 <= k < records[r].leaseCount
        ensures LeaseBacked(leases'[records[r].leaseStart + k], Use(PagesItem(r), k),
                            records[r].address + k * PAGE_SIZE, backing', held)
      {
        assert LeaseBacked(leases[records[r].leaseStart + k], Use(PagesItem(r), k), records[r].address + k * PAGE_SIZE,
                           backing, held);
        assert LeaseKept(leases[records[r].leaseStart + k], backing, except);
      }
    }
  }

  lemma SlabsKeep(slots: seq<HeapSlot>, leases: seq<LeaseRecord>, leases': seq<LeaseRecord>, backing: Backing,
                  backing': Backing,
                  held: map<nat, FrameLease>, except: Option<Item>)
    requires SlabsBacked(slots, backing, held) && KeepsUses(backing, backing', leases, leases', except)
    ensures forall i :: 0 <= i < |slots| && slots[i].used && Some(SlabItem(i)) != except ==>
            SlabBacked(slots[i], i, backing', held)
  {
    forall i | 0 <= i < |slots| && slots[i].used && Some(SlabItem(i)) != except
      ensures SlabBacked(slots[i], i, backing', held)
    {
      assert SlabBacked(slots[i], i, backing, held);
    }
  }

  /** An unused slot takes a frame the heap did not have. */
  lemma BackedSlabIn(slots: seq<HeapSlot>, records: seq<PageRecord>, leases: seq<LeaseRecord>, backing: Backing,
                     held: map<nat, FrameLease>,
                     i: nat, slot: HeapSlot, frame: FrameLease)
    requires Backed(slots, records, leases, backing, held) && i < |slots| && !slots[i].used
    requires slot.used && slot.frame == Some(frame) && 0 < slot.bytes <= SLAB_LIMIT && 0 < slot.owner < MAX_QUOTAS
             && slot.address == frame.address
    requires HeldBy(held, frame) && frame.slot !in backing
    ensures Backed(slots[i := slot], records, leases, backing[frame.slot := Use(SlabItem(i), 0)], held)
  {
    var slots' := slots[i := slot];
    var backing' := backing[frame.slot := Use(SlabItem(i), 0)];
    SlabsKeep(slots, leases, leases, backing, backing', held, None);
    RecordsKeep(records, leases, leases, backing, backing', held, None);
    forall f | f in backing'
      ensures f in held && held[f].slot == f && Needed(backing'[f], held[f], slots', records, leases)
    {
      assert f != frame.slot ==> Needed(backing[f], held[f], slots, records, leases);
    }
  }

  /** The backing without an item's frames. */
  ghost function Without(backing: Backing, item: Item): (rest: Backing)
    ensures forall slot :: slot in rest <==> slot in backing && backing[slot].item != item
    ensures forall slot :: slot in rest ==> rest[slot] == backing[slot]
  {
    map slot | slot in backing && backing[slot].item != item :: backing[slot]
  }

  /** A small object goes; its one frame was all it had. */
  lemma BackedSlabOut(slots: seq<HeapSlot>, records: seq<PageRecord>, leases: seq<LeaseRecord>, backing: Backing,
                      held: map<nat, FrameLease>,
                      i: nat, slot: HeapSlot)
    requires Backed(slots, records, leases, backing, held) && i < |slots| && slots[i].used && !slot.used
    ensures slots[i].frame.Some? && HeldBy(held, slots[i].frame.value)
    ensures Without(backing, SlabItem(i)).Keys == backing.Keys - {slots[i].frame.value.slot}
    ensures slots[i].frame.value.slot in backing
    ensures Backed(slots[i := slot], records, leases, Without(backing, SlabItem(i)), held - {slots[i].frame.value.slot})
  {
    var rest := Without(backing, SlabItem(i));
    assert SlabBacked(slots[i], i, backing, held);
    SlabsKeep(slots, leases, leases, backing, rest, held, Some(SlabItem(i)));
    RecordsKeep(records, leases, leases, backing, rest, held, Some(SlabItem(i)));
    forall f | f in backing
      ensures f in held && Needed(backing[f], held[f], slots, records, leases)
    {
    }
    BackedSpared(slots[i := slot], records, leases, rest, held, held - {slots[i].frame.value.slot});
  }

  /** Leases `start`, `start + 1`, ... are those of the batch; the others are as before. */
  ghost predicate LeasesFilled(before: seq<LeaseRecord>, after: seq<LeaseRecord>, start: nat, batch: seq<FrameLease>) {
    && |after| == |before| && start + |batch| <= |before|
    && forall j :: 0 <= j < |before| ==> after[j] == if start <= j < start + |batch|
                                         then LeaseRecord(true, Some(batch[j - start])) else before[j]
  }

  /** The frames of a batch become the pages of item `r`. */
  ghost function Assigned(backing: Backing, r: nat, batch: seq<FrameLease>): Backing {
    if |batch| == 0 then backing
    else Assigned(backing, r, batch[..|batch| - 1])[batch[|batch| - 1].slot := Use(PagesItem(r), |batch| - 1)]
  }

  ghost predicate Assigns(backing: Backing, backing': Backing, r: nat, batch: seq<FrameLease>) {
    && backing'.Keys == backing.Keys + SlotsOf(batch)
    && (forall slot :: slot in backing ==> slot in backing' && backing'[slot] == backing[slot])
    && (forall k :: 0 <= k < |batch| ==> batch[k].slot in backing' && backing'[batch[k].slot] == Use(PagesItem(r), k))
  }

  lemma {:induction false} AssignedUses(backing: Backing, r: nat, batch: seq<FrameLease>)
    requires DistinctSlots(batch) && forall k :: 0 <= k < |batch| ==> batch[k].slot !in backing
    ensures Assigns(backing, Assigned(backing, r, batch), r, batch)
  {
    hide SlotsOf;
    if |batch| == 0 {
      NoSlots(batch);
    } else {
      var last := |batch| - 1;
      AssignedUses(backing, r, batch[..last]);
      SlotsOfOne(batch, last);
      assert batch[..last + 1] == batch;
    }
  }

  lemma FilledKeeps(leases: seq<LeaseRecord>, leases': seq<LeaseRecord>, start: nat, backing: Backing,
                    backing': Backing, r: nat, batch: seq<FrameLease>)
    requires LeasesFilled(leases, leases', start, batch) && Assigns(backing, backing', r, batch)
    requires forall j :: start <= j < start + |batch| ==> !leases[j].used
    ensures KeepsUses(backing, backing', leases, leases', None)
  {
  }

  lemma FilledBacks(record: PageRecord, r: nat, leases: seq<LeaseRecord>, leases': seq<LeaseRecord>, backing: Backing,
                    backing': Backing,
                    held: map<nat, FrameLease>, batch: seq<FrameLease>)
    requires LeasesFilled(leases, leases', record.leaseStart, batch) && Assigns(backing, backing', r, batch)
    requires SLAB_LIMIT < record.bytes <= |batch| * PAGE_SIZE && 0 < record.owner < MAX_QUOTAS
             && record.leaseCount == |batch| <= MAX_BATCH_FRAMES
    requires forall k :: 0 <= k < |batch| ==>
             HeldBy(held, batch[k]) && batch[k].address == record.address + k * PAGE_SIZE
    ensures RecordBacked(record, r, leases', backing', held)
  {
    hide SlotsOf;
    forall k | 0 <= k < record.leaseCount
      ensures LeaseBacked(leases'[record.leaseStart + k], Use(PagesItem(r), k), record.address + k * PAGE_SIZE,
                          backing', held)
    {
      assert leases'[record.leaseStart + k] == LeaseRecord(true, Some(batch[k]));
    }
  }

  lemma FilledNeeded(slots: seq<HeapSlot>, records: seq<PageRecord>, leases: seq<LeaseRecord>,
                     leases': seq<LeaseRecord>, backing: Backing,
                     backing': Backing, held: map<nat, FrameLease>, r: nat, record: PageRecord, batch: seq<FrameLease>)
    requires NoneIdle(slots, records, leases, backing, held) && r < |records| && !records[r].used && record.used
             && record.leaseCount == |batch|
    requires LeasesFilled(leases, leases', record.leaseStart, batch) && Assigns(backing, backing', r, batch)
    requires forall j :: record.leaseStart <= j < record.leaseStart + |batch| ==> !leases[j].used
    requires forall k :: 0 <= k < |batch| ==> HeldBy(held, batch[k])
    ensures NoneIdle(slots, records[r := record], leases', backing', held)
  {
    var records' := records[r := record];
    forall f | f in backing'
      ensures f in held && held[f].slot == f && Needed(backing'[f], held[f], slots, records', leases')
    {
      if f in backing {
        var use := backing[f];
        assert Needed(use, held[f], slots, records, leases);
        assert use.item.PagesItem? ==> use.item.index != r;
      } else {
        assert f in SlotsOf(batch);
        var k :| 0 <= k < |batch| && batch[k].slot == f;
        assert leases'[record.leaseStart + k] == LeaseRecord(true, Some(batch[k]));
      }
    }
  }

  /** An unused record takes a batch of frames the heap did not have. */
  lemma {:induction false} BackedPagesIn(slots: seq<HeapSlot>, records: seq<PageRecord>, leases: seq<LeaseRecord>,
                                         leases': seq<LeaseRecord>, backing: Backing,
                      held: map<nat, FrameLease>, r: nat, record: PageRecord, batch: seq<FrameLease>)
    requires Backed(slots, records, leases, backing, held) && r < |records| && !records[r].used
    requires record.used && SLAB_LIMIT < record.bytes <= |batch| * PAGE_SIZE && 0 < record.owner < MAX_QUOTAS
    requires record.leaseCount == |batch| <= MAX_BATCH_FRAMES && LeasesFilled(leases, leases', record.leaseStart, batch)
    requires forall j :: record.leaseStart <= j < record.leaseStart + |batch| ==> !leases[j].used
    requires DistinctSlots(batch) && forall k :: 0 <= k < |batch| ==> batch[k].slot !in backing
    requires forall k :: 0 <= k < |batch| ==>
             HeldBy(held, batch[k]) && batch[k].address == record.address + k * PAGE_SIZE
    ensures Backed(slots, records[r := record], leases', Assigned(backing, r, batch), held)
    ensures Assigned(backing, r, batch).Keys == backing.Keys + SlotsOf(batch)
  {
    hide RecordBacked, SlabBacked, NoneIdle, KeepsUses, Assigned;
    var backing' := Assigned(backing, r, batch);
    AssignedUses(backing, r, batch);
    FilledKeeps(leases, leases', record.leaseStart, backing, backing', r, batch);
    SlabsKeep(slots, leases, leases', backing, backing', held, None);
    RecordsKeep(records, leases, leases', backing, backing', held, None);
    FilledBacks(record, r, leases, leases', backing, backing', held, batch);
    FilledNeeded(slots, records, leases, leases', backing, backing', held, r, record, batch);
  }

  /** Leases `start` up to `start + count` are empty; the others are as before. */
  ghost predicate LeasesEmptied(before: seq<LeaseRecord>, after: seq<LeaseRecord>, start: nat, count: nat) {
    && |after| == |before|
    && forall j :: 0 <= j < |before| ==> after[j] == if start <= j < start + count then NO_LEASE else before[j]
  }

  /** A record's frames, in order. */
  ghost predicate BatchOf(record: PageRecord, leases: seq<LeaseRecord>, batch: seq<FrameLease>) {
    && |batch| == record.leaseCount && record.leaseStart + record.leaseCount <= |leases|
    && forall k :: 0 <= k < |batch| ==> leases[record.leaseStart + k] == LeaseRecord(true, Some(batch[k]))
  }

  lemma BatchServes(slots: seq<HeapSlot>, records: seq<PageRecord>, leases: seq<LeaseRecord>, backing: Backing,
                    held: map<nat, FrameLease>,
                    r: nat, batch: seq<FrameLease>)
    requires Backed(slots, records, leases, backing, held) && r < |records| && records[r].used
             && BatchOf(records[r], leases, batch)
    ensures DistinctSlots(batch) && |batch| > 0
    ensures forall k :: 0 <= k < |batch| ==>
            HeldBy(held, batch[k]) && batch[k].slot in backing && backing[batch[k].slot] == Use(PagesItem(r), k)
  {
    assert RecordBacked(records[r], r, leases, backing, held);
    forall k | 0 <= k < |batch|
      ensures HeldBy(held, batch[k]) && batch[k].slot in backing && backing[batch[k].slot] == Use(PagesItem(r), k)
    {
      assert LeaseBacked(leases[records[r].leaseStart + k], Use(PagesItem(r), k), records[r].address + k * PAGE_SIZE,
                         backing, held);
    }
  }

  lemma EmptiedKeeps(records: seq<PageRecord>, leases: seq<LeaseRecord>, leases': seq<LeaseRecord>, backing: Backing,
                     r: nat, batch: seq<FrameLease>)
    requires r < |records| && BatchOf(records[r], leases, batch)
             && LeasesEmptied(leases, leases', records[r].leaseStart, records[r].leaseCount)
    requires forall k :: 0 <= k < |batch| ==> batch[k].slot in backing && backing[batch[k].slot] == Use(PagesItem(r), k)
    ensures KeepsUses(backing, Without(backing, PagesItem(r)), leases, leases', Some(PagesItem(r)))
  {
    var start := records[r].leaseStart;
    forall j | start <= j < start + |batch|
      ensures !LeaseKept(leases[j], backing, Some(PagesItem(r)))
    {
      assert leases[start + (j - start)] == LeaseRecord(true, Some(batch[j - start]));
    }
  }

  lemma EmptiedNeeded(slots: seq<HeapSlot>, records: seq<PageRecord>, leases: seq<LeaseRecord>,
                      leases': seq<LeaseRecord>, backing: Backing,
                      held: map<nat, FrameLease>, r: nat, record: PageRecord)
    requires NoneIdle(slots, records, leases, backing, held) && r < |records|
    requires KeepsUses(backing, Without(backing, PagesItem(r)), leases, leases', Some(PagesItem(r)))
    ensures NoneIdle(slots, records[r := record], leases', Without(backing, PagesItem(r)), held)
  {
    var rest := Without(backing, PagesItem(r));
    forall f | f in rest
      ensures f in held && held[f].slot == f && Needed(rest[f], held[f], slots, records[r := record], leases')
    {
      var use := backing[f];
      assert Needed(use, held[f], slots, records, leases);
      if use.item.PagesItem? {
        assert LeaseKept(leases[records[use.item.index].leaseStart + use.page], backing, Some(PagesItem(r)));
      }
    }
  }

  lemma EmptiedKeys(slots: seq<HeapSlot>, records: seq<PageRecord>, leases: seq<LeaseRecord>, backing: Backing,
                    held: map<nat, FrameLease>,
                    r: nat, batch: seq<FrameLease>)
    requires NoneIdle(slots, records, leases, backing, held) && r < |records| && BatchOf(records[r], leases, batch)
    requires forall k :: 0 <= k < |batch| ==> batch[k].slot in backing && backing[batch[k].slot] == Use(PagesItem(r), k)
    ensures Without(backing, PagesItem(r)).Keys == backing.Keys - SlotsOf(batch)
  {
    forall f | f in backing
      ensures f in SlotsOf(batch) <==> backing[f].item == PagesItem(r)
    {
      assert Needed(backing[f], held[f], slots, records, leases);
      if backing[f].item == PagesItem(r) {
        assert held[f] == batch[backing[f].page];
      }
    }
  }

  /** A large object goes; its batch was all it had. */
  lemma BackedPagesOut(slots: seq<HeapSlot>, records: seq<PageRecord>, leases: seq<LeaseRecord>,
                       leases': seq<LeaseRecord>, backing: Backing,
                       held: map<nat, FrameLease>, r: nat, record: PageRecord, batch: seq<FrameLease>)
    requires Backed(slots, records, leases, backing, held) && r < |records| && records[r].used && !record.used
    requires BatchOf(records[r], leases, batch)
             && LeasesEmptied(leases, leases', records[r].leaseStart, records[r].leaseCount)
    ensures Without(backing, PagesItem(r)).Keys == backing.Keys - SlotsOf(batch) && SlotsOf(batch) <= backing.Keys
    ensures Backed(slots, records[r := record], leases', Without(backing, PagesItem(r)), held - SlotsOf(batch))
  {
    hide RecordBacked, SlabBacked, NoneIdle, KeepsUses, BatchOf, LeasesEmptied;
    var rest := Without(backing, PagesItem(r));
    BatchServes(slots, records, leases, backing, held, r, batch);
    EmptiedKeeps(records, leases, leases', backing, r, batch);
    SlabsKeep(slots, leases, leases', backing, rest, held, Some(PagesItem(r)));
    RecordsKeep(records, leases, leases', backing, rest, held, Some(PagesItem(r)));
    EmptiedNeeded(slots, records, leases, leases', backing, held, r, record);
    EmptiedKeys(slots, records, leases, backing, held, r, batch);
    BackedSpared(slots, records[r := record], leases', rest, held, held - SlotsOf(batch));
  }

  // --- Charges ----------------------------------------------------------------

  function SlabCharge(slot: HeapSlot, who: nat): nat {
    if slot.used && slot.owner == who then slot.bytes else 0
  }

  function SlabBytes(slots: seq<HeapSlot>, who: nat): nat {
    if |slots| == 0 then 0 else SlabBytes(slots[..|slots| - 1], who) + SlabCharge(slots[|slots| - 1], who)
  }

  function RecordCharge(record: PageRecord, who: nat): nat {
    if record.used && record.owner == who then record.bytes else 0
  }

  function RecordBytes(records: seq<PageRecord>, who: nat): nat {
    if |records| == 0 then 0 else RecordBytes(records[..|records| - 1], who) + RecordCharge(records[|records| - 1], who)
  }

  /** Every owner is charged exactly the bytes of its live objects. */
  ghost predicate Charged(slots: seq<HeapSlot>, records: seq<PageRecord>, quotas: seq<Quota>) {
    |quotas| == MAX_QUOTAS && forall who :: 0 <= who < MAX_QUOTAS ==>
        quotas[who].used == SlabBytes(slots, who) + RecordBytes(records, who)
  }

  lemma {:induction false} SlabBytesAfter(slots: seq<HeapSlot>, i: nat, slot: HeapSlot, who: nat)
    requires i < |slots|
    ensures SlabBytes(slots[i := slot], who) + SlabCharge(slots[i], who) == SlabBytes(slots, who)
            + SlabCharge(slot, who)
  {
    var last := |slots| - 1;
    if i < last {
      SlabBytesAfter(slots[..last], i, slot, who);
      assert slots[i := slot][..last] == slots[..last][i := slot];
    } else {
      assert slots[i := slot][..last] == slots[..last];
    }
  }

  lemma {:induction false} RecordBytesAfter(records: seq<PageRecord>, r: nat, record: PageRecord, who: nat)
    requires r < |records|
    ensures RecordBytes(records[r := record], who) + RecordCharge(records[r], who) == RecordBytes(records, who)
            + RecordCharge(record, who)
  {
    var last := |records| - 1;
    if r < last {
      RecordBytesAfter(records[..last], r, record, who);
      assert records[r := record][..last] == records[..last][r := record];
    } else {
      assert records[r := record][..last] == records[..last];
    }
  }

  /** Charge or discharge one slot's owner. */
  lemma ChargedSlab(slots: seq<HeapSlot>, records: seq<PageRecord>, quotas: seq<Quota>, i: nat, slot: HeapSlot,
                    owner: nat, used: nat)
    requires Charged(slots, records, quotas) && i < |slots| && owner < MAX_QUOTAS
    requires used + SlabCharge(slots[i], owner) == quotas[owner].used + SlabCharge(slot, owner)
    requires forall who :: who != owner ==> SlabCharge(slots[i], who) == SlabCharge(slot, who)
    ensures Charged(slots[i := slot], records, quotas[owner := quotas[owner].(used := used)])
  {
    forall who | 0 <= who < MAX_QUOTAS
      ensures quotas[owner := quotas[owner].(used := used)][who].used == SlabBytes(slots[i := slot], who)
              + RecordBytes(records, who)
    {
      SlabBytesAfter(slots, i, slot, who);
    }
  }

  lemma ChargedPages(slots: seq<HeapSlot>, records: seq<PageRecord>, quotas: seq<Quota>, r: nat, record: PageRecord,
                     owner: nat, used: nat)
    requires Charged(slots, records, quotas) && r < |records| && owner < MAX_QUOTAS
    requires used + RecordCharge(records[r], owner) == quotas[owner].used + RecordCharge(record, owner)
    requires forall who :: who != owner ==> RecordCharge(records[r], who) == RecordCharge(record, who)
    ensures Charged(slots, records[r := record], quotas[owner := quotas[owner].(used := used)])
  {
    forall who | 0 <= who < MAX_QUOTAS
      ensures quotas[owner := quotas[owner].(used := used)][who].used == SlabBytes(slots, who)
              + RecordBytes(records[r := record], who)
    {
      RecordBytesAfter(records, r, record, who);
    }
  }

  /** A live object's bytes are part of what its owner is charged. */
  lemma ChargedCovers(slots: seq<HeapSlot>, records: seq<PageRecord>, quotas: seq<Quota>, item: Item)
    requires Charged(slots, records, quotas) && LiveExtent(slots, records, item).Some?
    ensures var extent := LiveExtent(slots, records, item).value; extent.owner < MAX_QUOTAS ==>
            extent.bytes <= quotas[extent.owner].used
  {
    match item {
      case SlabItem(i) => SlabBytesAfter(slots, i, slots[i].(used := false), slots[i].owner);
      case PagesItem(r) => RecordBytesAfter(records, r, records[r].(used := false), records[r].owner);
    }
  }

  // --- Alignment ----------------------------------------------------------------

  predicate PowerOfTwo(n: nat) {
    n == 1 || (n > 1 && n % 2 == 0 && PowerOfTwo(n / 2))
  }

  lemma {:induction false} PowerIs(n: nat, k: nat) returns (j: nat)
    requires PowerOfTwo(n) && n <= Bits.Pow2(k)
    ensures j <= k && n == Bits.Pow2(j)
  {
    if n == 1 || k == 0 {
      j := 0;
    } else {
      j := PowerIs(n / 2, k - 1);
      j := j + 1;
    }
  }

  lemma AlignedToAll(address: nat)
    requires address % PAGE_SIZE == 0
    ensures forall alignment :: alignment in [1, 2, 4, 8, 16, 32, 64, 128, 256, 512, 1024, 2048, 4096] ==>
            address % alignment == 0
  {
    assert address % 2048 == 0;
    assert address % 1024 == 0;
    assert address % 512 == 0;
    assert address % 256 == 0;
    assert address % 128 == 0;
    assert address % 64 == 0;
    assert address % 32 == 0;
    assert address % 16 == 0;
    assert address % 8 == 0;
    assert address % 4 == 0;
    assert address % 2 == 0;
  }

  /** A page-aligned address has every alignment up to a page. */
  lemma {:induction false} PageAligned(address: nat, alignment: nat)
    requires address % PAGE_SIZE == 0 && PowerOfTwo(alignment) && alignment <= PAGE_SIZE
    ensures address % alignment == 0
  {
    AlignedToAll(address);
    assert Bits.Pow2(2) == 4 && Bits.Pow2(4) == 16 && Bits.Pow2(6) == 64 && Bits.Pow2(8) == 256 && Bits.Pow2(10) == 1024
           && Bits.Pow2(12) == PAGE_SIZE;
    var j := PowerIs(alignment, 12);
    assert alignment in [1, 2, 4, 8, 16, 32, 64, 128, 256, 512, 1024, 2048, 4096];
  }
}
