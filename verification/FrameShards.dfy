/** The division of frame slots into four lock-independent shards. */
module FrameShards {
  import opened Common

  const MAX_FRAME_SHARDS: nat := 4

  function CeilDiv(a: nat, b: nat): nat
    requires b > 0
  {
    (a + b - 1) / b
  }

  /** First slot of a shard: its share of the frames, rounded up to a whole bitmap word. */
  function Boundary(count: nat, shard: nat): nat {
    CeilDiv(CeilDiv(count * shard, MAX_FRAME_SHARDS), 64) * 64
  }

  function ShardFirst(count: nat, shard: nat): nat {
    Boundary(count, shard)
  }

  function ShardLast(count: nat, shard: nat): nat {
    if shard + 1 == MAX_FRAME_SHARDS then count
    else if Boundary(count, shard + 1) < count then Boundary(count, shard + 1) else count
  }

  predicate InShard(count: nat, shard: nat, slot: nat) {
    ShardFirst(count, shard) <= slot < ShardLast(count, shard)
  }

  function ShardFrom(count: nat, slot: nat, shard: nat): (r: Option<nat>)
    ensures r.Some? ==> shard <= r.value < MAX_FRAME_SHARDS && InShard(count, r.value, slot)
    ensures r.None? ==> forall k :: shard <= k < MAX_FRAME_SHARDS ==> !InShard(count, k, slot)
    decreases MAX_FRAME_SHARDS - shard
  {
    if shard >= MAX_FRAME_SHARDS then None
    else if InShard(count, shard, slot) then Some(shard)
    else ShardFrom(count, slot, shard + 1)
  }

  function ShardForSlot(count: nat, slot: nat): Option<nat> {
    ShardFrom(count, slot, 0)
  }

  lemma QuarterAscends(a: nat, b: nat)
    requires a <= b
    ensures CeilDiv(a, MAX_FRAME_SHARDS) <= CeilDiv(b, MAX_FRAME_SHARDS)
  {
  }

  lemma RoundUpAscends(a: nat, b: nat)
    requires a <= b
    ensures CeilDiv(a, 64) * 64 <= CeilDiv(b, 64) * 64
  {
  }

  lemma BoundaryAscends(count: nat, shard: nat, next: nat)
    requires shard <= next
    ensures Boundary(count, shard) <= Boundary(count, next)
    ensures Boundary(count, shard) % 64 == 0
  {
    hide CeilDiv;
    Ascend(count, shard, next);
    QuarterAscends(count * shard, count * next);
    RoundUpAscends(CeilDiv(count * shard, MAX_FRAME_SHARDS), CeilDiv(count * next, MAX_FRAME_SHARDS));
  }

  lemma Ascend(count: nat, low: nat, high: nat)
    requires low <= high
    ensures 0 <= count * low <= count * high
  {
  }

  lemma BoundaryZero(count: nat)
    ensures Boundary(count, 0) == 0
  {
  }

  lemma BoundariesAscend(count: nat)
    ensures Boundary(count, 0) == 0
    ensures Boundary(count, 0) <= Boundary(count, 1) <= Boundary(count, 2) <= Boundary(count, 3)
  {
    hide CeilDiv, Boundary;
    BoundaryZero(count);
    BoundaryAscends(count, 0, 1);
    BoundaryAscends(count, 1, 2);
    BoundaryAscends(count, 2, 3);
  }

  /** Every slot lies in exactly one shard. */
  lemma ShardsPartition(count: nat, slot: nat)
    requires slot < count
    ensures exists shard :: 0 <= shard < MAX_FRAME_SHARDS && InShard(count, shard, slot)
    ensures forall left, right ::
              0 <= left < MAX_FRAME_SHARDS && 0 <= right < MAX_FRAME_SHARDS && InShard(count, left, slot)
                  && InShard(count, right, slot) ==>
                    left == right
  {
    hide Boundary;
    BoundariesAscend(count);
    var shard := if slot < Boundary(count, 1) then 0 else if slot < Boundary(count, 2) then
        1 else if slot < Boundary(count, 3) then 2 else 3;
    assert InShard(count, shard, slot);
    forall other | 0 <= other < MAX_FRAME_SHARDS && InShard(count, other, slot)
      ensures other == shard
    {
      OnlyShard(count, slot, other);
    }
  }

  lemma OnlyShard(count: nat, slot: nat, shard: nat)
    requires slot < count && shard < MAX_FRAME_SHARDS && InShard(count, shard, slot)
    ensures shard == if slot < Boundary(count, 1) then 0 else if slot < Boundary(count, 2) then
            1 else if slot < Boundary(count, 3) then 2 else 3
  {
    hide Boundary;
    BoundariesAscend(count);
    assert shard == 0 || shard == 1 || shard == 2 || shard == 3;
  }

  /** The frames of one bitmap word share their shard. */
  lemma WordInOneShard(count: nat, left: nat, right: nat, shard: nat)
    requires left < count && right < count && left / 64 == right / 64 && shard < MAX_FRAME_SHARDS
    ensures InShard(count, shard, left) <==> InShard(count, shard, right)
  {
    hide Boundary;
    BoundaryAscends(count, shard, shard + 1);
    BoundaryAscends(count, shard + 1, shard + 1);
    var low, high := ShardFirst(count, shard), ShardLast(count, shard);
    assert high == count || high % 64 == 0;
  }
}
