/**
 The synchronous physical-frame facade used by the page-table builder, the image
 loader and the program runtime. It hides shards and caches: a frame is either
 free or live, and a live frame has one owner.
 */
module FramePools {
  import opened Common

  datatype PoolError = Exhausted | InvalidMap

  class FramePool {
    var free: set<nat>
    var live: map<nat, nat>
    var available: nat

    predicate Counted()
      reads this
    {
      available == |free|
    }

    predicate Valid()
      reads this
    {
      && Counted()
      && free !! live.Keys
      && (forall frame :: frame in free ==> FrameShaped(frame))
      && (forall frame :: frame in live ==> FrameShaped(frame))
    }

    /** Every frame the pool was initialised with. */
    ghost function Universe(): set<nat>
      reads this
    {
      free + live.Keys
    }

    constructor (frames: set<nat>)
      requires forall frame :: frame in frames ==> FrameShaped(frame)
      ensures Valid() && free == frames && live == map[] && available == |frames|
    {
      free := frames;
      live := map[];
      available := |frames|;
    }

    method AllocateFor(owner: nat) returns (r: Result<nat, PoolError>)
      requires Valid()
      modifies this
      ensures Valid() && Universe() == old(Universe())
      ensures r.Ok? <==> old(available) > 0
      ensures r.Ok? ==> r.value in old(free) && free == old(free) - {r.value} && available == old(available) - 1
      ensures r.Ok? ==> live == old(live)[r.value := owner]
      ensures r.Err? ==> r.error == Exhausted && free == old(free) && live == old(live) && available == old(available)
    {
      if available == 0 {
        return Err(Exhausted);
      }
      var frame :| frame in free;
      free := free - {frame};
      available := available - 1;
      live := live[frame := owner];
      r := Ok(frame);
    }

    method Release(frame: nat) returns (r: Result<Unit, PoolError>)
      requires Valid()
      modifies this
      ensures Valid() && Universe() == old(Universe())
      ensures r.Ok? <==> frame in old(live)
      ensures r.Ok? ==> free == old(free) + {frame} && live == old(live) - {frame} && available == old(available) + 1
      ensures r.Err? ==> r.error == InvalidMap && free == old(free) && live == old(live) && available == old(available)
    {
      if frame !in live {
        return Err(InvalidMap);
      }
      free := free + {frame};
      available := available + 1;
      live := live - {frame};
      r := Ok(Unit.Unit);
    }
  }

  ghost function Elements(frames: seq<nat>): set<nat> {
    set frame <- frames
  }

  /** Release every frame of a list that is live, whatever the others are. */
  method ReleaseEach(pool: FramePool, frames: seq<nat>)
    requires pool.Valid()
    modifies pool
    ensures pool.Valid() && pool.Universe() == old(pool.Universe())
    ensures pool.live == old(pool.live) - Elements(frames)
    ensures pool.free == old(pool.free) + Elements(frames) * old(pool.live).Keys
  {
    hide FramePool.Counted;
    for k := 0 to |frames|
      invariant pool.Valid() && pool.Universe() == old(pool.Universe())
      invariant pool.live == old(pool.live) - Elements(frames[..k])
      invariant pool.free == old(pool.free) + Elements(frames[..k]) * old(pool.live).Keys
    {
      assert frames[..k + 1] == frames[..k] + [frames[k]];
      var _ := pool.Release(frames[k]);
    }
    assert frames[..|frames|] == frames;
  }

  /** Release frames in order, stopping at one that is not live. */
  method ReleaseAll(pool: FramePool, frames: seq<nat>) returns (r: Result<Unit, PoolError>)
    requires pool.Valid()
    modifies pool
    ensures pool.Valid() && pool.Universe() == old(pool.Universe())
    ensures pool.live.Keys <= old(pool.live).Keys && forall frame :: frame in pool.live ==>
            pool.live[frame] == old(pool.live)[frame]
    ensures old(pool.live).Keys - Elements(frames) <= pool.live.Keys
    ensures Distinct(frames) && Elements(frames) <= old(pool.live).Keys ==> r.Ok?
    ensures r.Ok? ==> pool.live == old(pool.live) - Elements(frames) && pool.free == old(pool.free) + Elements(frames)
  {
    hide FramePool.Counted;
    for k := 0 to |frames|
      invariant pool.Valid() && pool.Universe() == old(pool.Universe())
      invariant pool.live == old(pool.live) - Elements(frames[..k])
                && pool.free == old(pool.free) + Elements(frames[..k])
    {
      assert frames[..k + 1] == frames[..k] + [frames[k]];
      var released := pool.Release(frames[k]);
      if released.Err? {
        DistinctUpTo(frames, k);
        return released;
      }
    }
    assert frames[..|frames|] == frames;
    r := Ok(Unit.Unit);
  }

  /** In a sequence without repetition an element does not occur before itself. */
  lemma {:induction false} DistinctUpTo(frames: seq<nat>, k: nat)
    requires k < |frames|
    ensures Distinct(frames) ==> frames[k] !in frames[..k]
  {
    if Distinct(frames) && frames[k] in frames[..k] {
      var j :| 0 <= j < k && frames[j] == frames[k];
      DistinctAt(frames, j, k);
    }
  }
}
