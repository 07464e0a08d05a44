/**
 Loading an admitted image: a frame for every page of its segments and its stack, and
 the bytes that go into them.
 */
module Loader {
  import opened Common
  import opened FramePools
  import opened Elf

  const USER_STACK_PAGES: nat := 8
  const MAX_LOAD_PAGES: nat := 536
  const USER_STACK_BASE: nat := 0x100_0100_0000

  datatype LoadError = InvalidPlan | Capacity | Exhausted | Overlap | Write | Read

  /** A page an image needs. */
  datatype Want = Want(address: nat, flags: MappingFlags)

  // --- Wanted pages -------------------------------------------------------------

  function AlignDown(address: nat): nat {
    address / PAGE_SIZE * PAGE_SIZE
  }

  function AlignUp(address: nat): nat {
    AlignDown(address + PAGE_SIZE - 1)
  }

  function PageCount(segment: Segment): nat {
    (segment.End() + PAGE_SIZE - 1) / PAGE_SIZE - segment.virtualAddress / PAGE_SIZE
  }

  /** `count` pages from `from` on. */
  function WantsFrom(from: nat, count: nat, flags: MappingFlags): seq<Want> {
    if count == 0 then [] else WantsFrom(from, count - 1, flags) + [Want(from + (count - 1) * PAGE_SIZE, flags)]
  }

  function SegmentWants(segment: Segment): seq<Want>
  {
    WantsFrom(AlignDown(segment.virtualAddress), PageCount(segment), segment.flags)
  }

  function PlanWants(segments: seq<Segment>): seq<Want> {
    if |segments| == 0 then [] else PlanWants(segments[..|segments| - 1]) + SegmentWants(segments[|segments| - 1])
  }

  function AllWants(segments: seq<Segment>, stackPages: nat): seq<Want> {
    PlanWants(segments) + WantsFrom(USER_STACK_BASE, stackPages, DATA)
  }

  function Addresses(wants: seq<Want>): (addresses: seq<nat>)
    ensures |addresses| == |wants| && forall i :: 0 <= i < |wants| ==> addresses[i] == wants[i].address
  {
    if |wants| == 0 then [] else Addresses(wants[..|wants| - 1]) + [wants[|wants| - 1].address]
  }

  /** What a load needs: no page twice among the segments, room for all pages, and frames for them. */
  ghost predicate Loadable(segments: seq<Segment>, stackPages: nat, available: nat) {
    Fits(PlanWants(segments), |AllWants(segments, stackPages)|, available)
  }

  ghost predicate Fits(wants: seq<Want>, count: nat, available: nat) {
    Distinct(Addresses(wants)) && count <= MAX_LOAD_PAGES && count <= available
  }

  lemma {:induction false} DistinctTake(s: seq<nat>, k: nat)
    requires Distinct(s) && k <= |s|
    ensures Distinct(s[..k])
  {
    if k < |s| {
      DistinctTake(s[..|s| - 1], k);
      assert s[..|s| - 1][..k] == s[..k];
    } else {
      assert s[..k] == s;
    }
  }

  /** If part of the wanted pages does not fit, the whole does not. */
  lemma FitsPart(part: seq<Want>, whole: seq<Want>, count: nat, available: nat)
    requires part <= whole && |whole| <= count && Fits(whole, count, available)
    ensures Fits(part, |part|, available)
  {
    DistinctTake(Addresses(whole), |part|);
    assert Addresses(whole)[..|part|] == Addresses(part);
  }

  lemma {:induction false} PlanPrefix(segments: seq<Segment>, k: nat)
    requires k <= |segments|
    ensures PlanWants(segments[..k]) <= PlanWants(segments)
  {
    if k < |segments| {
      PlanPrefix(segments[..|segments| - 1], k);
      assert segments[..|segments| - 1][..k] == segments[..k];
    } else {
      assert segments[..k] == segments;
    }
  }

  lemma {:induction false} WantsPrefix(from: nat, k: nat, count: nat, flags: MappingFlags)
    requires k <= count
    ensures WantsFrom(from, k, flags) <= WantsFrom(from, count, flags) && |WantsFrom(from, count, flags)| == count
    decreases count
  {
    if k < count {
      WantsPrefix(from, k, count - 1, flags);
    } else if count > 0 {
      WantsPrefix(from, count - 1, count - 1, flags);
    }
  }

  // --- Pages held ----------------------------------------------------------------

  function FramesOf(pages: seq<LoadedPage>): seq<nat> {
    if |pages| == 0 then [] else FramesOf(pages[..|pages| - 1]) + [pages[|pages| - 1].frame]
  }

  function WantsOf(pages: seq<LoadedPage>): seq<Want> {
    if |pages| == 0 then [] else WantsOf(pages[..|pages| - 1])
                                 + [Want(pages[|pages| - 1].virtualAddress, pages[|pages| - 1].flags)]
  }

  /** The pages' frames, and no others, were taken from a pool that had `free` and `live`. */
  ghost predicate Took(pages: seq<LoadedPage>, free: set<nat>, live: map<nat, nat>, nowFree: set<nat>, nowLive: map<nat,
                       nat>) {
    && Distinct(FramesOf(pages)) && Elements(FramesOf(pages)) <= free
    && nowFree == free - Elements(FramesOf(pages))
    && nowLive.Keys == live.Keys + Elements(FramesOf(pages)) && forall f :: f in live ==>
       f in nowLive && nowLive[f] == live[f]
  }

  lemma TookOne(pages: seq<LoadedPage>, free: set<nat>, live: map<nat, nat>, nowFree: set<nat>, nowLive: map<nat, nat>,
                page: LoadedPage, owner: nat)
    requires Took(pages, free, live, nowFree, nowLive) && page.frame in nowFree && free !! live.Keys
    ensures Took(pages + [page], free, live, nowFree - {page.frame}, nowLive[page.frame := owner])
  {
    var more := pages + [page];
    assert more[..|pages|] == pages;
    DistinctAppend(FramesOf(pages), page.frame);
    assert Elements(FramesOf(more)) == Elements(FramesOf(pages)) + {page.frame};
  }

  /** Giving everything back restores the pool. */
  lemma {:induction false} TookBack(pages: seq<LoadedPage>, free: set<nat>, live: map<nat, nat>, nowFree: set<nat>,
                                    nowLive: map<nat, nat>)
    requires Took(pages, free, live, nowFree, nowLive) && free !! live.Keys
    ensures nowLive - Elements(FramesOf(pages)) == live
    ensures nowFree + Elements(FramesOf(pages)) * nowLive.Keys == free
  {
  }

  class LoadedImage {
    var entry: nat
    var stackTop: nat
    var pages: seq<LoadedPage>

    constructor (entry: nat, stackTop: nat)
      ensures this.entry == entry && this.stackTop == stackTop && pages == []
    {
      this.entry, this.stackTop, pages := entry, stackTop, [];
    }

    /** Give every frame back. */
    method Reclaim(pool: FramePool)
      requires pool.Valid()
      modifies this`pages, pool
      ensures pool.Valid() && pool.Universe() == old(pool.Universe()) && pages == []
      ensures pool.live == old(pool.live) - Elements(FramesOf(old(pages)))
      ensures pool.free == old(pool.free) + Elements(FramesOf(old(pages))) * old(pool.live).Keys
    {
      ReleaseEach(pool, FramesOf(pages));
      pages := [];
    }

    /** Add a page with a frame of its own; if that fails, give everything back. */
    method PushPage(pool: FramePool, address: nat, flags: MappingFlags, owner: nat, ghost free: set<nat>,
                    ghost live: map<nat, nat>) returns (r: Result<Unit, LoadError>)
      requires pool.Valid() && Took(pages, free, live, pool.free, pool.live) && free !! live.Keys
      modifies this`pages, pool
      ensures pool.Valid()
      ensures r.Ok? <==> |old(pages)| != MAX_LOAD_PAGES && old(pool.available) > 0
      ensures r.Err? ==> r.error == if |old(pages)| == MAX_LOAD_PAGES then Capacity else LoadError.Exhausted
      ensures r.Ok? ==> Took(pages, free, live, pool.free, pool.live) && pool.available == old(pool.available) - 1
      ensures r.Ok? ==> |pages| == |old(pages)| + 1 && pages[..|old(pages)|] == old(pages)
                        && WantsOf(pages) == WantsOf(old(pages)) + [Want(address, flags)]
      ensures r.Ok? ==> pages[|old(pages)|].virtualAddress == address
      ensures r.Err? ==> pages == [] && pool.free == free && pool.live == live
    {
      hide FramePool.Counted, Took, FramesOf;
      if |pages| == MAX_LOAD_PAGES {
        TookBack(pages, free, live, pool.free, pool.live);
        Reclaim(pool);
        return Err(Capacity);
      }
      var frame := pool.AllocateFor(owner);
      if frame.Err? {
        TookBack(pages, free, live, pool.free, pool.live);
        Reclaim(pool);
        return Err(LoadError.Exhausted);
      }
      var page := LoadedPage(address, frame.value, flags);
      TookOne(pages, free, live, old(pool.free), old(pool.live), page, owner);
      pages := pages + [page];
      r := Ok(Unit.Unit);
    }

    /** Add the pages of one segment, none of which may be there yet. */
    method LoadSegment(pool: FramePool, segment: Segment, owner: nat, ghost free: set<nat>, ghost live: map<nat, nat>)
        returns (r: Result<Unit, LoadError>)
      requires pool.Valid() && Took(pages, free, live, pool.free, pool.live) && free !! live.Keys
               && Distinct(Addresses(WantsOf(pages))) && |pages| <= MAX_LOAD_PAGES
      modifies this`pages, pool
      ensures pool.Valid()
      ensures r.Ok? <==> Fits(WantsOf(old(pages)) + SegmentWants(segment), |old(pages)| + PageCountOf(segment),
                              |old(pages)| + old(pool.available))
      ensures r.Ok? ==> Took(pages, free, live, pool.free, pool.live)
                        && WantsOf(pages) == WantsOf(old(pages)) + SegmentWants(segment)
      ensures r.Ok? ==> |pages| == |old(pages)| + PageCountOf(segment)
                        && pool.available + |pages| == old(pool.available) + |old(pages)|
      ensures r.Err? ==> pages == [] && pool.free == free && pool.live == live
    {
      hide FramePool.Valid, Took, Distinct, Addresses, WantsOf, FramesOf;
      var start, count := AlignDown(segment.virtualAddress), PageCountOf(segment);
      ghost var before := WantsOf(pages);
      WantsLength(pages);
      assert before + WantsFrom(start, 0, segment.flags) == before;
      for k := 0 to count
        invariant pool.Valid() && Took(pages, free, live, pool.free, pool.live) && |pages| == |old(pages)| + k
        invariant WantsOf(pages) == before + WantsFrom(start, k, segment.flags)
                  && |WantsFrom(start, k, segment.flags)| == k
        invariant Fits(WantsOf(pages), |pages|, |old(pages)| + old(pool.available))
                  && pool.available + |pages| == old(pool.available) + |old(pages)|
      {
        var address := start + k * PAGE_SIZE;
        WantsPrefix(start, k + 1, count, segment.flags);
        ghost var now := before + WantsFrom(start, k + 1, segment.flags);
        assert now == WantsOf(pages) + [Want(address, segment.flags)];
        NextFits(pages, Want(address, segment.flags), |old(pages)| + old(pool.available));
        if exists i :: 0 <= i < |pages| && pages[i].virtualAddress == address {
          UnfitPart(now, before + SegmentWants(segment), |old(pages)| + count, |old(pages)| + old(pool.available));
          TookBack(pages, free, live, pool.free, pool.live);
          PoolApart(pool);
          Reclaim(pool);
          return Err(Overlap);
        }
        r := PushPage(pool, address, segment.flags, owner, free, live);
        if r.Err? {
          UnfitPart(now, before + SegmentWants(segment), |old(pages)| + count, |old(pages)| + old(pool.available));
          return;
        }
      }
      r := Ok(Unit.Unit);
    }
  }

  /**
   Load an image: a frame of its own for every page of every segment and of the stack.
   A load that fails has taken nothing.
   */
  method Load(plan: Plan, pool: FramePool, stackPages: nat, owner: nat) returns (r: Result<LoadedImage, LoadError>)
    requires pool.Valid()
    modifies pool
    ensures pool.Valid()
    ensures r.Ok? <==> Loadable(plan.segments, stackPages, old(pool.available))
    ensures r.Ok? ==> fresh(r.value) && r.value.entry == plan.entry
                      && r.value.stackTop == USER_STACK_BASE + stackPages * PAGE_SIZE
    ensures r.Ok? ==> WantsOf(r.value.pages) == AllWants(plan.segments, stackPages)
    ensures r.Ok? ==> Took(r.value.pages, old(pool.free), old(pool.live), pool.free, pool.live)
    ensures r.Err? ==> pool.free == old(pool.free) && pool.live == old(pool.live)
  {
    hide FramePool.Valid, Took, Fits, WantsOf, FramesOf, PlanWants;
    PoolApart(pool);
    var image := new LoadedImage(plan.entry, USER_STACK_BASE + stackPages * PAGE_SIZE);
    NothingLoaded(image.pages, plan.segments, pool.available, pool.free, pool.live);
    for index := 0 to |plan.segments|
      invariant pool.Valid() && Took(image.pages, old(pool.free), old(pool.live), pool.free, pool.live)
      invariant WantsOf(image.pages) == PlanWants(plan.segments[..index])
                && pool.available + |image.pages| == old(pool.available)
      invariant Fits(WantsOf(image.pages), |image.pages|, old(pool.available)) && image.entry == plan.entry
                && image.stackTop == USER_STACK_BASE + stackPages * PAGE_SIZE
    {
      var segment := plan.segments[index];
      NextSegment(plan.segments, index, image.pages, old(pool.available), stackPages);
      var loaded := image.LoadSegment(pool, segment, owner, old(pool.free), old(pool.live));
      if loaded.Err? {
        return Err(loaded.error);
      }
    }
    assert plan.segments[..|plan.segments|] == plan.segments;
    r := LoadStack(image, pool, plan.segments, stackPages, owner, old(pool.available), old(pool.free), old(pool.live));
  }

  method LoadStack(image: LoadedImage, pool: FramePool, segments: seq<Segment>, stackPages: nat, owner: nat,
                   ghost available: nat, ghost free: set<nat>, ghost live: map<nat, nat>)
    returns (r: Result<LoadedImage, LoadError>)
    requires pool.Valid() && Took(image.pages, free, live, pool.free, pool.live) && free !! live.Keys
    requires WantsOf(image.pages) == PlanWants(segments) && pool.available + |image.pages| == available
    requires Fits(WantsOf(image.pages), |image.pages|, available)
    modifies image`pages, pool
    ensures pool.Valid() && (r.Ok? <==> Loadable(segments, stackPages, available))
    ensures r.Ok? ==> r.value == image && WantsOf(image.pages) == AllWants(segments, stackPages)
                      && Took(image.pages, free, live, pool.free, pool.live)
    ensures r.Err? ==> pool.free == free && pool.live == live
  {
    hide FramePool.Valid, Took, WantsOf, FramesOf, PlanWants, Distinct, Addresses;
    WantsPrefix(USER_STACK_BASE, 0, stackPages, DATA);
    WantsLength(image.pages);
    ghost var base := |image.pages|;
    assert PlanWants(segments) + WantsFrom(USER_STACK_BASE, 0, DATA) == PlanWants(segments);
    for offset := 0 to stackPages
      invariant pool.Valid() && Took(image.pages, free, live, pool.free, pool.live)
      invariant WantsOf(image.pages) == PlanWants(segments) + WantsFrom(USER_STACK_BASE, offset, DATA)
      invariant |image.pages| == base + offset <= MAX_LOAD_PAGES && pool.available + |image.pages| == available
    {
      r := PushStackPage(image, pool, offset, owner, free, live);
      if r.Err? {
        return;
      }
    }
    r := Ok(image);
  }

  method PushStackPage(image: LoadedImage, pool: FramePool, offset: nat, owner: nat, ghost free: set<nat>,
                       ghost live: map<nat, nat>)
    returns (r: Result<LoadedImage, LoadError>)
    requires pool.Valid() && Took(image.pages, free, live, pool.free, pool.live) && free !! live.Keys
    modifies image`pages, pool
    ensures pool.Valid() && (r.Ok? <==> |old(image.pages)| != MAX_LOAD_PAGES && old(pool.available) > 0)
    ensures r.Ok? ==> r.value == image && Took(image.pages, free, live, pool.free, pool.live)
                      && pool.available == old(pool.available) - 1
    ensures r.Ok? ==> |image.pages| == |old(image.pages)| + 1
                      && WantsOf(image.pages) == WantsOf(old(image.pages))
                         + [Want(USER_STACK_BASE + offset * PAGE_SIZE, DATA)]
    ensures r.Err? ==> pool.free == free && pool.live == live
  {
    hide FramePool.Valid, Took, WantsOf;
    var pushed := image.PushPage(pool, USER_STACK_BASE + offset * PAGE_SIZE, DATA, owner, free, live);
    r := if pushed.Err? then Err(pushed.error) else Ok(image);
  }

  lemma {:induction false} NothingLoaded(pages: seq<LoadedPage>, segments: seq<Segment>, available: nat, free: set<nat>,
                                         live: map<nat, nat>)
    requires pages == []
    ensures Took(pages, free, live, free, live) && WantsOf(pages) == PlanWants(segments[..0])
            && Fits(WantsOf(pages), 0, available)
  {
  }

  /**
   The next segment fits in this state exactly when the plan up to it fits; if it does not,
   the plan does not load.
   */
  lemma {:induction false} NextSegment(segments: seq<Segment>, index: nat, pages: seq<LoadedPage>, available: nat,
                                       stackPages: nat)
    requires index < |segments| && WantsOf(pages) == PlanWants(segments[..index])
             && Fits(WantsOf(pages), |pages|, available)
    ensures WantsOf(pages) + SegmentWants(segments[index]) == PlanWants(segments[..index + 1])
            && |pages| <= MAX_LOAD_PAGES
    ensures Distinct(Addresses(WantsOf(pages)))
    ensures !Fits(WantsOf(pages) + SegmentWants(segments[index]), |pages| + PageCountOf(segments[index]), available) ==>
            !Loadable(segments, stackPages, available)
  {
    hide Distinct, Addresses, WantsFrom;
    WantsLength(pages);
    assert segments[..index + 1][..index] == segments[..index];
    PlanPrefix(segments, index + 1);
    var part := PlanWants(segments[..index + 1]);
    if !Fits(part, |part|, available) {
      UnfitPart(part, PlanWants(segments), |AllWants(segments, stackPages)|, available);
    }
  }

  /** The pages of a segment, of which there is at least one for any byte in it. */
  function PageCountOf(segment: Segment): (count: nat)
    ensures count == |SegmentWants(segment)|
  {
    WantsPrefix(AlignDown(segment.virtualAddress), 0, PageCount(segment), segment.flags);
    PageCount(segment)
  }

  lemma {:induction false} WantsLength(pages: seq<LoadedPage>)
    ensures |WantsOf(pages)| == |pages| && forall i :: 0 <= i < |pages| ==>
            WantsOf(pages)[i] == Want(pages[i].virtualAddress, pages[i].flags)
  {
    if |pages| > 0 {
      WantsLength(pages[..|pages| - 1]);
    }
  }

  /** One more page fits exactly when it is new, there is room and there is a frame. */
  lemma {:induction false} NextFits(pages: seq<LoadedPage>, want: Want, available: nat)
    requires Fits(WantsOf(pages), |pages|, available)
    ensures Fits(WantsOf(pages) + [want], |pages| + 1, available) <==>
            (forall i :: 0 <= i < |pages| ==> pages[i].virtualAddress != want.address) && |pages| < MAX_LOAD_PAGES
                && |pages| < available
  {
    WantsLength(pages);
    var wants, more := WantsOf(pages), WantsOf(pages) + [want];
    assert more[..|wants|] == wants;
    assert Addresses(more) == Addresses(wants) + [want.address];
    assert (Addresses(wants) + [want.address])[..|wants|] == Addresses(wants);
    assert want.address in Addresses(wants) <==>
           exists i :: 0 <= i < |pages| && pages[i].virtualAddress == want.address;
  }

  lemma UnfitPart(part: seq<Want>, whole: seq<Want>, count: nat, available: nat)
    requires part <= whole && |whole| <= count && !Fits(part, |part|, available)
    ensures !Fits(whole, count, available)
  {
    if Fits(whole, count, available) {
      FitsPart(part, whole, count, available);
    }
  }

  lemma PoolApart(pool: FramePool)
    requires pool.Valid()
    ensures pool.free !! pool.live.Keys
  {
  }
}
