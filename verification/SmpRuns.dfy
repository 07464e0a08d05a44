/**
 Whole runs of the SMP frame allocator: any calls, from any CPUs, with any leases,
 genuine or not, freed any number of times.
 */
module SmpRuns {
  import opened Common
  import opened FrameManagers
  import opened FrameLedger
  import opened SmpFrames

  datatype Request =
    | Alloc(cpu: nat, owner: nat, state: FrameState)
    | AllocIrq(cpu: nat, owner: nat, state: FrameState)
    | AllocContiguous(owner: nat, count: nat, state: FrameState)
    | Free(cpu: nat, lease: FrameLease)
    | FreeBatch(batch: seq<FrameLease>)
    | Flush(cpu: nat)

  /** The request frees only leases whose holders still have them, and no frame twice. */
  ghost predicate Honest(request: Request, held: map<nat, FrameLease>) {
    match request
    case Free(_, lease) => HeldBy(held, lease)
    case FreeBatch(batch) => DistinctSlots(batch) && forall k :: 0 <= k < |batch| ==> HeldBy(held, batch[k])
    case _ => true
  }

  /** The slots a request gives up. */
  ghost function Freeing(request: Request): set<nat> {
    match request
    case Free(_, lease) => {lease.slot}
    case FreeBatch(batch) => SlotsOf(batch)
    case _ => {}
  }

  /** Exactly the leases handed out are held in addition, and only what the request frees is held no longer. */
  ghost predicate Handed(request: Request, leases: seq<FrameLease>, before: map<nat, FrameLease>, after: map<nat,
                         FrameLease>) {
    && (forall k :: 0 <= k < |leases| ==> HeldBy(after, leases[k]))
    && (forall slot :: slot in after && slot !in SlotsOf(leases) ==> slot in before && after[slot] == before[slot])
    && (forall slot :: slot in before && slot !in after ==> slot in Freeing(request))
  }

  /** No two leases of the history name one frame with one stamp, as long as its stamps have not wrapped. */
  ghost predicate OnceEach(history: seq<FrameLease>, bumps: seq<nat>) {
    forall i, j :: 0 <= i < j < |history| && history[i].slot == history[j].slot && Unwrapped(bumps, history[i].slot) ==>
      history[i].generation != history[j].generation
  }

  ghost predicate Recorded(history: seq<FrameLease>, issued: set<(nat, nat)>) {
    forall k :: 0 <= k < |history| ==> (history[k].slot, history[k].generation) in issued
  }

  /** No lease of the history carries a stamp that was out before the run. */
  ghost predicate Novel(history: seq<FrameLease>, prior: set<(nat, nat)>, bumps: seq<nat>) {
    forall k :: 0 <= k < |history| && Unwrapped(bumps, history[k].slot) ==>
        (history[k].slot, history[k].generation) !in prior
  }

  /** What a run has shown so far. */
  ghost predicate Told(history: seq<FrameLease>, prior: set<(nat, nat)>, issued: set<(nat, nat)>, bumps: seq<nat>) {
    prior <= issued && OnceEach(history, bumps) && Recorded(history, issued) && Novel(history, prior, bumps)
  }

  lemma NothingTold(issued: set<(nat, nat)>, bumps: seq<nat>)
    ensures Told([], issued, issued, bumps)
  {
  }

  lemma HistoryGrows(history: seq<FrameLease>, leases: seq<FrameLease>, held: map<nat, FrameLease>,
                     prior: set<(nat, nat)>, before: set<(nat, nat)>, after: set<(nat, nat)>, bumpsBefore: seq<nat>,
                         bumpsAfter: seq<nat>)
    requires Told(history, prior, before, bumpsBefore)
    requires FreshStamps(leases, held, before, after, bumpsAfter) && DistinctSlots(leases)
             && Aged(bumpsBefore, bumpsAfter)
    ensures Told(history + leases, prior, after, bumpsAfter)
  {
    var all := history + leases;
    forall i, j | |history| <= i < j < |all|
      ensures all[i].slot != all[j].slot
    {
      assert all[i] == leases[i - |history|] && all[j] == leases[j - |history|];
    }
    forall i, j | 0 <= i < j < |all| && all[i].slot == all[j].slot && Unwrapped(bumpsAfter, all[i].slot)
      ensures all[i].generation != all[j].generation
    {
      if j >= |history| {
        assert all[j] == leases[j - |history|];
        assert (all[i].slot, all[i].generation) in before;
      }
    }
  }

  lemma ToldInFull(history: seq<FrameLease>, prior: set<(nat, nat)>, issued: set<(nat, nat)>, bumps: seq<nat>)
    requires Told(history, prior, issued, bumps)
    ensures OnceEach(history, bumps) && Novel(history, prior, bumps)
  {
  }

  lemma HandedNone(request: Request, held: map<nat, FrameLease>)
    ensures Handed(request, [], held, held)
  {
  }

  lemma HandedOne(request: Request, held: map<nat, FrameLease>, lease: FrameLease)
    ensures Handed(request, [lease], held, held[lease.slot := lease])
  {
    assert [lease][0].slot in SlotsOf([lease]);
  }

  lemma HandedWindow(request: Request, held: map<nat, FrameLease>, after: map<nat, FrameLease>, leases: seq<FrameLease>,
                     first: nat)
    requires HeldGrew(held, after, first, |leases|) && forall k :: 0 <= k < |leases| ==>
             leases[k].slot == first + k && HeldBy(after, leases[k])
    ensures Handed(request, leases, held, after)
  {
    forall slot | first <= slot < first + |leases|
      ensures slot in SlotsOf(leases)
    {
      assert leases[slot - first].slot == slot;
    }
  }

  lemma HandedBack(request: Request, held: map<nat, FrameLease>, after: map<nat, FrameLease>)
    requires HeldShrank(held, after, Freeing(request))
    ensures Handed(request, [], held, after)
  {
  }

  /** Serve one request. */
  method Serve(allocator: SmpFrameAllocator, request: Request) returns (leases: seq<FrameLease>)
    requires allocator.Valid()
    modifies allocator, allocator.manager
    ensures allocator.Valid() && Aged(old(allocator.manager.bumps), allocator.manager.bumps)
    ensures FreshStamps(leases, old(allocator.held), old(allocator.issued), allocator.issued, allocator.manager.bumps)
            && DistinctSlots(leases)
    ensures Handed(request, leases, old(allocator.held), allocator.held)
    ensures old(allocator.Exact()) && Honest(request, old(allocator.held)) ==> allocator.Exact()
  {
    hide SmpFrameAllocator.Valid, SmpFrameAllocator.Exact, Handed, HeldGrew, SlotsOf;
    AgedStep(allocator.manager.bumps, [], 0);
    leases := [];
    ghost var held := allocator.held;
    HandedNone(request, held);
    match request {
      case Alloc(cpu, owner, state) =>
        var r := allocator.TryAlloc(cpu, owner, state);
        if r.Ok? {
          leases := [r.value];
          HandedOne(request, held, r.value);
        }
      case AllocIrq(cpu, owner, state) =>
        var r := allocator.TryAllocIrq(cpu, owner, state);
        if r.Ok? {
          leases := [r.value];
          HandedOne(request, held, r.value);
        }
      case AllocContiguous(owner, count, state) =>
        var r := allocator.AllocContiguous(owner, count, state);
        if r.Ok? {
          leases := r.value;
          HandedWindow(request, held, allocator.held, leases, leases[0].slot);
        }
      case Free(cpu, lease) =>
        var _ := allocator.Free(cpu, lease);
        HandedBack(request, held, allocator.held);
      case FreeBatch(batch) =>
        var _ := allocator.FreeDirectBatch(batch);
        HandedBack(request, held, allocator.held);
      case Flush(cpu) =>
        allocator.FlushCpuCache(cpu);
    }
  }

  /** What was held before each request of a run and after the last, and what each request handed out. */
  ghost predicate Trace(requests: seq<Request>, handed: seq<seq<FrameLease>>, holders: seq<map<nat, FrameLease>>) {
    |holders| == |handed| + 1 && |handed| <= |requests| && forall k :: 0 <= k < |handed| ==>
        Handed(requests[k], handed[k], holders[k], holders[k + 1])
  }

  ghost predicate AllHonest(requests: seq<Request>, holders: seq<map<nat, FrameLease>>, count: nat)
    requires count <= |requests| && count <= |holders|
  {
    forall k :: 0 <= k < count ==> Honest(requests[k], holders[k])
  }

  lemma TraceGrows(requests: seq<Request>, handed: seq<seq<FrameLease>>, holders: seq<map<nat, FrameLease>>,
                   leases: seq<FrameLease>, held: map<nat, FrameLease>)
    requires Trace(requests, handed, holders) && |handed| < |requests|
             && Handed(requests[|handed|], leases, holders[|handed|], held)
    ensures Trace(requests, handed + [leases], holders + [held])
    ensures AllHonest(requests, holders + [held], |handed| + 1) <==>
            AllHonest(requests, holders, |handed|) && Honest(requests[|handed|], holders[|handed|])
  {
    hide Handed, Honest;
    var longer := holders + [held];
    forall k | 0 <= k < |handed|
      ensures Handed(requests[k], (handed + [leases])[k], longer[k], longer[k + 1])
    {
      assert Handed(requests[k], handed[k], holders[k], holders[k + 1]);
    }
    assert longer[|handed|] == holders[|handed|];
    assert forall k :: 0 <= k < |handed| ==> longer[k] == holders[k];
  }

  /**
   Any run: every lease handed out differs in slot or stamp from every other one,
   whatever was freed in between. A run that frees each lease at most once also
   keeps every frame in exactly one place.
   */
  method Run(allocator: SmpFrameAllocator, requests: seq<Request>)
    returns (history: seq<FrameLease>, ghost handed: seq<seq<FrameLease>>, ghost holders: seq<map<nat, FrameLease>>)
    requires allocator.Valid()
    modifies allocator, allocator.manager
    ensures allocator.Valid() && OnceEach(history, allocator.manager.bumps)
    ensures Novel(history, old(allocator.issued), allocator.manager.bumps)
    ensures Trace(requests, handed, holders) && |handed| == |requests| && holders[0] == old(allocator.held)
            && holders[|requests|] == allocator.held
    ensures history == Joined(handed)
    ensures AllHonest(requests, holders, |requests|) && old(allocator.Exact()) ==> allocator.Exact()
  {
    hide SmpFrameAllocator.Valid, SmpFrameAllocator.Exact, FreshStamps, DistinctSlots, Told, Aged, Trace, AllHonest,
         Handed, Honest;
    NothingTold(allocator.issued, allocator.manager.bumps);
    history, handed, holders := [], [], [allocator.held];
    NoTrace(requests, allocator.held);
    for served := 0 to |requests|
      invariant allocator.Valid() && Told(history, old(allocator.issued), allocator.issued, allocator.manager.bumps)
      invariant |handed| == served && |holders| == served + 1 && Trace(requests, handed, holders)
                && history == Joined(handed)
      invariant holders[0] == old(allocator.held) && holders[served] == allocator.held
      invariant AllHonest(requests, holders, served) && old(allocator.Exact()) ==> allocator.Exact()
    {
      ghost var issued, held, bumps := allocator.issued, allocator.held, allocator.manager.bumps;
      var leases := Serve(allocator, requests[served]);
      HistoryGrows(history, leases, held, old(allocator.issued), issued, allocator.issued, bumps,
                   allocator.manager.bumps);
      TraceGrows(requests, handed, holders, leases, allocator.held);
      assert (handed + [leases])[..served] == handed;
      history, handed, holders := history + leases, handed + [leases], holders + [allocator.held];
    }
    ToldInFull(history, old(allocator.issued), allocator.issued, allocator.manager.bumps);
  }

  ghost function Joined(handed: seq<seq<FrameLease>>): seq<FrameLease> {
    if |handed| == 0 then [] else Joined(handed[..|handed| - 1]) + handed[|handed| - 1]
  }

  lemma NoTrace(requests: seq<Request>, held: map<nat, FrameLease>)
    ensures Trace(requests, [], [held])
  {
  }
}
