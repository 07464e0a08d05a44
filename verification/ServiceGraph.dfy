/**
 Services, their handles and the dependency graph between them, on values.
 */
module ServiceGraph {
  import opened Common
  import opened HandleSlots

  datatype ServiceState = Disabled | Stopped | Starting | Running | Stopping | Failed

  datatype ImageSource = Builtin | FilesystemPackage

  datatype Service =
    Service(handle: Handle, name: string, image: seq<nat>, dependencies: seq<Handle>, state: ServiceState, epoch: nat,
            restarts: nat,
            quota: nat, rights: nat, source: ImageSource)

  type Slots = seq<Slot<Service>>

  /** Every service knows its own handle, and every dependency is a live service. */
  ghost predicate Wired(slots: Slots) {
    && (forall i :: 0 <= i < |slots| && slots[i].value.Some? ==>
       slots[i].value.value.handle == Handle(i, slots[i].generation))
    && (forall h, d :: Live(slots, h) && d in At(slots, h).dependencies ==> Live(slots, d))
  }

  /** The same services with the same dependencies. */
  ghost predicate SameGraph(slots: Slots, slots': Slots) {
    && |slots| == |slots'|
    && forall i :: 0 <= i < |slots| ==>
         && slots'[i].generation == slots[i].generation && (slots'[i].value.Some? <==> slots[i].value.Some?)
         && (slots[i].value.Some? ==> slots'[i].value.value.handle == slots[i].value.value.handle
                                      && slots'[i].value.value.dependencies == slots[i].value.value.dependencies)
  }

  lemma WiredSameGraph(slots: Slots, slots': Slots)
    requires Wired(slots) && SameGraph(slots, slots')
    ensures Wired(slots')
  {
    forall h, d | Live(slots', h) && d in At(slots', h).dependencies
      ensures Live(slots', d)
    {
      assert Live(slots, h) && d in At(slots, h).dependencies;
      assert Live(slots, d);
    }
  }

  // --- Paths ------------------------------------------------------------------

  /** A service a start has to go through: one that is not running, or the one being restarted. */
  predicate Open(slots: Slots, seed: Option<Handle>, handle: Handle) {
    Live(slots, handle) && (At(slots, handle).state != Running || seed == Some(handle))
  }

  /** Each service of the path depends on the next one, and all of them are open. */
  ghost predicate Path(slots: Slots, seed: Option<Handle>, path: seq<Handle>) {
    && (forall i :: 0 <= i < |path| ==> Open(slots, seed, path[i]))
    && (forall i :: 0 < i < |path| ==> path[i] in At(slots, path[i - 1]).dependencies)
  }

  ghost predicate PathBetween(slots: Slots, seed: Option<Handle>, from: Handle, to: Handle, path: seq<Handle>) {
    Path(slots, seed, path) && |path| > 0 && path[0] == from && path[|path| - 1] == to
  }

  ghost predicate Reaches(slots: Slots, seed: Option<Handle>, from: Handle, to: Handle) {
    exists path :: PathBetween(slots, seed, from, to, path)
  }

  /** The path comes back to where it has been. */
  ghost predicate Revisits(path: seq<Handle>) {
    |path| > 1 && path[|path| - 1] in path[..|path| - 1]
  }

  /** A cycle of open services can be reached through open services. */
  ghost predicate CycleFrom(slots: Slots, seed: Option<Handle>, from: Handle) {
    exists path :: CyclePath(slots, seed, from, path)
  }

  ghost predicate CyclePath(slots: Slots, seed: Option<Handle>, from: Handle, path: seq<Handle>) {
    Path(slots, seed, path) && |path| > 0 && path[0] == from && Revisits(path)
  }

  // --- Start orders -----------------------------------------------------------

  /** Everything an entry depends on is running or comes before it. */
  ghost predicate Topological(slots: Slots, seed: Option<Handle>, order: seq<Handle>) {
    Distinct(order) && forall i :: 0 <= i < |order| ==> Ready(slots, seed, order[..i], order[i])
  }

  ghost predicate Ready(slots: Slots, seed: Option<Handle>, before: seq<Handle>, handle: Handle) {
    Open(slots, seed, handle) && AllStarted(slots, seed, before, At(slots, handle).dependencies)
  }

  ghost predicate AllStarted(slots: Slots, seed: Option<Handle>, before: seq<Handle>, dependencies: seq<Handle>) {
    forall d :: d in dependencies ==> Started(slots, seed, before, d)
  }

  ghost predicate Started(slots: Slots, seed: Option<Handle>, before: seq<Handle>, handle: Handle) {
    (Live(slots, handle) && !Open(slots, seed, handle)) || handle in before
  }

  lemma TopologicalAppend(slots: Slots, seed: Option<Handle>, order: seq<Handle>, handle: Handle)
    requires Topological(slots, seed, order) && Ready(slots, seed, order, handle) && handle !in order
    ensures Topological(slots, seed, order + [handle])
  {
    var longer := order + [handle];
    DistinctAppend(order, handle);
    forall i | 0 <= i < |longer|
      ensures Ready(slots, seed, longer[..i], longer[i])
    {
      assert longer[..i] == order[..i];
      if i == |order| {
        assert order[..i] == order;
      }
    }
  }

  /** From an entry of an order, open paths lead only to earlier entries. */
  lemma {:induction false} PathDescends(slots: Slots, seed: Option<Handle>, order: seq<Handle>, path: seq<Handle>,
                                        at: nat)
    requires Topological(slots, seed, order) && Path(slots, seed, path) && |path| > 0
    requires at < |order| && order[at] == path[0]
    ensures path[|path| - 1] in order[..at + 1]
    ensures |path| > 1 ==> path[|path| - 1] in order[..at]
    decreases |path|
  {
    if |path| > 1 {
      assert Ready(slots, seed, order[..at], order[at]);
      assert path[1] in At(slots, path[0]).dependencies && Open(slots, seed, path[1]);
      assert path[1] in order[..at];
      var next :| 0 <= next < at && order[next] == path[1];
      PathDescends(slots, seed, order, path[1..], next);
      assert order[..next + 1] <= order[..at];
    }
  }

  lemma PathPart(slots: Slots, seed: Option<Handle>, path: seq<Handle>, i: nat, j: nat)
    requires Path(slots, seed, path) && i < j <= |path|
    ensures Path(slots, seed, path[i..j])
  {
    var part := path[i..j];
    forall k | 0 < k < |part|
      ensures part[k] in At(slots, part[k - 1]).dependencies
    {
      assert path[i + k] in At(slots, path[i + k - 1]).dependencies;
    }
  }

  /** A path from an entry of an order meets no service twice. */
  lemma {:induction false} NoRevisit(slots: Slots, seed: Option<Handle>, order: seq<Handle>, path: seq<Handle>, i: nat,
                                     j: nat, at: nat)
    requires Topological(slots, seed, order) && Path(slots, seed, path) && i < j < |path| && at < |order|
             && order[at] == path[0]
    ensures path[i] != path[j]
  {
    hide Topological, Path;
    PathPart(slots, seed, path, 0, i + 1);
    PathDescends(slots, seed, order, path[0..i + 1], at);
    var middle :| 0 <= middle < |order| && order[middle] == path[i];
    PathPart(slots, seed, path, i, j + 1);
    PathDescends(slots, seed, order, path[i..j + 1], middle);
    var earlier :| 0 <= earlier < middle && order[earlier] == path[j];
    TopologicalDistinct(slots, seed, order);
    DistinctAt(order, earlier, middle);
  }

  lemma {:induction false} TopologicalDistinct(slots: Slots, seed: Option<Handle>, order: seq<Handle>)
    requires Topological(slots, seed, order)
    ensures Distinct(order)
  {
  }

  /** No cycle can be reached from an entry of an order. */
  lemma NoCycle(slots: Slots, seed: Option<Handle>, order: seq<Handle>, from: Handle)
    requires Topological(slots, seed, order) && from in order
    ensures !CycleFrom(slots, seed, from)
  {
    hide Topological, Path;
    var at :| 0 <= at < |order| && order[at] == from;
    forall path, i | CyclePath(slots, seed, from, path) && 0 <= i < |path| - 1
      ensures path[i] != path[|path| - 1]
    {
      NoRevisit(slots, seed, order, path, i, |path| - 1, at);
    }
  }

  /** Everything reachable from an entry of an order is in it. */
  lemma ReachedEntries(slots: Slots, seed: Option<Handle>, order: seq<Handle>, from: Handle, to: Handle)
    requires Topological(slots, seed, order) && from in order && Reaches(slots, seed, from, to)
    ensures to in order
  {
    var path :| PathBetween(slots, seed, from, to, path);
    var at :| 0 <= at < |order| && order[at] == from;
    PathDescends(slots, seed, order, path, at);
  }

  lemma ReachesSelf(slots: Slots, seed: Option<Handle>, handle: Handle)
    requires Open(slots, seed, handle)
    ensures Reaches(slots, seed, handle, handle)
  {
    assert PathBetween(slots, seed, handle, handle, [handle]);
  }

  lemma ReachesVia(slots: Slots, seed: Option<Handle>, from: Handle, next: Handle, to: Handle)
    requires Open(slots, seed, from) && next in At(slots, from).dependencies && Reaches(slots, seed, next, to)
    ensures Reaches(slots, seed, from, to)
  {
    var path :| PathBetween(slots, seed, next, to, path);
    var longer := [from] + path;
    forall i | 0 < i < |longer|
      ensures longer[i] in At(slots, longer[i - 1]).dependencies
    {
      if i > 1 {
        assert longer[i] == path[i - 1] && longer[i - 1] == path[i - 2];
      }
    }
    assert PathBetween(slots, seed, from, to, longer);
  }

  lemma PathAppend(slots: Slots, seed: Option<Handle>, path: seq<Handle>, handle: Handle)
    requires Path(slots, seed, path) && Open(slots, seed, handle)
    requires |path| > 0 ==> handle in At(slots, path[|path| - 1]).dependencies
    ensures Path(slots, seed, path + [handle])
  {
  }

  lemma PathOpen(slots: Slots, seed: Option<Handle>, path: seq<Handle>, handle: Handle)
    requires Path(slots, seed, path) && handle in path
    ensures Open(slots, seed, handle)
  {
  }

  // --- Depth-first search -------------------------------------------------------

  datatype RegistryError = Stale | InvalidName | InvalidImage | InvalidDependency | DependencyCycle | Capacity |
      RunningDependents

  /** What is new in an order is reachable from `from`, and not being visited. */
  ghost predicate Grown(slots: Slots, seed: Option<Handle>, before: seq<Handle>, after: seq<Handle>, from: Handle,
                        visiting: seq<Handle>) {
    before <= after && forall h :: h in after && h !in before ==> Reaches(slots, seed, from, h) && h !in visiting
  }

  lemma GrownNone(slots: Slots, seed: Option<Handle>, from: Handle, visiting: seq<Handle>)
    ensures Grown(slots, seed, [], [], from, visiting)
  {
  }

  lemma GrownElsewhere(slots: Slots, seed: Option<Handle>, before: seq<Handle>, after: seq<Handle>, from: Handle,
                       visiting: seq<Handle>)
    requires Grown(slots, seed, before, after, from, visiting) && forall h :: h in before ==> h !in visiting
    ensures forall h :: h in after ==> h !in visiting
  {
  }

  lemma GrownVia(slots: Slots, seed: Option<Handle>, before: seq<Handle>, middle: seq<Handle>, after: seq<Handle>,
                 from: Handle, next: Handle, visiting: seq<Handle>)
    requires Grown(slots, seed, before, middle, from, visiting) && Grown(slots, seed, middle, after, next, visiting)
    requires Open(slots, seed, from) && next in At(slots, from).dependencies
    ensures middle <= after && Grown(slots, seed, before, after, from, visiting)
  {
    forall h | h in after && h !in before
      ensures Reaches(slots, seed, from, h) && h !in visiting
    {
      if h !in middle {
        ReachesVia(slots, seed, from, next, h);
      }
    }
  }

  lemma StartedMore(slots: Slots, seed: Option<Handle>, before: seq<Handle>, after: seq<Handle>,
                    dependencies: seq<Handle>, next: Handle)
    requires AllStarted(slots, seed, before, dependencies) && before <= after && Started(slots, seed, after, next)
    ensures AllStarted(slots, seed, after, dependencies + [next])
  {
  }

  lemma NoneStarted(slots: Slots, seed: Option<Handle>, order: seq<Handle>)
    ensures AllStarted(slots, seed, order, [])
  {
  }

  lemma WiredLive(slots: Slots, handle: Handle)
    requires Wired(slots) && Live(slots, handle)
    ensures forall d :: d in At(slots, handle).dependencies ==> Live(slots, d)
  {
  }

  /**
   Order a service after everything it depends on. `visiting` is the path taken to
   get here, `unseen` the slots not on it.
   */
  method CollectStartOrder(slots: Slots, handle: Handle, visiting: seq<Handle>, order: seq<Handle>,
                           ghost seed: Option<Handle>, ghost unseen: set<nat>)
    returns (r: Result<seq<Handle>, RegistryError>, ghost trail: seq<Handle>)
    requires Wired(slots) && Path(slots, seed, visiting) && Topological(slots, seed, order)
    requires |visiting| > 0 ==> handle in At(slots, visiting[|visiting| - 1]).dependencies
    requires seed.Some? ==> seed.value in visiting
    requires forall h :: h in order ==> h !in visiting
    requires forall h :: Live(slots, h) && h !in visiting ==> h.index in unseen
    ensures r.Ok? ==> Topological(slots, seed, r.value) && Grown(slots, seed, order, r.value, handle, visiting)
    ensures r.Ok? ==> Started(slots, seed, r.value, handle)
    ensures r.Err? && Live(slots, handle) ==>
            r.error == DependencyCycle && Path(slots, seed, trail) && Revisits(trail) && visiting + [handle] <= trail
    ensures !Live(slots, handle) ==> r == Err(Stale)
    decreases unseen
  {
    hide Topological, Path, Reaches, Wired, AllStarted;
    trail := visiting + [handle];
    if handle in visiting {
      PathOpen(slots, seed, visiting, handle);
      PathAppend(slots, seed, visiting, handle);
      return Err(DependencyCycle), trail;
    }
    if !Live(slots, handle) {
      return Err(Stale), trail;
    }
    var dependencies := At(slots, handle).dependencies;
    if At(slots, handle).state == Running || handle in order {
      return Ok(order), trail;
    }
    PathAppend(slots, seed, visiting, handle);
    WiredLive(slots, handle);
    NoneStarted(slots, seed, order);
    var deeper, longer := visiting + [handle], order;
    for k := 0 to |dependencies|
      invariant Topological(slots, seed, longer) && Grown(slots, seed, order, longer, handle, deeper)
      invariant AllStarted(slots, seed, longer, dependencies[..k])
    {
      var collected, deeperTrail := CollectStartOrder(slots, dependencies[k], deeper, longer, seed,
                                                      unseen - {handle.index});
      if collected.Err? {
        return collected, deeperTrail;
      }
      GrownVia(slots, seed, order, longer, collected.value, handle, dependencies[k], deeper);
      StartedMore(slots, seed, longer, collected.value, dependencies[..k], dependencies[k]);
      assert dependencies[..k + 1] == dependencies[..k] + [dependencies[k]];
      longer := collected.value;
    }
    assert dependencies[..|dependencies|] == dependencies;
    TopologicalAppend(slots, seed, longer, handle);
    ReachesSelf(slots, seed, handle);
    r := Ok(longer + [handle]);
  }
}
