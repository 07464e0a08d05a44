/**
 What has to stop when a service restarts: the service and, again and again, the
 running services that depend on something already chosen, in an order in which each
 comes before everything it depends on.
 */
module RestartClosure {
  import opened Common
  import opened HandleSlots
  import opened ServiceGraph

  // --- The closure --------------------------------------------------------------

  /** Each service of the path after the first is running and depends on the one before it. */
  ghost predicate DependentPath(slots: Slots, from: Handle, to: Handle, path: seq<Handle>) {
    && |path| > 0 && path[0] == from && path[|path| - 1] == to
    && forall i :: 0 < i < |path| ==> RunningOn(slots, path[i], path[i - 1])
  }

  predicate RunningOn(slots: Slots, handle: Handle, dependency: Handle) {
    Live(slots, handle) && At(slots, handle).state == Running && dependency in At(slots, handle).dependencies
  }

  ghost predicate Affected(slots: Slots, from: Handle, to: Handle) {
    exists path :: DependentPath(slots, from, to, path)
  }

  lemma AffectedSelf(slots: Slots, from: Handle)
    ensures Affected(slots, from, from)
  {
    assert DependentPath(slots, from, from, [from]);
  }

  lemma AffectedVia(slots: Slots, from: Handle, next: Handle, to: Handle)
    requires Affected(slots, from, next) && RunningOn(slots, to, next)
    ensures Affected(slots, from, to)
  {
    var path :| DependentPath(slots, from, next, path);
    assert DependentPath(slots, from, to, path + [to]);
  }

  /** Nothing running outside depends on a member. */
  ghost predicate Closed(slots: Slots, members: seq<Handle>) {
    forall h, d :: RunningOn(slots, h, d) && d in members ==> h in members
  }

  lemma {:induction false} ClosedHasPath(slots: Slots, members: seq<Handle>, from: Handle, to: Handle,
                                         path: seq<Handle>)
    requires Closed(slots, members) && from in members && DependentPath(slots, from, to, path)
    ensures to in members
    decreases |path|
  {
    if |path| > 1 {
      ClosedHasPath(slots, members, from, path[|path| - 2], path[..|path| - 1]);
      assert RunningOn(slots, to, path[|path| - 2]);
    }
  }

  /** The members are services on the way to the closure of `from`. */
  ghost predicate Chosen(slots: Slots, from: Handle, members: seq<Handle>) {
    Distinct(members) && from in members && forall h :: h in members ==> Live(slots, h) && Affected(slots, from, h)
  }

  /** The first member a service depends on decides whether it is chosen. */
  predicate DependsOnAny(service: Service, members: seq<Handle>) {
    exists d :: d in service.dependencies && d in members
  }

  /** One pass over the services; `outside` holds the slots of services not chosen. */
  method GrowOnce(slots: Slots, from: Handle, members: seq<Handle>, ghost outside: set<nat>)
    returns (grown: seq<Handle>, changed: bool, ghost rest: set<nat>)
    requires Wired(slots) && Chosen(slots, from, members)
    requires forall h :: Live(slots, h) && h !in members ==> h.index in outside
    ensures Chosen(slots, from, grown) && rest <= outside && forall h :: Live(slots, h) && h !in grown ==>
            h.index in rest
    ensures changed ==> rest < outside
    ensures !changed ==> Closed(slots, grown)
  {
    hide Wired, Affected, Distinct;
    grown, changed, rest := members, false, outside;
    for i := 0 to |slots|
      invariant Chosen(slots, from, grown) && rest <= outside && forall h :: Live(slots, h) && h !in grown ==>
                h.index in rest
      invariant changed ==> rest < outside
      invariant !changed ==> forall h: Handle, d :: h.index < i && RunningOn(slots, h, d) && d in grown ==> h in grown
    {
      if slots[i].value.Some? && slots[i].value.value.state == Running {
        var service := slots[i].value.value;
        WiredHandle(slots, i);
        if service.handle !in grown && DependsOnAny(service, grown) {
          ghost var d :| d in service.dependencies && d in grown;
          AffectedVia(slots, from, d, service.handle);
          DistinctAppend(grown, service.handle);
          grown, changed, rest := grown + [service.handle], true, rest - {i};
        }
      }
    }
  }

  lemma WiredHandle(slots: Slots, i: nat)
    requires Wired(slots) && i < |slots| && slots[i].value.Some?
    ensures slots[i].value.value.handle == Handle(i, slots[i].generation)
  {
  }

  method Grow(slots: Slots, handle: Handle, ghost all: set<nat>) returns (members: seq<Handle>)
    requires Wired(slots) && Live(slots, handle) && forall i :: 0 <= i < |slots| ==> i in all
    ensures Distinct(members) && forall h :: h in members ==> Live(slots, h)
    ensures forall h :: h in members <==> Affected(slots, handle, h)
  {
    members := [handle];
    AffectedSelf(slots, handle);
    var changed := true;
    ghost var outside := all;
    while changed
      invariant Chosen(slots, handle, members) && forall h :: Live(slots, h) && h !in members ==> h.index in outside
      invariant !changed ==> Closed(slots, members)
      decreases outside, changed
    {
      members, changed, outside := GrowOnce(slots, handle, members, outside);
    }
    forall h | Affected(slots, handle, h)
      ensures h in members
    {
      var path :| DependentPath(slots, handle, h, path);
      ClosedHasPath(slots, members, handle, h, path);
    }
  }

  // --- The order ----------------------------------------------------------------

  predicate DependsOn(slots: Slots, handle: Handle, dependency: Handle) {
    Live(slots, handle) && dependency in At(slots, handle).dependencies
  }

  /** Each service of the walk depends on the next. */
  ghost predicate Walk(slots: Slots, walk: seq<Handle>) {
    forall i :: 0 < i < |walk| ==> DependsOn(slots, walk[i - 1], walk[i])
  }

  /** A walk within the members that comes back to where it has been. */
  ghost predicate CyclicWalk(slots: Slots, members: seq<Handle>, walk: seq<Handle>) {
    Walk(slots, walk) && Revisits(walk) && forall h :: h in walk ==> h in members
  }

  ghost predicate Cyclic(slots: Slots, members: seq<Handle>) {
    exists walk :: CyclicWalk(slots, members, walk)
  }

  /** Each entry depends only on entries before it, and on none of those left. */
  ghost predicate Peeled(slots: Slots, order: seq<Handle>, left: seq<Handle>) {
    forall i :: 0 <= i < |order| ==> NeedsNone(slots, order[i], order[i..]) && NeedsNone(slots, order[i], left)
  }

  predicate NeedsNone(slots: Slots, handle: Handle, members: seq<Handle>) {
    forall d :: d in members ==> !DependsOn(slots, handle, d)
  }

  lemma InSuffix(s: seq<Handle>, from: nat, at: nat)
    requires from <= |s| && at < |s|
    ensures from <= at ==> s[at] in s[from..]
  {
    assert from <= at ==> s[from..][at - from] == s[at];
  }

  /** Walks from an entry go strictly down. */
  lemma {:induction false} WalkDescends(slots: Slots, order: seq<Handle>, walk: seq<Handle>, at: nat)
    requires Peeled(slots, order, []) && Walk(slots, walk) && |walk| > 0 && at < |order| && order[at] == walk[0]
    requires forall h :: h in walk ==> h in order
    ensures |walk| > 1 ==> walk[|walk| - 1] in order[..at]
    decreases |walk|
  {
    if |walk| > 1 {
      assert NeedsNone(slots, order[at], order[at..]) && DependsOn(slots, walk[0], walk[1]);
      assert walk[1] in order;
      var next :| 0 <= next < |order| && order[next] == walk[1];
      InSuffix(order, at, next);
      assert Walk(slots, walk[1..]) by {
        forall i | 0 < i < |walk[1..]|
          ensures DependsOn(slots, walk[1..][i - 1], walk[1..][i])
        {
          assert DependsOn(slots, walk[i], walk[i + 1]);
        }
      }
      WalkDescends(slots, order, walk[1..], next);
      assert order[..next] <= order[..at];
    }
  }

  lemma {:induction false} PeeledAcyclic(slots: Slots, order: seq<Handle>)
    requires Peeled(slots, order, []) && Distinct(order)
    ensures !Cyclic(slots, order)
  {
    forall walk | CyclicWalk(slots, order, walk)
      ensures false
    {
      var last := |walk| - 1;
      var i :| 0 <= i < last && walk[i] == walk[last];
      assert walk[i] in order;
      var at :| 0 <= at < |order| && order[at] == walk[i];
      WalkSuffix(slots, walk, i);
      WalkDescends(slots, order, walk[i..], at);
      var k :| 0 <= k < at && order[k] == walk[last];
      DistinctAt(order, k, at);
    }
  }

  lemma WalkSuffix(slots: Slots, walk: seq<Handle>, i: nat)
    requires Walk(slots, walk) && i <= |walk|
    ensures Walk(slots, walk[i..])
  {
    forall j | 0 < j < |walk[i..]|
      ensures DependsOn(slots, walk[i..][j - 1], walk[i..][j])
    {
      assert DependsOn(slots, walk[i + j - 1], walk[i + j]);
    }
  }

  ghost predicate Stuck(slots: Slots, members: seq<Handle>) {
    forall h :: h in members ==> !NeedsNone(slots, h, members)
  }

  lemma NextNeed(slots: Slots, members: seq<Handle>, here: Handle) returns (next: Handle)
    requires Stuck(slots, members) && here in members
    ensures next in members && DependsOn(slots, here, next)
  {
    next :| next in members && DependsOn(slots, here, next);
  }

  /** If every member needs a member, following the needs goes round in a circle. */
  lemma {:induction false} StuckIsCyclic(slots: Slots, members: seq<Handle>, walk: seq<Handle>, unseen: set<Handle>)
    requires |walk| > 0 && Walk(slots, walk) && forall h :: h in walk ==> h in members
    requires Stuck(slots, members)
    requires forall h :: h in members && h !in walk ==> h in unseen
    ensures Cyclic(slots, members)
    decreases unseen
  {
    hide Stuck;
    var next := NextNeed(slots, members, walk[|walk| - 1]);
    var longer := walk + [next];
    if next in walk {
      assert longer[..|walk|] == walk;
      assert CyclicWalk(slots, members, longer);
    } else {
      StuckIsCyclic(slots, members, longer, unseen - {next});
    }
  }

  lemma CyclicWider(slots: Slots, members: seq<Handle>, wider: seq<Handle>)
    requires Cyclic(slots, members) && forall h :: h in members ==> h in wider
    ensures Cyclic(slots, wider)
  {
    var walk :| CyclicWalk(slots, members, walk);
    assert CyclicWalk(slots, wider, walk);
  }

  /** The first member that needs no member. */
  method FindFree(slots: Slots, members: seq<Handle>) returns (r: Option<nat>)
    ensures r.Some? ==> r.value < |members| && NeedsNone(slots, members[r.value], members)
    ensures r.None? ==> Stuck(slots, members)
  {
    for i := 0 to |members|
      invariant forall j :: 0 <= j < i ==> !NeedsNone(slots, members[j], members)
    {
      if NeedsNone(slots, members[i], members) {
        return Some(i);
      }
    }
    r := None;
  }

  /** Take members that need none of those left until none is left. */
  method Peel(slots: Slots, members: seq<Handle>) returns (r: Option<seq<Handle>>)
    requires Distinct(members)
    ensures r.Some? <==> !Cyclic(slots, members)
    ensures r.Some? ==> Distinct(r.value) && Peeled(slots, r.value, []) && forall h :: h in r.value <==> h in members
  {
    hide Distinct, Cyclic, Peeled;
    var order, left := [], members;
    PeeledNone(slots, members);
    while |left| > 0
      invariant Distinct(order) && Distinct(left) && Peeled(slots, order, left)
      invariant forall h :: h in members <==> h in order || h in left
      invariant forall h :: h in order ==> h !in left
      decreases |left|
    {
      var position := FindFree(slots, left);
      if position.None? {
        StuckIsCyclic(slots, left, [left[0]], set h | h in left);
        CyclicWider(slots, left, members);
        return None;
      }
      var next := left[position.value];
      SwapRemovedRest(left, position.value);
      PeeledOne(slots, order, left, position.value);
      DistinctAppend(order, next);
      order, left := order + [next], SwapRemoved(left, position.value);
    }
    assert left == [];
    PeeledAcyclic(slots, order);
    if Cyclic(slots, members) {
      CyclicWider(slots, members, order);
    }
    r := Some(order);
  }

  lemma PeeledNone(slots: Slots, left: seq<Handle>)
    ensures Peeled(slots, [], left) && Distinct<Handle>([])
  {
  }

  lemma {:induction false} PeeledOne(slots: Slots, order: seq<Handle>, left: seq<Handle>, position: nat)
    requires Peeled(slots, order, left) && Distinct(left) && position < |left| && NeedsNone(slots, left[position], left)
    ensures Peeled(slots, order + [left[position]], SwapRemoved(left, position))
  {
    hide DependsOn, SwapRemoved, Distinct;
    SwapRemovedRest(left, position);
    var longer, less := order + [left[position]], SwapRemoved(left, position);
    forall i | 0 <= i < |longer|
      ensures NeedsNone(slots, longer[i], longer[i..]) && NeedsNone(slots, longer[i], less)
    {
      if i < |order| {
        assert NeedsNone(slots, order[i], order[i..]) && NeedsNone(slots, order[i], left);
        assert longer[i..] == order[i..] + [left[position]];
      } else {
        assert longer[i..] == [left[position]];
      }
    }
  }

  function Reversed(s: seq<Handle>): (r: seq<Handle>)
    ensures |r| == |s| && forall i :: 0 <= i < |s| ==> r[i] == s[|s| - 1 - i]
  {
    if |s| == 0 then [] else [s[|s| - 1]] + Reversed(s[..|s| - 1])
  }

  /** Each member comes before every member it depends on. */
  ghost predicate DependentsFirst(slots: Slots, order: seq<Handle>) {
    forall i, j :: 0 <= i < |order| && 0 <= j < |order| && DependsOn(slots, order[i], order[j]) ==> i < j
  }

  lemma {:induction false} ReversedPeeled(slots: Slots, order: seq<Handle>)
    requires Peeled(slots, order, []) && Distinct(order)
    ensures DependentsFirst(slots, Reversed(order)) && Distinct(Reversed(order))
    ensures forall h :: h in Reversed(order) <==> h in order
  {
    var reversed := Reversed(order);
    forall i, j | 0 <= i < |reversed| && 0 <= j < |reversed| && DependsOn(slots, reversed[i], reversed[j])
      ensures i < j
    {
      var at := |order| - 1 - i;
      assert NeedsNone(slots, order[at], order[at..]);
      InSuffix(order, at, |order| - 1 - j);
    }
    forall i, j | 0 <= i < j < |reversed|
      ensures reversed[i] != reversed[j]
    {
      DistinctAt(order, |order| - 1 - j, |order| - 1 - i);
    }
    DistinctFrom(reversed);
    forall h | h in order
      ensures h in reversed
    {
      var i :| 0 <= i < |order| && order[i] == h;
      assert reversed[|order| - 1 - i] == h;
    }
  }

  ghost function AllIndices(count: nat): (s: set<nat>)
    ensures forall i :: i in s <==> 0 <= i < count
  {
    if count == 0 then {} else AllIndices(count - 1) + {count - 1}
  }

  /** A cycle among what a restart would have to stop. */
  ghost predicate AffectedCycle(slots: Slots, from: Handle) {
    exists walk :: AffectedCyclicWalk(slots, from, walk)
  }

  ghost predicate AffectedCyclicWalk(slots: Slots, from: Handle, walk: seq<Handle>) {
    Walk(slots, walk) && Revisits(walk) && forall h :: h in walk ==> Affected(slots, from, h)
  }

  lemma CyclicIsAffected(slots: Slots, from: Handle, members: seq<Handle>)
    requires forall h :: h in members <==> Affected(slots, from, h)
    ensures Cyclic(slots, members) <==> AffectedCycle(slots, from)
  {
    if Cyclic(slots, members) {
      var walk :| CyclicWalk(slots, members, walk);
      assert AffectedCyclicWalk(slots, from, walk);
    }
    if AffectedCycle(slots, from) {
      var walk :| AffectedCyclicWalk(slots, from, walk);
      assert CyclicWalk(slots, members, walk);
    }
  }

  /** Everything a restart stops, dependents first; an error exactly when there is a cycle in it. */
  method Closure(slots: Slots, handle: Handle) returns (r: Result<seq<Handle>, RegistryError>)
    requires Wired(slots)
    ensures r.Ok? <==> Live(slots, handle) && !AffectedCycle(slots, handle)
    ensures r.Err? ==> r.error == if Live(slots, handle) then DependencyCycle else Stale
    ensures r.Ok? ==> Distinct(r.value) && DependentsFirst(slots, r.value)
    ensures r.Ok? ==> forall h :: h in r.value <==> Affected(slots, handle, h)
    ensures r.Ok? ==> forall h :: h in r.value ==> Live(slots, h)
  {
    hide Wired, Affected, AffectedCycle, Cyclic, Peeled, Distinct, Reversed;
    if !Live(slots, handle) {
      return Err(Stale);
    }
    var members := Grow(slots, handle, AllIndices(|slots|));
    CyclicIsAffected(slots, handle, members);
    var order := Peel(slots, members);
    if order.None? {
      return Err(DependencyCycle);
    }
    ReversedPeeled(slots, order.value);
    r := Ok(Reversed(order.value));
  }
}
