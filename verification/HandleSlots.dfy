/**
 Tables of slots whose handles carry a generation: removing a value moves its slot on
 to the next generation, so that old handles stop being live.
 */
module HandleSlots {
  import opened Common

  datatype Handle = Handle(index: nat, generation: nat) {
    predicate Valid() {
      generation != 0
    }
  }

  datatype Slot<T> = Slot(generation: nat, value: Option<T>)

  /** 32-bit generations skip zero. */
  function NextGeneration(current: nat): nat {
    var next := (current + 1) % 0x1_0000_0000;
    if next == 0 then 1 else next
  }

  predicate Live<T>(slots: seq<Slot<T>>, handle: Handle) {
    handle.index < |slots| && slots[handle.index].generation == handle.generation && slots[handle.index].value.Some?
  }

  function At<T>(slots: seq<Slot<T>>, handle: Handle): T
    requires Live(slots, handle)
  {
    slots[handle.index].value.value
  }

  function HandleAt<T>(slots: seq<Slot<T>>, i: nat): Handle
    requires i < |slots|
  {
    Handle(i, slots[i].generation)
  }

  /** Every slot has a generation a handle can name. */
  ghost predicate Numbered<T>(slots: seq<Slot<T>>) {
    forall i :: 0 <= i < |slots| ==> slots[i].generation != 0
  }

  function Put<T>(slots: seq<Slot<T>>, seed: nat, index: nat, value: T): seq<Slot<T>>
    requires index <= |slots|
  {
    if index == |slots| then slots + [Slot(seed, Some(value))] else slots[index := slots[index].(value := Some(value))]
  }

  function Replaced<T>(slots: seq<Slot<T>>, handle: Handle, value: T): seq<Slot<T>>
    requires Live(slots, handle)
  {
    slots[handle.index := slots[handle.index].(value := Some(value))]
  }

  function Removed<T>(slots: seq<Slot<T>>, index: nat): seq<Slot<T>>
    requires index < |slots|
  {
    slots[index := Slot(NextGeneration(slots[index].generation), None)]
  }

  /** The first vacant slot, or the end of the table. */
  method FindVacant<T>(slots: seq<Slot<T>>) returns (index: nat)
    ensures index <= |slots| && (index < |slots| ==> slots[index].value.None?)
    ensures forall i :: 0 <= i < index ==> slots[i].value.Some?
  {
    index := 0;
    while index < |slots| && slots[index].value.Some?
      invariant index <= |slots| && forall i :: 0 <= i < index ==> slots[i].value.Some?
    {
      index := index + 1;
    }
  }

  /** Exactly one handle becomes live. */
  lemma PutLive<T>(slots: seq<Slot<T>>, seed: nat, index: nat, value: T)
    requires index <= |slots| && (index < |slots| ==> slots[index].value.None?)
    ensures var after := Put(slots, seed, index, value);
            var handle := HandleAt(after, index);
            && Live(after, handle) && At(after, handle) == value && !Live(slots, handle)
            && forall h :: h != handle ==> (Live(after, h) <==> Live(slots, h))
                                           && (Live(slots, h) ==> At(after, h) == At(slots, h))
    ensures Numbered(slots) && seed != 0 ==>
            Numbered(Put(slots, seed, index, value)) && HandleAt(Put(slots, seed, index, value), index).Valid()
  {
  }

  lemma ReplacedLive<T>(slots: seq<Slot<T>>, handle: Handle, value: T)
    requires Live(slots, handle)
    ensures var after := Replaced(slots, handle, value);
            && At(after, handle) == value
            && forall h :: (Live(after, h) <==> Live(slots, h))
                           && (h != handle && Live(slots, h) ==> At(after, h) == At(slots, h))
    ensures Numbered(slots) ==> Numbered(Replaced(slots, handle, value))
  {
  }

  /** Exactly one handle stops being live. */
  lemma RemovedLive<T>(slots: seq<Slot<T>>, handle: Handle)
    requires Live(slots, handle)
    ensures var after := Removed(slots, handle.index);
            && !Live(after, handle)
            && forall h :: h != handle ==> (Live(after, h) <==> Live(slots, h))
                                           && (Live(slots, h) ==> At(after, h) == At(slots, h))
    ensures Numbered(slots) ==> Numbered(Removed(slots, handle.index))
  {
  }

  // --- Room for more ----------------------------------------------------------------

  /**
   Whether the memory allocator agrees to the next reservation: `verdicts` holds its coming
   answers, and an exhausted list means yes.
   */
  predicate Agrees(verdicts: seq<bool>) {
    verdicts == [] || verdicts[0]
  }

  function LaterVerdicts(verdicts: seq<bool>): seq<bool> {
    if verdicts == [] then [] else verdicts[1..]
  }

  predicate AllAgree(verdicts: seq<bool>) {
    forall k :: 0 <= k < |verdicts| ==> verdicts[k]
  }

  predicate Crowded<T>(slots: seq<Slot<T>>) {
    forall i :: 0 <= i < |slots| ==> slots[i].value.Some?
  }

  /** There is a vacant slot, or the table may grow. */
  predicate HasRoom<T>(slots: seq<Slot<T>>, verdicts: seq<bool>) {
    Crowded(slots) ==> Agrees(verdicts)
  }

  function VerdictsLeft<T>(slots: seq<Slot<T>>, verdicts: seq<bool>): seq<bool> {
    if Crowded(slots) then LaterVerdicts(verdicts) else verdicts
  }

  /** The first vacant slot, or the end of a table that may grow. */
  method FindRoom<T>(slots: seq<Slot<T>>, verdicts: seq<bool>) returns (index: Option<nat>, rest: seq<bool>)
    ensures index.Some? <==> HasRoom(slots, verdicts)
    ensures index.Some? ==> index.value <= |slots| && (index.value < |slots| ==> slots[index.value].value.None?)
    ensures index.Some? ==> forall j :: 0 <= j < index.value ==> slots[j].value.Some?
    ensures rest == VerdictsLeft(slots, verdicts)
  {
    var vacant := FindVacant(slots);
    if vacant == |slots| {
      return if Agrees(verdicts) then Some(vacant) else None, LaterVerdicts(verdicts);
    }
    assert !Crowded(slots);
    return Some(vacant), verdicts;
  }

  /** The table with a vacant slot at `index`. */
  function Extended<T>(slots: seq<Slot<T>>, seed: nat, index: nat): seq<Slot<T>>
    requires index <= |slots|
  {
    if index == |slots| then slots + [Slot(seed, None)] else slots
  }

  /** The same values under the same handles. */
  ghost predicate SameLive<T(!new)>(before: seq<Slot<T>>, after: seq<Slot<T>>) {
    forall h :: (Live(after, h) <==> Live(before, h)) && (Live(before, h) ==> At(after, h) == At(before, h))
  }
}
