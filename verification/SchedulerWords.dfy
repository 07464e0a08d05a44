/**
 The word that holds a task slot's generation and state, what each operation makes
 of it, and what follows for any legal history of a slot.
 */
module SchedulerWords {
  import opened Common

  const MAX_TASKS: nat := 24
  const MAX_CPUS: nat := 8
  const MAX_GENERATION: nat := 0xff_ffff_ffff_ffff

  datatype State = Vacant | Initializing | Runnable | Running | Blocked | Completed | Stopping

  datatype StateWord = StateWord(generation: nat, state: State, wake: bool)

  datatype Outcome = ToRunnable | ToBlocked | ToTimedBlocked | ToCompleted

  // --- Packing ------------------------------------------------------------------

  function Code(state: State): nat {
    match state
    case Vacant => 0
    case Initializing => 1
    case Runnable => 2
    case Running => 3
    case Blocked => 4
    case Completed => 5
    case Stopping => 6
  }

  /** Generation above bit 8, wake-pending at bit 4, state below. */
  function Pack(word: StateWord): nat {
    word.generation % (MAX_GENERATION + 1) * 256 + LowBits(word)
  }

  function LowBits(word: StateWord): nat {
    (if word.wake then 16 else 0) + Code(word.state)
  }

  lemma LowBitsApart(a: StateWord, b: StateWord)
    ensures LowBits(a) < 32 && (LowBits(a) == LowBits(b) <==> a.wake == b.wake && a.state == b.state)
    ensures LowBits(a) % 16 == Code(a.state) && (LowBits(a) >= 16 <==> a.wake)
  {
  }

  lemma SplitWord(generation: nat, low: nat)
    requires low < 32
    ensures (generation * 256 + low) / 256 == generation
    ensures (generation * 256 + low) % 32 == low && (generation * 256 + low) % 16 == low % 16
  {
    Remainder32(generation * 8, low);
    Remainder16(generation * 16 + low / 16, low % 16);
  }

  lemma Remainder32(k: nat, low: nat)
    requires low < 32
    ensures (k * 32 + low) % 32 == low
  {
  }

  lemma Remainder16(k: nat, low: nat)
    requires low < 16
    ensures (k * 16 + low) % 16 == low
  {
  }

  lemma PackIs(word: StateWord)
    requires word.generation <= MAX_GENERATION
    ensures Pack(word) == word.generation * 256 + LowBits(word)
  {
  }

  /** Words of real generations are compared by all their parts. */
  lemma PackInjective(a: StateWord, b: StateWord)
    requires a.generation <= MAX_GENERATION && b.generation <= MAX_GENERATION
    ensures Pack(a) == Pack(b) <==> a == b
    ensures Pack(a) / 256 == a.generation && Pack(a) % 16 == Code(a.state) && (Pack(a) % 32 >= 16 <==> a.wake)
  {
    hide LowBits, Code, Pack;
    PackIs(a);
    PackIs(b);
    LowBitsApart(a, b);
    LowBitsApart(b, a);
    SplitWord(a.generation, LowBits(a));
    SplitWord(b.generation, LowBits(b));
  }

  // --- Operations ---------------------------------------------------------------

  datatype Op =
    | Claim
    | Wake(generation: nat)
    | Stop(generation: nat)
    | Finish(generation: nat, outcome: Outcome)
    | Due
    | Spawn
    | Reclaim(generation: nat)
    | Publish
    | Vacate

  function NextGeneration(generation: nat): nat {
    if generation >= MAX_GENERATION then 1 else generation + 1
  }

  function Finished(word: StateWord, outcome: Outcome): State {
    if word.state == Stopping then Completed
    else
      match outcome
      case ToRunnable => Runnable
      case ToBlocked => if word.wake then Runnable else Blocked
      case ToTimedBlocked => if word.wake then Runnable else Blocked
      case ToCompleted => Completed
  }

  /** The word an operation wants to install over `was`, or None if it gives up. */
  function Next(op: Op, was: StateWord): Option<StateWord> {
    match op
    case Claim => if was.state == Runnable then Some(StateWord(was.generation, Running, false)) else None
    case Wake(generation) =>
      if was.generation != generation then None
      else if was.state == Blocked then Some(StateWord(generation, Runnable, false))
      else if was.state == Running then Some(was.(wake := true))
      else if was.state == Runnable then Some(was)
      else None
    case Stop(generation) =>
      if was.generation != generation then None
      else if was.state == Running then Some(StateWord(generation, Stopping, false))
      else if was.state == Runnable || was.state == Blocked then Some(StateWord(generation, Completed, false))
      else if was.state == Stopping || was.state == Completed then Some(was)
      else None
    case Finish(generation, outcome) =>
      if was.generation != generation || !(was.state == Running || was.state == Stopping) then None
      else Some(StateWord(generation, Finished(was, outcome), false))
    case Due => if was.state == Blocked then Some(StateWord(was.generation, Runnable, false)) else None
    case Spawn => if was.state == Vacant then Some(StateWord(was.generation, Initializing, false)) else None
    case Reclaim(generation) => if was == StateWord(generation, Completed, false)
         then Some(StateWord(generation, Initializing, false)) else None
    case Publish => if was.state == Initializing then Some(StateWord(was.generation, Runnable, false)) else None
    case Vacate => if was.state == Initializing then Some(StateWord(NextGeneration(was.generation), Vacant, false))
                                                     else None
  }

  // --- Histories ----------------------------------------------------------------

  datatype Entry = Entry(slot: nat, op: Op, before: StateWord, after: StateWord)

  type History = seq<Entry>

  /** The word of a slot after a history. */
  function Current(start: seq<StateWord>, history: History, slot: nat): StateWord
    requires slot < |start|
  {
    if |history| == 0 then start[slot]
    else if history[|history| - 1].slot == slot then history[|history| - 1].after
    else Current(start, history[..|history| - 1], slot)
  }

  /** Every entry takes its slot's word of the moment to what its operation makes of it. */
  ghost predicate Legal(start: seq<StateWord>, history: History) {
    |history| == 0 ||
    (Legal(start, history[..|history| - 1]) && LegalEntry(start, history[..|history| - 1], history[|history| - 1]))
  }

  ghost predicate LegalEntry(start: seq<StateWord>, history: History, entry: Entry) {
    && entry.slot < |start| && entry.before == Current(start, history, entry.slot)
    && Next(entry.op, entry.before) == Some(entry.after)
  }

  lemma {:induction false} LegalAt(start: seq<StateWord>, history: History, i: nat)
    requires Legal(start, history) && i < |history|
    ensures Legal(start, history[..i]) && LegalEntry(start, history[..i], history[i])
  {
    var last := |history| - 1;
    if i < last {
      LegalAt(start, history[..last], i);
      assert history[..last][..i] == history[..i];
    }
  }

  /** What may hold of a slot's word for a while. */
  datatype Phase = Occupied | WakePending | Halting

  predicate In(phase: Phase, word: StateWord) {
    match phase
    case Occupied => word.state == Running || word.state == Stopping
    case WakePending => word.state == Running && word.wake
    case Halting => word.state == Stopping
  }

  predicate Ends(phase: Phase, op: Op) {
    op.Finish? || (phase == WakePending && op.Stop?)
  }

  /** A phase lasts until an operation that can end it. */
  lemma {:induction false} PhaseLasts(start: seq<StateWord>, history: History, slot: nat, phase: Phase, i: nat, j: nat)
    requires Legal(start, history) && slot < |start| && i < j <= |history|
    requires history[i].slot == slot && In(phase, history[i].after)
    requires forall k :: i < k < j && history[k].slot == slot ==> !Ends(phase, history[k].op)
    ensures In(phase, Current(start, history[..j], slot))
    decreases j
  {
    assert history[..j][..j - 1] == history[..j - 1];
    if i < j - 1 {
      PhaseLasts(start, history, slot, phase, i, j - 1);
      LegalAt(start, history, j - 1);
    }
  }

  /** Two claims of a slot are separated by a finish. */
  lemma {:induction false} ClaimsSeparated(start: seq<StateWord>, history: History, slot: nat, i: nat, j: nat)
    requires Legal(start, history) && slot < |start| && i < j < |history|
    requires history[i].slot == slot == history[j].slot && history[i].op == Claim == history[j].op
    ensures exists k :: i < k < j && history[k].slot == slot && history[k].op.Finish?
  {
    LegalAt(start, history, i);
    LegalAt(start, history, j);
    if forall k :: i < k < j && history[k].slot == slot ==> !history[k].op.Finish? {
      PhaseLasts(start, history, slot, Occupied, i, j);
    }
  }

  /** A wake that meets a running task is not lost: the next attempt to block leaves the task runnable. */
  lemma {:induction false} WakeNotLost(start: seq<StateWord>, history: History, slot: nat, i: nat, j: nat)
    requires Legal(start, history) && slot < |start| && i < j < |history|
    requires history[i].slot == slot == history[j].slot && history[i].op.Wake? && history[i].before.state == Running
    requires history[j].op.Finish? && (history[j].op.outcome == ToBlocked || history[j].op.outcome == ToTimedBlocked)
    requires forall k :: i < k < j && history[k].slot == slot ==> !history[k].op.Finish? && !history[k].op.Stop?
    ensures history[j].after.state == Runnable
  {
    LegalAt(start, history, i);
    LegalAt(start, history, j);
    PhaseLasts(start, history, slot, WakePending, i, j);
  }

  /** A stop that meets a running task takes effect at its next finish, whatever the outcome. */
  lemma {:induction false} StopTakesEffect(start: seq<StateWord>, history: History, slot: nat, i: nat, j: nat)
    requires Legal(start, history) && slot < |start| && i < j < |history|
    requires history[i].slot == slot == history[j].slot && history[i].op.Stop? && history[i].before.state == Running
    requires history[j].op.Finish? && forall k :: i < k < j && history[k].slot == slot ==> !history[k].op.Finish?
    ensures history[j].after.state == Completed
  {
    LegalAt(start, history, i);
    LegalAt(start, history, j);
    PhaseLasts(start, history, slot, Halting, i, j);
  }

  // --- Generations --------------------------------------------------------------

  /** How often a slot was vacated. */
  function Vacated(history: History, slot: nat): nat {
    if |history| == 0 then 0
    else Vacated(history[..|history| - 1], slot) + if history[|history| - 1].slot == slot
         && history[|history| - 1].op == Vacate then 1 else 0
  }

  function GenerationAfter(turns: nat): nat {
    turns % MAX_GENERATION + 1
  }

  /** A slot's generation tells how often it was vacated, up to wrapping. */
  lemma {:induction false} GenerationCounts(start: seq<StateWord>, history: History, slot: nat)
    requires Legal(start, history) && slot < |start| && start[slot].generation == 1
    ensures Current(start, history, slot).generation == GenerationAfter(Vacated(history, slot))
  {
    if |history| > 0 {
      GenerationCounts(start, history[..|history| - 1], slot);
      TurnsStep(Vacated(history[..|history| - 1], slot));
    }
  }

  lemma TurnsStep(turns: nat)
    ensures GenerationAfter(turns + 1) == NextGeneration(GenerationAfter(turns))
  {
  }

  /** Two tasks spawned in one slot have different handles while the generations have not come round. */
  lemma {:induction false} HandlesDiffer(start: seq<StateWord>, history: History, slot: nat, i: nat, j: nat)
    requires Legal(start, history) && slot < |start| && start[slot].generation == 1 && i < j < |history|
    requires history[i].slot == slot == history[j].slot && history[i].op == Spawn == history[j].op
    ensures Vacated(history[..i], slot) < Vacated(history[..j], slot)
    ensures Vacated(history[..j], slot) - Vacated(history[..i], slot) < MAX_GENERATION ==>
            history[i].after.generation != history[j].after.generation
  {
    LegalAt(start, history, i);
    LegalAt(start, history, j);
    GenerationCounts(start, history[..i], slot);
    GenerationCounts(start, history[..j], slot);
    NotVacantAgain(start, history, slot, i, j);
  }

  /** A spawned slot is not vacant until it is vacated. */
  lemma {:induction false} NotVacantAgain(start: seq<StateWord>, history: History, slot: nat, i: nat, j: nat)
    requires Legal(start, history) && slot < |start| && i < j <= |history| && history[i].slot == slot
             && history[i].op == Spawn
    ensures Vacated(history[..i], slot) <= Vacated(history[..j], slot)
    ensures Current(start, history[..j], slot).state == Vacant ==>
            Vacated(history[..i], slot) < Vacated(history[..j], slot)
    decreases j
  {
    assert history[..j][..j - 1] == history[..j - 1];
    LegalAt(start, history, j - 1);
    if i < j - 1 {
      NotVacantAgain(start, history, slot, i, j - 1);
    }
  }
}
