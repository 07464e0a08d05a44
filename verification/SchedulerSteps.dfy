/**
 The scheduler as interleaved atomic steps: any number of workers and one claimer on
 each CPU, each between a load and a compare-and-swap, in any order.

 A worker that loaded a word may find it changed when it tries to swap it. A slot being
 set up or torn down is written by a plain store of the worker that reserved it.
 */
module SchedulerSteps {
  import opened Common
  import opened SchedulerWords

  datatype Worker =
    | Idle
    | Trying(op: Op, slot: nat, loaded: StateWord)
    | Owning(op: Op, slot: nat, word: StateWord)

  /** Where a CPU is in claim_next. */
  datatype Scan =
    | Resting
    | Looking(start: nat, offset: nat)
    | Taking(start: nat, offset: nat, loaded: StateWord)

  datatype Cpu = Cpu(online: bool, cursor: nat, scan: Scan)

  datatype System = System(words: seq<StateWord>, workers: map<nat, Worker>, cpus: seq<Cpu>, history: History)

  datatype Action =
    | Load(worker: nat, op: Op, slot: nat)
    | Swap(worker: nat)
    | Store(worker: nat)
    | Online(cpu: nat)
    | BeginClaim(cpu: nat)
    | LookAt(cpu: nat)
    | Take(cpu: nat)

  const FIRST_WORD := StateWord(1, Vacant, false)

  function Initial(): System {
    System(seq(MAX_TASKS, _ => FIRST_WORD), map[], seq(MAX_CPUS, _ => Cpu(false, 0, Resting)), [])
  }

  function WorkerOf(system: System, worker: nat): Worker {
    if worker in system.workers then system.workers[worker] else Idle
  }

  /** Operations that begin with a load or, for a reclaim, with the word they expect. */
  predicate BySwap(op: Op) {
    !(op == Publish || op == Vacate || op == Claim)
  }

  /** What a worker compares with: for a reclaim the word of a completed task, else the word it loads. */
  function Expected(system: System, op: Op, slot: nat): StateWord
    requires slot < |system.words|
  {
    if op.Reclaim? then StateWord(op.generation, Completed, false) else system.words[slot]
  }

  /** After a reservation its owner holds the word it will store. */
  function AfterSwap(op: Op, slot: nat, installed: StateWord): Worker {
    if op == Spawn then Owning(Publish, slot, StateWord(installed.generation, Runnable, false))
    else if op.Reclaim? then Owning(Vacate, slot, StateWord(NextGeneration(installed.generation), Vacant, false))
    else Idle
  }

  function Recorded(system: System, op: Op, slot: nat, after: StateWord): System
    requires slot < |system.words|
  {
    system.(words := system.words[slot := after],
            history := system.history + [Entry(slot, op, system.words[slot], after)])
  }

  function SetWorker(system: System, worker: nat, state: Worker): System {
    system.(workers := system.workers[worker := state])
  }

  function SetScan(system: System, cpu: nat, scan: Scan): System
    requires cpu < |system.cpus|
  {
    system.(cpus := system.cpus[cpu := system.cpus[cpu].(scan := scan)])
  }

  /** Load a word and decide; when nothing would change, that is all. */
  function DoLoad(system: System, worker: nat, op: Op, slot: nat): System {
    if WorkerOf(system, worker) != Idle || !BySwap(op) || slot >= |system.words| then system
    else
      var loaded := Expected(system, op, slot);
      match Next(op, loaded)
      case None => system
      case Some(next) =>
        if next == loaded then Recorded(system, op, slot, next)
        else SetWorker(system, worker, Trying(op, slot, loaded))
  }

  function DoSwap(system: System, worker: nat): System {
    match WorkerOf(system, worker)
    case Trying(op, slot, loaded) =>
      if slot < |system.words| && system.words[slot] == loaded && Next(op, loaded).Some? then
        var next := Next(op, loaded).value;
        SetWorker(Recorded(system, op, slot, next), worker, AfterSwap(op, slot, next))
      else SetWorker(system, worker, Idle)
    case _ => system
  }

  function DoStore(system: System, worker: nat): System {
    match WorkerOf(system, worker)
    case Owning(op, slot, word) =>
      if slot < |system.words| then SetWorker(Recorded(system, op, slot, word), worker, Idle) else system
    case _ => system
  }

  function DoBeginClaim(system: System, cpu: nat): System {
    if cpu < |system.cpus| && system.cpus[cpu].online && system.cpus[cpu].scan == Resting then
      var state := system.cpus[cpu];
      system.(cpus := system.cpus[cpu := state.(cursor := state.cursor + 1,
                                                scan := Looking(state.cursor % MAX_TASKS, 0))])
    else system
  }

  function Further(start: nat, offset: nat): Scan {
    if offset + 1 < MAX_TASKS then Looking(start, offset + 1) else Resting
  }

  function DoLook(system: System, cpu: nat): System {
    if cpu < |system.cpus| && system.cpus[cpu].scan.Looking? then
      var scan := system.cpus[cpu].scan;
      var slot := (scan.start + scan.offset) % MAX_TASKS;
      if slot < |system.words| && system.words[slot].state == Runnable
      then SetScan(system, cpu, Taking(scan.start, scan.offset, system.words[slot]))
      else SetScan(system, cpu, Further(scan.start, scan.offset))
    else system
  }

  function DoTake(system: System, cpu: nat): System {
    if cpu < |system.cpus| && system.cpus[cpu].scan.Taking? then
      var scan := system.cpus[cpu].scan;
      var slot := (scan.start + scan.offset) % MAX_TASKS;
      if slot < |system.words| && system.words[slot] == scan.loaded && Next(Claim, scan.loaded).Some?
      then SetScan(Recorded(system, Claim, slot, Next(Claim, scan.loaded).value), cpu, Resting)
      else SetScan(system, cpu, Further(scan.start, scan.offset))
    else system
  }

  function Step(system: System, action: Action): System {
    match action
    case Load(worker, op, slot) => DoLoad(system, worker, op, slot)
    case Swap(worker) => DoSwap(system, worker)
    case Store(worker) => DoStore(system, worker)
    case Online(cpu) => if cpu < |system.cpus|
         then system.(cpus := system.cpus[cpu := system.cpus[cpu].(online := true)]) else system
    case BeginClaim(cpu) => DoBeginClaim(system, cpu)
    case LookAt(cpu) => DoLook(system, cpu)
    case Take(cpu) => DoTake(system, cpu)
  }

  function Run(system: System, actions: seq<Action>): System {
    if |actions| == 0 then system else Step(Run(system, actions[..|actions| - 1]), actions[|actions| - 1])
  }

  // --- Every run is a legal history -----------------------------------------------

  /** A reservation: its slot is being set up, and the owner's word is the one to come. */
  ghost predicate Owns(system: System, worker: Worker) {
    && worker.Owning? && worker.slot < |system.words| && (worker.op == Publish || worker.op == Vacate)
    && Next(worker.op, system.words[worker.slot]) == Some(worker.word)
  }

  ghost predicate Sound(system: System, worker: Worker) {
    && (worker.Owning? ==> Owns(system, worker))
    && (worker.Trying? ==> BySwap(worker.op) && worker.slot < |system.words| && Next(worker.op, worker.loaded).Some?)
  }

  predicate SameSlot(a: Worker, b: Worker) {
    a.Owning? && b.Owning? && a.slot == b.slot
  }

  ghost predicate Exclusive(system: System) {
    forall a, b :: a in system.workers && b in system.workers && SameSlot(system.workers[a], system.workers[b]) ==>
        a == b
  }

  ghost predicate Linear(start: seq<StateWord>, system: System) {
    && |start| == |system.words| && Legal(start, system.history)
    && forall slot :: 0 <= slot < |start| ==> system.words[slot] == Current(start, system.history, slot)
  }

  ghost predicate Inv(start: seq<StateWord>, system: System) {
    && Linear(start, system) && Exclusive(system)
    && forall id :: id in system.workers ==> Sound(system, system.workers[id])
  }

  lemma LinearRecorded(start: seq<StateWord>, system: System, op: Op, slot: nat, after: StateWord)
    requires Linear(start, system) && slot < |system.words| && Next(op, system.words[slot]) == Some(after)
    ensures Linear(start, Recorded(system, op, slot, after))
  {
    var recorded := Recorded(system, op, slot, after);
    assert recorded.history[..|system.history|] == system.history;
  }

  /** Only the owner writes to a slot it reserved, so nobody else's change touches it. */
  lemma SoundRecorded(start: seq<StateWord>, system: System, op: Op, slot: nat, after: StateWord)
    requires Inv(start, system) && slot < |system.words| && Next(op, system.words[slot]) == Some(after) && op != Publish
             && op != Vacate
    ensures Inv(start, Recorded(system, op, slot, after))
    ensures forall id :: id in system.workers && system.workers[id].Owning? ==> system.workers[id].slot != slot
  {
    hide Legal, Current;
    LinearRecorded(start, system, op, slot, after);
    forall id | id in system.workers
      ensures Sound(Recorded(system, op, slot, after), system.workers[id])
      ensures system.workers[id].Owning? ==> system.workers[id].slot != slot
    {
      assert Sound(system, system.workers[id]);
    }
  }

  lemma SoundWorker(start: seq<StateWord>, system: System, worker: nat, state: Worker)
    requires Inv(start, system) && Sound(system, state)
    requires state.Owning? ==> forall id :: id in system.workers && id != worker && system.workers[id].Owning? ==>
             system.workers[id].slot != state.slot
    ensures Inv(start, SetWorker(system, worker, state))
  {
    var after := SetWorker(system, worker, state);
    forall id | id in after.workers
      ensures Sound(after, after.workers[id])
    {
      assert id != worker ==> Sound(system, system.workers[id]);
    }
  }

  lemma SwapKeeps(start: seq<StateWord>, system: System, worker: nat)
    requires Inv(start, system)
    ensures Inv(start, DoSwap(system, worker))
  {
    hide Legal, Current;
    var state := WorkerOf(system, worker);
    if state.Trying? {
      assert Sound(system, state);
      if system.words[state.slot] == state.loaded {
        var next := Next(state.op, state.loaded).value;
        SoundRecorded(start, system, state.op, state.slot, next);
        SoundWorker(start, Recorded(system, state.op, state.slot, next), worker, AfterSwap(state.op, state.slot, next));
      } else {
        SoundWorker(start, system, worker, Idle);
      }
    }
  }

  lemma StoreKeeps(start: seq<StateWord>, system: System, worker: nat)
    requires Inv(start, system)
    ensures Inv(start, DoStore(system, worker))
  {
    hide Legal, Current;
    var state := WorkerOf(system, worker);
    if state.Owning? {
      assert Sound(system, state);
      var after := DoStore(system, worker);
      LinearRecorded(start, system, state.op, state.slot, state.word);
      forall id | id in after.workers
        ensures Sound(after, after.workers[id])
      {
        assert id != worker ==> Sound(system, system.workers[id]);
      }
    }
  }

  lemma StepKeeps(start: seq<StateWord>, system: System, action: Action)
    requires Inv(start, system)
    ensures Inv(start, Step(system, action))
  {
    hide Legal, Current, DoSwap, DoStore, Linear;
    match action {
      case Load(worker, op, slot) => LoadKeeps(start, system, worker, op, slot);
      case Swap(worker) => SwapKeeps(start, system, worker);
      case Store(worker) => StoreKeeps(start, system, worker);
      case Online(cpu) => SameWords(start, system, Step(system, action));
      case BeginClaim(cpu) => SameWords(start, system, Step(system, action));
      case LookAt(cpu) => SameWords(start, system, Step(system, action));
      case Take(cpu) => TakeKeeps(start, system, cpu);
    }
  }

  lemma SameWords(start: seq<StateWord>, system: System, after: System)
    requires Inv(start, system) && after.words == system.words && after.history == system.history
             && after.workers == system.workers
    ensures Inv(start, after)
  {
    hide Legal, Current;
    forall id | id in after.workers
      ensures Sound(after, after.workers[id])
    {
      assert Sound(system, system.workers[id]);
    }
  }

  lemma LoadKeeps(start: seq<StateWord>, system: System, worker: nat, op: Op, slot: nat)
    requires Inv(start, system)
    ensures Inv(start, DoLoad(system, worker, op, slot))
  {
    hide Legal, Current, Linear;
    if BySwap(op) && slot < |system.words| && WorkerOf(system, worker) == Idle {
      var loaded := Expected(system, op, slot);
      if Next(op, loaded).Some? {
        if Next(op, loaded).value == loaded {
          SoundRecorded(start, system, op, slot, loaded);
        } else {
          SoundWorker(start, system, worker, Trying(op, slot, loaded));
        }
      }
    }
  }

  lemma TakeKeeps(start: seq<StateWord>, system: System, cpu: nat)
    requires Inv(start, system)
    ensures Inv(start, DoTake(system, cpu))
  {
    hide Legal, Current, Linear;
    if cpu < |system.cpus| && system.cpus[cpu].scan.Taking? {
      var scan := system.cpus[cpu].scan;
      var slot := (scan.start + scan.offset) % MAX_TASKS;
      if slot < |system.words| && system.words[slot] == scan.loaded && Next(Claim, scan.loaded).Some? {
        var recorded := Recorded(system, Claim, slot, Next(Claim, scan.loaded).value);
        SoundRecorded(start, system, Claim, slot, Next(Claim, scan.loaded).value);
        SameWords(start, recorded, DoTake(system, cpu));
      } else {
        SameWords(start, system, DoTake(system, cpu));
      }
    }
  }

  /** However the steps interleave, each slot's successful operations form a legal history ending in its word. */
  lemma {:induction false} EveryRunIsLegal(actions: seq<Action>)
    ensures Inv(Initial().words, Run(Initial(), actions))
  {
    if |actions| > 0 {
      EveryRunIsLegal(actions[..|actions| - 1]);
      StepKeeps(Initial().words, Run(Initial(), actions[..|actions| - 1]), actions[|actions| - 1]);
    }
  }

  /** The operation of a step that acts through a handle. */
  function GenerationOf(op: Op): Option<nat> {
    match op
    case Wake(generation) => Some(generation)
    case Stop(generation) => Some(generation)
    case Finish(generation, _) => Some(generation)
    case Reclaim(generation) => Some(generation)
    case _ => None
  }

  /** A handle of another generation never changes the word, however old the word its worker loaded. */
  lemma StaleHandleHarmless(start: seq<StateWord>, system: System, worker: nat)
    requires Inv(start, system) && WorkerOf(system, worker).Trying?
    requires var state := WorkerOf(system, worker);
             GenerationOf(state.op).Some? && GenerationOf(state.op).value != system.words[state.slot].generation
    ensures DoSwap(system, worker).words == system.words && DoSwap(system, worker).history == system.history
  {
    assert Sound(system, WorkerOf(system, worker));
  }

  predicate Blocking(op: Op) {
    op.Finish? && (op.outcome == ToBlocked || op.outcome == ToTimedBlocked)
  }

  predicate NoFinish(history: History, slot: nat, i: nat, j: nat)
    requires i < j < |history|
  {
    forall k :: i < k < j && history[k].slot == slot ==> !history[k].op.Finish?
  }

  predicate Undisturbed(history: History, slot: nat, i: nat, j: nat)
    requires i < j < |history|
  {
    forall k :: i < k < j && history[k].slot == slot ==> !history[k].op.Finish? && !history[k].op.Stop?
  }

  /** What holds of the history of every run: claims, spawns, wakes and stops. */
  lemma {:induction false} RunsAreSafe(actions: seq<Action>, slot: nat, i: nat, j: nat)
    requires slot < MAX_TASKS && i < j < |Run(Initial(), actions).history|
    requires var history := Run(Initial(), actions).history; history[i].slot == slot == history[j].slot
    ensures var history := Run(Initial(), actions).history;
            history[i].op == Claim == history[j].op ==>
                exists k :: i < k < j && history[k].slot == slot && history[k].op.Finish?
    ensures var history := Run(Initial(), actions).history;
            history[i].op == Spawn == history[j].op && Vacated(history[..j], slot) - Vacated(history[..i], slot)
                < MAX_GENERATION ==>
              history[i].after.generation != history[j].after.generation
    ensures var history := Run(Initial(), actions).history;
            && history[i].op.Wake? && history[i].before.state == Running && Blocking(history[j].op)
            && Undisturbed(history, slot, i, j)
            ==> history[j].after.state == Runnable
    ensures var history := Run(Initial(), actions).history;
            && history[i].op.Stop? && history[i].before.state == Running && history[j].op.Finish?
            && NoFinish(history, slot, i, j)
            ==> history[j].after.state == Completed
  {
    hide Legal, Vacated, Run;
    EveryRunIsLegal(actions);
    var history := Run(Initial(), actions).history;
    if history[i].op.Wake? && history[i].before.state == Running && Blocking(history[j].op)
        && Undisturbed(history, slot, i, j) {
      WakeNotLost(Initial().words, history, slot, i, j);
    }
    if history[i].op.Stop? && history[i].before.state == Running && history[j].op.Finish?
        && NoFinish(history, slot, i, j) {
      StopTakesEffect(Initial().words, history, slot, i, j);
    }
    if history[i].op == Claim == history[j].op {
      ClaimsSeparated(Initial().words, history, slot, i, j);
    }
    if history[i].op == Spawn == history[j].op {
      HandlesDiffer(Initial().words, history, slot, i, j);
    }
  }

  // --- Fairness -----------------------------------------------------------------

  /** The first cursor from `cursor` on at which a scan starts with `slot`. */
  function Turn(cursor: nat, slot: nat): (turn: nat)
    requires slot < MAX_TASKS
    ensures cursor <= turn < cursor + MAX_TASKS && turn % MAX_TASKS == slot
  {
    cursor + (slot + MAX_TASKS - cursor % MAX_TASKS) % MAX_TASKS
  }

  /** The CPU has not reached its turn for the slot, or is at it and has not yet taken the slot. */
  ghost predicate BeforeTurn(cpu: Cpu, word: StateWord, slot: nat, turn: nat) {
    && cpu.cursor <= turn + 1
    && (cpu.cursor == turn + 1 ==> cpu.scan == Looking(slot, 0) || cpu.scan == Taking(slot, 0, word))
  }

  /** While the slot stays runnable, the CPU does not get past its turn. */
  lemma StuckAtTurn(system: System, action: Action, slot: nat, cpu: nat, turn: nat)
    requires slot < |system.words| && slot < MAX_TASKS && cpu < |system.cpus| && turn % MAX_TASKS == slot
    requires system.words[slot].state == Runnable && BeforeTurn(system.cpus[cpu], system.words[slot], slot, turn)
    requires Step(system, action).words[slot] == system.words[slot]
    ensures |Step(system, action).cpus| == |system.cpus|
            && BeforeTurn(Step(system, action).cpus[cpu], system.words[slot], slot, turn)
  {
    assert (slot + 0) % MAX_TASKS == slot;
  }

  ghost predicate StaysAt(system: System, actions: seq<Action>, slot: nat, word: StateWord) {
    forall k :: 0 <= k <= |actions| ==> slot < |Run(system, actions[..k]).words|
                                        && Run(system, actions[..k]).words[slot] == word
  }

  lemma {:induction false} StuckWhileRunnable(system: System, actions: seq<Action>, slot: nat, cpu: nat, turn: nat)
    requires slot < |system.words| && slot < MAX_TASKS && cpu < |system.cpus| && turn % MAX_TASKS == slot
    requires system.words[slot].state == Runnable && BeforeTurn(system.cpus[cpu], system.words[slot], slot, turn)
    requires StaysAt(system, actions, slot, system.words[slot])
    ensures |Run(system, actions).cpus| == |system.cpus|
    ensures BeforeTurn(Run(system, actions).cpus[cpu], system.words[slot], slot, turn)
  {
    hide Step, BeforeTurn;
    if |actions| > 0 {
      var last := |actions| - 1;
      StaysBefore(system, actions, slot, system.words[slot]);
      StuckWhileRunnable(system, actions[..last], slot, cpu, turn);
      StuckAtTurn(Run(system, actions[..last]), actions[last], slot, cpu, turn);
    }
  }

  lemma {:induction false} StaysBefore(system: System, actions: seq<Action>, slot: nat, word: StateWord)
    requires StaysAt(system, actions, slot, word) && |actions| > 0
    ensures StaysAt(system, actions[..|actions| - 1], slot, word)
    ensures slot < |Run(system, actions[..|actions| - 1]).words|
            && Run(system, actions[..|actions| - 1]).words[slot] == word
    ensures slot < |Run(system, actions).words| && Run(system, actions).words[slot] == word
  {
    var rest := actions[..|actions| - 1];
    forall k | 0 <= k <= |rest|
      ensures slot < |Run(system, rest[..k]).words| && Run(system, rest[..k]).words[slot] == word
    {
      assert rest[..k] == actions[..k];
    }
    assert rest[..|rest|] == rest && actions[..|actions|] == actions;
  }

  /** A CPU that completes 24 calls of claim_next cannot find a runnable word unchanged throughout. */
  lemma {:induction false} ChangedInTurn(system: System, actions: seq<Action>, slot: nat, cpu: nat)
    requires slot < |system.words| && slot < MAX_TASKS && cpu < |system.cpus|
    requires system.words[slot].state == Runnable && system.cpus[cpu].scan == Resting
    requires |Run(system, actions).cpus| == |system.cpus| && Run(system, actions).cpus[cpu].scan == Resting
    requires Run(system, actions).cpus[cpu].cursor >= system.cpus[cpu].cursor + MAX_TASKS
    ensures !StaysAt(system, actions, slot, system.words[slot])
  {
    if StaysAt(system, actions, slot, system.words[slot]) {
      StuckWhileRunnable(system, actions, slot, cpu, Turn(system.cpus[cpu].cursor, slot));
    }
  }

  /** Whatever changes a runnable word is a claim or a stop. */
  lemma RunnableEndsByClaimOrStop(start: seq<StateWord>, system: System, action: Action, slot: nat)
    requires Inv(start, system) && slot < |system.words| && system.words[slot].state == Runnable
    requires |Step(system, action).words| == |system.words| && Step(system, action).words[slot] != system.words[slot]
    ensures var history := Step(system, action).history;
            |history| == |system.history| + 1 && history[|system.history|].slot == slot
            && history[|system.history|].before == system.words[slot]
            && (history[|system.history|].op == Claim || history[|system.history|].op.Stop?)
  {
    hide Linear;
    match action {
      case Swap(worker) =>
        assert Sound(system, WorkerOf(system, worker));
      case Store(worker) =>
        assert Sound(system, WorkerOf(system, worker));
      case _ =>
    }
  }

  lemma {:induction false} RunKeeps(start: seq<StateWord>, system: System, actions: seq<Action>)
    requires Inv(start, system)
    ensures Inv(start, Run(system, actions))
  {
    if |actions| > 0 {
      RunKeeps(start, system, actions[..|actions| - 1]);
      StepKeeps(start, Run(system, actions[..|actions| - 1]), actions[|actions| - 1]);
    }
  }

  /** Action `k` claims or stops the task in `slot`, whose word was `word` until then. */
  ghost predicate TakenAt(system: System, actions: seq<Action>, slot: nat, word: StateWord, k: nat)
    requires k < |actions|
  {
    var before, after := Run(system, actions[..k]), Run(system, actions[..k + 1]);
    && slot < |before.words| && before.words[slot] == word && |after.history| > 0
    && var entry := after.history[|after.history| - 1];
       entry.slot == slot && entry.before == word && (entry.op == Claim || entry.op.Stop?)
  }

  lemma {:induction false} FirstChange(start: seq<StateWord>, system: System, actions: seq<Action>, slot: nat)
      returns (k: nat)
    requires Inv(start, system) && slot < |system.words| && system.words[slot].state == Runnable
    requires !StaysAt(system, actions, slot, system.words[slot])
    ensures k < |actions| && TakenAt(system, actions, slot, system.words[slot], k)
  {
    hide Inv, Step;
    InvLength(start, system);
    forall j | 0 <= j <= |actions|
      ensures Inv(start, Run(system, actions[..j])) && |Run(system, actions[..j]).words| == |start|
    {
      RunKeeps(start, system, actions[..j]);
      InvLength(start, Run(system, actions[..j]));
    }
    k := 0;
    assert actions[..0] == [];
    while k < |actions| && Run(system, actions[..k + 1]).words[slot] == system.words[slot]
      invariant k <= |actions|
      invariant forall j :: 0 <= j <= k ==> Run(system, actions[..j]).words[slot] == system.words[slot]
    {
      k := k + 1;
    }
    assert k < |actions|;
    assert actions[..k + 1][..k] == actions[..k];
    RunnableEndsByClaimOrStop(start, Run(system, actions[..k]), actions[k], slot);
  }

  lemma InvLength(start: seq<StateWord>, system: System)
    requires Inv(start, system)
    ensures |system.words| == |start|
  {
  }

  /**
   A runnable task is claimed, if it is not stopped, no later than the 24th call of
   claim_next any one CPU completes.
   */
  lemma ClaimedInTurn(start: seq<StateWord>, system: System, actions: seq<Action>, slot: nat, cpu: nat) returns (k: nat)
    requires Inv(start, system) && slot < |system.words| && slot < MAX_TASKS && cpu < |system.cpus|
    requires system.words[slot].state == Runnable && system.cpus[cpu].scan == Resting
    requires |Run(system, actions).cpus| == |system.cpus| && Run(system, actions).cpus[cpu].scan == Resting
    requires Run(system, actions).cpus[cpu].cursor >= system.cpus[cpu].cursor + MAX_TASKS
    ensures k < |actions| && TakenAt(system, actions, slot, system.words[slot], k)
  {
    ChangedInTurn(system, actions, slot, cpu);
    k := FirstChange(start, system, actions, slot);
  }
}
