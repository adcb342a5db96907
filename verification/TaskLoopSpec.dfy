/**
 The POSIX task loop (blinkit/posix/task_loop.cpp) as a transition system: one thread runs the loop, any number of
 calls to the task poster and to Exit come from anywhere, and their atomic steps interleave in every possible way.
 */
module TaskLoopSpec {
  import opened Bytes

  // ---- States ----------------------------------------------------------------

  datatype Call = Post | ExitWith(code: int)

  /** Where a call stands: before locking, before the update, before the signal, before unlocking, or done. */
  datatype CallPc = AtLock | AtUpdate | AtSignal | AtUnlock | Returned

  datatype Caller = Caller(call: Call, pc: CallPc)

  /**
   Where the thread in Run stands: before locking the mutex, before the test of the inner loop, in pthread_cond_wait
   and not yet woken, woken and before locking again, before taking a task, before unlocking, before the unlocked read
   of the exit code, about to delete the task, within the task, behind the loop, and returned.
   */
  datatype RunnerPc =
    | Lock | Test | Blocked | Woken | Take | Unlock | Check | Start | Executing | Break | Finished(code: int)

  datatype Owner = Free | ByRunner | ByCaller(id: nat)

  /** Each call to the poster makes a task of its own, so a task is named by its call. */
  type Task = nat

  /**
   The mutex, the fields of the loop, the threads, and the local variable taskData of Run. The rest is history: the
   tasks in the order they were queued, the tasks that were run to their end, the codes in the order they were set,
   and how many tasks were started after an exit code was set.
   */
  datatype State = State(
    owner: Owner,
    queue: seq<Task>,
    exitCode: Option<int>,
    callers: seq<Caller>,
    pc: RunnerPc,
    taken: Option<Task>,
    posted: seq<Task>,
    executed: seq<Task>,
    codes: seq<int>,
    lateStarts: nat)

  const INITIAL := State(Free, [], None, [], Lock, None, [], [], [], 0)

  // ---- Steps -----------------------------------------------------------------

  /** A call begins, a caller or the runner makes a step, or the condition variable wakes the runner for no reason. */
  datatype Event = Invoke(call: Call) | CallerStep(id: nat) | RunnerStep | SpuriousWakeup

  predicate Enabled(s: State, e: Event) {
    match e
    case Invoke(_) => true
    case CallerStep(i) =>
      i < |s.callers| && s.callers[i].pc != Returned && (s.callers[i].pc == AtLock ==> s.owner == Free)
    case RunnerStep =>
      s.pc != Blocked && !s.pc.Finished? && (s.pc == Lock || s.pc == Woken ==> s.owner == Free)
    case SpuriousWakeup => s.pc == Blocked
  }

  function CallerAfter(s: State, i: nat): State
    requires i < |s.callers|
  {
    var c := s.callers[i];
    var at := (pc: CallPc) => s.callers[i := c.(pc := pc)];
    match c.pc
    case AtLock => s.(owner := ByCaller(i), callers := at(AtUpdate))
    case AtUpdate =>
      (match c.call
       case Post => s.(queue := s.queue + [i], posted := s.posted + [i], callers := at(AtSignal))
       case ExitWith(code) => s.(exitCode := Some(code), codes := s.codes + [code], callers := at(AtSignal)))
    case AtSignal => s.(pc := if s.pc == Blocked then Woken else s.pc, callers := at(AtUnlock))
    case AtUnlock => s.(owner := Free, callers := at(Returned))
    case Returned => s
  }

  function Tasks(t: Option<Task>): seq<Task> { if t.Some? then [t.value] else [] }

  function RunnerAfter(s: State): State {
    match s.pc
    case Lock => s.(owner := ByRunner, pc := Test)
    case Test => if |s.queue| == 0 && s.exitCode == None then s.(owner := Free, pc := Blocked) else s.(pc := Take)
    case Woken => s.(owner := ByRunner, pc := Test)
    case Take =>
      if |s.queue| > 0 then s.(taken := Some(s.queue[0]), queue := s.queue[1..], pc := Unlock) else s.(pc := Unlock)
    case Unlock => s.(owner := Free, pc := Check)
    case Check => s.(pc := if s.exitCode.Some? then Break else Start)
    case Start => s.(pc := Executing, lateStarts := if s.exitCode.Some? then s.lateStarts + 1 else s.lateStarts)
    case Executing => s.(executed := s.executed + Tasks(s.taken), taken := None, pc := Lock)
    case Break => s.(pc := Finished(s.exitCode.GetOr(0)))
    case _ => s
  }

  function After(s: State, e: Event): State
    requires Enabled(s, e)
  {
    match e
    case Invoke(call) => s.(callers := s.callers + [Caller(call, AtLock)])
    case CallerStep(i) => CallerAfter(s, i)
    case RunnerStep => RunnerAfter(s)
    case SpuriousWakeup => s.(pc := Woken)
  }

  /** The events can happen one after the other. */
  predicate CanRun(s: State, events: seq<Event>)
    decreases |events|
  {
    |events| > 0 ==> Enabled(s, events[0]) && CanRun(After(s, events[0]), events[1..])
  }

  function Run(s: State, events: seq<Event>): State
    requires CanRun(s, events)
    decreases |events|
  {
    if |events| == 0 then s else Run(After(s, events[0]), events[1..])
  }

  // ---- The invariant ---------------------------------------------------------

  predicate HoldsMutex(pc: CallPc) { pc == AtUpdate || pc == AtSignal || pc == AtUnlock }

  predicate MutexOk(s: State) {
    && (s.owner == ByRunner <==> s.pc == Test || s.pc == Take || s.pc == Unlock)
    && (s.owner.ByCaller? ==> s.owner.id < |s.callers|)
    && forall i :: 0 <= i < |s.callers| ==> (s.owner == ByCaller(i) <==> HoldsMutex(s.callers[i].pc))
  }

  /** The call has queued its task. */
  predicate HasPosted(s: State, i: nat)
    requires i < |s.callers|
  {
    s.callers[i].call.Post? && s.callers[i].pc != AtLock && s.callers[i].pc != AtUpdate
  }

  /** Every task that was queued is run, with the runner, or still there, in this order; and each exactly once. */
  predicate TasksOk(s: State) {
    && s.posted == s.executed + Tasks(s.taken) + s.queue
    && (forall j, k :: 0 <= j < k < |s.posted| ==> s.posted[j] != s.posted[k])
    && (forall k :: 0 <= k < |s.posted| ==> s.posted[k] < |s.callers| && HasPosted(s, s.posted[k]))
    && forall i :: 0 <= i < |s.callers| && HasPosted(s, i) ==> i in s.posted
  }

  /** The exit code is the last one set, and is never taken back. */
  predicate ExitOk(s: State) {
    && s.exitCode == (if |s.codes| == 0 then None else Some(s.codes[|s.codes| - 1]))
    && (s.pc == Break ==> s.exitCode.Some?)
    && (s.pc.Finished? ==> s.pc.code in s.codes)
  }

  /** taskData is null exactly where it may be: the assertion before the task is deleted holds. */
  predicate TakenOk(s: State) {
    && (s.taken.Some? ==> !(s.pc == Lock || s.pc == Test || s.pc == Blocked || s.pc == Woken || s.pc == Take))
    && (s.pc == Take ==> |s.queue| > 0 || s.exitCode.Some?)
    && (s.taken == None && (s.pc == Unlock || s.pc == Check) ==> s.exitCode.Some?)
    && (s.pc == Start || s.pc == Executing ==> s.taken.Some?)
  }

  /** No wake-up is lost: if there is something to do for a blocked runner, whoever brought it is about to signal. */
  predicate WakeupOk(s: State) {
    s.pc == Blocked ==>
      || (|s.queue| == 0 && s.exitCode == None)
      || (s.owner.ByCaller? && s.owner.id < |s.callers| && s.callers[s.owner.id].pc == AtSignal)
  }

  predicate LateOk(s: State) {
    s.lateStarts <= 1 && (s.lateStarts == 1 ==> s.exitCode.Some? && s.pc != Start)
  }

  predicate Inv(s: State) { MutexOk(s) && TasksOk(s) && ExitOk(s) && TakenOk(s) && WakeupOk(s) && LateOk(s) }

  // ---- Every step keeps it ---------------------------------------------------

  lemma InvokeKeeps(s: State, call: Call)
    requires Inv(s)
    ensures Inv(After(s, Invoke(call)))
  {
    var t := After(s, Invoke(call));
    assert forall i :: 0 <= i < |s.callers| ==> t.callers[i] == s.callers[i];
    assert forall i :: 0 <= i < |s.callers| ==> HasPosted(t, i) == HasPosted(s, i);
  }

  lemma CallerKeepsMutex(s: State, i: nat)
    requires Inv(s) && Enabled(s, CallerStep(i))
    ensures MutexOk(CallerAfter(s, i))
  {
  }

  lemma CallerKeepsTasks(s: State, i: nat)
    requires Inv(s) && Enabled(s, CallerStep(i))
    ensures TasksOk(CallerAfter(s, i))
  {
    var t := CallerAfter(s, i);
    assert forall j :: 0 <= j < |s.callers| && j != i ==> HasPosted(t, j) == HasPosted(s, j);
    if s.callers[i].pc == AtUpdate && s.callers[i].call.Post? {
      assert i !in s.posted;
      assert t.posted == s.executed + Tasks(s.taken) + (s.queue + [i]);
      assert t.posted[|s.posted|] == i;
    } else {
      assert HasPosted(t, i) == HasPosted(s, i);
    }
  }

  lemma CallerKeepsRest(s: State, i: nat)
    requires Inv(s) && Enabled(s, CallerStep(i))
    ensures var t := CallerAfter(s, i); ExitOk(t) && TakenOk(t) && WakeupOk(t) && LateOk(t)
  {
  }

  lemma RunnerKeepsTasks(s: State)
    requires Inv(s) && Enabled(s, RunnerStep)
    ensures TasksOk(RunnerAfter(s))
  {
    var t := RunnerAfter(s);
    RunnerKeepsOrder(s);
    assert t.posted == s.posted && t.callers == s.callers;
    assert forall j :: 0 <= j < |s.callers| ==> HasPosted(t, j) == HasPosted(s, j);
  }

  lemma RunnerKeepsOrder(s: State)
    requires s.posted == s.executed + Tasks(s.taken) + s.queue && TakenOk(s)
    ensures var t := RunnerAfter(s); t.posted == t.executed + Tasks(t.taken) + t.queue
  {
    if s.pc == Take && |s.queue| > 0 {
      assert s.queue == [s.queue[0]] + s.queue[1..];
    } else if s.pc == Executing {
      assert s.executed + Tasks(s.taken) + [] + s.queue == s.posted;
    }
  }

  lemma RunnerKeepsRest(s: State)
    requires Inv(s) && Enabled(s, RunnerStep)
    ensures var t := RunnerAfter(s); MutexOk(t) && ExitOk(t) && TakenOk(t) && WakeupOk(t) && LateOk(t)
  {
  }

  lemma StepKeeps(s: State, e: Event)
    requires Inv(s) && Enabled(s, e)
    ensures Inv(After(s, e))
  {
    match e {
      case Invoke(call) => InvokeKeeps(s, call);
      case CallerStep(i) =>
        CallerKeepsMutex(s, i);
        CallerKeepsTasks(s, i);
        CallerKeepsRest(s, i);
      case RunnerStep =>
        RunnerKeepsTasks(s);
        RunnerKeepsRest(s);
      case SpuriousWakeup =>
        assert forall j :: 0 <= j < |s.callers| ==> HasPosted(After(s, e), j) == HasPosted(s, j);
    }
  }

  lemma {:induction false} RunKeeps(s: State, events: seq<Event>)
    requires Inv(s) && CanRun(s, events)
    ensures Inv(Run(s, events))
    decreases |events|
  {
    if |events| > 0 {
      StepKeeps(s, events[0]);
      RunKeeps(After(s, events[0]), events[1..]);
    }
  }

  // ---- What holds of every interleaving ----------------------------------------

  lemma Reachable(events: seq<Event>)
    requires CanRun(INITIAL, events)
    ensures Inv(Run(INITIAL, events))
  {
    RunKeeps(INITIAL, events);
  }

  /** At every moment the tasks queued so far are those run, at most one in flight, and those waiting, in the order
      they were queued and without repetition. So a task is run at most once, and none overtakes another. */
  lemma TasksAreConserved(events: seq<Event>)
    requires CanRun(INITIAL, events)
    ensures var s := Run(INITIAL, events);
      && s.posted == s.executed + Tasks(s.taken) + s.queue
      && s.executed <= s.posted
      && (forall j, k :: 0 <= j < k < |s.posted| ==> s.posted[j] != s.posted[k])
      && forall i :: 0 <= i < |s.callers| ==> (HasPosted(s, i) <==> i in s.posted)
  {
    Reachable(events);
  }

  /** A runner that is asleep and has not been signalled has nothing to do, or is about to be signalled by the call
      that holds the mutex. */
  lemma NoLostWakeup(events: seq<Event>)
    requires CanRun(INITIAL, events) && Run(INITIAL, events).pc == Blocked
    ensures var s := Run(INITIAL, events);
      || (|s.queue| == 0 && s.exitCode == None)
      || (s.owner.ByCaller? && s.owner.id < |s.callers| && s.callers[s.owner.id].pc == AtSignal)
  {
    Reachable(events);
  }

  /** At most one task is started after Exit has set its code, and it was taken before. */
  lemma OneStartAfterExit(events: seq<Event>)
    requires CanRun(INITIAL, events)
    ensures LateStarts(INITIAL, events) <= 1
  {
    Reachable(events);
    LateStartsAreCounted(INITIAL, events);
  }

  /** How many tasks the runner starts with an exit code set, counted step by step. */
  function LateStarts(s: State, events: seq<Event>): nat
    requires CanRun(s, events)
    decreases |events|
  {
    if |events| == 0 then 0
    else
      (if events[0] == RunnerStep && s.pc == Start && s.exitCode.Some? then 1 else 0)
      + LateStarts(After(s, events[0]), events[1..])
  }

  lemma {:induction false} LateStartsAreCounted(s: State, events: seq<Event>)
    requires CanRun(s, events)
    ensures Run(s, events).lateStarts == s.lateStarts + LateStarts(s, events)
    decreases |events|
  {
    if |events| > 0 { LateStartsAreCounted(After(s, events[0]), events[1..]); }
  }

  /** Run returns only what Exit was called with, and deletes only tasks it has taken. */
  lemma RunReturnsAnExitCode(events: seq<Event>)
    requires CanRun(INITIAL, events)
    ensures var s := Run(INITIAL, events);
      && (s.pc.Finished? ==> s.exitCode.Some? && s.pc.code in s.codes)
      && (s.pc == Start || s.pc == Executing ==> s.taken.Some?)
  {
    Reachable(events);
  }

  /** Where Run reads its result, that is the code that was set last, however many were set before. */
  lemma RunReturnsLastCode(events: seq<Event>)
    requires CanRun(INITIAL, events) && Run(INITIAL, events).pc == Break
    ensures var s := Run(INITIAL, events);
      |s.codes| > 0 && Enabled(s, RunnerStep) && After(s, RunnerStep).pc == Finished(s.codes[|s.codes| - 1])
  {
    Reachable(events);
  }

  /** And that is what it stays, whatever is set afterwards. */
  lemma {:induction false} ResultStays(s: State, events: seq<Event>)
    requires CanRun(s, events) && s.pc.Finished?
    ensures Run(s, events).pc == s.pc
    decreases |events|
  {
    if |events| > 0 { ResultStays(After(s, events[0]), events[1..]); }
  }

  // ---- Progress --------------------------------------------------------------

  /** Nothing but a new call or a spurious wake-up can happen. */
  predicate Quiet(s: State) { !Enabled(s, RunnerStep) && forall i :: 0 <= i < |s.callers| ==> !Enabled(s, CallerStep(i)) }

  /** There is no deadlock: when nothing can go on, all calls have returned, the mutex is free, and the runner has
      returned, or sleeps, with every task run and no exit code set. */
  lemma QuietMeansDone(events: seq<Event>)
    requires CanRun(INITIAL, events) && Quiet(Run(INITIAL, events))
    ensures var s := Run(INITIAL, events);
      && s.owner == Free && (forall i :: 0 <= i < |s.callers| ==> s.callers[i].pc == Returned)
      && (s.pc.Finished? || (s.pc == Blocked && s.executed == s.posted && s.exitCode == None))
  {
    Reachable(events);
    var s := Run(INITIAL, events);
    HolderCanStep(s);
    forall i | 0 <= i < |s.callers| ensures s.callers[i].pc == Returned { assert !Enabled(s, CallerStep(i)); }
  }

  lemma HolderCanStep(s: State)
    requires Inv(s)
    ensures s.owner.ByCaller? ==> Enabled(s, CallerStep(s.owner.id))
    ensures s.owner == ByRunner ==> Enabled(s, RunnerStep)
  {
  }

  /** How many steps of its own the runner has before it at most, once an exit code is set. */
  function StepsLeft(pc: RunnerPc): nat {
    match pc
    case Start => 9
    case Executing => 8
    case Lock => 7
    case Blocked => 7
    case Woken => 7
    case Test => 6
    case Take => 5
    case Unlock => 4
    case Check => 3
    case Break => 1
    case Finished(_) => 0
  }

  function RunnerSteps(events: seq<Event>): nat
    decreases |events|
  {
    if |events| == 0 then 0 else (if events[0] == RunnerStep then 1 else 0) + RunnerSteps(events[1..])
  }

  /** After an exit code is set, whatever else happens, Run returns within nine steps of its own: it has returned as soon
      as the runner has made that many, and until then, by QuietMeansDone, something can always go on. */
  lemma {:induction false} ExitEndsRun(s: State, events: seq<Event>)
    requires Inv(s) && s.exitCode.Some? && CanRun(s, events)
    ensures RunnerSteps(events) + StepsLeft(Run(s, events).pc) <= StepsLeft(s.pc) <= 9
    ensures RunnerSteps(events) >= StepsLeft(s.pc) ==> Run(s, events).pc.Finished?
    decreases |events|
  {
    if |events| > 0 {
      StepKeeps(s, events[0]);
      var t := After(s, events[0]);
      assert t.exitCode.Some?;
      assert StepsLeft(t.pc) + (if events[0] == RunnerStep then 1 else 0) <= StepsLeft(s.pc);
      ExitEndsRun(t, events[1..]);
    }
  }

  /** How many steps the runner has before it until it has run the j-th task ever queued, if no exit code is set: seven
      for every task before that one, and what is left of the present round. */
  function StepsUntil(s: State, j: nat): int {
    (match s.pc
     case Start => 2
     case Executing => 1
     case _ => StepsLeft(s.pc)) + 7 * (j - |s.executed|)
  }

  lemma NearerByOne(s: State, e: Event, j: nat)
    requires Inv(s) && Enabled(s, e) && After(s, e).exitCode == None && |s.executed| <= j < |s.posted|
    ensures s.exitCode == None && s.posted <= After(s, e).posted
    ensures var t := After(s, e);
      j < |t.executed| || (if e == RunnerStep then 1 else 0) + StepsUntil(t, j) <= StepsUntil(s, j)
  {
    assert |s.posted| == |s.executed| + |Tasks(s.taken)| + |s.queue|;
  }

  lemma {:induction false} ExecutedGrows(s: State, events: seq<Event>)
    requires CanRun(s, events)
    ensures s.executed <= Run(s, events).executed
    decreases |events|
  {
    if |events| > 0 { ExecutedGrows(After(s, events[0]), events[1..]); }
  }

  lemma {:induction false} ExitStays(s: State, events: seq<Event>)
    requires CanRun(s, events) && s.exitCode.Some?
    ensures Run(s, events).exitCode.Some?
    decreases |events|
  {
    if |events| > 0 { ExitStays(After(s, events[0]), events[1..]); }
  }

  lemma {:induction false} NearerByAll(s: State, events: seq<Event>, j: nat)
    requires Inv(s) && CanRun(s, events) && Run(s, events).exitCode == None && |s.executed| <= j < |s.posted|
    ensures s.posted <= Run(s, events).posted
    ensures var t := Run(s, events); j < |t.executed| || RunnerSteps(events) + StepsUntil(t, j) <= StepsUntil(s, j)
    decreases |events|
  {
    if |events| > 0 {
      var next := After(s, events[0]);
      if next.exitCode.Some? { ExitStays(next, events[1..]); }
      StepKeeps(s, events[0]);
      NearerByOne(s, events[0], j);
      if j < |next.executed| {
        ExecutedGrows(next, events[1..]);
        PostedGrows(next, events[1..]);
      } else {
        NearerByAll(next, events[1..], j);
      }
    }
  }

  lemma {:induction false} PostedGrows(s: State, events: seq<Event>)
    requires CanRun(s, events)
    ensures s.posted <= Run(s, events).posted
    decreases |events|
  {
    if |events| > 0 { PostedGrows(After(s, events[0]), events[1..]); }
  }

  /** Where a task that waits stands among all tasks, and how far away it is at most. */
  lemma PlaceInQueue(s: State, k: nat)
    requires Inv(s) && k < |s.queue|
    ensures var j := |s.executed| + |Tasks(s.taken)| + k; |s.executed| <= j < |s.posted| && s.posted[j] == s.queue[k]
    ensures s.exitCode == None ==> StepsUntil(s, |s.executed| + |Tasks(s.taken)| + k) <= 7 * (k + 2)
  {
    assert |s.posted| == |s.executed| + |Tasks(s.taken)| + |s.queue|;
  }

  lemma StepsRemain(s: State, j: nat)
    requires Inv(s) && s.exitCode == None && |s.executed| <= j
    ensures StepsUntil(s, j) > 0
  {
  }

  /** The queue moves: whatever else happens, a task with k others before it in the queue has been run to its end when
      the runner has made 7 * (k + 2) steps of its own and no exit code was set. */
  lemma WaitingTaskIsRun(s: State, events: seq<Event>, k: nat)
    requires Inv(s) && CanRun(s, events) && k < |s.queue|
    requires Run(s, events).exitCode == None && RunnerSteps(events) >= 7 * (k + 2)
    ensures s.queue[k] in Run(s, events).executed
  {
    var t, j := Run(s, events), |s.executed| + |Tasks(s.taken)| + k;
    RunKeeps(s, events);
    if s.exitCode.Some? { ExitStays(s, events); }
    PlaceInQueue(s, k);
    NearerByAll(s, events, j);
    if |t.executed| <= j { StepsRemain(t, j); }
    assert t.executed <= t.posted;
    assert t.executed[j] == t.posted[j];
  }

  // ---- Stretches that nobody interrupts ------------------------------------------

  lemma {:induction false} RunParts(s: State, first: seq<Event>, second: seq<Event>)
    requires CanRun(s, first) && CanRun(Run(s, first), second)
    ensures CanRun(s, first + second) && Run(s, first + second) == Run(Run(s, first), second)
    decreases |first|
  {
    if |first| == 0 {
      assert first + second == second;
    } else {
      assert (first + second)[1..] == first[1..] + second;
      RunParts(After(s, first[0]), first[1..], second);
    }
  }

  lemma Steps2(s: State, e: Event, f: Event)
    requires Enabled(s, e) && Enabled(After(s, e), f)
    ensures CanRun(s, [e, f]) && Run(s, [e, f]) == After(After(s, e), f)
  {
    var t := After(s, e);
    assert [e, f][1..] == [f] && [f][1..] == [];
    assert Run(After(t, f), []) == After(t, f);
    assert Run(t, [f]) == Run(After(t, f), [f][1..]);
  }

  lemma Steps4(s: State, e: Event)
    requires Enabled(s, e) && Enabled(After(s, e), e)
    requires var t := After(After(s, e), e); Enabled(t, e) && Enabled(After(t, e), e)
    ensures CanRun(s, [e, e, e, e]) && Run(s, [e, e, e, e]) == After(After(After(After(s, e), e), e), e)
  {
    Steps2(s, e, e);
    Steps2(Run(s, [e, e]), e, e);
    RunParts(s, [e, e], [e, e]);
    assert [e, e] + [e, e] == [e, e, e, e];
  }

  /** A call that finds the mutex free and is not interrupted. */
  lemma UninterruptedCall(s: State, i: nat)
    requires i < |s.callers| && s.callers[i].pc == AtLock && s.owner == Free
    ensures var steps := [CallerStep(i), CallerStep(i), CallerStep(i), CallerStep(i)]; var c := s.callers[i].call;
      && CanRun(s, steps)
      && Run(s, steps) == s.(
           queue := if c.Post? then s.queue + [i] else s.queue,
           posted := if c.Post? then s.posted + [i] else s.posted,
           exitCode := if c.Post? then s.exitCode else Some(c.code),
           codes := if c.Post? then s.codes else s.codes + [c.code],
           callers := s.callers[i := s.callers[i].(pc := Returned)],
           pc := if s.pc == Blocked then Woken else s.pc)
  {
    var e := CallerStep(i);
    Steps4(s, e);
    var t := After(After(After(After(s, e), e), e), e);
    assert t.callers == s.callers[i := s.callers[i].(pc := Returned)];
  }

  /** The runner at the top of its loop, with something to do and the mutex free. */
  lemma UninterruptedTake(s: State)
    requires s.pc == Lock && s.owner == Free && (|s.queue| > 0 || s.exitCode.Some?)
    ensures var steps := [RunnerStep, RunnerStep, RunnerStep, RunnerStep];
      && CanRun(s, steps)
      && Run(s, steps) == s.(
           taken := if |s.queue| > 0 then Some(s.queue[0]) else s.taken,
           queue := if |s.queue| > 0 then s.queue[1..] else s.queue,
           pc := Check)
  {
    Steps4(s, RunnerStep);
  }

  /** One task queued and taken, and a call to Exit about to begin. */
  function TakenOne(code: int): State {
    State(Free, [], None, [Caller(Post, Returned), Caller(ExitWith(code), AtLock)], Check, Some(0), [0], [], [], 0)
  }

  lemma TakesOne(code: int) returns (events: seq<Event>)
    ensures CanRun(INITIAL, events) && Run(INITIAL, events) == TakenOne(code)
  {
    var post := [Invoke(Post), Invoke(ExitWith(code))];
    var call := [CallerStep(0), CallerStep(0), CallerStep(0), CallerStep(0)];
    var take := [RunnerStep, RunnerStep, RunnerStep, RunnerStep];
    Steps2(INITIAL, Invoke(Post), Invoke(ExitWith(code)));
    var s1 := Run(INITIAL, post);
    assert s1 == INITIAL.(callers := [Caller(Post, AtLock), Caller(ExitWith(code), AtLock)]);
    UninterruptedCall(s1, 0);
    UninterruptedTake(Run(s1, call));
    RunParts(INITIAL, post, call);
    RunParts(INITIAL, post + call, take);
    events := post + call + take;
  }

  lemma LosesOne(code: int) returns (events: seq<Event>)
    ensures CanRun(TakenOne(code), events)
    ensures var s := Run(TakenOne(code), events);
      s.pc == Finished(code) && s.posted == [0] && s.taken == Some(0) && s.executed == [] && s.queue == []
  {
    var s := TakenOne(code);
    var call := [CallerStep(1), CallerStep(1), CallerStep(1), CallerStep(1)];
    UninterruptedCall(s, 1);
    Steps2(Run(s, call), RunnerStep, RunnerStep);
    RunParts(s, call, [RunnerStep, RunnerStep]);
    events := call + [RunnerStep, RunnerStep];
  }

  /** A task that was taken can get lost: if Exit comes in before the unlocked read, Run returns without having run it,
      and it is no longer in the queue. The same run exists for every exit code. */
  lemma TakenTaskCanBeLost(code: int) returns (events: seq<Event>)
    ensures CanRun(INITIAL, events)
    ensures var s := Run(INITIAL, events);
      s.pc == Finished(code) && s.posted == [0] && s.taken == Some(0) && s.executed == [] && s.queue == []
  {
    var first := TakesOne(code);
    var second := LosesOne(code);
    RunParts(INITIAL, first, second);
    events := first + second;
  }

  lemma {:induction false} ExecutedStays(s: State, events: seq<Event>, t: Task)
    requires CanRun(s, events) && t in s.executed
    ensures t in Run(s, events).executed
    decreases |events|
  {
    if |events| > 0 {
      assert t in After(s, events[0]).executed;
      ExecutedStays(After(s, events[0]), events[1..], t);
    }
  }

  /** The task is skipped: behind the read, or before it with the exit code set. */
  predicate Skipped(s: State, t: Task) {
    && s.taken == Some(t) && t !in s.executed && s.exitCode.Some?
    && (s.pc == Check || s.pc == Break || s.pc.Finished?)
  }

  lemma {:induction false} SkippedStays(s: State, events: seq<Event>, t: Task)
    requires CanRun(s, events) && Skipped(s, t)
    ensures t !in Run(s, events).executed
    decreases |events|
  {
    if |events| > 0 {
      assert Skipped(After(s, events[0]), t);
      SkippedStays(After(s, events[0]), events[1..], t);
    }
  }

  lemma {:induction false} StartedIsRun(s: State, events: seq<Event>, t: Task)
    requires CanRun(s, events) && s.taken == Some(t) && (s.pc == Start || s.pc == Executing)
    requires RunnerSteps(events) >= if s.pc == Start then 2 else 1
    ensures t in Run(s, events).executed
    decreases |events|
  {
    var next := After(s, events[0]);
    if s.pc == Executing && events[0] == RunnerStep {
      assert t in next.executed;
      ExecutedStays(next, events[1..], t);
    } else {
      StartedIsRun(next, events[1..], t);
    }
  }

  /** The unlocked read decides: when the runner makes its next three steps, the task it has taken is run if and only
      if no exit code was set when it read. */
  lemma ReadDecides(s: State, events: seq<Event>)
    requires Inv(s) && s.pc == Check && s.taken.Some? && CanRun(s, [RunnerStep] + events)
    requires RunnerSteps(events) >= 2 || s.exitCode.Some?
    ensures s.taken.value in Run(s, [RunnerStep] + events).executed <==> s.exitCode == None
  {
    var t := s.taken.value;
    var all := [RunnerStep] + events;
    assert all[1..] == events;
    assert s.posted[|s.executed|] == t;
    assert t !in s.executed by {
      assert forall k :: 0 <= k < |s.executed| ==> s.posted[k] == s.executed[k];
    }
    if s.exitCode.Some? {
      SkippedStays(s, all, t);
    } else {
      StartedIsRun(After(s, RunnerStep), events, t);
    }
  }
}
