/** The fields of the POSIX task loop, and the stretches of its code that hold the mutex, against TaskLoopSpec. */
module TaskLoops {
  import opened Bytes
  import opened TaskLoopSpec

  class TaskLoop {
    var taskQueue: seq<Task>
    var exitCode: Option<int>

    /** The object in a state of the system. */
    ghost predicate Is(s: State)
      reads this
    {
      taskQueue == s.queue && exitCode == s.exitCode
    }

    constructor ()
      ensures Is(INITIAL)
    {
      taskQueue, exitCode := [], None;
    }

    /** The poster, from locking to unlocking: the four steps of a call. */
    method PostTask(taskData: Task, ghost s: State)
      requires Is(s) && s.owner == Free && taskData < |s.callers| && s.callers[taskData] == Caller(Post, AtLock)
      modifies this
      ensures var steps := [CallerStep(taskData), CallerStep(taskData), CallerStep(taskData), CallerStep(taskData)];
        CanRun(s, steps) && Is(Run(s, steps)) && Run(s, steps).pc != Blocked
    {
      UninterruptedCall(s, taskData);
      taskQueue := taskQueue + [taskData];
    }

    method Exit(code: int, ghost id: nat, ghost s: State)
      requires Is(s) && s.owner == Free && id < |s.callers| && s.callers[id] == Caller(ExitWith(code), AtLock)
      modifies this
      ensures var steps := [CallerStep(id), CallerStep(id), CallerStep(id), CallerStep(id)];
        CanRun(s, steps) && Is(Run(s, steps)) && Run(s, steps).pc != Blocked
    {
      UninterruptedCall(s, id);
      exitCode := Some(code);
    }

    /** One round of Run up to the unlocking, when the inner loop does not wait. */
    method TakeTask(ghost s: State) returns (taskData: Option<Task>)
      requires Is(s) && s.owner == Free && s.pc == Lock && s.taken == None && (|s.queue| > 0 || s.exitCode.Some?)
      modifies this
      ensures var steps := [RunnerStep, RunnerStep, RunnerStep, RunnerStep];
        CanRun(s, steps) && Is(Run(s, steps)) && Run(s, steps).taken == taskData
    {
      UninterruptedTake(s);
      taskData := None;
      if |taskQueue| > 0 {
        taskData := Some(taskQueue[0]);
        taskQueue := taskQueue[1..];
      }
    }

    /** The destructor: what is still queued is discarded, in its order, and not run. */
    method Destroy() returns (discarded: seq<Task>)
      modifies this
      ensures taskQueue == [] && discarded == old(taskQueue) && exitCode == old(exitCode)
    {
      discarded := [];
      while |taskQueue| > 0
        invariant discarded + taskQueue == old(taskQueue) && exitCode == old(exitCode)
        decreases |taskQueue|
      {
        var data := taskQueue[0];
        assert taskQueue == [data] + taskQueue[1..];
        taskQueue := taskQueue[1..];
        discarded := discarded + [data];
      }
    }
  }
}
