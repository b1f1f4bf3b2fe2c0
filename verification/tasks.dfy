/**
  A member task of a cgroup, seen through the per-task freezer primitives.
  The primitives themselves live outside the freezer; a task is the record of
  the answers they give when one scan over the cgroup asks them.
 */
module Tasks {

  /** One task as observed by one scan over the cgroup's members:
      - frozen:          frozen(task)
      - stoppedOrTraced: task_is_stopped_or_traced(task)
      - freezing:        freezing(task), the freeze request flag
      - shouldSkip:      freezer_should_skip(task)
      - freezeAccepted:  the result of freeze_task(task, true)
      - thawWakes:       the result of __thaw_process(task) */
  datatype Task = Task(
    frozen: bool,
    stoppedOrTraced: bool,
    freezing: bool,
    shouldSkip: bool,
    freezeAccepted: bool,
    thawWakes: bool)

  /** The task is frozen, or is stopped or traced with a freeze request
      pending, so it enters the refrigerator as soon as it is next woken. */
  predicate WillFreeze(t: Task) {
    t.frozen || (t.stoppedOrTraced && t.freezing)
  }

  /** How a freeze attempt classifies one task. */
  datatype FreezeProbe =
    | NotRequested      // freeze_task reported nothing to do
    | FreezesOnWake     // stopped or traced, freeze request already set
    | Pending           // the request is set, or the task is exempt
    | CantFreezeNow     // blocks the cgroup from freezing

  /** The classification made by the body of the freeze loop, branch by branch. */
  function Probe(t: Task): (p: FreezeProbe)
    ensures p == CantFreezeNow <==> t.freezeAccepted && !t.freezing && !t.shouldSkip
    ensures !t.freezeAccepted ==> p == NotRequested
  {
    if !t.freezeAccepted then NotRequested
    else if t.stoppedOrTraced && t.freezing then FreezesOnWake
    else if !t.freezing && !t.shouldSkip then CantFreezeNow
    else Pending
  }

  /** A call the freezer makes to a per-task primitive; `task` is the
      position of the task in the scan that made the call. */
  datatype Call =
    | FreezeTask(task: nat)       // freeze_task(task, true)
    | ThawProcess(task: nat)      // __thaw_process(task)
    | WakeUpProcess(task: nat)    // wake_up_process(task)
}
