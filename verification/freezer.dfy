/**
  The freezer subsystem's entry points: group creation, the attach and fork
  gates, the state-changing dispatcher, and the read and write handlers of
  the `freezer.state` control file. Each operation is atomic over the member
  snapshots it is given; `live` stands for the result of taking the cgroup
  lock on a cgroup that may be being removed.
 */
module Freezer {
  import opened FreezerStates
  import opened Tasks
  import opened Scans
  import Errno

  /** freezer_create: a new cgroup's freezer starts out RUNNING, so it admits
      tasks and does not report them frozen. */
  function Create(): (s: FreezerState)
    ensures s != Frozen && s != Freezing
    ensures !CgroupFrozen(s) && CanAttach(s) == 0
  {
    Running
  }

  /** cgroup_frozen: whether the task's cgroup is labelled FROZEN. */
  function CgroupFrozen(s: FreezerState): (r: bool)
    ensures r <==> StateStr(s) == "FROZEN"
  {
    s == Frozen
  }

  /** freezer_can_attach: 0 admits the task, -EBUSY refuses it. */
  function CanAttach(s: FreezerState): (retval: int)
    ensures retval == 0 || retval == -Errno.EBUSY
    ensures retval == -Errno.EBUSY <==> CgroupFrozen(s)
  {
    if s == Frozen then -Errno.EBUSY else 0
  }

  /** freezer_fork: whether freeze_task is called on the new child. A fork
      into a FROZEN cgroup is a kernel bug (BUG_ON), so it is excluded. */
  function ForkFreezesChild(s: FreezerState): (freeze: bool)
    requires s != Frozen
    ensures freeze <==> !(s == Running)
  {
    s == Freezing
  }

  /** freezer_change_state: refreshes the state with a convergence check over
      `checkScan`, then, unless it already equals the goal, freezes or thaws
      the members of `actionScan` according to the refreshed state. */
  function ChangeState(s: FreezerState, goal: FreezerState, checkScan: seq<Task>, actionScan: seq<Task>): (o: Outcome)
    ensures goal == Running ==> o.state == Running && o.retval == 0
    ensures goal == Frozen ==> (o.state == Freezing || o.state == Frozen)
    ensures goal == Frozen ==> o.retval == 0 || o.retval == -Errno.EBUSY
    ensures o.retval == -Errno.EBUSY ==> o.state == Freezing && SomeCantFreezeNow(actionScan)
    ensures o.retval == 0 || o.retval == -Errno.EBUSY
    ensures goal == CheckIfFrozen(s, checkScan) ==> o == Outcome(goal, 0, [])
    ensures goal != CheckIfFrozen(s, checkScan) && goal == Frozen ==> o == TryToFreeze(actionScan)
    ensures goal != CheckIfFrozen(s, checkScan) && goal == Running ==> o == Unfreeze(actionScan)
    ensures goal == Running ==> forall c :: c in o.calls ==> !c.FreezeTask?
    ensures goal == Frozen ==> forall c :: c in o.calls ==> c.FreezeTask?
  {
    var cur := CheckIfFrozen(s, checkScan);
    if goal == cur then Outcome(cur, 0, [])
    else
      match cur
      case Running => TryToFreeze(actionScan)
      case Freezing =>
        if goal == Frozen then TryToFreeze(actionScan)
        // FREEZING with goal RUNNING falls through to the FROZEN case
        else Unfreeze(actionScan)
      case Frozen => Unfreeze(actionScan)
  }

  /** freezer_write: parses the buffer as a C string, then requires a live
      cgroup, then changes state. A rejected write changes nothing and calls nothing. */
  function Write(s: FreezerState, live: bool, buf: string, checkScan: seq<Task>, actionScan: seq<Task>): (o: Outcome)
    ensures CString(buf) != "RUNNING" && CString(buf) != "FROZEN" ==> o == Outcome(s, -Errno.EIO, [])
    ensures (CString(buf) == "RUNNING" || CString(buf) == "FROZEN") && !live ==> o == Outcome(s, -Errno.ENODEV, [])
    ensures CString(buf) == "RUNNING" && live ==> o == ChangeState(s, Running, checkScan, actionScan)
    ensures CString(buf) == "FROZEN" && live ==> o == ChangeState(s, Frozen, checkScan, actionScan)
  {
    match ParseGoal(buf)
    case None => Outcome(s, -Errno.EIO, [])
    case Some(goal) =>
      if !live then Outcome(s, -Errno.ENODEV, [])
      else ChangeState(s, goal, checkScan, actionScan)
  }

  /** What a read of the control file leaves behind. */
  datatype ReadResult = ReadResult(state: FreezerState, retval: int, output: string)

  /** freezer_read: on a live cgroup, converts FREEZING to FROZEN lazily when
      the members have converged, and prints the token of the state followed
      by a newline; RUNNING and FROZEN are reported without a scan. */
  function Read(s: FreezerState, live: bool, scan: seq<Task>): (r: ReadResult)
    ensures !live ==> r == ReadResult(s, -Errno.ENODEV, "")
    ensures live ==> r.retval == 0 && r.output == StateStr(r.state) + "\n"
    ensures live && s == Freezing && AllWillFreeze(scan) ==> r.state == Frozen
    ensures !(live && s == Freezing && AllWillFreeze(scan)) ==> r.state == s
  {
    if !live then ReadResult(s, -Errno.ENODEV, "")
    else
      var state := if s == Freezing then CheckIfFrozen(s, scan) else s;
      ReadResult(state, 0, StateStrs[Ordinal(state)] + "\n")
  }
}
