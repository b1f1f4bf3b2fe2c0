# cgroup freezer state machine

A Dafny model of the Linux control-group freezer, `kernel/cgroup_freezer.c`.
A cgroup's freezer holds one of three states: RUNNING, FREEZING or FROZEN.
Userspace moves it between them by writing `RUNNING` or `FROZEN` to the
`freezer.state` control file, and observes it by reading that file.

The model is functional. Each entry point is a pure function of three things:

- the current state;
- the goal, or the written string;
- snapshots of the cgroup's members.

A member task is a record of the answers the per-task freezer primitives give
for it: `frozen`, `freezing`, `task_is_stopped_or_traced`,
`freezer_should_skip`, and the results of `freeze_task` and `__thaw_process`.
Each loop over the cgroup iterator is a fold over a `seq<Task>`. The calls the
freezer makes to the per-task primitives are returned as a log (`Tasks.Call`),
so a contract can say which members were asked to freeze, thaw or wake, and
that a no-op asks nothing.

`freezer_change_state` iterates the cgroup twice: once in `check_if_frozen`,
then again to freeze or thaw. Between the two, `freeze_task` changes what
`freezing` answers, and members can join or leave. The model therefore takes
two snapshots, `checkScan` and `actionScan`.

Modules:

- `Options` (options.dfy): an optional value.
- `Errno` (errno.dfy): the kernel error numbers the handlers return.
- `FreezerStates` (states.dfy): the state enumeration, the token table, and
  the parsing of a written buffer. A buffer is compared as a C string, up to
  its first NUL, as `strcmp` does.
- `Tasks` (tasks.dfy): the task record, the freeze-loop classification and
  the call log.
- `Scans` (scans.dfy): `check_if_frozen`, `try_to_freeze_cgroup` and
  `unfreeze_cgroup`.
- `Freezer` (freezer.dfy): create, the attach and fork gates, the dispatcher,
  and the read and write handlers.
- `FreezerProperties` (properties.dfy): lemmas that relate operations to each
  other and to the documented state diagram.

The model follows the code where it departs from the state diagram drawn in
its header comment (kernel/cgroup_freezer.c:73-82). `check_if_frozen` runs
unconditionally at the start of every state change, and it does not look at
the current state. This has two consequences:

- Writing `FROZEN` to a RUNNING cgroup whose members are all frozen, or which
  has no members, labels it FROZEN at once. It does not pass through FREEZING
  and calls `freeze_task` on nobody. The diagram has no such edge.
- Writing `RUNNING` to such a cgroup is not a no-op. The relabelling sends it
  through `unfreeze_cgroup`, which thaws every member.

`ChangeStateFollowsDiagram`, `EmptyRunningGroupFreezesWithoutAttempt` and
`RunningGroupThawedWhenAllFrozen` state this behaviour.

## Model

| member | source | states |
|---|---|---|
| FreezerStates.StateStr | kernel/cgroup_freezer.c:67-71 | the token of RUNNING is "RUNNING", of FREEZING "FREEZING" and of FROZEN "FROZEN", and no other state has that token |
| FreezerStates.StateStrInjective | kernel/cgroup_freezer.c:67-71 | distinct states have distinct tokens, so a printed token identifies the state |
| FreezerStates.CString | kernel/cgroup_freezer.c:329-331 | the string strcmp compares is the longest NUL-free prefix of the buffer: it holds no NUL, and it ends at the end of the buffer or at a NUL; a buffer without NUL is compared whole |
| FreezerStates.ParseGoal | kernel/cgroup_freezer.c:329-334 | a written buffer is accepted exactly when its C string is "RUNNING" or "FROZEN"; the goal it yields is never FREEZING and is named by that C string |
| FreezerStates.ParseGoalStopsAtNul | kernel/cgroup_freezer.c:329-332 | a goal token followed by a NUL and any further characters is accepted as that goal, because strcmp stops at the NUL |
| FreezerStates.ParseGoalRoundTrip | kernel/cgroup_freezer.c:329-334 | parsing inverts naming for RUNNING and FROZEN, and the token of FREEZING is rejected |
| Tasks.Probe | kernel/cgroup_freezer.c:249-259 | a member blocks the freeze exactly when freeze_task accepted it, it is not freezing and it is not exempt; the stopped-or-traced test cannot make a member blocking |
| Scans.CountFrozen | kernel/cgroup_freezer.c:191-203 | the frozen counter never exceeds the member count, and equals it exactly when every member is frozen or stopped or traced with a freeze pending |
| Scans.CheckIfFrozen | kernel/cgroup_freezer.c:186-213 | the state becomes FROZEN exactly when every member will freeze, whatever it was before, and an empty cgroup always becomes FROZEN; otherwise the state is unchanged |
| Scans.CountCantFreezeNow | kernel/cgroup_freezer.c:245-260 | the blocking counter is zero exactly when no member blocks the freeze |
| Scans.TryToFreeze | kernel/cgroup_freezer.c:241-264 | the state is always FREEZING; the result is -EBUSY exactly when some member blocks and 0 otherwise; freeze_task is called once on each member, in order |
| Scans.ThawCalls | kernel/cgroup_freezer.c:271-281 | only thaws and wake-ups of members of the scan are logged; each member is thawed exactly once whatever the other thaws report, and in visiting order; a member is woken once if its thaw asks for it and never otherwise, and each wake-up comes right after the thaw of the same member |
| Scans.Unfreeze | kernel/cgroup_freezer.c:266-285 | the state always ends RUNNING with result 0; only members of the scan are thawed or woken; each is thawed exactly once, in visiting order, and woken once right after its thaw exactly when the thaw asks for it |
| Freezer.Create | kernel/cgroup_freezer.c:128-140 | a new freezer is neither FREEZING nor FROZEN, admits tasks and is not reported frozen |
| Freezer.CgroupFrozen | kernel/cgroup_freezer.c:50-61 | a task's cgroup is reported frozen exactly when its state reads as FROZEN |
| Freezer.CanAttach | kernel/cgroup_freezer.c:149-165 | attaching returns 0 or -EBUSY, and -EBUSY exactly when the cgroup is frozen |
| Freezer.ForkFreezesChild | kernel/cgroup_freezer.c:167-181 | a fork into a FROZEN cgroup is excluded; the child is asked to freeze exactly when the cgroup is not RUNNING |
| Freezer.ChangeState | kernel/cgroup_freezer.c:287-320 | goal RUNNING always ends RUNNING with 0 and never asks a member to freeze; goal FROZEN ends FREEZING or FROZEN with 0 or -EBUSY and never thaws; -EBUSY comes only with FREEZING and a blocking member; when the refreshed state already equals the goal nothing is called and 0 is returned; otherwise the result is exactly the freeze attempt over the action snapshot for goal FROZEN and exactly the thaw for goal RUNNING, a FREEZING cgroup included |
| Freezer.Write | kernel/cgroup_freezer.c:322-341 | a buffer whose C string is neither RUNNING nor FROZEN gives -EIO and changes nothing; a valid buffer on a cgroup being removed gives -ENODEV and changes nothing; otherwise the state change for the named goal is made |
| Freezer.Read | kernel/cgroup_freezer.c:215-239 | a cgroup being removed gives -ENODEV and no output; otherwise the result is 0 and the output is the token of the new state and a newline; only a FREEZING cgroup whose members have all converged changes, to FROZEN |
| FreezerProperties.CheckIfFrozenOrderIndependent | kernel/cgroup_freezer.c:193-203 | the convergence check gives the same state for any order of the same members |
| FreezerProperties.TryToFreezeOrderIndependent | kernel/cgroup_freezer.c:249-263 | whether a freeze attempt reports -EBUSY does not depend on member order |
| FreezerProperties.AllWillFreezeAppend | kernel/cgroup_freezer.c:193-211 | a member that joins is counted by the next check: the larger snapshot converges exactly when the old one did and the newcomer will freeze |
| FreezerProperties.ForkedChildHoldsFreezing | kernel/cgroup_freezer.c:175-179 | a child forked into a FREEZING cgroup is asked to freeze, and until it will freeze a read keeps reporting FREEZING |
| FreezerProperties.ChangeStateFollowsDiagram | kernel/cgroup_freezer.c:293-315 | every state change for a valid goal is an edge of the documented diagram, except RUNNING to FROZEN, which happens exactly when FROZEN is requested and every member in the check snapshot will freeze |
| FreezerProperties.EmptyRunningGroupFreezesWithoutAttempt | kernel/cgroup_freezer.c:295-297 | writing FROZEN to an empty RUNNING cgroup labels it FROZEN with 0 and calls nothing |
| FreezerProperties.RunningGroupThawedWhenAllFrozen | kernel/cgroup_freezer.c:295-311 | writing RUNNING to a RUNNING cgroup whose members all will freeze runs the full thaw over every member |
| FreezerProperties.RunningWriteIsNoOp | kernel/cgroup_freezer.c:295-297 | otherwise writing RUNNING to a RUNNING cgroup returns 0 and calls nothing |
| FreezerProperties.ThawAlwaysSucceeds | kernel/cgroup_freezer.c:302-312 | writing RUNNING to a FREEZING or FROZEN cgroup ends RUNNING with 0 and thaws every member exactly once |
| FreezerProperties.ThawedGroupAdmits | kernel/cgroup_freezer.c:161-164 | after a write of RUNNING, tasks may attach and a fork asks nothing of the child |
| FreezerProperties.BusyLeavesFreezing | kernel/cgroup_freezer.c:247-263 | a freeze write meeting a blocking member is exactly the freeze attempt, so it asks each member to freeze once, in order, and leaves the cgroup FREEZING with -EBUSY; and a read over an unconverged snapshot reports FREEZING |
| FreezerProperties.FreezingRetryReattempts | kernel/cgroup_freezer.c:302-307 | a FROZEN write to an unconverged FREEZING cgroup runs the freeze attempt again |
| FreezerProperties.RetryConverges | kernel/cgroup_freezer.c:295-297 | once the members have converged, a FROZEN write to a FREEZING cgroup succeeds without any call, reads FROZEN and refuses new tasks |
| FreezerProperties.BusyOnlyFromFreezeAttempt | kernel/cgroup_freezer.c:263 | a write returns -EBUSY only for FROZEN, and only with the cgroup FREEZING and a blocking member |
| FreezerProperties.ReadFrozenOnlyWhenConverged | kernel/cgroup_freezer.c:205-211 | a read reports FROZEN only when the cgroup was labelled FROZEN or all its members will freeze |
| FreezerProperties.ReadIdempotent | kernel/cgroup_freezer.c:226-232 | a second read over the same snapshot changes nothing and prints the same token |
| FreezerProperties.ReadThenWriteBack | kernel/cgroup_freezer.c:236-237 | the printed token without its newline names the state; writing it back requests that state, except that FREEZING is refused with -EIO |
| FreezerProperties.InvalidWriteChangesNothing | kernel/cgroup_freezer.c:329-334 | an unparsable write returns -EIO, keeps the state and calls nothing, live cgroup or not |

## Left out

- Locking (`spin_lock_irq`, `task_lock`, `cgroup_lock_live_group`/`cgroup_unlock`) and the lock order at kernel/cgroup_freezer.c:86-127 are concurrency. Each operation is atomic over the snapshots it is given. Whether the cgroup lock could be taken on a live cgroup is the input `live`.
- The per-task primitives `freeze_task`, `frozen`, `freezing`, `freezer_should_skip`, `task_is_stopped_or_traced`, `__thaw_process` and `wake_up_process` are defined elsewhere in the kernel and are not part of this model. Their answers are fields of `Tasks.Task`, and their calls are entries of the call log. Their effects on the task are not modelled.
- Scans.CountFrozen and Scans.CountCantFreezeNow use unbounded counters. The source's `unsigned int` counters would wrap only with 2^32 members. The kernel's process-id limit keeps a cgroup far below that.
- Freezer.ForkFreezesChild models `BUG_ON(state == FROZEN)` as a precondition. The kernel oops it raises is not modelled.
- `freezer_destroy` and `freezer_create`'s allocation failure (`-ENOMEM`) are memory management, so they are left out.
- `cgroup_freezer` and `task_freezer` (`container_of` lookups), `cgroup_iter_*`, the `seq_file` output calls, `freezer_populate`/`cgroup_add_files` and the `freezer_subsys` table are plumbing. The model passes the state and the member snapshots directly and returns the printed text as a string.
- Stripping the trailing newline from a written buffer is done by the cgroup core before `freezer_write` runs. The model receives the already-stripped buffer, and compares it up to its first NUL.
- The error numbers EIO = 5, EBUSY = 16 and ENODEV = 19 are the standard Linux values. The header that defines them is not part of this model.
- drivers/misc/pixel_qi_screen_ctrl.c is a GPIO sysfs driver unrelated to the freezer. It is not part of this model.
