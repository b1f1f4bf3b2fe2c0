/**
  The three scans over a cgroup's members: the convergence check
  (check_if_frozen), the freeze attempt (try_to_freeze_cgroup) and the thaw
  (unfreeze_cgroup). Each is a fold over a snapshot of the members, in the
  order the cgroup iterator yields them.
 */
module Scans {
  import opened FreezerStates
  import opened Tasks
  import Errno

  /** What a state-changing operation leaves behind: the new state, the
      value returned to the caller, and the per-task primitive calls made. */
  datatype Outcome = Outcome(state: FreezerState, retval: int, calls: seq<Call>)

  /** Every member is frozen or will freeze when next woken. */
  predicate AllWillFreeze(tasks: seq<Task>) {
    forall i :: 0 <= i < |tasks| ==> WillFreeze(tasks[i])
  }

  /** Some member blocks the freeze attempt. */
  predicate SomeCantFreezeNow(tasks: seq<Task>) {
    exists i :: 0 <= i < |tasks| && Probe(tasks[i]) == CantFreezeNow
  }

  /** The `nfrozen` counter of check_if_frozen after visiting `tasks`. */
  function CountFrozen(tasks: seq<Task>): (nfrozen: nat)
    ensures nfrozen <= |tasks|
    ensures nfrozen == |tasks| <==> AllWillFreeze(tasks)
  {
    if |tasks| == 0 then 0
    else
      var prefix := tasks[..|tasks| - 1];
      assert forall i :: 0 <= i < |prefix| ==> prefix[i] == tasks[i];
      CountFrozen(prefix) + (if WillFreeze(tasks[|tasks| - 1]) then 1 else 0)
  }

  /** check_if_frozen: the state becomes FROZEN when the frozen count equals
      the member count, and is left alone otherwise. The current state is not
      consulted, so a RUNNING cgroup can be relabelled too. */
  function CheckIfFrozen(state: FreezerState, tasks: seq<Task>): (r: FreezerState)
    ensures AllWillFreeze(tasks) ==> r == Frozen
    ensures !AllWillFreeze(tasks) ==> r == state
    ensures |tasks| == 0 ==> r == Frozen
  {
    if CountFrozen(tasks) == |tasks| then Frozen else state
  }

  /** The `num_cant_freeze_now` counter of try_to_freeze_cgroup after visiting `tasks`. */
  function CountCantFreezeNow(tasks: seq<Task>): (n: nat)
    ensures n <= |tasks|
    ensures n == 0 <==> !SomeCantFreezeNow(tasks)
  {
    if |tasks| == 0 then 0
    else
      var prefix := tasks[..|tasks| - 1];
      assert forall i :: 0 <= i < |prefix| ==> prefix[i] == tasks[i];
      CountCantFreezeNow(prefix) + (if Probe(tasks[|tasks| - 1]) == CantFreezeNow then 1 else 0)
  }

  /** try_to_freeze_cgroup: marks the cgroup FREEZING, asks every member to
      freeze, and reports -EBUSY when some member cannot freeze now. */
  function TryToFreeze(tasks: seq<Task>): (o: Outcome)
    ensures o.state == Freezing
    ensures o.retval == -Errno.EBUSY <==> SomeCantFreezeNow(tasks)
    ensures o.retval == 0 <==> !SomeCantFreezeNow(tasks)
    ensures |o.calls| == |tasks|
    ensures forall i :: 0 <= i < |tasks| ==> o.calls[i] == FreezeTask(i)
  {
    var calls := seq(|tasks|, (i: int) requires 0 <= i => FreezeTask(i));
    Outcome(Freezing, if CountCantFreezeNow(tasks) != 0 then -Errno.EBUSY else 0, calls)
  }

  /** The calls unfreeze_cgroup makes for the member at position `i`. */
  function ThawStep(i: nat, t: Task): seq<Call> {
    [ThawProcess(i)] + (if t.thawWakes then [WakeUpProcess(i)] else [])
  }

  /** Every wake-up in the log comes right after the thaw of the same member. */
  predicate WakesFollowThaws(calls: seq<Call>) {
    forall j :: 0 <= j < |calls| && calls[j].WakeUpProcess? ==>
      0 < j && calls[j - 1] == ThawProcess(calls[j].task)
  }

  /** The thaws in the log visit the members in increasing position. */
  predicate ThawsInOrder(calls: seq<Call>) {
    forall j, k :: 0 <= j < k < |calls| && calls[j].ThawProcess? && calls[k].ThawProcess? ==>
      calls[j].task < calls[k].task
  }

  /** Appending the calls for member `n` to a log about earlier members keeps
      wake-ups after their thaws and thaws in order. */
  lemma ThawStepKeepsOrder(earlier: seq<Call>, n: nat, t: Task)
    requires forall c :: c in earlier ==> c.task < n
    requires WakesFollowThaws(earlier) && ThawsInOrder(earlier)
    ensures WakesFollowThaws(earlier + ThawStep(n, t))
    ensures ThawsInOrder(earlier + ThawStep(n, t))
  {
    var calls := earlier + ThawStep(n, t);
    assert forall j :: 0 <= j < |earlier| ==> calls[j] == earlier[j];
    assert calls[|earlier|] == ThawProcess(n);
    forall j, k | 0 <= j < k < |calls| && calls[j].ThawProcess? && calls[k].ThawProcess?
      ensures calls[j].task < calls[k].task
    {
      if k >= |earlier| {
        assert calls[j] in earlier;
      }
    }
  }

  /** How many times each call occurs in the calls for member `n`. */
  lemma ThawStepCounts(n: nat, t: Task)
    ensures forall c :: c in ThawStep(n, t) ==> (c.ThawProcess? || c.WakeUpProcess?) && c.task == n
    ensures multiset(ThawStep(n, t))[ThawProcess(n)] == 1
    ensures multiset(ThawStep(n, t))[WakeUpProcess(n)] == (if t.thawWakes then 1 else 0)
    ensures forall i :: i != n ==>
      multiset(ThawStep(n, t))[ThawProcess(i)] == 0 && multiset(ThawStep(n, t))[WakeUpProcess(i)] == 0
  {
  }

  /** Appending the calls for the last member to the log of the members
      before it gives a log in which every member is counted correctly. */
  lemma ThawCountsExtend(tasks: seq<Task>, earlier: seq<Call>)
    requires |tasks| > 0
    requires forall c :: c in earlier ==> (c.ThawProcess? || c.WakeUpProcess?) && c.task < |tasks| - 1
    requires forall i :: 0 <= i < |tasks| - 1 ==> multiset(earlier)[ThawProcess(i)] == 1
    requires forall i :: 0 <= i < |tasks| - 1 ==>
      multiset(earlier)[WakeUpProcess(i)] == (if tasks[i].thawWakes then 1 else 0)
    ensures var calls := earlier + ThawStep(|tasks| - 1, tasks[|tasks| - 1]);
      forall c :: c in calls ==> (c.ThawProcess? || c.WakeUpProcess?) && c.task < |tasks|
    ensures var calls := earlier + ThawStep(|tasks| - 1, tasks[|tasks| - 1]);
      forall i :: 0 <= i < |tasks| ==> multiset(calls)[ThawProcess(i)] == 1
    ensures var calls := earlier + ThawStep(|tasks| - 1, tasks[|tasks| - 1]);
      forall i :: 0 <= i < |tasks| ==>
        multiset(calls)[WakeUpProcess(i)] == (if tasks[i].thawWakes then 1 else 0)
  {
    var n := |tasks| - 1;
    var step := ThawStep(n, tasks[n]);
    ThawStepCounts(n, tasks[n]);
    assert ThawProcess(n) !in earlier && WakeUpProcess(n) !in earlier;
    assert multiset(earlier + step) == multiset(earlier) + multiset(step);
  }

  /** The calls unfreeze_cgroup makes while visiting `tasks`: each member is
      thawed exactly once, whatever the outcome for the others, and woken at
      most once, exactly when its thaw reports that it must be and right
      after that thaw; members are thawed in the order they are visited. */
  function ThawCalls(tasks: seq<Task>): (calls: seq<Call>)
    ensures forall c :: c in calls ==> (c.ThawProcess? || c.WakeUpProcess?) && c.task < |tasks|
    ensures forall i :: 0 <= i < |tasks| ==> multiset(calls)[ThawProcess(i)] == 1
    ensures forall i :: 0 <= i < |tasks| ==>
      multiset(calls)[WakeUpProcess(i)] == (if tasks[i].thawWakes then 1 else 0)
    ensures WakesFollowThaws(calls)
    ensures ThawsInOrder(calls)
  {
    if |tasks| == 0 then []
    else
      var n := |tasks| - 1;
      var prefix := tasks[..n];
      assert forall i :: 0 <= i < |prefix| ==> prefix[i] == tasks[i];
      var earlier := ThawCalls(prefix);
      ThawCountsExtend(tasks, earlier);
      ThawStepKeepsOrder(earlier, n, tasks[n]);
      earlier + ThawStep(n, tasks[n])
  }

  /** unfreeze_cgroup: thaws every member and always ends RUNNING with 0. */
  function Unfreeze(tasks: seq<Task>): (o: Outcome)
    ensures o.state == Running && o.retval == 0
    ensures forall c :: c in o.calls ==> (c.ThawProcess? || c.WakeUpProcess?) && c.task < |tasks|
    ensures forall i :: 0 <= i < |tasks| ==> multiset(o.calls)[ThawProcess(i)] == 1
    ensures forall i :: 0 <= i < |tasks| ==>
      multiset(o.calls)[WakeUpProcess(i)] == (if tasks[i].thawWakes then 1 else 0)
    ensures WakesFollowThaws(o.calls)
    ensures ThawsInOrder(o.calls)
  {
    Outcome(Running, 0, ThawCalls(tasks))
  }
}
