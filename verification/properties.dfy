/**
  Properties of the freezer that relate several operations or several
  snapshots: order independence of the scans, the transitions the
  dispatcher can make compared with the documented state diagram, the
  retry protocol after -EBUSY, and the agreement between what a read
  reports and what a write accepts.
 */
module FreezerProperties {
  import opened FreezerStates
  import opened Tasks
  import opened Scans
  import opened Freezer
  import Errno

  /** The edges of the documented state diagram, plus staying put. */
  predicate DiagramEdge(from: FreezerState, to: FreezerState) {
    || from == to
    || (from == Running && to == Freezing)
    || (from == Freezing && to == Frozen)
    || (from == Freezing && to == Running)
    || (from == Frozen && to == Running)
  }

  // ---------------------------------------------------------------------------
  // Order independence of the scans

  /** A task that occurs in one snapshot occurs in any reordering of it. */
  lemma InPermutation(a: seq<Task>, b: seq<Task>, i: int)
    requires multiset(a) == multiset(b)
    requires 0 <= i < |a|
    ensures exists j :: 0 <= j < |b| && b[j] == a[i]
  {
    assert a[i] in multiset(a);
    assert a[i] in multiset(b);
    assert a[i] in b;
  }

  /** The convergence check does not depend on the order the iterator yields the members in. */
  lemma CheckIfFrozenOrderIndependent(s: FreezerState, a: seq<Task>, b: seq<Task>)
    requires multiset(a) == multiset(b)
    ensures CheckIfFrozen(s, a) == CheckIfFrozen(s, b)
  {
    if AllWillFreeze(a) && !AllWillFreeze(b) {
      var j :| 0 <= j < |b| && !WillFreeze(b[j]);
      InPermutation(b, a, j);
    } else if AllWillFreeze(b) && !AllWillFreeze(a) {
      var i :| 0 <= i < |a| && !WillFreeze(a[i]);
      InPermutation(a, b, i);
    }
  }

  /** Whether a freeze attempt reports -EBUSY does not depend on member order. */
  lemma TryToFreezeOrderIndependent(a: seq<Task>, b: seq<Task>)
    requires multiset(a) == multiset(b)
    ensures TryToFreeze(a).retval == TryToFreeze(b).retval
  {
    if SomeCantFreezeNow(a) {
      var i :| 0 <= i < |a| && Probe(a[i]) == CantFreezeNow;
      InPermutation(a, b, i);
    }
    if SomeCantFreezeNow(b) {
      var j :| 0 <= j < |b| && Probe(b[j]) == CantFreezeNow;
      InPermutation(b, a, j);
    }
  }

  // ---------------------------------------------------------------------------
  // Membership changes seen by the convergence check

  /** A member that joins a cgroup is part of the next convergence check: the
      extended snapshot converges exactly when the old one did and the
      newcomer will freeze too. */
  lemma {:induction false} AllWillFreezeAppend(tasks: seq<Task>, child: Task)
    ensures AllWillFreeze(tasks + [child]) <==> AllWillFreeze(tasks) && WillFreeze(child)
  {
    var ext := tasks + [child];
    assert ext[|tasks|] == child;
    assert forall i :: 0 <= i < |tasks| ==> ext[i] == tasks[i];
  }

  /** A task forked into a FREEZING cgroup gets a freeze request, and until
      it will freeze a read keeps reporting FREEZING. */
  lemma ForkedChildHoldsFreezing(scan: seq<Task>, child: Task)
    requires !WillFreeze(child)
    ensures ForkFreezesChild(Freezing)
    ensures Read(Freezing, true, scan + [child]) == ReadResult(Freezing, 0, "FREEZING\n")
  {
    AllWillFreezeAppend(scan, child);
  }

  // ---------------------------------------------------------------------------
  // The dispatcher against the state diagram

  /** Every write of a goal follows the state diagram, except one edge the
      diagram does not have: a RUNNING cgroup whose members all will freeze
      (an empty one included) is relabelled FROZEN by the unconditional
      convergence check, without a freeze attempt. */
  lemma ChangeStateFollowsDiagram(s: FreezerState, goal: FreezerState, checkScan: seq<Task>, actionScan: seq<Task>)
    requires goal == Running || goal == Frozen
    ensures var o := ChangeState(s, goal, checkScan, actionScan);
      DiagramEdge(s, o.state) || (s == Running && o.state == Frozen)
    ensures var o := ChangeState(s, goal, checkScan, actionScan);
      s == Running && o.state == Frozen <==>
        s == Running && goal == Frozen && AllWillFreeze(checkScan)
  {
  }

  /** The edge outside the diagram, on the smallest input: writing FROZEN to
      an empty RUNNING cgroup labels it FROZEN at once and calls nothing. */
  lemma EmptyRunningGroupFreezesWithoutAttempt(actionScan: seq<Task>)
    ensures Write(Running, true, "FROZEN", [], actionScan) == Outcome(Frozen, 0, [])
  {
  }

  /** Writing RUNNING to a RUNNING cgroup whose members all will freeze is not
      a no-op: the relabelling to FROZEN sends it through the thaw, which
      visits every member of the action scan. */
  lemma RunningGroupThawedWhenAllFrozen(checkScan: seq<Task>, actionScan: seq<Task>)
    requires AllWillFreeze(checkScan)
    ensures var o := Write(Running, true, "RUNNING", checkScan, actionScan);
      o == Unfreeze(actionScan) &&
      forall i :: 0 <= i < |actionScan| ==> ThawProcess(i) in o.calls
  {
    var o := Unfreeze(actionScan);
    forall i | 0 <= i < |actionScan|
      ensures ThawProcess(i) in o.calls
    {
      assert multiset(o.calls)[ThawProcess(i)] == 1;
    }
  }

  /** Otherwise writing RUNNING to a RUNNING cgroup does nothing at all. */
  lemma RunningWriteIsNoOp(checkScan: seq<Task>, actionScan: seq<Task>)
    requires !AllWillFreeze(checkScan)
    ensures Write(Running, true, "RUNNING", checkScan, actionScan) == Outcome(Running, 0, [])
  {
  }

  /** Requesting RUNNING ends RUNNING from every state, and every member of
      the action scan is thawed whenever the cgroup was not already RUNNING. */
  lemma ThawAlwaysSucceeds(s: FreezerState, checkScan: seq<Task>, actionScan: seq<Task>)
    requires s != Running
    ensures var o := Write(s, true, "RUNNING", checkScan, actionScan);
      o.state == Running && o.retval == 0 &&
      forall i :: 0 <= i < |actionScan| ==> multiset(o.calls)[ThawProcess(i)] == 1
  {
  }

  /** After a successful thaw the cgroup admits new tasks and forks are allowed. */
  lemma ThawedGroupAdmits(s: FreezerState, checkScan: seq<Task>, actionScan: seq<Task>)
    ensures var o := Write(s, true, "RUNNING", checkScan, actionScan);
      CanAttach(o.state) == 0 && !ForkFreezesChild(o.state)
  {
  }

  // ---------------------------------------------------------------------------
  // The -EBUSY retry protocol

  /** A freeze attempt that meets a member that cannot freeze now leaves the
      cgroup FREEZING with -EBUSY, after asking every member to freeze; a
      read over a snapshot that has not converged still reports FREEZING. */
  lemma BusyLeavesFreezing(s: FreezerState, checkScan: seq<Task>, actionScan: seq<Task>)
    requires s == Running || s == Freezing
    requires !AllWillFreeze(checkScan)
    requires SomeCantFreezeNow(actionScan)
    ensures var o := Write(s, true, "FROZEN", checkScan, actionScan);
      o == TryToFreeze(actionScan) && o.state == Freezing && o.retval == -Errno.EBUSY &&
      Read(o.state, true, checkScan).output == "FREEZING\n"
  {
  }

  /** A retry on a FREEZING cgroup whose members have not converged runs the
      freeze attempt again. */
  lemma FreezingRetryReattempts(checkScan: seq<Task>, actionScan: seq<Task>)
    requires !AllWillFreeze(checkScan)
    ensures Write(Freezing, true, "FROZEN", checkScan, actionScan) == TryToFreeze(actionScan)
  {
  }

  /** Once the members have converged, the retry succeeds without calling
      anything, the cgroup reads FROZEN and refuses new tasks. */
  lemma RetryConverges(checkScan: seq<Task>, actionScan: seq<Task>)
    requires AllWillFreeze(checkScan)
    ensures var o := Write(Freezing, true, "FROZEN", checkScan, actionScan);
      o == Outcome(Frozen, 0, []) &&
      Read(o.state, true, checkScan).output == "FROZEN\n" &&
      CanAttach(o.state) == -Errno.EBUSY
  {
  }

  /** -EBUSY is reported only when the freeze attempt met a member that cannot
      freeze now, and never changes a cgroup to anything but FREEZING. */
  lemma BusyOnlyFromFreezeAttempt(s: FreezerState, buf: string, live: bool, checkScan: seq<Task>, actionScan: seq<Task>)
    ensures var o := Write(s, live, buf, checkScan, actionScan);
      o.retval == -Errno.EBUSY ==> CString(buf) == "FROZEN" && o.state == Freezing && SomeCantFreezeNow(actionScan)
  {
  }

  // ---------------------------------------------------------------------------
  // Reads and writes of the control file

  /** A read reports FROZEN only for a cgroup that was already labelled
      FROZEN or whose snapshot has converged. */
  lemma ReadFrozenOnlyWhenConverged(s: FreezerState, scan: seq<Task>)
    ensures Read(s, true, scan).output == "FROZEN\n" ==> s == Frozen || AllWillFreeze(scan)
  {
    var r := Read(s, true, scan);
    if r.output == "FROZEN\n" {
      assert r.output[..|r.output| - 1] == StateStr(r.state);
    }
  }

  /** A second read over the same snapshot changes nothing and reports the same token. */
  lemma ReadIdempotent(s: FreezerState, scan: seq<Task>)
    ensures var r := Read(s, true, scan);
      Read(r.state, true, scan) == r
  {
  }

  /** The token a read prints, without its newline, names the state; writing
      it back requests that state, except FREEZING, which is refused. */
  lemma ReadThenWriteBack(s: FreezerState, live: bool, scan: seq<Task>, checkScan: seq<Task>, actionScan: seq<Task>)
    ensures var r := Read(s, true, scan);
      var tok := r.output[..|r.output| - 1];
      tok == StateStr(r.state) &&
      (r.state == Freezing ==> Write(r.state, live, tok, checkScan, actionScan) == Outcome(Freezing, -Errno.EIO, [])) &&
      (r.state != Freezing && live ==> Write(r.state, live, tok, checkScan, actionScan) == ChangeState(r.state, r.state, checkScan, actionScan))
  {
    var r := Read(s, true, scan);
    var tok := r.output[..|r.output| - 1];
    assert tok == StateStr(r.state);
    ParseGoalRoundTrip(r.state);
  }

  /** A write of any token other than RUNNING or FROZEN changes nothing,
      whether or not the cgroup is live. */
  lemma InvalidWriteChangesNothing(s: FreezerState, live: bool, buf: string, checkScan: seq<Task>, actionScan: seq<Task>)
    requires ParseGoal(buf).None?
    ensures Write(s, live, buf, checkScan, actionScan) == Outcome(s, -Errno.EIO, [])
  {
  }
}
