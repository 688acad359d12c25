/** What goes wrong without the discipline, and when the flag can be believed all the same. */
module BarrierRaces {
  import opened Barrier
  import opened BarrierRun

  // ----- runs without the discipline -----

  ghost predicate PlainManager(s: State, t: State) {
    ClearFlags(s, t) || (Broadcast(s, t) && s.manager == Cleared) || Return(s, t)
  }

  /** A step of a run without spurious wakeups and without the pool being killed. */
  ghost predicate Plain(sets: Sets, s: State, t: State) {
    PlainManager(s, t) || exists i: nat :: WorkerStep(sets, s, t, i)
  }

  ghost predicate PlainAt(sets: Sets, run: seq<State>, i: nat) {
    i + 1 < |run| && Plain(sets, run[i], run[i + 1])
  }

  ghost predicate IsPlainRun(sets: Sets, run: seq<State>) {
    run != [] && forall i: nat :: i < |run| - 1 ==> PlainAt(sets, run, i)
  }

  /** A run without its last state, and the step that leads there. */
  lemma PlainPrefix(sets: Sets, run: seq<State>, k: nat)
    requires IsPlainRun(sets, run) && 0 < k < |run|
    ensures IsPlainRun(sets, run[..k]) && run[..k][0] == run[0] && run[..k][k - 1] == run[k - 1]
    ensures Plain(sets, run[k - 1], run[k])
  {
    forall i: nat | i < k - 1
      ensures PlainAt(sets, run[..k], i)
    {
      assert PlainAt(sets, run, i);
    }
    assert PlainAt(sets, run, k - 1);
  }

  /** The manager wakes the pool with step `n` of the run. */
  ghost predicate WakesAt(run: seq<State>, n: nat) {
    n < |run| - 1 && run[n].manager == Cleared && Broadcast(run[n], run[n + 1])
  }

  /** The workers that a broadcast in this state misses. */
  ghost function MissedIn(s: State): set<int> {
    set i | 0 <= i < |s.phases| && s.phases[i] != Parked
  }

  ghost predicate Counting(sets: Sets, s: State) {
    |s.phases| == |sets| == |s.scanned| && CountersRight(s)
  }

  /** Until the pool is woken nobody is awake. The flag may be up again before the broadcast, raised by
      a worker that started late. */
  ghost predicate OpeningInv(sets: Sets, s: State) {
    && Counting(sets, s)
    && (s.manager == AwaitReady || s.manager == Cleared ==>
          forall i :: 0 <= i < |sets| ==> Asleep(s.phases[i]) && s.scanned[i] == [])
    && (s.manager == Cleared ==> !s.exit && !s.error)
  }

  lemma CountingStep(sets: Sets, s: State, t: State)
    requires Counting(sets, s) && Plain(sets, s, t)
    ensures Counting(sets, t)
  {
    if PlainManager(s, t) {
      CountsWake(s.phases);
    } else {
      var i: nat :| WorkerStep(sets, s, t, i);
      StepMoves(sets, s, t, i);
      CountersMoved(s, t, i);
      WorkerFrame(sets, s, t, i);
    }
  }

  lemma OpeningStep(sets: Sets, s: State, t: State)
    requires OpeningInv(sets, s) && Plain(sets, s, t)
    ensures OpeningInv(sets, t)
  {
    CountingStep(sets, s, t);
    if !PlainManager(s, t) {
      var i: nat :| WorkerStep(sets, s, t, i);
      WorkerFrame(sets, s, t, i);
      if s.manager == AwaitReady || s.manager == Cleared {
        SleeperMoves(sets, s, t, i);
      }
    }
  }

  lemma {:induction false} OpeningInvariant(sets: Sets, run: seq<State>)
    requires IsPlainRun(sets, run) && Opening(sets, run[0])
    ensures OpeningInv(sets, run[|run| - 1])
  {
    var n := |run| - 1;
    if n > 0 {
      PlainPrefix(sets, run, n);
      OpeningInvariant(sets, run[..n]);
      OpeningStep(sets, run[n - 1], run[n]);
    }
  }

  ghost predicate PlainInv(sets: Sets, missed: set<int>, s: State) {
    Counting(sets, s) && Underway(sets, missed, s)
  }

  /** The broadcast wakes those that wait and nobody else. */
  lemma WakeStarts(sets: Sets, s: State, t: State)
    requires OpeningInv(sets, s) && s.manager == Cleared && Broadcast(s, t)
    ensures PlainInv(sets, MissedIn(s), t)
  {
    CountsWake(s.phases);
  }

  lemma MissedSleeps(sets: Sets, missed: set<int>, s: State, t: State, i: nat)
    requires PlainInv(sets, missed, s) && WorkerStep(sets, s, t, i) && i in missed && Counting(sets, t)
    ensures Underway(sets, missed, t)
  {
    WorkerFrame(sets, s, t, i);
    assert Asleep(s.phases[i]);
    SleeperMoves(sets, s, t, i);
  }

  lemma WokenProgresses(sets: Sets, missed: set<int>, s: State, t: State, i: nat)
    requires PlainInv(sets, missed, s) && WorkerStep(sets, s, t, i) && i !in missed && Counting(sets, t)
    ensures Underway(sets, missed, t)
  {
    WorkerFrame(sets, s, t, i);
    assert ProgressAt(sets[i], s.phases[i], s.scanned[i]);
    WorkerProgress(sets, s, t, i);
    WorkerErrors(sets, s, t, i);
  }

  lemma WorkerKeepsPlain(sets: Sets, missed: set<int>, s: State, t: State, i: nat)
    requires PlainInv(sets, missed, s) && WorkerStep(sets, s, t, i)
    ensures PlainInv(sets, missed, t)
  {
    CountingStep(sets, s, t);
    if i in missed {
      MissedSleeps(sets, missed, s, t, i);
    } else {
      WokenProgresses(sets, missed, s, t, i);
    }
  }

  lemma PlainStep(sets: Sets, missed: set<int>, s: State, t: State)
    requires PlainInv(sets, missed, s) && Plain(sets, s, t)
    ensures PlainInv(sets, missed, t)
  {
    if !PlainManager(s, t) {
      var i: nat :| WorkerStep(sets, s, t, i);
      WorkerKeepsPlain(sets, missed, s, t, i);
    }
  }

  /** Once the pool has been woken, disciplined or not, what each worker has scanned is told by where
      it is; a worker that the broadcast missed has scanned nothing and never will in this run. */
  lemma {:induction false} PlainInvariant(sets: Sets, run: seq<State>, n: nat)
    requires IsPlainRun(sets, run) && Opening(sets, run[0]) && WakesAt(run, n)
    ensures PlainInv(sets, MissedIn(run[n]), run[|run| - 1])
    decreases |run|
  {
    var last := |run| - 1;
    PlainPrefix(sets, run, last);
    if n + 1 == last {
      OpeningInvariant(sets, run[..last]);
      WakeStarts(sets, run[n], run[last]);
    } else {
      PlainInvariant(sets, run[..last], n);
      PlainStep(sets, MissedIn(run[n]), run[last - 1], run[last]);
    }
  }

  // ----- what a failure does -----

  /** Once a worker has failed, no worker begins to scan another area. */
  lemma FailureStopsAll(sets: Sets, missed: set<int>, s: State, t: State, i: nat)
    requires PlainInv(sets, missed, s) && WorkerStep(sets, s, t, i) && s.error
    ensures i < |t.phases| && !t.phases[i].Busy?
  {
    WorkerFrame(sets, s, t, i);
  }

  /** A worker leaves in the middle of an area. */
  predicate FailsIn(s: State, t: State) {
    |s.phases| == |t.phases| && exists i :: 0 <= i < |s.phases| && s.phases[i].Busy? && t.phases[i] == Exited
  }

  ghost predicate FailsAt(run: seq<State>, k: nat) {
    k + 1 < |run| && FailsIn(run[k], run[k + 1])
  }

  lemma WorkerFails(sets: Sets, missed: set<int>, s: State, t: State, i: nat)
    requires PlainInv(sets, missed, s) && WorkerStep(sets, s, t, i)
    ensures t.manager == s.manager && (t.error <==> s.error || FailsIn(s, t))
  {
    WorkerFrame(sets, s, t, i);
    if t.error && !s.error {
      assert FailArea(s, t, i);
      assert s.phases[i].Busy? && t.phases[i] == Exited;
    }
  }

  lemma WaitingFails(sets: Sets, missed: set<int>, s: State, t: State)
    requires PlainInv(sets, missed, s) && Plain(sets, s, t) && t.manager == AwaitDone
    ensures s.manager == AwaitDone && (t.error <==> s.error || FailsIn(s, t))
  {
    var i: nat :| WorkerStep(sets, s, t, i);
    WorkerFails(sets, missed, s, t, i);
  }

  lemma WakeFails(sets: Sets, s: State, t: State)
    requires OpeningInv(sets, s) && s.manager == Cleared && Broadcast(s, t)
    ensures !t.error && !FailsIn(s, t)
  {
  }

  ghost predicate FailedSince(run: seq<State>, n: nat) {
    exists k: nat :: n <= k && FailsAt(run, k)
  }

  lemma {:induction false} ErrorMeansFailure(sets: Sets, run: seq<State>, n: nat)
    requires IsPlainRun(sets, run) && Opening(sets, run[0]) && WakesAt(run, n)
    requires run[|run| - 1].manager == AwaitDone
    ensures run[|run| - 1].error <==> FailedSince(run, n)
    decreases |run|
  {
    var last := |run| - 1;
    var s, t := run[last - 1], run[last];
    PlainPrefix(sets, run, last);
    if n + 1 == last {
      OpeningInvariant(sets, run[..last]);
      WakeFails(sets, s, t);
      FailedFirst(run, n);
    } else {
      PlainInvariant(sets, run[..last], n);
      WaitingFails(sets, MissedIn(run[n]), s, t);
      ErrorMeansFailure(sets, run[..last], n);
      FailedMore(run, n, last);
    }
  }

  lemma FailedFirst(run: seq<State>, n: nat)
    requires |run| == n + 2
    ensures FailedSince(run, n) <==> FailsIn(run[n], run[n + 1])
  {
    assert FailsAt(run, n) <==> FailsIn(run[n], run[n + 1]);
  }

  lemma {:induction false} FailedMore(run: seq<State>, n: nat, last: nat)
    requires n < last - 1 && |run| == last + 1
    ensures FailedSince(run, n) <==> FailedSince(run[..last], n) || FailsIn(run[last - 1], run[last])
  {
    forall k: nat | k + 1 < last
      ensures FailsAt(run, k) <==> FailsAt(run[..last], k)
    {
    }
    assert FailsAt(run, last - 1) <==> FailsIn(run[last - 1], run[last]);
    if k: nat :| n <= k && FailsAt(run, k) {
      assert k + 1 < last ==> FailsAt(run[..last], k);
    }
    if k: nat :| n <= k && FailsAt(run[..last], k) {
      assert FailsAt(run, k);
    }
  }

  /** What a single run returns: -1 exactly if, since the broadcast, some worker has left in the middle of an
      area, and else 0. */
  lemma ReturnTellsFailure(sets: Sets, run: seq<State>, n: nat, t: State)
    requires IsPlainRun(sets, run) && Opening(sets, run[0]) && WakesAt(run, n)
    requires run[|run| - 1].manager == AwaitDone && Plain(sets, run[|run| - 1], t) && t.manager != AwaitDone
    ensures t.manager == Returned(if FailedSince(run, n) then -1 else 0)
  {
    var s := run[|run| - 1];
    PlainInvariant(sets, run, n);
    ErrorMeansFailure(sets, run, n);
    if i: nat :| WorkerStep(sets, s, t, i) {
      WorkerFrame(sets, s, t, i);
    }
  }

  // ----- when the flag tells the truth -----

  /** The worker was missed by the broadcast, or has been woken and is still counted. */
  ghost predicate LeftBehind(missed: set<int>, t: State, j: nat) {
    j in missed || (j < |t.phases| && t.phases[j] == Woken)
  }

  /** The manager could return 0 now, and could not before. */
  ghost predicate FirstUp(s: State, t: State) {
    && t.manager == AwaitDone && t.releaseReady && !t.error
    && !(s.manager == AwaitDone && s.releaseReady)
  }

  /** What every worker has scanned when the flag goes up. */
  ghost predicate AllOrNothing(sets: Sets, missed: set<int>, t: State) {
    && |t.scanned| == |sets|
    && forall j: nat :: j < |sets| ==> t.scanned[j] == if LeftBehind(missed, t, j) then [] else sets[j]
  }

  /** The worker that raises the flag without an error is one that begins to wait, and at that moment
      every worker has scanned its whole set or nothing. */
  lemma RaisedBy(sets: Sets, missed: set<int>, s: State, t: State, i: nat)
    requires PlainInv(sets, missed, s) && WorkerStep(sets, s, t, i)
    requires !s.releaseReady && t.releaseReady && !t.error
    ensures AllOrNothing(sets, missed, t)
  {
    WorkerKeepsPlain(sets, missed, s, t, i);
    WorkerRests(sets, missed, s, t, i);
    CountedAreAlive(t.phases);
    forall j: nat | j < |sets|
      ensures t.scanned[j] == if LeftBehind(missed, t, j) then [] else sets[j]
    {
      if j !in missed {
        assert ProgressAt(sets[j], t.phases[j], t.scanned[j]);
      }
    }
  }

  lemma WorkerRests(sets: Sets, missed: set<int>, s: State, t: State, i: nat)
    requires PlainInv(sets, missed, s) && WorkerStep(sets, s, t, i)
    requires !s.releaseReady && t.releaseReady && !t.error
    ensures t.releaseCount == t.aliveCount
  {
    if i in missed {
      assert Asleep(s.phases[i]);
    } else {
      assert ProgressAt(sets[i], s.phases[i], s.scanned[i]);
      WorkerErrors(sets, s, t, i);
    }
  }

  /** When the flag was up already as the pool was woken, nobody has scanned anything. */
  lemma RaisedEarly(sets: Sets, s: State, t: State)
    requires OpeningInv(sets, s) && s.manager == Cleared && Broadcast(s, t)
    ensures AllOrNothing(sets, MissedIn(s), t)
  {
    forall j: nat | j < |sets|
      ensures LeftBehind(MissedIn(s), t, j)
    {
      assert s.phases[j] == Parked ==> t.phases[j] == Woken;
    }
  }

  /** When the flag tells the truth. In any run of any pool without spurious wakeups, whoever has
      started by then, consider the first moment at which the manager may return 0. Every area of every
      set has been scanned if and only if no worker that has areas was missed by the broadcast, since it
      did not wait yet, or is still woken but not uncounted. */
  lemma RaisedTruthfully(sets: Sets, run: seq<State>, n: nat)
    requires IsPlainRun(sets, run) && Opening(sets, run[0]) && WakesAt(run, n)
    requires FirstUp(run[|run| - 2], run[|run| - 1])
    ensures var t := run[|run| - 1];
      t.scanned == sets <==>
        forall j: nat :: j < |sets| && LeftBehind(MissedIn(run[n]), t, j) ==> sets[j] == []
  {
    var last := |run| - 1;
    var s, t, missed := run[last - 1], run[last], MissedIn(run[n]);
    PlainPrefix(sets, run, last);
    if n + 1 == last {
      OpeningInvariant(sets, run[..last]);
      RaisedEarly(sets, s, t);
    } else {
      PlainInvariant(sets, run[..last], n);
      var i: nat :| WorkerStep(sets, s, t, i);
      WorkerFrame(sets, s, t, i);
      RaisedBy(sets, missed, s, t, i);
    }
    AllButLeftBehind(sets, missed, t);
  }

  lemma AllButLeftBehind(sets: Sets, missed: set<int>, t: State)
    requires AllOrNothing(sets, missed, t)
    ensures t.scanned == sets <==> forall j: nat :: j < |sets| && LeftBehind(missed, t, j) ==> sets[j] == []
  {
    if forall j: nat :: j < |sets| && LeftBehind(missed, t, j) ==> sets[j] == [] {
      assert t.scanned == sets;
    } else {
      var j: nat :| j < |sets| && LeftBehind(missed, t, j) && sets[j] != [];
      assert t.scanned[j] != sets[j];
    }
  }

  ghost predicate AllParked(s: State) {
    forall i :: 0 <= i < |s.phases| ==> s.phases[i] == Parked
  }

  /** In particular, when all workers were parked as the manager woke them, the flag tells the truth
      exactly if no worker that has areas is still woken but not uncounted. */
  lemma RaisedAfterParking(sets: Sets, run: seq<State>, n: nat)
    requires IsPlainRun(sets, run) && Opening(sets, run[0]) && WakesAt(run, n)
    requires AllParked(run[n]) && FirstUp(run[|run| - 2], run[|run| - 1])
    ensures var t := run[|run| - 1];
      && |t.phases| == |sets|
      && (t.scanned == sets <==> forall j: nat :: j < |sets| && t.phases[j] == Woken ==> sets[j] == [])
  {
    RaisedTruthfully(sets, run, n);
    OpeningInvariant(sets, run);
    assert MissedIn(run[n]) == {};
    var t := run[|run| - 1];
    assert forall j: nat :: j < |sets| ==> (LeftBehind(MissedIn(run[n]), t, j) <==> t.phases[j] == Woken);
  }

  /** A worker that was woken and has finished its set. */
  ghost predicate Finished(set_: seq<nat>, p: Phase) {
    p == Arriving || Settled(p) || (p.Top? && p.k >= |set_|)
  }

  /** When the run returns 0 some time later, what has been scanned by then is everything if and only
      if every worker that has areas was woken and has finished its set. */
  lemma ReturnedExactly(sets: Sets, run: seq<State>, n: nat)
    requires IsPlainRun(sets, run) && Opening(sets, run[0]) && WakesAt(run, n)
    requires run[|run| - 1].manager == Returned(0) && !run[|run| - 1].error
    ensures var t := run[|run| - 1];
      && |t.phases| == |sets|
      && (t.scanned == sets <==>
            forall j: nat :: j < |sets| && sets[j] != [] ==> j !in MissedIn(run[n]) && Finished(sets[j], t.phases[j]))
  {
    var t, missed := run[|run| - 1], MissedIn(run[n]);
    PlainInvariant(sets, run, n);
    forall j: nat | j < |sets|
      ensures t.scanned[j] == sets[j] <==> sets[j] == [] || (j !in missed && Finished(sets[j], t.phases[j]))
    {
      if j !in missed {
        assert ProgressAt(sets[j], t.phases[j], t.scanned[j]);
      }
    }
    SameEverywhere(t.scanned, sets);
  }

  lemma SameEverywhere(a: Sets, b: Sets)
    requires |a| == |b|
    ensures a == b <==> forall j: nat :: j < |b| ==> a[j] == b[j]
  {
  }

  /** A broadcast that finds nobody waiting leaves everything unscanned, however the run goes on. */
  lemma NothingScanned(sets: Sets, run: seq<State>, n: nat)
    requires IsPlainRun(sets, run) && Opening(sets, run[0]) && WakesAt(run, n)
    requires forall i :: 0 <= i < |run[n].phases| ==> run[n].phases[i] != Parked
    ensures var t := run[|run| - 1];
      |t.scanned| == |sets| && forall j :: 0 <= j < |sets| ==> t.scanned[j] == []
  {
    PlainPrefix(sets, run, n + 1);
    OpeningInvariant(sets, run[..n + 1]);
    PlainInvariant(sets, run, n);
  }

  // ----- a run that never returns -----

  /** The pool has been woken and nobody noticed. */
  ghost predicate Stuck(sets: Sets, s: State) {
    && s.manager == AwaitDone && !s.releaseReady && |s.phases| == |sets| == |s.scanned| && AllSettled(s)
  }

  lemma StuckStep(sets: Sets, s: State, t: State)
    requires Stuck(sets, s) && Plain(sets, s, t)
    ensures Stuck(sets, t)
  {
    if !PlainManager(s, t) {
      var i: nat :| WorkerStep(sets, s, t, i);
      WorkerFrame(sets, s, t, i);
      assert Settled(s.phases[i]);
    }
  }

  /** When everybody is counted, nobody waits yet, as with a pool of one worker that has not let go of
      the lock, and the flag is down, a broadcast makes the run last for ever. */
  lemma {:induction false} AllCaughtNeverReturns(sets: Sets, run: seq<State>, n: nat)
    requires IsPlainRun(sets, run) && Opening(sets, run[0]) && WakesAt(run, n)
    requires !run[n].releaseReady && forall i :: 0 <= i < |run[n].phases| ==> run[n].phases[i] == Entering
    ensures Stuck(sets, run[|run| - 1])
    decreases |run|
  {
    var last := |run| - 1;
    PlainPrefix(sets, run, last);
    if n + 1 == last {
      OpeningInvariant(sets, run[..last]);
    } else {
      AllCaughtNeverReturns(sets, run[..last], n);
      StuckStep(sets, run[last - 1], run[last]);
    }
  }

  // ----- runs that go wrong -----

  /** Two workers that wait, with the flag up, and the state after the manager has woken them. */
  function TwoWaiting(): State {
    State([Parked, Parked], 2, 2, true, false, false, AwaitReady, [[], []])
  }

  function TwoWoken(): State {
    State([Woken, Woken], 2, 2, false, false, false, AwaitDone, [[], []])
  }

  lemma TwoAreWoken(sets: Sets) returns (cleared: State)
    requires |sets| == 2
    ensures Ready(sets, TwoWaiting()) && Disciplined(sets, TwoWaiting(), cleared)
    ensures Disciplined(sets, cleared, TwoWoken())
  {
    assert TwoWaiting().phases[..1] == [Parked] && [Parked][..0] == [];
    cleared := TwoWaiting().(releaseReady := false, manager := Cleared);
    assert Wake(cleared.phases) == [Woken, Woken];
    assert Broadcast(cleared, TwoWoken()) && LockFree(cleared);
  }

  /** Worker 0, woken and with nothing to scan, is counted again; then the manager returns. */
  function EmptyWorkerRun(s: State): seq<State>
    requires |s.phases| == 2
  {
    var s1 := At(s, 0, Released).(releaseCount := s.releaseCount - 1);
    var s2 := At(s1, 0, Top(0));
    var s3 := At(s2, 0, Arriving);
    var s4 := At(s3, 0, Entering).(releaseCount := s.releaseCount, releaseReady := true);
    [s, s1, s2, s3, s4, s4.(manager := Returned(0))]
  }

  lemma EmptyWorkerSteps(sets: Sets, s: State, run: seq<State>)
    requires |sets| == |s.phases| == 2 && sets[0] == [] && s.phases[0] == Woken && s.phases[1] != Entering
    requires s.releaseCount == s.aliveCount && !s.exit && !s.error && s.manager == AwaitDone
    requires run == EmptyWorkerRun(s)
    ensures forall i :: 0 <= i < 4 ==>
              WorkerStep(sets, run[i], run[i + 1], 0) && (i != 3 ==> !Arrive(run[i], run[i + 1], 0))
    ensures Return(run[4], run[5]) && (s.phases[1] != Woken ==> NoneWoken(run[3]))
  {
    assert Uncount(run[0], run[1], 0);
    assert React(run[1], run[2], 0);
    assert NextArea(sets, run[2], run[3], 0);
    assert Arrive(run[3], run[4], 0);
  }

  lemma EmptyWorkerReturns(sets: Sets, s: State)
    requires |sets| == |s.phases| == 2 && sets[0] == [] && s.phases[0] == Woken && s.phases[1] != Entering
    requires s.releaseCount == s.aliveCount && !s.exit && !s.error && s.manager == AwaitDone
    ensures IsRun(sets, EmptyWorkerRun(s))
    ensures s.phases[1] != Woken ==> IsHastyRun(sets, EmptyWorkerRun(s))
  {
    var run := EmptyWorkerRun(s);
    EmptyWorkerSteps(sets, s, run);
    forall i | 0 <= i < 5
      ensures Next(sets, run[i], run[i + 1])
      ensures s.phases[1] != Woken ==> Hasty(sets, run[i], run[i + 1])
    {
      assert i < 4 ==> WorkerStep(sets, run[i], run[i + 1], 0);
      assert i < 4 && s.phases[1] != Woken ==> DisciplinedWorker(sets, run[i], run[i + 1], 0);
    }
  }

  /** A worker with nothing to scan is counted again before a woken worker is uncounted: the run
      returns 0 with an area left. No wakeup is spurious. */
  lemma ReparkRace() returns (sets: Sets, run: seq<State>)
    ensures IsRun(sets, run) && Ready(sets, run[0])
    ensures run[|run| - 1].manager == Returned(0) && run[|run| - 1].scanned != sets
  {
    sets := [[], [7]];
    var cleared := TwoAreWoken(sets);
    EmptyWorkerReturns(sets, TwoWoken());
    assert Next(sets, TwoWaiting(), cleared) && Next(sets, cleared, TwoWoken());
    run := [TwoWaiting(), cleared] + EmptyWorkerRun(TwoWoken());
    assert run[|run| - 1].scanned[1] != sets[1];
  }

  /** The start of two workers up to the moment the second one raises the flag, about to block, and
      the broadcast that comes just then. */
  lemma WakeupLost(sets: Sets) returns (run: seq<State>, s: State)
    requires |sets| == 2
    ensures IsRun(sets, run) && Unstarted(run[0]) && Next(sets, run[|run| - 1], s)
    ensures s == State([Woken, Parked], 2, 2, false, false, false, AwaitDone, [[], []])
  {
    var s0 := State([NotStarted, NotStarted], 0, 0, false, false, false, AwaitReady, [[], []]);
    var s1 := At(s0, 0, Arriving).(aliveCount := 1);
    var s2 := At(s1, 1, Arriving).(aliveCount := 2);
    var s3 := At(s2, 0, Entering).(releaseCount := 1);
    var s4 := At(s3, 0, Parked);
    var s5 := At(s4, 1, Entering).(releaseCount := 2, releaseReady := true);
    var s6 := s5.(releaseReady := false, manager := Cleared);
    var s7 := s6.(phases := Wake(s6.phases), manager := AwaitDone);
    assert WorkerStep(sets, s0, s1, 0) && WorkerStep(sets, s1, s2, 1) && WorkerStep(sets, s2, s3, 0);
    assert WorkerStep(sets, s3, s4, 0) && WorkerStep(sets, s4, s5, 1);
    s := At(s7, 1, Parked);
    assert WorkerStep(sets, s7, s, 1);
    run := [s0, s1, s2, s3, s4, s5, s6, s7];
  }

  /** The manager wakes the pool between the flag being raised and the raising worker blocking. The
      wakeup is lost, and the run, from an unstarted pool, returns 0 with that worker's area left. */
  lemma LostWakeup() returns (sets: Sets, run: seq<State>)
    ensures IsRun(sets, run) && Unstarted(run[0])
    ensures run[|run| - 1].manager == Returned(0) && run[|run| - 1].scanned != sets
  {
    sets := [[], [7]];
    var s;
    run, s := WakeupLost(sets);
    EmptyWorkerReturns(sets, s);
    run := run + EmptyWorkerRun(s);
    assert run[|run| - 1].scanned[1] != sets[1];
  }

  // ----- a manager that does not wait for its threads -----

  /** The first thread to start is counted, raises the flag and waits, all before the second starts;
      then the manager wakes the pool. */
  lemma FirstThreadAlone(sets: Sets) returns (run: seq<State>)
    requires |sets| == 2
    ensures IsHastyRun(sets, run) && Unstarted(run[0]) && RoundStart(sets, run[0])
    ensures run[|run| - 1] == State([Woken, NotStarted], 1, 1, false, false, false, AwaitDone, [[], []])
  {
    var s0 := State([NotStarted, NotStarted], 0, 0, false, false, false, AwaitReady, [[], []]);
    SpawnedStarts(sets, s0);
    var s1 := At(s0, 0, Arriving).(aliveCount := 1);
    var s2 := At(s1, 0, Entering).(releaseCount := 1, releaseReady := true);
    var s3 := At(s2, 0, Parked);
    var s4 := s3.(releaseReady := false, manager := Cleared);
    assert DisciplinedWorker(sets, s0, s1, 0) && DisciplinedWorker(sets, s1, s2, 0);
    assert DisciplinedWorker(sets, s2, s3, 0) && CarefulManager(s3, s4);
    run := [s0, s1, s2, s3, s4, s4.(phases := Wake(s4.phases), manager := AwaitDone)];
  }

  /** In the first run of a pool the flag may go up before all threads have started. Then the run
      returns 0 with an area left, although no broadcast comes too early and nobody waits too soon. */
  lemma LateStart() returns (sets: Sets, run: seq<State>)
    ensures IsHastyRun(sets, run) && Unstarted(run[0]) && RoundStart(sets, run[0])
    ensures run[|run| - 1].manager == Returned(0) && run[|run| - 1].scanned != sets
  {
    sets := [[], [7]];
    run := FirstThreadAlone(sets);
    var s := run[|run| - 1];
    EmptyWorkerReturns(sets, s);
    run := run[..|run| - 1] + EmptyWorkerRun(s);
    assert run[|run| - 1].scanned[1] != sets[1];
  }

  /** A pool spawned after a shutdown: nobody has started, and the flag is up. */
  ghost predicate Respawned(sets: Sets, s: State) {
    && RoundStart(sets, s) && s.releaseReady
    && forall i :: 0 <= i < |sets| ==> s.phases[i] == NotStarted
  }

  /** The manager wakes nobody; the first thread to start is the only one alive as it is counted. */
  function RespawnedRun(s: State): seq<State>
    requires s.phases != []
  {
    var s1 := s.(releaseReady := false, exit := false, error := false, manager := Cleared);
    var s2 := s1.(manager := AwaitDone);
    var s3 := At(s2, 0, Arriving).(aliveCount := 1);
    var s4 := At(s3, 0, Entering).(releaseCount := 1, releaseReady := true);
    [s, s1, s2, s3, s4, s4.(manager := Returned(0))]
  }

  /** A pool of any size that is spawned after a shutdown may return 0 from its next run before any
      thread has scanned anything. */
  lemma {:induction false} RespawnedReturns(sets: Sets, s: State) returns (run: seq<State>)
    requires Respawned(sets, s) && sets != []
    ensures IsHastyRun(sets, run) && run[0] == s
    ensures run[|run| - 1].manager == Returned(0)
    ensures run[|run| - 1].scanned == seq(|sets|, _ => [])
  {
    UnstartedCounts(s.phases);
    run := RespawnedRun(s);
    assert Wake(run[1].phases) == run[1].phases;
    assert CarefulManager(run[0], run[1]) && CarefulManager(run[1], run[2]) && CarefulManager(run[4], run[5]);
    assert DisciplinedWorker(sets, run[2], run[3], 0) && DisciplinedWorker(sets, run[3], run[4], 0);
    assert s.scanned == seq(|sets|, _ => []);
  }

  lemma FirstWorkerFails(sets: Sets) returns (run: seq<State>)
    requires |sets| == 2 && sets[0] != []
    ensures IsDisciplinedRun(sets, run) && Disciplined(sets, TwoWoken(), run[0])
    ensures run[|run| - 1] == State([Exited, Woken], 1, 1, true, true, true, Returned(-1), [[], []])
  {
    var s0 := TwoWoken();
    var s1 := At(s0, 0, Released).(releaseCount := 1);
    var s2 := At(s1, 0, Top(0));
    var s3 := At(s2, 0, Busy(0));
    var s4 := At(s3, 0, Exited).(aliveCount := 1, exit := true, error := true, releaseReady := true);
    assert DisciplinedWorker(sets, s0, s1, 0) && DisciplinedWorker(sets, s1, s2, 0);
    assert DisciplinedWorker(sets, s2, s3, 0) && DisciplinedWorker(sets, s3, s4, 0);
    run := [s1, s2, s3, s4, s4.(manager := Returned(-1))];
  }

  /** Even in a disciplined run an error may raise the flag early: a worker that fails leaves while
      the other is woken but still counted, and the run returns -1 before that one has begun. */
  lemma FailureReturnsEarly() returns (sets: Sets, run: seq<State>)
    ensures IsDisciplinedRun(sets, run) && Ready(sets, run[0])
    ensures var s := run[|run| - 1];
      s.manager == Returned(-1) && |s.phases| == 2 && s.phases[1] == Woken && s.scanned == [[], []]
  {
    sets := [[5], [7]];
    var cleared := TwoAreWoken(sets);
    var s := FirstWorkerFails(sets);
    run := [TwoWaiting(), cleared, TwoWoken()] + s;
    assert Disciplined(sets, run[2], run[3]);
  }
}
