/** A single run of the pool: what the barrier guarantees when its users keep to a discipline, and
    that a run comes to its end. */
module BarrierRun {
  import opened Barrier

  /** A worker that waits, or is counted and on its way into the wait. */
  ghost predicate Settled(p: Phase) {
    p == Entering || p == Parked
  }

  /** A worker that no broadcast has woken: it has not started, is about to wait, or waits. */
  ghost predicate Asleep(p: Phase) {
    p == NotStarted || p == Arriving || Settled(p)
  }

  ghost predicate AllSettled(s: State) {
    forall i :: 0 <= i < |s.phases| ==> Settled(s.phases[i])
  }

  /** A pool before a run: nobody has been woken and nothing has been scanned. */
  ghost predicate Opening(sets: Sets, s: State) {
    && |s.phases| == |sets| == |s.scanned| && s.manager == AwaitReady && CountersRight(s)
    && forall i :: 0 <= i < |sets| ==> Asleep(s.phases[i]) && s.scanned[i] == []
  }

  /** A pool as a run may find it, be it just spawned, spawned anew after a shutdown, or left by an
      earlier run. The flag may be up already; it is when every worker waits. */
  ghost predicate RoundStart(sets: Sets, s: State) {
    Opening(sets, s) && (sets != [] && AllSettled(s) ==> s.releaseReady)
  }

  /** A pool whose workers all wait, with the flag up: what an earlier run leaves. */
  ghost predicate Ready(sets: Sets, s: State) {
    Opening(sets, s) && AllSettled(s) && s.releaseReady
  }

  lemma {:induction false} SpawnedStarts(sets: Sets, s: State)
    requires Unstarted(s) && |s.phases| == |sets| == |s.scanned| && s.manager == AwaitReady
    requires forall i :: 0 <= i < |sets| ==> s.scanned[i] == []
    ensures RoundStart(sets, s)
  {
    UnstartedCounts(s.phases);
    if sets != [] {
      assert !Settled(s.phases[0]);
    }
  }

  // ----- the discipline -----

  ghost predicate NoneWoken(s: State) {
    forall i :: 0 <= i < |s.phases| ==> s.phases[i] != Woken
  }

  /** No worker is counted again before all woken workers are uncounted. */
  ghost predicate DisciplinedWorker(sets: Sets, s: State, t: State, i: nat) {
    WorkerStep(sets, s, t, i) && (Arrive(s, t, i) ==> NoneWoken(s))
  }

  /** The manager does not wake the pool while a worker is on its way into the wait. */
  ghost predicate CarefulManager(s: State, t: State) {
    ClearFlags(s, t) || (Broadcast(s, t) && s.manager == Cleared && LockFree(s)) || Return(s, t)
  }

  /** A step that is disciplined, but for the start: the manager goes ahead as soon as it sees the
      flag up, as in the source. */
  ghost predicate Hasty(sets: Sets, s: State, t: State) {
    CarefulManager(s, t) || exists i: nat :: DisciplinedWorker(sets, s, t, i)
  }

  /** The manager also does not go ahead before every worker has started and is counted. */
  ghost predicate DisciplinedManager(s: State, t: State) {
    CarefulManager(s, t) && (s.manager == AwaitReady ==> AllSettled(s))
  }

  /** A disciplined step of a run without spurious wakeups and without the pool being killed. */
  ghost predicate Disciplined(sets: Sets, s: State, t: State) {
    DisciplinedManager(s, t) || exists i: nat :: DisciplinedWorker(sets, s, t, i)
  }

  // ----- the invariant of a run -----

  /** How far a worker has got, from where it is, once the workers have been released. */
  ghost predicate ProgressAt(set_: seq<nat>, p: Phase, scanned: seq<nat>) {
    match p
    case NotStarted => false
    case Woken => scanned == []
    case Released => scanned == []
    case Top(k) => k <= |set_| && scanned == set_[..k]
    case Busy(k) => k < |set_| && scanned == set_[..k]
    case Arriving => scanned == set_
    case Entering => scanned == set_
    case Parked => scanned == set_
    case Exited => scanned <= set_
  }

  ghost predicate BeforeRelease(sets: Sets, s: State)
    requires |s.phases| == |sets| == |s.scanned|
  {
    && (s.manager == AwaitReady || s.manager == Cleared)
    && (s.manager == AwaitReady && sets != [] && AllSettled(s) ==> s.releaseReady)
    && (s.manager == Cleared ==> AllSettled(s) && !s.releaseReady && !s.exit && !s.error)
    && forall i :: 0 <= i < |sets| ==> Asleep(s.phases[i]) && s.scanned[i] == []
  }

  /** Nobody is going to move any more. */
  ghost predicate Quiet(s: State) {
    forall i :: 0 <= i < |s.phases| ==> Settled(s.phases[i]) || s.phases[i] == Exited
  }

  /** What holds once the pool has been woken. A worker that the broadcast missed, since it did not
      wait yet, is one of `missed`. */
  ghost predicate Underway(sets: Sets, missed: set<int>, s: State)
    requires |s.phases| == |sets| == |s.scanned|
  {
    && (s.manager == AwaitDone || s.manager.Returned?)
    && (s.exit <==> s.error)
    && (forall i :: 0 <= i < |sets| ==> i in missed ==> Asleep(s.phases[i]) && s.scanned[i] == [])
    && (forall i :: 0 <= i < |sets| ==> i !in missed ==> ProgressAt(sets[i], s.phases[i], s.scanned[i]))
    && (forall i :: 0 <= i < |sets| ==> s.phases[i] == Exited ==> s.error)
  }

  ghost predicate AfterRelease(sets: Sets, s: State)
    requires |s.phases| == |sets| == |s.scanned|
  {
    && Underway(sets, {}, s)
    && ((exists i :: 0 <= i < |sets| && Settled(s.phases[i])) ==> NoneWoken(s))
    && (s.releaseReady && !s.error ==> forall i :: 0 <= i < |sets| ==> Settled(s.phases[i]))
    && (s.manager == Returned(0) ==> s.releaseReady && !s.error)
    && (sets != [] && Quiet(s) ==> s.releaseReady)
  }

  ghost predicate RoundInv(sets: Sets, s: State) {
    && |s.phases| == |sets| == |s.scanned| && CountersRight(s)
    && (BeforeRelease(sets, s) || AfterRelease(sets, s))
  }

  /** A worker step leaves the other workers and the manager alone. */
  lemma WorkerFrame(sets: Sets, s: State, t: State, i: nat)
    requires WorkerStep(sets, s, t, i) && |s.phases| == |sets| == |s.scanned|
    ensures |t.phases| == |sets| == |t.scanned| && t.manager == s.manager
    ensures forall j :: 0 <= j < |sets| && j != i ==> t.phases[j] == s.phases[j] && t.scanned[j] == s.scanned[j]
  {
  }

  /** A worker step keeps the record of scanned areas in step with where the worker is. */
  lemma WorkerProgress(sets: Sets, s: State, t: State, i: nat)
    requires WorkerStep(sets, s, t, i) && |s.phases| == |sets| == |s.scanned|
    requires ProgressAt(sets[i], s.phases[i], s.scanned[i])
    ensures ProgressAt(sets[i], t.phases[i], t.scanned[i])
  {
    if FinishArea(sets, s, t, i) {
      var k := s.phases[i].k;
      assert sets[i][..k] + [sets[i][k]] == sets[i][..k + 1];
    } else if NextArea(sets, s, t, i) && s.phases[i].k >= |sets[i]| {
      assert sets[i][..|sets[i]|] == sets[i];
    }
  }

  /** A worker that leaves, leaves on an error or on the exit flag. */
  lemma WorkerErrors(sets: Sets, s: State, t: State, i: nat)
    requires WorkerStep(sets, s, t, i) && |s.phases| == |sets| == |s.scanned| && (s.exit <==> s.error)
    ensures (t.exit <==> t.error) && (s.error ==> t.error)
    ensures t.phases[i] == Exited ==> t.error
  {
  }

  /** No worker waits while another is woken: a disciplined worker step keeps this. */
  lemma WorkerWoken(sets: Sets, s: State, t: State, i: nat)
    requires WorkerStep(sets, s, t, i) && |s.phases| == |sets| == |s.scanned|
    requires Arrive(s, t, i) ==> NoneWoken(s)
    requires (exists j :: 0 <= j < |sets| && Settled(s.phases[j])) ==> NoneWoken(s)
    ensures (exists j :: 0 <= j < |sets| && Settled(t.phases[j])) ==> NoneWoken(t)
  {
    WorkerFrame(sets, s, t, i);
    if j :| 0 <= j < |sets| && Settled(t.phases[j]) {
      assert NoneWoken(s) by {
        assert Arrive(s, t, i) || Settled(s.phases[j]);
      }
    }
  }

  /** The flag goes up without an error only when every worker waits again. */
  lemma WorkerRaises(sets: Sets, s: State, t: State, i: nat)
    requires WorkerStep(sets, s, t, i) && |s.phases| == |sets| == |s.scanned| && CountersRight(s)
    requires AfterRelease(sets, s) && (Arrive(s, t, i) ==> NoneWoken(s))
    requires t.releaseReady && !t.error
    ensures forall j :: 0 <= j < |sets| ==> Settled(t.phases[j])
  {
    WorkerErrors(sets, s, t, i);
    assert ProgressAt(sets[i], s.phases[i], s.scanned[i]);
    if s.releaseReady {
      assert Settled(s.phases[i]);
    } else {
      CountsUpdate(s.phases, i, Entering);
      CountedAreAlive(t.phases);
      forall j | 0 <= j < |sets|
        ensures Settled(t.phases[j])
      {
        assert ProgressAt(sets[j], s.phases[j], s.scanned[j]);
      }
    }
  }

  /** When the last worker comes to rest, it raises the flag. */
  lemma WorkerQuiets(sets: Sets, s: State, t: State, i: nat)
    requires WorkerStep(sets, s, t, i) && |s.phases| == |sets| == |s.scanned| && CountersRight(s)
    requires Quiet(s) ==> s.releaseReady
    ensures Quiet(t) ==> t.releaseReady
  {
    StepMoves(sets, s, t, i);
    CountersMoved(s, t, i);
    if Quiet(t) {
      CountedAreAlive(t.phases);
      if Park(s, t, i) {
        forall j | 0 <= j < |s.phases|
          ensures Settled(s.phases[j]) || s.phases[j] == Exited
        {
          assert j != i ==> s.phases[j] == t.phases[j];
        }
      }
    }
  }

  lemma WorkerKeepsRound(sets: Sets, s: State, t: State, i: nat)
    requires RoundInv(sets, s) && DisciplinedWorker(sets, s, t, i)
    ensures RoundInv(sets, t)
  {
    StepMoves(sets, s, t, i);
    CountersMoved(s, t, i);
    WorkerFrame(sets, s, t, i);
    if BeforeRelease(sets, s) {
      SleeperKeepsBefore(sets, s, t, i);
    } else {
      WorkerKeepsAfter(sets, s, t, i);
    }
  }

  /** Before the pool is woken, a worker can only start, count itself and wait. */
  lemma SleeperMoves(sets: Sets, s: State, t: State, i: nat)
    requires WorkerStep(sets, s, t, i) && Asleep(s.phases[i])
    ensures Asleep(t.phases[i]) && t.scanned == s.scanned && t.exit == s.exit && t.error == s.error
    ensures Settled(s.phases[i]) ==> Settled(t.phases[i]) && t.releaseReady == s.releaseReady
    ensures s.releaseReady ==> t.releaseReady
  {
  }

  lemma SleeperKeepsBefore(sets: Sets, s: State, t: State, i: nat)
    requires RoundInv(sets, s) && WorkerStep(sets, s, t, i) && BeforeRelease(sets, s)
    ensures |t.phases| == |sets| == |t.scanned| && BeforeRelease(sets, t)
  {
    WorkerFrame(sets, s, t, i);
    assert Asleep(s.phases[i]);
    SleeperMoves(sets, s, t, i);
    if s.manager == AwaitReady {
      WorkerQuiets(sets, s, t, i);
    } else {
      assert Settled(s.phases[i]);
    }
  }

  lemma WorkerKeepsAfter(sets: Sets, s: State, t: State, i: nat)
    requires RoundInv(sets, s) && DisciplinedWorker(sets, s, t, i) && AfterRelease(sets, s)
    ensures |t.phases| == |sets| == |t.scanned| && AfterRelease(sets, t)
  {
    WorkerFrame(sets, s, t, i);
    assert ProgressAt(sets[i], s.phases[i], s.scanned[i]);
    WorkerProgress(sets, s, t, i);
    WorkerErrors(sets, s, t, i);
    WorkerWoken(sets, s, t, i);
    WorkerQuiets(sets, s, t, i);
    if t.releaseReady && !t.error {
      WorkerRaises(sets, s, t, i);
    }
    if s.manager == Returned(0) {
      assert Settled(s.phases[i]);
    }
  }

  lemma ManagerKeepsRound(sets: Sets, s: State, t: State)
    requires RoundInv(sets, s) && DisciplinedManager(s, t)
    ensures RoundInv(sets, t)
  {
    CountsWake(s.phases);
  }

  /** A run in which every step is disciplined. */
  ghost predicate IsDisciplinedRun(sets: Sets, run: seq<State>) {
    run != [] && forall i :: 0 <= i < |run| - 1 ==> Disciplined(sets, run[i], run[i + 1])
  }

  /** A run in which every step is disciplined, but perhaps for the start. */
  ghost predicate IsHastyRun(sets: Sets, run: seq<State>) {
    run != [] && forall i :: 0 <= i < |run| - 1 ==> Hasty(sets, run[i], run[i + 1])
  }

  lemma {:induction false} RoundInvariant(sets: Sets, run: seq<State>)
    requires IsDisciplinedRun(sets, run) && RoundStart(sets, run[0])
    ensures RoundInv(sets, run[|run| - 1])
  {
    var n := |run| - 1;
    if n > 0 {
      RoundInvariant(sets, run[..n]);
      var s, t := run[n - 1], run[n];
      RoundStep(sets, s, t);
    }
  }

  lemma RoundStep(sets: Sets, s: State, t: State)
    requires RoundInv(sets, s) && Disciplined(sets, s, t)
    ensures RoundInv(sets, t)
  {
    if DisciplinedManager(s, t) {
      ManagerKeepsRound(sets, s, t);
    } else {
      var i: nat :| DisciplinedWorker(sets, s, t, i);
      WorkerKeepsRound(sets, s, t, i);
    }
  }

  /** A raised flag without an error means that everything has been scanned. */
  lemma RoundMeans(sets: Sets, s: State)
    requires RoundInv(sets, s)
    requires (s.manager == AwaitDone && s.releaseReady && !s.error) || s.manager == Returned(0)
    ensures s.scanned == sets
    ensures Ready(sets, s.(manager := AwaitReady, scanned := seq(|sets|, _ => [])))
  {
    forall i | 0 <= i < |sets|
      ensures Settled(s.phases[i]) && s.scanned[i] == sets[i]
    {
      assert ProgressAt(sets[i], s.phases[i], s.scanned[i]);
    }
  }

  /** Barrier safety. In a disciplined run, the first one of a pool or a later one, the flag that was
      cleared is not raised again without an error until every worker has scanned its whole set and
      waits; so a single run that returns 0 has scanned every area of every set, in order and once,
      and the pool is ready for the next run. */
  lemma RunScansEverything(sets: Sets, run: seq<State>)
    requires IsDisciplinedRun(sets, run) && RoundStart(sets, run[0])
    ensures var s := run[|run| - 1];
      (s.manager == AwaitDone && s.releaseReady && !s.error) || s.manager == Returned(0) ==>
        && s.scanned == sets
        && Ready(sets, s.(manager := AwaitReady, scanned := seq(|sets|, _ => [])))
  {
    RoundInvariant(sets, run);
    var s := run[|run| - 1];
    if (s.manager == AwaitDone && s.releaseReady && !s.error) || s.manager == Returned(0) {
      RoundMeans(sets, s);
    }
  }
}
