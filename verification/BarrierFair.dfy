/** A single run comes to its end when its threads are scheduled fairly: a disciplined run returns. */
module BarrierFair {
  import opened Barrier
  import opened BarrierRun
  import opened Behaviours

  // ----- a fair manager -----

  ghost predicate ManagerCan(s: State) {
    exists t :: DisciplinedManager(s, t)
  }

  /** At this moment the manager moves, or could not. */
  ghost predicate ManagerServed(f: Behaviour, n: nat) {
    DisciplinedManager(f(n), f(n + 1)) || !ManagerCan(f(n))
  }

  ghost predicate ManagerServedFrom(f: Behaviour, n: nat) {
    exists m: nat :: n <= m && ManagerServed(f, m)
  }

  /** No thread that can move all the time is passed over for ever. */
  ghost predicate Fair(sets: Sets, f: Behaviour) {
    WorkersServed(SingleRun, sets, f) && forall n: nat :: ManagerServedFrom(f, n)
  }

  // ----- the measure -----

  /** How many phases of the run are left to the manager. */
  function Stage(m: Manager): nat {
    match m
    case AwaitReady => 2
    case Cleared => 1
    case _ => 0
  }

  /** How many steps worker `i` is at most from resting again. */
  function Remaining(set_: seq<nat>, p: Phase): nat {
    match p
    case NotStarted => 3
    case Woken => 2 * |set_| + 5
    case Released => 2 * |set_| + 4
    case Top(k) => if k < |set_| then 2 * (|set_| - k) + 3 else 3
    case Busy(k) => if k < |set_| then 2 * (|set_| - k) + 2 else 4
    case Arriving => 2
    case Entering => 1
    case Parked => 0
    case Exited => 0
  }

  function RemainingIn(sets: Sets, phases: seq<Phase>): nat
    requires |sets| == |phases|
  {
    if phases == [] then 0
    else
      var n := |phases| - 1;
      RemainingIn(sets[..n], phases[..n]) + Remaining(sets[n], phases[n])
  }

  lemma {:induction false} RemainingUpdate(sets: Sets, phases: seq<Phase>, i: nat, p: Phase)
    requires |sets| == |phases| && i < |phases|
    ensures RemainingIn(sets, phases[i := p]) ==
            RemainingIn(sets, phases) - Remaining(sets[i], phases[i]) + Remaining(sets[i], p)
  {
    var n := |phases| - 1;
    if i == n {
      assert phases[i := p][..n] == phases[..n];
    } else {
      assert phases[i := p][..n] == phases[..n][i := p];
      RemainingUpdate(sets[..n], phases[..n], i, p);
    }
  }

  /** A worker that keeps to its set comes closer to rest with every step. */
  lemma WorkerLowers(sets: Sets, s: State, t: State, i: nat)
    requires WorkerStep(sets, s, t, i) && |s.phases| == |sets| == |s.scanned|
    requires s.phases[i].Busy? ==> s.phases[i].k < |sets[i]|
    ensures Remaining(sets[i], t.phases[i]) < Remaining(sets[i], s.phases[i])
  {
  }

  ghost predicate Less(sets: Sets, t: State, s: State)
    requires |t.phases| == |sets| == |s.phases|
  {
    || Stage(t.manager) < Stage(s.manager)
    || (Stage(t.manager) == Stage(s.manager) && RemainingIn(sets, t.phases) < RemainingIn(sets, s.phases))
  }

  lemma StepLowers(sets: Sets, s: State, t: State)
    requires RoundInv(sets, s) && Disciplined(sets, s, t) && !t.manager.Returned?
    ensures RoundInv(sets, t) && Less(sets, t, s)
  {
    RoundStep(sets, s, t);
    if !DisciplinedManager(s, t) {
      var i: nat :| DisciplinedWorker(sets, s, t, i);
      StepMoves(sets, s, t, i);
      WorkerInSet(sets, s, t, i);
      WorkerLowers(sets, s, t, i);
      RemainingUpdate(sets, s.phases, i, t.phases[i]);
    }
  }

  lemma WorkerInSet(sets: Sets, s: State, t: State, i: nat)
    requires RoundInv(sets, s) && WorkerStep(sets, s, t, i)
    ensures i < |sets| && (s.phases[i].Busy? ==> s.phases[i].k < |sets[i]|)
  {
    assert i < |sets|;
    if BeforeRelease(sets, s) {
      assert Asleep(s.phases[i]);
    } else {
      assert ProgressAt(sets[i], s.phases[i], s.scanned[i]);
    }
  }

  // ----- somebody can always move -----

  /** The step worker `i` can take when the lock is free. */
  function WorkerMove(sets: Sets, s: State, i: nat): State
    requires i < |s.phases| == |sets| == |s.scanned|
  {
    match s.phases[i]
    case NotStarted => At(s, i, Arriving).(aliveCount := s.aliveCount + 1)
    case Arriving =>
      At(s, i, Entering).(releaseCount := s.releaseCount + 1,
                          releaseReady := s.releaseReady || s.releaseCount + 1 == s.aliveCount)
    case Woken => At(s, i, Released).(releaseCount := s.releaseCount - 1)
    case Released => if s.exit then Left(s, i) else At(s, i, Top(0))
    case Top(k) =>
      if k >= |sets[i]| then At(s, i, Arriving) else if s.exit then Left(s, i) else At(s, i, Busy(k))
    case Busy(k) =>
      if k < |sets[i]| then At(s, i, Top(k + 1)).(scanned := s.scanned[i := s.scanned[i] + [sets[i][k]]]) else s
    case _ => s
  }

  function Left(s: State, i: nat): State
    requires i < |s.phases|
  {
    At(s, i, Exited).(aliveCount := s.aliveCount - 1,
                      releaseReady := s.releaseReady || s.aliveCount - 1 == s.releaseCount)
  }

  lemma EnteringMoves(sets: Sets, s: State, i: nat)
    requires i < |s.phases| && s.phases[i] == Entering
    ensures WorkerCan(SingleRun, sets, s, i)
  {
    assert WorkerMoves(SingleRun, sets, s, At(s, i, Parked), i);
  }

  lemma WaitingMoves(sets: Sets, s: State, i: nat)
    requires i < |s.phases| == |sets| == |s.scanned| && LockFree(s)
    requires s.phases[i] == NotStarted || s.phases[i] == Woken || (s.phases[i] == Arriving && NoneWoken(s))
    ensures WorkerCan(SingleRun, sets, s, i)
  {
    assert WorkerMoves(SingleRun, sets, s, WorkerMove(sets, s, i), i);
  }

  lemma ScanningMoves(sets: Sets, s: State, i: nat)
    requires i < |s.phases| == |sets| == |s.scanned| && LockFree(s)
    requires s.phases[i] == Released || s.phases[i].Top? || (s.phases[i].Busy? && s.phases[i].k < |sets[i]|)
    ensures WorkerCan(SingleRun, sets, s, i)
  {
    assert WorkerMoves(SingleRun, sets, s, WorkerMove(sets, s, i), i);
  }

  /** Before it returns, a disciplined run is never stuck: the manager or some worker can move. */
  lemma SomebodyMoves(sets: Sets, s: State)
    requires RoundInv(sets, s) && sets != [] && !s.manager.Returned?
    ensures ManagerCan(s) || exists i: nat :: i < |sets| && WorkerCan(SingleRun, sets, s, i)
  {
    if i: nat :| i < |sets| && s.phases[i] == Entering {
      EnteringMoves(sets, s, i);
    } else if BeforeRelease(sets, s) {
      if i: nat :| i < |sets| && !Settled(s.phases[i]) {
        assert Asleep(s.phases[i]) && NoneWoken(s);
        WaitingMoves(sets, s, i);
      } else {
        ManagerStarts(s);
      }
    } else if i: nat :| i < |sets| && s.phases[i] == Woken {
      WaitingMoves(sets, s, i);
    } else if i: nat :| i < |sets| && !Settled(s.phases[i]) && s.phases[i] != Exited {
      assert ProgressAt(sets[i], s.phases[i], s.scanned[i]);
      if s.phases[i] == Arriving {
        WaitingMoves(sets, s, i);
      } else {
        ScanningMoves(sets, s, i);
      }
    } else {
      assert Quiet(s);
      assert DisciplinedManager(s, s.(manager := Returned(if s.error then -1 else 0)));
    }
  }

  lemma ManagerStarts(s: State)
    requires LockFree(s) && ((s.manager == AwaitReady && s.releaseReady && AllSettled(s)) || s.manager == Cleared)
    ensures ManagerCan(s)
  {
    if s.manager == AwaitReady {
      assert DisciplinedManager(s, s.(releaseReady := false, error := false, exit := false, manager := Cleared));
    } else {
      assert DisciplinedManager(s, s.(phases := Wake(s.phases), manager := AwaitDone));
    }
  }

  // ----- the run returns -----

  lemma {:induction false} RoundAlways(sets: Sets, f: Behaviour, n: nat)
    requires Follows(SingleRun, sets, f) && RoundStart(sets, f(0))
    ensures RoundInv(sets, f(n))
  {
    if n > 0 {
      RoundAlways(sets, f, n - 1);
      assert StepAt(SingleRun, sets, f, n - 1);
      if f(n) != f(n - 1) {
        RoundStep(sets, f(n - 1), f(n));
      }
    }
  }

  /** Fairness makes something happen. */
  lemma Stirs(sets: Sets, f: Behaviour, n: nat) returns (k: nat)
    requires Follows(SingleRun, sets, f) && Fair(sets, f) && sets != []
    requires RoundInv(sets, f(n)) && !f(n).manager.Returned?
    ensures n < k && Disciplined(sets, f(n), f(k))
  {
    SomebodyMoves(sets, f(n));
    var m: nat;
    if ManagerCan(f(n)) {
      assert ManagerServedFrom(f, n);
      m :| n <= m && ManagerServed(f, m);
    } else {
      var i: nat :| i < |sets| && WorkerCan(SingleRun, sets, f(n), i);
      assert WorkerServedFrom(SingleRun, sets, f, i, n);
      m :| n <= m && WorkerServed(SingleRun, sets, f, i, m);
    }
    IdleOrStep(SingleRun, sets, f, n, m);
    if f(m) == f(n) {
      k := m + 1;
    } else {
      k :| k <= m && FirstChange(SingleRun, sets, f, n, k);
    }
  }

  lemma {:induction false} ReturnsFrom(sets: Sets, f: Behaviour, n: nat) returns (m: nat)
    requires Follows(SingleRun, sets, f) && Fair(sets, f) && sets != [] && RoundInv(sets, f(n))
    ensures n <= m && f(m).manager.Returned?
    decreases Stage(f(n).manager), RemainingIn(sets, f(n).phases)
  {
    if f(n).manager.Returned? {
      m := n;
    } else {
      var k := Stirs(sets, f, n);
      if f(k).manager.Returned? {
        m := k;
      } else {
        StepLowers(sets, f(n), f(k));
        m := ReturnsFrom(sets, f, k);
      }
    }
  }

  /** A run of a pool with at least one worker, the first one or a later one, comes to its end when its
      threads keep to the discipline and are scheduled fairly. With RunScansEverything it has then
      scanned everything, unless a worker failed. */
  lemma RunReturns(sets: Sets, f: Behaviour) returns (m: nat)
    requires Follows(SingleRun, sets, f) && Fair(sets, f) && sets != [] && RoundStart(sets, f(0))
    ensures f(m).manager.Returned?
    ensures f(m).manager == Returned(0) ==> f(m).scanned == sets
  {
    RoundAlways(sets, f, 0);
    m := ReturnsFrom(sets, f, 0);
    RoundAlways(sets, f, m);
    if f(m).manager == Returned(0) {
      RoundMeans(sets, f(m));
    }
  }
}
