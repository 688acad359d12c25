/** Killing the pool: the exit flag and repeated broadcasts make every worker leave. */
module Shutdown {
  import opened Barrier
  import opened BarrierRun
  import opened BarrierRaces
  import opened Behaviours

  /** How many steps a worker is at most from having left once the exit flag is set. */
  function Rank(p: Phase): nat {
    match p
    case NotStarted => 8
    case Busy(_) => 7
    case Top(_) => 6
    case Arriving => 5
    case Entering => 4
    case Parked => 3
    case Woken => 2
    case Released => 1
    case Exited => 0
  }

  function RankIn(phases: seq<Phase>): nat {
    if phases == [] then 0 else RankIn(phases[..|phases| - 1]) + Rank(phases[|phases| - 1])
  }

  lemma {:induction false} RankUpdate(phases: seq<Phase>, i: nat, p: Phase)
    requires i < |phases|
    ensures RankIn(phases[i := p]) == RankIn(phases) - Rank(phases[i]) + Rank(p)
  {
    var n := |phases| - 1;
    if i == n {
      assert phases[i := p][..n] == phases[..n];
    } else {
      assert phases[i := p][..n] == phases[..n][i := p];
      RankUpdate(phases[..n], i, p);
    }
  }

  /** A broadcast lowers the rank exactly when some worker is parked. */
  lemma {:induction false} RankWake(phases: seq<Phase>)
    ensures RankIn(Wake(phases)) <= RankIn(phases)
    ensures RankIn(Wake(phases)) < RankIn(phases) <==> Parked in phases
  {
    if phases != [] {
      var n := |phases| - 1;
      assert Wake(phases)[..n] == Wake(phases[..n]);
      RankWake(phases[..n]);
      assert phases == phases[..n] + [phases[n]];
    }
  }

  lemma {:induction false} SomeAlive(phases: seq<Phase>)
    ensures AliveIn(phases) > 0 <==> exists i :: 0 <= i < |phases| && Alive(phases[i])
  {
    if phases != [] {
      SomeAlive(phases[..|phases| - 1]);
    }
  }

  /** The pool is being killed. */
  ghost predicate Dying(s: State) {
    s.manager == Killing && s.exit && CountersRight(s)
  }

  ghost predicate AllStarted(s: State) {
    forall i :: 0 <= i < |s.phases| ==> s.phases[i] != NotStarted
  }

  lemma WaitLowers(s: State, t: State, i: nat)
    requires Start(s, t, i) || Arrive(s, t, i) || Park(s, t, i) || Uncount(s, t, i) || SpuriousWake(s, t, i)
    ensures t.phases[i] != NotStarted && Rank(t.phases[i]) < Rank(s.phases[i])
  {
  }

  lemma ScanLowers(sets: Sets, s: State, t: State, i: nat)
    requires React(s, t, i) || NextArea(sets, s, t, i) || FinishArea(sets, s, t, i) || FailArea(s, t, i)
    requires s.exit
    ensures t.phases[i] != NotStarted && Rank(t.phases[i]) < Rank(s.phases[i])
  {
  }

  /** Once the pool is being killed it stays so. No step of any thread raises the rank, and every
      step of a worker, a spurious wakeup included, lowers it. */
  lemma DyingStep(sets: Sets, s: State, t: State)
    requires Dying(s) && Next(sets, s, t)
    ensures Dying(t) && |t.phases| == |s.phases| && (AllStarted(s) ==> AllStarted(t))
    ensures RankIn(t.phases) <= RankIn(s.phases)
    ensures !ManagerStep(s, t) ==> RankIn(t.phases) < RankIn(s.phases)
  {
    CountersStep(sets, s, t);
    if ManagerStep(s, t) {
      RankWake(s.phases);
    } else {
      var i: nat :| WorkerStep(sets, s, t, i) || SpuriousWake(s, t, i);
      StepMoves(sets, s, t, i);
      if React(s, t, i) || NextArea(sets, s, t, i) || FinishArea(sets, s, t, i) || FailArea(s, t, i) {
        ScanLowers(sets, s, t, i);
      } else {
        WaitLowers(s, t, i);
      }
      RankUpdate(s.phases, i, t.phases[i]);
    }
  }

  /** The step a worker that is not parked can take, when the lock is free or it holds it. */
  function DyingMove(s: State, i: nat): State
    requires i < |s.phases|
  {
    match s.phases[i]
    case Arriving =>
      At(s, i, Entering).(releaseCount := s.releaseCount + 1,
                          releaseReady := s.releaseReady || s.releaseCount + 1 == s.aliveCount)
    case Entering => At(s, i, Parked)
    case Woken => At(s, i, Released).(releaseCount := s.releaseCount - 1)
    case Busy(_) =>
      At(s, i, Exited).(aliveCount := s.aliveCount - 1, error := true,
                        releaseReady := s.releaseReady || s.aliveCount - 1 == s.releaseCount)
    case _ =>
      At(s, i, Exited).(aliveCount := s.aliveCount - 1,
                        releaseReady := s.releaseReady || s.aliveCount - 1 == s.releaseCount)
  }

  lemma CanMove(sets: Sets, s: State, i: nat) returns (t: State)
    requires Dying(s) && |s.phases| == |sets| && i < |sets| && Alive(s.phases[i])
    requires s.phases[i] != Parked && (LockFree(s) || s.phases[i] == Entering)
    ensures WorkerStep(sets, s, t, i)
    ensures |t.phases| == |s.phases| && t.phases == s.phases[i := t.phases[i]]
    ensures Rank(t.phases[i]) < Rank(s.phases[i])
  {
    if s.phases[i].Top? && s.phases[i].k >= |sets[i]| {
      t := At(s, i, Arriving);
    } else {
      t := DyingMove(s, i);
    }
  }

  /** No deadlock: while a worker is alive, some thread can take a step that lowers the rank, and
      the broadcasts the manager keeps sending are the only ones needed from it. */
  lemma KillProgress(sets: Sets, s: State) returns (t: State)
    requires Dying(s) && |s.phases| == |sets| && s.aliveCount > 0
    ensures Next(sets, s, t) && RankIn(t.phases) < RankIn(s.phases)
  {
    SomeAlive(s.phases);
    if i: nat :| i < |sets| && Alive(s.phases[i]) && s.phases[i] != Parked &&
                 (LockFree(s) || s.phases[i] == Entering) {
      t := CanMove(sets, s, i);
      RankUpdate(s.phases, i, t.phases[i]);
    } else {
      t := s.(phases := Wake(s.phases));
      RankWake(s.phases);
      assert Broadcast(s, t);
    }
  }

  // ----- every fair execution ends -----

  /** At this moment the manager sends a broadcast, or has seen that nobody is alive. */
  ghost predicate ManagerServed(f: Behaviour, n: nat) {
    Broadcast(f(n), f(n + 1)) || f(n).aliveCount == 0
  }

  ghost predicate ManagerServedFrom(f: Behaviour, n: nat) {
    exists m: nat :: n <= m && ManagerServed(f, m)
  }

  /** No worker that can move all the time is passed over for ever, and the manager repeats its
      broadcast as long as a worker is alive. */
  ghost predicate Fair(sets: Sets, f: Behaviour) {
    WorkersServed(Anything, sets, f) && forall n: nat :: ManagerServedFrom(f, n)
  }

  /** A step that changes anything lowers the rank. */
  lemma ChangeLowers(sets: Sets, s: State, t: State)
    requires Dying(s) && Next(sets, s, t) && s != t
    ensures Dying(t) && |t.phases| == |s.phases| && RankIn(t.phases) < RankIn(s.phases)
    ensures AllStarted(s) ==> AllStarted(t)
  {
    DyingStep(sets, s, t);
    if ManagerStep(s, t) {
      assert Wake(s.phases) != s.phases;
      RankWake(s.phases);
    } else {
      var i: nat :| WorkerStep(sets, s, t, i) || SpuriousWake(s, t, i);
      StepMoves(sets, s, t, i);
    }
  }

  /** A worker that can move, if any worker can. */
  ghost predicate Movable(s: State, i: nat) {
    && i < |s.phases| && Alive(s.phases[i]) && s.phases[i] != Parked
    && (LockFree(s) || s.phases[i] == Entering)
  }

  lemma MovableCan(sets: Sets, s: State, i: nat)
    requires Dying(s) && |s.phases| == |sets| && Movable(s, i)
    ensures WorkerCan(Anything, sets, s, i)
  {
    var t := CanMove(sets, s, i);
    assert WorkerMoves(Anything, sets, s, t, i);
  }

  lemma NobodyMovable(s: State)
    requires Dying(s) && s.aliveCount > 0 && forall i: nat :: !Movable(s, i)
    ensures Parked in s.phases
  {
    SomeAlive(s.phases);
    var i :| 0 <= i < |s.phases| && Alive(s.phases[i]);
    assert !Movable(s, i);
    if s.phases[i] != Parked {
      var j :| 0 <= j < |s.phases| && s.phases[j] == Entering;
      assert Movable(s, j);
    }
  }

  /** Something happens by the moment after `m`, if what is due at `m` changes the state. */
  lemma ChangesBy(sets: Sets, f: Behaviour, n: nat, m: nat) returns (k: nat)
    requires Follows(Anything, sets, f) && n <= m
    requires f(m) == f(n) ==> Next(sets, f(m), f(m + 1)) && f(m + 1) != f(m)
    ensures n < k && Next(sets, f(n), f(k)) && f(k) != f(n)
  {
    IdleOrStep(Anything, sets, f, n, m);
    if f(m) == f(n) {
      k := m + 1;
    } else {
      k :| k <= m && FirstChange(Anything, sets, f, n, k);
    }
  }

  /** Fairness makes the rank fall. */
  lemma Falls(sets: Sets, f: Behaviour, n: nat) returns (k: nat)
    requires Follows(Anything, sets, f) && Fair(sets, f)
    requires Dying(f(n)) && |f(n).phases| == |sets| && f(n).aliveCount > 0
    ensures n < k && Next(sets, f(n), f(k)) && f(k) != f(n)
  {
    var m: nat;
    if i: nat :| Movable(f(n), i) {
      MovableCan(sets, f(n), i);
      assert WorkerServedFrom(Anything, sets, f, i, n);
      m :| n <= m && WorkerServed(Anything, sets, f, i, m);
      if f(m) == f(n) {
        WorkerChanges(sets, f(m), f(m + 1), i);
      }
    } else {
      NobodyMovable(f(n));
      assert ManagerServedFrom(f, n);
      m :| n <= m && ManagerServed(f, m);
      if f(m) == f(n) {
        BroadcastChanges(f(m), f(m + 1));
      }
    }
    k := ChangesBy(sets, f, n, m);
  }

  lemma WorkerChanges(sets: Sets, s: State, t: State, i: nat)
    requires Dying(s) && WorkerStep(sets, s, t, i)
    ensures Next(sets, s, t) && t != s
  {
    DyingStep(sets, s, t);
    if ManagerStep(s, t) {
      StepMoves(sets, s, t, i);
      RankUpdate(s.phases, i, t.phases[i]);
    }
  }

  lemma BroadcastChanges(s: State, t: State)
    requires Broadcast(s, t) && Parked in s.phases
    ensures ManagerStep(s, t) && t != s
  {
    var i :| 0 <= i < |s.phases| && s.phases[i] == Parked;
    assert t.phases[i] == Woken;
  }

  /** The last worker to leave raises the flag, which nobody clears. */
  lemma LastRaises(sets: Sets, s: State, t: State)
    requires Dying(s) && Next(sets, s, t) && s.aliveCount > 0 && t.aliveCount == 0
    ensures t.releaseReady
  {
    CountersStep(sets, s, t);
    CountedAreAlive(t.phases);
    CountsWake(s.phases);
  }

  /** Shutdown. Whatever the workers were doing when the exit flag was set, started or not, and however
      the threads are scheduled, as long as the schedule is fair there comes a moment when
      `alive_count` is 0, and the flag is up then. */
  lemma {:induction false} KillCompletes(sets: Sets, f: Behaviour, n: nat) returns (m: nat)
    requires Follows(Anything, sets, f) && Fair(sets, f)
    requires Dying(f(n)) && |f(n).phases| == |sets|
    ensures n <= m && Dying(f(m)) && |f(m).phases| == |sets| && f(m).aliveCount == 0
    ensures f(n).aliveCount == 0 ==> m == n
    ensures f(n).aliveCount > 0 ==> f(m).releaseReady
    ensures AllStarted(f(n)) ==> AllStarted(f(m))
    decreases RankIn(f(n).phases)
  {
    if f(n).aliveCount == 0 {
      m := n;
    } else {
      CountedAreAlive(f(n).phases);
      var k := Falls(sets, f, n);
      ChangeLowers(sets, f(n), f(k));
      m := KillCompletes(sets, f, k);
      if f(k).aliveCount == 0 {
        LastRaises(sets, f(n), f(k));
      }
    }
  }

  /** When nobody is alive, a worker has left if and only if it had started. */
  lemma NobodyAlive(s: State)
    requires Dying(s) && s.aliveCount == 0
    ensures forall i :: 0 <= i < |s.phases| ==> s.phases[i] == Exited || s.phases[i] == NotStarted
    ensures (forall i :: 0 <= i < |s.phases| ==> s.phases[i] == Exited) <==> AllStarted(s)
  {
    SomeAlive(s.phases);
    forall i | 0 <= i < |s.phases|
      ensures s.phases[i] == Exited || s.phases[i] == NotStarted
    {
      assert !Alive(s.phases[i]);
    }
  }

  /** In particular, when all threads had started as the exit flag was set, all of them leave. */
  lemma AllLeave(sets: Sets, f: Behaviour, n: nat) returns (m: nat)
    requires Follows(Anything, sets, f) && Fair(sets, f)
    requires Dying(f(n)) && |f(n).phases| == |sets| && AllStarted(f(n))
    ensures n <= m && forall i :: 0 <= i < |sets| ==> |f(m).phases| == |sets| && f(m).phases[i] == Exited
  {
    m := KillCompletes(sets, f, n);
    NobodyAlive(f(m));
  }

  // ----- a thread that starts too late -----

  /** A thread that starts after the manager has seen `alive_count` at 0 waits for a broadcast that is
      not sent any more: the shutdown never joins it. */
  lemma LateThreadWaits() returns (sets: Sets, run: seq<State>, k: nat)
    ensures IsRun(sets, run) && Unstarted(run[0]) && k < |run| && Dying(run[k]) && run[k].aliveCount == 0
    ensures forall j :: k <= j < |run| - 1 ==> !ManagerStep(run[j], run[j + 1])
    ensures Stranded(run[|run| - 1])
  {
    sets := [[]];
    var s0 := State([NotStarted], 0, 0, false, false, false, AwaitReady, [[]]);
    UnstartedCounts(s0.phases);
    var s1 := s0.(exit := true, manager := Killing);
    var s2 := At(s1, 0, Arriving).(aliveCount := 1);
    var s3 := At(s2, 0, Entering).(releaseCount := 1, releaseReady := true);
    var s4 := At(s3, 0, Parked);
    run, k := [s0, s1, s2, s3, s4], 1;
    assert WorkerStep(sets, s1, s2, 0) && WorkerStep(sets, s2, s3, 0) && WorkerStep(sets, s3, s4, 0);
    NoBroadcast(s1, s2);
    NoBroadcast(s2, s3);
    NoBroadcast(s3, s4);
  }

  lemma NoBroadcast(s: State, t: State)
    requires |s.phases| == |t.phases| == 1 && s.phases[0] != Parked && t.phases[0] != s.phases[0]
    requires s.manager == Killing
    ensures !ManagerStep(s, t)
  {
    assert Wake(s.phases)[0] == s.phases[0];
  }

  /** Every worker waits, and no worker can move of its own accord. */
  ghost predicate Stranded(s: State) {
    s.manager == Killing && s.phases != [] && forall i :: 0 <= i < |s.phases| ==> s.phases[i] == Parked
  }

  lemma StrandedStays(sets: Sets, s: State, t: State, i: nat)
    requires Stranded(s)
    ensures !WorkerStep(sets, s, t, i)
  {
  }

  // ----- the pool after a shutdown -----

  /** The pool as `spawn_workers` leaves it: new threads, the counters and the flags as they were. */
  function Respawn(sets: Sets, s: State): State {
    s.(phases := seq(|sets|, _ => NotStarted), manager := AwaitReady, scanned := seq(|sets|, _ => []))
  }

  /** Every pool that had a live worker when it was killed starts its next scan with the flag up; then
      `BarrierRaces.RespawnedReturns` has its next run return 0 with nothing scanned. */
  lemma {:induction false} KilledRespawns(sets: Sets, f: Behaviour, n: nat, sets': Sets)
    returns (m: nat, run: seq<State>)
    requires Follows(Anything, sets, f) && Fair(sets, f)
    requires Dying(f(n)) && |f(n).phases| == |sets| && f(n).aliveCount > 0 && sets' != []
    ensures n <= m && f(m).aliveCount == 0 && Respawned(sets', Respawn(sets', f(m)))
    ensures IsHastyRun(sets', run) && run[0] == Respawn(sets', f(m))
    ensures run[|run| - 1].manager == Returned(0) && run[|run| - 1].scanned == seq(|sets'|, _ => [])
  {
    m := KillCompletes(sets, f, n);
    var s := Respawn(sets', f(m));
    CountedAreAlive(f(m).phases);
    UnstartedCounts(s.phases);
    SpawnedStarts(sets', s);
    run := RespawnedReturns(sets', s);
  }

  /** Setting the exit flag begins a shutdown. */
  lemma KillBegins(s: State, t: State)
    requires CountersRight(s) && BeginKill(s, t)
    ensures Dying(t)
  {
  }
}
