/** The worker barrier as a state machine. A step is what one thread does under its locks; the
    steps of different threads interleave freely. */
module Barrier {

  /** Where a worker is.
      - Arriving: about to count itself as waiting
      - Entering: counted, still holding the count's lock on its way into the wait
      - Parked: blocked on the condition, the lock released
      - Woken: signalled, but not yet uncounted
      - Released: uncounted, about to react to the exit flag
      - Top(k): at the head of the loop over its areas, before area k
      - Busy(k): scanning area k */
  datatype Phase = NotStarted | Arriving | Entering | Parked | Woken | Released | Top(k: nat) | Busy(k: nat) | Exited

  /** Where the thread that controls the pool is: in a single run, or killing the workers. */
  datatype Manager = AwaitReady | Cleared | AwaitDone | Returned(ret: int) | Killing

  /** `scanned` records the areas each worker has finished in this run. */
  datatype State = State(
    phases: seq<Phase>,
    releaseCount: int,
    aliveCount: int,
    releaseReady: bool,
    exit: bool,
    error: bool,
    manager: Manager,
    scanned: seq<seq<nat>>)

  /** The areas of every worker. */
  type Sets = seq<seq<nat>>

  // ----- the steps -----

  /** Nobody holds the lock of the release count between steps. */
  ghost predicate LockFree(s: State) {
    forall i :: 0 <= i < |s.phases| ==> s.phases[i] != Entering
  }

  function At(s: State, i: nat, p: Phase): State
    requires i < |s.phases|
  {
    s.(phases := s.phases[i := p])
  }

  ghost predicate Start(s: State, t: State, i: nat) {
    && i < |s.phases| && s.phases[i] == NotStarted
    && t == At(s, i, Arriving).(aliveCount := s.aliveCount + 1)
  }

  ghost predicate Arrive(s: State, t: State, i: nat) {
    && i < |s.phases| && s.phases[i] == Arriving && LockFree(s)
    && t == At(s, i, Entering).(
         releaseCount := s.releaseCount + 1,
         releaseReady := s.releaseReady || s.releaseCount + 1 == s.aliveCount)
  }

  ghost predicate Park(s: State, t: State, i: nat) {
    i < |s.phases| && s.phases[i] == Entering && t == At(s, i, Parked)
  }

  ghost predicate SpuriousWake(s: State, t: State, i: nat) {
    i < |s.phases| && s.phases[i] == Parked && t == At(s, i, Woken)
  }

  ghost predicate Uncount(s: State, t: State, i: nat) {
    && i < |s.phases| && s.phases[i] == Woken && LockFree(s)
    && t == At(s, i, Released).(releaseCount := s.releaseCount - 1)
  }

  /** A worker leaves; on an error it asks the others to leave as well. */
  ghost predicate Leave(s: State, t: State, i: nat, isError: bool) {
    && i < |s.phases| && LockFree(s)
    && t == At(s, i, Exited).(
         aliveCount := s.aliveCount - 1,
         exit := s.exit || isError,
         error := s.error || isError,
         releaseReady := s.releaseReady || s.aliveCount - 1 == s.releaseCount)
  }

  ghost predicate React(s: State, t: State, i: nat) {
    && i < |s.phases| && s.phases[i] == Released
    && if s.exit then Leave(s, t, i, false) else t == At(s, i, Top(0))
  }

  ghost predicate NextArea(sets: Sets, s: State, t: State, i: nat) {
    && i < |s.phases| == |sets| && s.phases[i].Top?
    && var k := s.phases[i].k;
       if k >= |sets[i]| then t == At(s, i, Arriving)
       else if s.exit then Leave(s, t, i, false)
       else t == At(s, i, Busy(k))
  }

  ghost predicate FinishArea(sets: Sets, s: State, t: State, i: nat) {
    && i < |s.phases| == |sets| == |s.scanned| && s.phases[i].Busy? && s.phases[i].k < |sets[i]|
    && var k := s.phases[i].k;
       t == At(s, i, Top(k + 1)).(scanned := s.scanned[i := s.scanned[i] + [sets[i][k]]])
  }

  ghost predicate FailArea(s: State, t: State, i: nat) {
    i < |s.phases| && s.phases[i].Busy? && Leave(s, t, i, true)
  }

  function Wake(phases: seq<Phase>): seq<Phase> {
    seq(|phases|, i requires 0 <= i < |phases| => if phases[i] == Parked then Woken else phases[i])
  }

  ghost predicate ClearFlags(s: State, t: State) {
    && s.manager == AwaitReady && s.releaseReady
    && t == s.(releaseReady := false, error := false, exit := false, manager := Cleared)
  }

  ghost predicate Broadcast(s: State, t: State) {
    && (s.manager == Cleared || s.manager == Killing)
    && t == s.(phases := Wake(s.phases), manager := if s.manager == Cleared then AwaitDone else Killing)
  }

  ghost predicate Return(s: State, t: State) {
    s.manager == AwaitDone && s.releaseReady && t == s.(manager := Returned(if s.error then -1 else 0))
  }

  ghost predicate BeginKill(s: State, t: State) {
    (s.manager == AwaitReady || s.manager.Returned?) && t == s.(exit := true, manager := Killing)
  }

  /** A step of worker `i`, spurious wakeups aside. */
  ghost predicate WorkerStep(sets: Sets, s: State, t: State, i: nat) {
    || Start(s, t, i) || Arrive(s, t, i) || Park(s, t, i) || Uncount(s, t, i)
    || React(s, t, i) || NextArea(sets, s, t, i) || FinishArea(sets, s, t, i) || FailArea(s, t, i)
  }

  ghost predicate ManagerStep(s: State, t: State) {
    ClearFlags(s, t) || Broadcast(s, t) || Return(s, t) || BeginKill(s, t)
  }

  ghost predicate Next(sets: Sets, s: State, t: State) {
    ManagerStep(s, t) || exists i: nat :: WorkerStep(sets, s, t, i) || SpuriousWake(s, t, i)
  }

  // ----- the counters, in every reachable state -----

  predicate Counted(p: Phase) {
    p == Entering || p == Parked || p == Woken
  }

  predicate Alive(p: Phase) {
    p != NotStarted && p != Exited
  }

  function CountedIn(phases: seq<Phase>): nat {
    if phases == [] then 0
    else CountedIn(phases[..|phases| - 1]) + if Counted(phases[|phases| - 1]) then 1 else 0
  }

  function AliveIn(phases: seq<Phase>): nat {
    if phases == [] then 0
    else AliveIn(phases[..|phases| - 1]) + if Alive(phases[|phases| - 1]) then 1 else 0
  }

  /** The counters say how many workers are between counting and uncounting themselves, and how
      many have started and not left. */
  ghost predicate CountersRight(s: State) {
    s.releaseCount == CountedIn(s.phases) && s.aliveCount == AliveIn(s.phases)
  }

  lemma {:induction false} CountsUpdate(phases: seq<Phase>, i: nat, p: Phase)
    requires i < |phases|
    ensures CountedIn(phases[i := p]) ==
            CountedIn(phases) - (if Counted(phases[i]) then 1 else 0) + if Counted(p) then 1 else 0
    ensures AliveIn(phases[i := p]) ==
            AliveIn(phases) - (if Alive(phases[i]) then 1 else 0) + if Alive(p) then 1 else 0
  {
    var n := |phases| - 1;
    if i == n {
      assert phases[i := p][..n] == phases[..n];
    } else {
      assert phases[i := p][..n] == phases[..n][i := p];
      CountsUpdate(phases[..n], i, p);
    }
  }

  lemma {:induction false} CountsWake(phases: seq<Phase>)
    ensures CountedIn(Wake(phases)) == CountedIn(phases) && AliveIn(Wake(phases)) == AliveIn(phases)
  {
    if phases != [] {
      var n := |phases| - 1;
      assert Wake(phases)[..n] == Wake(phases[..n]);
      CountsWake(phases[..n]);
    }
  }

  lemma {:induction false} CountedAreAlive(phases: seq<Phase>)
    ensures CountedIn(phases) <= AliveIn(phases)
    ensures CountedIn(phases) == AliveIn(phases) <==>
            forall i :: 0 <= i < |phases| && Alive(phases[i]) ==> Counted(phases[i])
  {
    if phases != [] {
      var n := |phases| - 1;
      CountedAreAlive(phases[..n]);
    }
  }

  /** What every step of a worker does to the phases, the counters and the flags. */
  ghost predicate Moved(s: State, t: State, i: nat) {
    && i < |s.phases| == |t.phases| && t.manager == s.manager && (s.exit ==> t.exit)
    && var p, q := s.phases[i], t.phases[i];
       && t.phases == s.phases[i := q]
       && t.releaseCount == s.releaseCount - (if Counted(p) then 1 else 0) + (if Counted(q) then 1 else 0)
       && t.aliveCount == s.aliveCount - (if Alive(p) then 1 else 0) + (if Alive(q) then 1 else 0)
  }

  lemma WaitMoves(s: State, t: State, i: nat)
    requires Start(s, t, i) || Arrive(s, t, i) || Park(s, t, i) || Uncount(s, t, i) || SpuriousWake(s, t, i)
    ensures Moved(s, t, i)
  {
  }

  lemma ScanMoves(sets: Sets, s: State, t: State, i: nat)
    requires React(s, t, i) || NextArea(sets, s, t, i) || FinishArea(sets, s, t, i) || FailArea(s, t, i)
    ensures Moved(s, t, i)
  {
  }

  lemma StepMoves(sets: Sets, s: State, t: State, i: nat)
    requires WorkerStep(sets, s, t, i) || SpuriousWake(s, t, i)
    ensures Moved(s, t, i)
  {
    if React(s, t, i) || NextArea(sets, s, t, i) || FinishArea(sets, s, t, i) || FailArea(s, t, i) {
      ScanMoves(sets, s, t, i);
    } else {
      WaitMoves(s, t, i);
    }
  }

  lemma CountersMoved(s: State, t: State, i: nat)
    requires CountersRight(s) && Moved(s, t, i)
    ensures CountersRight(t)
  {
    CountsUpdate(s.phases, i, t.phases[i]);
  }

  lemma CountersStep(sets: Sets, s: State, t: State)
    requires CountersRight(s) && Next(sets, s, t)
    ensures CountersRight(t)
  {
    if ManagerStep(s, t) {
      CountsWake(s.phases);
    } else {
      var i: nat :| WorkerStep(sets, s, t, i) || SpuriousWake(s, t, i);
      StepMoves(sets, s, t, i);
      CountersMoved(s, t, i);
    }
  }

  ghost predicate Unstarted(s: State) {
    && s.releaseCount == 0 && s.aliveCount == 0
    && forall i :: 0 <= i < |s.phases| ==> s.phases[i] == NotStarted
  }

  ghost predicate IsRun(sets: Sets, run: seq<State>) {
    run != [] && forall i :: 0 <= i < |run| - 1 ==> Next(sets, run[i], run[i + 1])
  }

  lemma {:induction false} UnstartedCounts(phases: seq<Phase>)
    requires forall i :: 0 <= i < |phases| ==> phases[i] == NotStarted
    ensures CountedIn(phases) == 0 && AliveIn(phases) == 0
  {
    if phases != [] {
      UnstartedCounts(phases[..|phases| - 1]);
    }
  }

  /** In every state of every run from an unstarted pool, spurious wakeups included, the counters
      are right and the release count never exceeds the alive count. */
  lemma {:induction false} CountersInvariant(sets: Sets, run: seq<State>)
    requires IsRun(sets, run) && Unstarted(run[0])
    ensures CountersRight(run[|run| - 1])
    ensures 0 <= run[|run| - 1].releaseCount <= run[|run| - 1].aliveCount
  {
    var n := |run| - 1;
    if n == 0 {
      UnstartedCounts(run[0].phases);
    } else {
      CountersInvariant(sets, run[..n]);
      assert Next(sets, run[n - 1], run[n]);
      CountersStep(sets, run[n - 1], run[n]);
    }
    CountedAreAlive(run[n].phases);
  }

  // ----- what a raised flag means -----

  /** A worker that is neither scanning nor on its way to or from it. */
  ghost predicate Idle(p: Phase) {
    p == Entering || p == Parked || !Alive(p)
  }

  /** When an arriving worker raises the flag, every live worker is counted. So all live workers
      are done if and only if none of them is woken but not yet uncounted. */
  lemma RaisedExactly(s: State, t: State, i: nat)
    requires CountersRight(s) && Arrive(s, t, i) && !s.releaseReady && t.releaseReady
    ensures forall j :: 0 <= j < |t.phases| && Alive(t.phases[j]) ==> Counted(t.phases[j])
    ensures (forall j :: 0 <= j < |t.phases| ==> Idle(t.phases[j])) <==>
            forall j :: 0 <= j < |t.phases| ==> t.phases[j] != Woken
  {
    CountsUpdate(s.phases, i, Entering);
    CountedAreAlive(t.phases);
  }
}
