/** Infinite executions of the pool and what a fair schedule of its workers is. */
module Behaviours {
  import opened Barrier
  import opened BarrierRun

  /** An infinite execution. It may idle at any moment, and for ever once nothing is left to do. */
  type Behaviour = nat -> State

  /** Which steps are taken: those of a disciplined single run, or any, as while the pool is killed. */
  datatype Rules = SingleRun | Anything

  ghost predicate WorkerMoves(rules: Rules, sets: Sets, s: State, t: State, i: nat) {
    match rules
    case SingleRun => DisciplinedWorker(sets, s, t, i)
    case Anything => WorkerStep(sets, s, t, i)
  }

  ghost predicate Allowed(rules: Rules, sets: Sets, s: State, t: State) {
    match rules
    case SingleRun => Disciplined(sets, s, t)
    case Anything => Next(sets, s, t)
  }

  ghost predicate StepAt(rules: Rules, sets: Sets, f: Behaviour, n: nat) {
    f(n + 1) == f(n) || Allowed(rules, sets, f(n), f(n + 1))
  }

  ghost predicate Follows(rules: Rules, sets: Sets, f: Behaviour) {
    forall n: nat :: StepAt(rules, sets, f, n)
  }

  ghost predicate WorkerCan(rules: Rules, sets: Sets, s: State, i: nat) {
    exists t :: WorkerMoves(rules, sets, s, t, i)
  }

  /** At this moment worker `i` moves, or could not. */
  ghost predicate WorkerServed(rules: Rules, sets: Sets, f: Behaviour, i: nat, n: nat) {
    WorkerMoves(rules, sets, f(n), f(n + 1), i) || !WorkerCan(rules, sets, f(n), i)
  }

  ghost predicate WorkerServedFrom(rules: Rules, sets: Sets, f: Behaviour, i: nat, n: nat) {
    exists m: nat :: n <= m && WorkerServed(rules, sets, f, i, m)
  }

  /** Weak fairness: no worker that can move all the time is passed over for ever. */
  ghost predicate WorkersServed(rules: Rules, sets: Sets, f: Behaviour) {
    forall i: nat, n: nat :: i < |sets| ==> WorkerServedFrom(rules, sets, f, i, n)
  }

  ghost predicate FirstChange(rules: Rules, sets: Sets, f: Behaviour, n: nat, k: nat) {
    n < k && f(k) != f(n) && Allowed(rules, sets, f(n), f(k))
  }

  /** Between two moments either nothing happens, or some step is taken first. */
  lemma {:induction false} IdleOrStep(rules: Rules, sets: Sets, f: Behaviour, n: nat, m: nat)
    requires Follows(rules, sets, f) && n <= m
    ensures f(m) == f(n) || exists k: nat :: k <= m && FirstChange(rules, sets, f, n, k)
    decreases m
  {
    if n < m {
      IdleOrStep(rules, sets, f, n, m - 1);
      if f(m - 1) == f(n) {
        assert StepAt(rules, sets, f, m - 1);
        assert f(m) != f(n) ==> FirstChange(rules, sets, f, n, m);
      }
    }
  }
}
