/** The workers of one level as a state machine. A worker compares its word with the parents
    without a lock and then adds the matches in one batch under the tree's mutex, so other
    batches may be added in between. */
module LevelRun {
  import opened Target
  import opened PtrscanTree
  import opened ScanWorker
  import opened Matching
  import opened Growth

  /** What the level run is about: the calls every worker has to make, against fixed parents. */
  datatype Job = Job(opts: PtrOptions, depth: nat, calls: seq<seq<Call>>, parents: seq<TreeNode>)

  /** `done` counts a worker's finished calls; `batch` holds matches not yet added. */
  datatype Progress = Progress(done: nat, batch: Option<seq<Candidate>>)

  /** `order` records which worker added each batch. */
  datatype State = State(workers: seq<Progress>, level: seq<Candidate>, order: seq<nat>)

  ghost predicate WellFormed(j: Job) {
    0 < j.depth && forall w :: 0 <= w < |j.calls| ==> GoodCalls(j.calls[w])
  }

  ghost predicate Init(j: Job, s: State) {
    && |s.workers| == |j.calls| && s.level == [] && s.order == []
    && forall w :: 0 <= w < |s.workers| ==> s.workers[w] == Progress(0, None)
  }

  ghost predicate Match(j: Job, s: State, t: State, w: nat)
    requires WellFormed(j)
  {
    && w < |s.workers| == |j.calls|
    && s.workers[w].batch.None? && s.workers[w].done < |j.calls[w]|
    && var batch := Additions(j.opts, j.depth, j.calls[w][s.workers[w].done], j.parents);
       t == s.(workers := s.workers[w := s.workers[w].(batch := Some(batch))])
  }

  ghost predicate Commit(s: State, t: State, w: nat) {
    && w < |s.workers| && s.workers[w].batch.Some?
    && t == State(s.workers[w := Progress(s.workers[w].done + 1, None)],
                  s.level + s.workers[w].batch.value, s.order + [w])
  }

  ghost predicate Next(j: Job, s: State, t: State)
    requires WellFormed(j)
  {
    exists w :: Match(j, s, t, w) || Commit(s, t, w)
  }

  ghost predicate Finished(j: Job, s: State) {
    && |s.workers| == |j.calls|
    && forall w :: 0 <= w < |s.workers| ==> s.workers[w] == Progress(|j.calls[w]|, None)
  }

  ghost predicate IsRun(j: Job, run: seq<State>)
    requires WellFormed(j)
  {
    && run != [] && Init(j, run[0])
    && forall i :: 0 <= i < |run| - 1 ==> Next(j, run[i], run[i + 1])
  }

  /** The level is what the added batches would have made one call at a time. */
  ghost predicate Inv(j: Job, s: State)
    requires WellFormed(j)
  {
    && |s.workers| == |j.calls|
    && (forall i :: 0 <= i < |s.order| ==> s.order[i] < |j.calls|)
    && (forall w :: 0 <= w < |j.calls| ==> Turns(s.order, w) == s.workers[w].done <= |j.calls[w]|)
    && (forall w :: 0 <= w < |j.calls| && s.workers[w].batch.Some? ==>
          && s.workers[w].done < |j.calls[w]|
          && s.workers[w].batch.value == Additions(j.opts, j.depth, j.calls[w][s.workers[w].done], j.parents))
    && TurnsFit(j.calls, s.order)
    && GoodCalls(Interleave(j.calls, s.order))
    && s.level == Grow(j.opts, j.depth, Interleave(j.calls, s.order), j.parents)
  }

  lemma InitInv(j: Job, s: State)
    requires WellFormed(j) && Init(j, s)
    ensures Inv(j, s)
  {
  }

  lemma MatchInv(j: Job, s: State, t: State, w: nat)
    requires WellFormed(j) && Inv(j, s) && Match(j, s, t, w)
    ensures Inv(j, t)
  {
  }

  lemma {:induction false} CommitTurns(j: Job, s: State, t: State, w: nat)
    requires WellFormed(j) && Inv(j, s) && Commit(s, t, w)
    ensures forall v :: 0 <= v < |j.calls| ==> Turns(t.order, v) == t.workers[v].done <= |j.calls[v]|
    ensures TurnsFit(j.calls, t.order)
  {
    assert t.order[..|s.order|] == s.order;
    forall v | 0 <= v < |j.calls|
      ensures Turns(t.order, v) == t.workers[v].done <= |j.calls[v]|
    {
      assert Turns(s.order, v) == s.workers[v].done;
    }
  }

  lemma CommitLevel(j: Job, s: State, t: State, w: nat)
    requires WellFormed(j) && Inv(j, s) && Commit(s, t, w) && TurnsFit(j.calls, t.order)
    ensures GoodCalls(Interleave(j.calls, t.order))
    ensures t.level == Grow(j.opts, j.depth, Interleave(j.calls, t.order), j.parents)
  {
    assert t.order[..|s.order|] == s.order;
    var before, after := Interleave(j.calls, s.order), Interleave(j.calls, t.order);
    assert after == before + [j.calls[w][s.workers[w].done]];
    assert after[..|before|] == before;
  }

  lemma CommitInv(j: Job, s: State, t: State, w: nat)
    requires WellFormed(j) && Inv(j, s) && Commit(s, t, w)
    ensures Inv(j, t)
  {
    CommitTurns(j, s, t, w);
    CommitLevel(j, s, t, w);
  }

  lemma {:induction false} RunInv(j: Job, run: seq<State>)
    requires WellFormed(j) && IsRun(j, run)
    ensures Inv(j, run[|run| - 1])
  {
    var n := |run| - 1;
    if n == 0 {
      InitInv(j, run[0]);
    } else {
      RunInv(j, run[..n]);
      var w :| Match(j, run[n - 1], run[n], w) || Commit(run[n - 1], run[n], w);
      if Match(j, run[n - 1], run[n], w) {
        MatchInv(j, run[n - 1], run[n], w);
      } else {
        CommitInv(j, run[n - 1], run[n], w);
      }
    }
  }

  /** Every finished run leaves the level that some schedule of whole calls leaves. */
  lemma RunIsSchedule(j: Job, run: seq<State>)
    requires WellFormed(j) && IsRun(j, run) && Finished(j, run[|run| - 1])
    ensures var s := run[|run| - 1];
            && CompleteSchedule(s.order, j.calls)
            && GoodCalls(Interleave(j.calls, s.order))
            && s.level == Grow(j.opts, j.depth, Interleave(j.calls, s.order), j.parents)
  {
    RunInv(j, run);
    var s := run[|run| - 1];
    forall w | 0 <= w < |j.calls|
      ensures Turns(s.order, w) == |j.calls[w]|
    {
      assert s.workers[w] == Progress(|j.calls[w]|, None);
    }
  }
}
