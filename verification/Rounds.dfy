/** The barrier and the scan joined: which visits a single run of the pool makes, and when these are
    all the visits a depth needs. */
module Rounds {
  import opened Barrier
  import opened BarrierRun
  import opened BarrierRaces
  import opened ScanWorker
  import opened WorkDivision
  import opened Growth
  import opened Paths
  import opened Independence

  /** Every worker has scanned the first areas of its set. */
  ghost predicate ScannedFirst(sets: seq<seq<nat>>, scanned: seq<seq<nat>>) {
    |scanned| == |sets| && forall w :: 0 <= w < |sets| ==> scanned[w] <= sets[w]
  }

  /** The areas still to scan. */
  function Rest(sets: seq<seq<nat>>, scanned: seq<seq<nat>>): (rest: seq<seq<nat>>)
    requires ScannedFirst(sets, scanned)
    ensures |rest| == |sets|
  {
    seq(|sets|, w requires 0 <= w < |sets| => sets[w][|scanned[w]|..])
  }

  lemma {:induction false} RestSplits(sets: seq<seq<nat>>, scanned: seq<seq<nat>>)
    requires ScannedFirst(sets, scanned)
    ensures multiset(Flatten(sets)) == multiset(Flatten(scanned)) + multiset(Flatten(Rest(sets, scanned)))
  {
    if sets != [] {
      var n := |sets| - 1;
      RestSplits(sets[..n], scanned[..n]);
      assert Rest(sets, scanned)[..n] == Rest(sets[..n], scanned[..n]);
      assert sets[n] == scanned[n] + Rest(sets, scanned)[n];
    }
  }

  lemma {:induction false} FlattenEmpty(sets: seq<seq<nat>>)
    requires Flatten(sets) == []
    ensures forall w :: 0 <= w < |sets| ==> sets[w] == []
  {
    if sets != [] {
      FlattenEmpty(sets[..|sets| - 1]);
    }
  }

  /** Every area of a scan is visited at least once. */
  lemma AreaIsVisited(s: Setup, n: nat)
    requires ValidSetup(s) && n in s.nodes
    ensures n < |s.vmap.areas| && VisitsOfNode(s)(n) != multiset{}
  {
    var i :| 0 <= i < |s.nodes| && s.nodes[i] == n;
    var area := s.vmap.areas[n];
    assert Scannable(area, s.page, s.width, s.opts.alignment);
    AreaVisitsAt(s.mem, n, area, s.page, s.width, s.opts.alignment, 0);
    var calls := AreaVisits(s.mem, n, area, s.page, s.width, s.opts.alignment);
    assert RoundUp(area.Size(), s.opts.alignment) >= s.opts.alignment;
    assert calls[|calls| - 1] in multiset(calls);
  }

  lemma {:induction false} NothingLeft(s: Setup, rest: seq<nat>)
    requires ValidSetup(s) && (forall i :: 0 <= i < |rest| ==> rest[i] in s.nodes)
    ensures MSum(rest, VisitsOfNode(s)) == multiset{} ==> rest == []
  {
    if rest != [] {
      var n := |rest| - 1;
      AreaIsVisited(s, rest[n]);
      var c :| c in VisitsOfNode(s)(rest[n]);
      assert c in MSum(rest, VisitsOfNode(s));
    }
  }

  lemma {:induction false} RestInNodes(s: Setup, sets: seq<seq<nat>>, scanned: seq<seq<nat>>)
    requires ScannedFirst(sets, scanned) && AllNodes(sets) == multiset(s.nodes)
    ensures var rest := Flatten(Rest(sets, scanned)); forall i :: 0 <= i < |rest| ==> rest[i] in s.nodes
  {
    var rest := Flatten(Rest(sets, scanned));
    RestSplits(sets, scanned);
    FlattenNodes(sets);
    forall i | 0 <= i < |rest|
      ensures rest[i] in s.nodes
    {
      assert rest[i] in multiset(rest);
      assert rest[i] in multiset(s.nodes);
    }
  }

  /** The calls for what has been scanned and those for what has not are all the calls. */
  lemma {:induction false} VisitsSplit(s: Setup, sets: seq<seq<nat>>, scanned: seq<seq<nat>>)
    requires ValidSetup(s) && SetsInMap(s, sets) && AllNodes(sets) == multiset(s.nodes)
    requires ScannedFirst(sets, scanned) && SetsInMap(s, scanned)
    ensures multiset(AllVisits(s)) ==
            multiset(Flatten(WorkerCalls(s, scanned))) + MSum(Flatten(Rest(sets, scanned)), VisitsOfNode(s))
  {
    var f := VisitsOfNode(s);
    var first, rest := Flatten(scanned), Flatten(Rest(sets, scanned));
    RestSplits(sets, scanned);
    FlattenNodes(sets);
    SetVisitsSum(s, s.nodes);
    MSumPermutation(s.nodes, first + rest, f);
    MSumConcat(first, rest, f);
    WorkerCallsSum(s, scanned);
  }

  /** If the calls for what has been scanned are all the calls, nothing is left. */
  lemma {:induction false} NothingMissing(s: Setup, sets: seq<seq<nat>>, scanned: seq<seq<nat>>)
    requires ValidSetup(s) && SetsInMap(s, sets) && AllNodes(sets) == multiset(s.nodes)
    requires ScannedFirst(sets, scanned) && SetsInMap(s, scanned)
    requires multiset(Flatten(WorkerCalls(s, scanned))) == multiset(AllVisits(s))
    ensures scanned == sets
  {
    VisitsSplit(s, sets, scanned);
    RestInNodes(s, sets, scanned);
    NothingAdded(multiset(AllVisits(s)), MSum(Flatten(Rest(sets, scanned)), VisitsOfNode(s)));
    NothingLeft(s, Flatten(Rest(sets, scanned)));
    FlattenEmpty(Rest(sets, scanned));
    AllScanned(sets, scanned);
  }

  lemma NothingAdded<T>(a: multiset<T>, b: multiset<T>)
    requires a == a + b
    ensures b == multiset{}
  {
    forall x: T
      ensures b[x] == 0
    {
      assert (a + b)[x] == a[x] + b[x];
    }
  }

  lemma {:induction false} AllScanned(sets: seq<seq<nat>>, scanned: seq<seq<nat>>)
    requires ScannedFirst(sets, scanned) && forall w :: 0 <= w < |sets| ==> Rest(sets, scanned)[w] == []
    ensures scanned == sets
  {
    forall w | 0 <= w < |sets|
      ensures scanned[w] == sets[w]
    {
      assert Rest(sets, scanned)[w] == [];
    }
  }

  /** What a run has scanned makes a full run of the scan exactly if nothing is left. */
  lemma {:induction false} FullExactly(s: Setup, sets: seq<seq<nat>>, scanned: seq<seq<nat>>, schedule: seq<nat>)
    requires ValidSetup(s) && SetsInMap(s, sets) && AllNodes(sets) == multiset(s.nodes)
    requires ScannedFirst(sets, scanned) && SetsInMap(s, scanned)
    requires CompleteSchedule(schedule, WorkerCalls(s, scanned))
    ensures FullRun(s, Interleave(WorkerCalls(s, scanned), schedule)) <==> scanned == sets
  {
    InterleaveIsPermutation(WorkerCalls(s, scanned), schedule);
    if FullRun(s, Interleave(WorkerCalls(s, scanned), schedule)) {
      NothingMissing(s, sets, scanned);
    }
    if scanned == sets {
      DivisionMakesFullRun(s, sets, schedule);
    }
  }

  /** What has been scanned lies in the map, as the theorems about its calls ask. */
  lemma FirstInMap(s: Setup, sets: seq<seq<nat>>, scanned: seq<seq<nat>>)
    requires SetsInMap(s, sets) && ScannedFirst(sets, scanned)
    ensures SetsInMap(s, scanned)
  {
    forall w | 0 <= w < |scanned|
      ensures SetInMap(s, scanned[w])
    {
      assert SetInMap(s, sets[w]);
    }
  }

  lemma UnderwayFirst(sets: seq<seq<nat>>, missed: set<int>, t: State)
    requires PlainInv(sets, missed, t)
    ensures ScannedFirst(sets, t.scanned)
  {
    forall w | 0 <= w < |sets|
      ensures t.scanned[w] <= sets[w]
    {
      if w !in missed {
        assert ProgressAt(sets[w], t.phases[w], t.scanned[w]);
      }
    }
  }

  /** One depth of a scan, disciplined. When the run of the pool returns 0, the calls made for what
      the workers have scanned, in any order they reached the tree, are a full run. */
  lemma {:induction false} DisciplinedRunIsFull(s: Setup, sets: seq<seq<nat>>, run: seq<State>, schedule: seq<nat>)
    requires ValidSetup(s) && SetsInMap(s, sets) && AllNodes(sets) == multiset(s.nodes)
    requires IsDisciplinedRun(sets, run) && RoundStart(sets, run[0]) && run[|run| - 1].manager == Returned(0)
    requires CompleteSchedule(schedule, WorkerCalls(s, sets))
    ensures run[|run| - 1].scanned == sets
    ensures FullRun(s, Interleave(WorkerCalls(s, sets), schedule))
  {
    RunScansEverything(sets, run);
    DivisionMakesFullRun(s, sets, schedule);
  }

  lemma {:induction false} RaisedFirst(s: Setup, sets: seq<seq<nat>>, run: seq<State>, n: nat)
    requires ValidSetup(s) && SetsInMap(s, sets)
    requires IsPlainRun(sets, run) && Opening(sets, run[0]) && WakesAt(run, n)
    ensures ScannedFirst(sets, run[|run| - 1].scanned) && SetsInMap(s, run[|run| - 1].scanned)
  {
    var t := run[|run| - 1];
    PlainInvariant(sets, run, n);
    UnderwayFirst(sets, MissedIn(run[n]), t);
    FirstInMap(s, sets, t.scanned);
  }

  /** One depth of a scan, disciplined or not, with a pool in any condition. At the first moment at
      which the manager may return 0, the calls made so far, in any order they reached the tree, are a
      full run exactly if no worker with areas was left behind. */
  lemma {:induction false} RaisedIsFullExactly(s: Setup, sets: seq<seq<nat>>, run: seq<State>, n: nat)
    requires ValidSetup(s) && SetsInMap(s, sets) && AllNodes(sets) == multiset(s.nodes)
    requires IsPlainRun(sets, run) && Opening(sets, run[0]) && WakesAt(run, n)
    requires FirstUp(run[|run| - 2], run[|run| - 1])
    ensures SetsInMap(s, run[|run| - 1].scanned)
    ensures var t := run[|run| - 1];
      forall schedule :: CompleteSchedule(schedule, WorkerCalls(s, t.scanned)) ==>
        (FullRun(s, Interleave(WorkerCalls(s, t.scanned), schedule)) <==>
         forall j: nat :: j < |sets| && LeftBehind(MissedIn(run[n]), t, j) ==> sets[j] == [])
  {
    var t := run[|run| - 1];
    RaisedFirst(s, sets, run, n);
    RaisedTruthfully(sets, run, n);
    forall schedule | CompleteSchedule(schedule, WorkerCalls(s, t.scanned))
      ensures FullRun(s, Interleave(WorkerCalls(s, t.scanned), schedule)) <==> t.scanned == sets
    {
      FullExactly(s, sets, t.scanned, schedule);
    }
  }
}
