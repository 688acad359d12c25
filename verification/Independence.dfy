/** The result of a plain scan depends on the areas scanned, not on how they were divided between
    workers or in what order the workers' batches reached the tree. */
module Independence {
  import opened Target
  import opened PtrscanTree
  import opened ScanWorker
  import opened WorkDivision
  import opened Matching
  import opened Growth
  import opened Paths

  // ----- any division and schedule make a full run -----

  ghost predicate SetsInMap(s: Setup, sets: seq<seq<nat>>) {
    forall w :: 0 <= w < |sets| ==> SetInMap(s, sets[w])
  }

  ghost predicate SetInMap(s: Setup, nodes: seq<nat>) {
    forall i :: 0 <= i < |nodes| ==> nodes[i] < |s.vmap.areas|
  }

  /** The calls every worker makes for its set. */
  ghost function WorkerCalls(s: Setup, sets: seq<seq<nat>>): (calls: seq<seq<Call>>)
    requires ValidSetup(s) && SetsInMap(s, sets)
    ensures |calls| == |sets|
  {
    if sets == [] then []
    else
      var n := |sets| - 1;
      WorkerCalls(s, sets[..n]) + [SetVisits(s.mem, s.vmap, sets[n], s.page, s.width, s.opts.alignment)]
  }

  lemma {:induction false} WorkerCallsAt(s: Setup, sets: seq<seq<nat>>, w: nat)
    requires ValidSetup(s) && SetsInMap(s, sets) && w < |sets|
    ensures WorkerCalls(s, sets)[w] == SetVisits(s.mem, s.vmap, sets[w], s.page, s.width, s.opts.alignment)
  {
    if w < |sets| - 1 {
      WorkerCallsAt(s, sets[..|sets| - 1], w);
    }
  }

  lemma {:induction false} FlattenInMap(s: Setup, sets: seq<seq<nat>>)
    requires SetsInMap(s, sets)
    ensures SetInMap(s, Flatten(sets))
  {
    if sets != [] {
      FlattenInMap(s, sets[..|sets| - 1]);
      assert SetInMap(s, sets[|sets| - 1]);
    }
  }

  lemma {:induction false} WorkerCallsSum(s: Setup, sets: seq<seq<nat>>)
    requires ValidSetup(s) && SetsInMap(s, sets)
    ensures multiset(Flatten(WorkerCalls(s, sets))) == MSum(Flatten(sets), VisitsOfNode(s))
  {
    if sets != [] {
      var n := |sets| - 1;
      WorkerCallsSum(s, sets[..n]);
      assert SetInMap(s, sets[n]);
      SetVisitsSum(s, sets[n]);
      MSumConcat(Flatten(sets[..n]), sets[n], VisitsOfNode(s));
      var calls := WorkerCalls(s, sets);
      assert calls[..n] == WorkerCalls(s, sets[..n]);
    }
  }

  lemma {:induction false} FlattenNodes(sets: seq<seq<nat>>)
    ensures multiset(Flatten(sets)) == AllNodes(sets)
  {
    if sets != [] {
      FlattenNodes(sets[..|sets| - 1]);
    }
  }

  /** However the scan areas are divided, a complete schedule of the workers' calls makes every
      visit of the scan exactly once. */
  lemma {:induction false} DivisionMakesFullRun(s: Setup, sets: seq<seq<nat>>, schedule: seq<nat>)
    requires ValidSetup(s) && SetsInMap(s, sets) && AllNodes(sets) == multiset(s.nodes)
    requires CompleteSchedule(schedule, WorkerCalls(s, sets))
    ensures FullRun(s, Interleave(WorkerCalls(s, sets), schedule))
  {
    InterleaveIsPermutation(WorkerCalls(s, sets), schedule);
    WorkerCallsSum(s, sets);
    FlattenNodes(sets);
    MSumPermutation(Flatten(sets), s.nodes, VisitsOfNode(s));
    SetVisitsSum(s, s.nodes);
  }

  // ----- leaves -----

  ghost predicate IsLeaf(levels: Levels, d: nat, n: TreeNode) {
    ChildrenIn(LevelAfter(levels, d), n) == []
  }

  /** The paths of the leaves among the first nodes of level `d`. */
  ghost function LeafPathsIn(levels: Levels, d: nat, level: seq<TreeNode>): seq<Path>
    requires RootedLevel(level, d)
  {
    if level == [] then []
    else
      var n := |level| - 1;
      LeafPathsIn(levels, d, level[..n]) + if IsLeaf(levels, d, level[n]) then [PathOf(level[n], d)] else []
  }

  ghost predicate RootedLevels(levels: Levels) {
    forall d :: 0 <= d < |levels| ==> RootedLevel(levels[d], d)
  }

  lemma LayeredIsRooted(levels: Levels)
    requires Layered(levels)
    ensures RootedLevels(levels)
  {
  }

  /** The paths of all leaves of the first `upTo` levels, in level order. */
  ghost function LeafPaths(levels: Levels, upTo: nat): seq<Path>
    requires RootedLevels(levels) && upTo <= |levels|
  {
    if upTo == 0 then [] else LeafPaths(levels, upTo - 1) + LeafPathsIn(levels, upTo - 1, levels[upTo - 1])
  }

  /** Some call of a run is accepted for an address. */
  ghost predicate SomeAccepted(opts: PtrOptions, depth: nat, calls: seq<Call>, own: Address)
    requires 0 < depth
  {
    exists k :: 0 <= k < |calls| && GoodCall(calls[k]) && Accepts(opts, depth, own, Pointer(calls[k]))
  }

  lemma {:induction false} AcceptedComplete(opts: PtrOptions, depth: nat, p: Address, level: seq<TreeNode>, q: TreeNode)
    requires 0 < depth && q in level && Accepts(opts, depth, q.ownAddr, p)
    ensures q in Accepted(opts, depth, p, level)
  {
    var n := |level| - 1;
    if q != level[n] {
      assert q in level[..n];
      AcceptedComplete(opts, depth, p, level[..n], q);
    }
  }

  lemma {:induction false} GrowCovers(opts: PtrOptions, depth: nat, calls: seq<Call>, parents: seq<TreeNode>, k: nat,
                                      q: TreeNode)
    requires 0 < depth && GoodCalls(calls) && !opts.smartScan && k < |calls|
    requires q in parents && Accepts(opts, depth, q.ownAddr, Pointer(calls[k]))
    ensures Candidate(calls[k].addr, Pointer(calls[k]), q, calls[k].node) in Grow(opts, depth, calls, parents)
  {
    var n := |calls| - 1;
    if k == n {
      var ms := Accepted(opts, depth, Pointer(calls[n]), parents);
      AcceptedComplete(opts, depth, Pointer(calls[n]), parents, q);
      var i :| 0 <= i < |ms| && ms[i] == q;
      assert Candidates(calls[n], ms)[i] == Candidate(calls[k].addr, Pointer(calls[k]), q, calls[k].node);
    } else {
      GrowCovers(opts, depth, calls[..n], parents, k, q);
    }
  }

  lemma {:induction false} SomeChildIn(level: seq<TreeNode>, p: TreeNode, i: nat)
    requires i < |level| && level[i].parent == p
    ensures ChildrenIn(level, p) != []
  {
    if i < |level| - 1 {
      SomeChildIn(level[..|level| - 1], p, i);
    }
  }

  /** In a plain scan a node stays childless exactly if no call of the next level is accepted for
      its address. */
  lemma LeafExact(s: Setup, levels: Levels, runs: seq<seq<Call>>, d: nat, i: nat)
    requires ValidSetup(s) && ScanTree(s, levels, runs) && !s.opts.smartScan
    requires d < |levels| && i < |levels[d]|
    ensures IsLeaf(levels, d, levels[d][i]) <==>
            d == s.opts.maxDepth || !SomeAccepted(s.opts, d + 1, runs[d], levels[d][i].ownAddr)
  {
    if d < s.opts.maxDepth {
      GrownBelow(s, levels, runs, d);
      BelowLeafExact(s.opts, levels, d, runs[d], levels[d][i]);
    }
  }

  lemma BelowLeafExact(opts: PtrOptions, levels: Levels, d: nat, calls: seq<Call>, n: TreeNode)
    requires d + 1 < |levels| && n in levels[d] && !opts.smartScan && GoodCalls(calls) && HaveParents(levels[d + 1])
    requires Views(levels[d + 1]) == Grow(opts, d + 1, calls, levels[d])
    ensures IsLeaf(levels, d, n) <==> !SomeAccepted(opts, d + 1, calls, n.ownAddr)
  {
    LevelLeafExact(opts, d + 1, calls, levels[d], levels[d + 1], n);
  }

  lemma GrownBelow(s: Setup, levels: Levels, runs: seq<seq<Call>>, d: nat)
    requires ValidSetup(s) && ScanTree(s, levels, runs) && d < s.opts.maxDepth
    ensures d < |runs| && d + 1 < |levels| && GoodCalls(runs[d]) && HaveParents(levels[d + 1])
    ensures Views(levels[d + 1]) == Grow(s.opts, d + 1, runs[d], levels[d])
  {
    assert LevelGrown(s, levels, runs, d + 1);
  }

  lemma {:induction false} LevelLeafExact(opts: PtrOptions, depth: nat, calls: seq<Call>, parents: seq<TreeNode>,
                                          level: seq<TreeNode>,
                       n: TreeNode)
    requires 0 < depth && GoodCalls(calls) && !opts.smartScan && HaveParents(level)
    requires Views(level) == Grow(opts, depth, calls, parents) && n in parents
    ensures ChildrenIn(level, n) == [] <==> !SomeAccepted(opts, depth, calls, n.ownAddr)
  {
    if SomeAccepted(opts, depth, calls, n.ownAddr) {
      var k :| 0 <= k < |calls| && GoodCall(calls[k]) && Accepts(opts, depth, n.ownAddr, Pointer(calls[k]));
      GrowCovers(opts, depth, calls, parents, k, n);
      var c := Candidate(calls[k].addr, Pointer(calls[k]), n, calls[k].node);
      var i :| 0 <= i < |level| && Views(level)[i] == c;
      SomeChildIn(level, n, i);
    } else {
      forall i | 0 <= i < |level|
        ensures level[i].parent != n
      {
        var c := Views(level)[i];
        assert c in Grow(opts, depth, calls, parents);
        GrowOrigin(opts, depth, calls, parents, c);
      }
      NoChildrenIn(level, n);
    }
  }

  /** No call of the next level is accepted for the first address of a path. */
  ghost predicate Unextended(opts: PtrOptions, depth: nat, calls: seq<Call>, p: Path)
    requires 0 < depth
  {
    p != [] && (opts.maxDepth < depth || !SomeAccepted(opts, depth, calls, p[0].ownAddr))
  }

  /** Keeps a path if no call of the next level is accepted for its first address. */
  ghost function LeafFilter(opts: PtrOptions, depth: nat, calls: seq<Call>): Path -> multiset<Path>
    requires 0 < depth
  {
    (p: Path) => if Unextended(opts, depth, calls, p) then multiset{p} else multiset{}
  }

  /** `f` keeps exactly the paths of the leaves of `level`. */
  ghost predicate KeepsLeaves(levels: Levels, d: nat, level: seq<TreeNode>, f: Path -> multiset<Path>)
    requires RootedLevel(level, d)
  {
    forall i :: 0 <= i < |level| ==>
      f(PathOf(level[i], d)) == if IsLeaf(levels, d, level[i]) then multiset{PathOf(level[i], d)} else multiset{}
  }

  lemma {:induction false} LeafPathsSum(levels: Levels, d: nat, level: seq<TreeNode>, f: Path -> multiset<Path>)
    requires RootedLevel(level, d) && KeepsLeaves(levels, d, level, f)
    ensures multiset(LeafPathsIn(levels, d, level)) == MSum(LevelPaths(level, d), f)
  {
    if level != [] {
      LeafPathsSum(levels, d, level[..|level| - 1], f);
      LeafPathsSumStep(levels, d, level, f);
    }
  }

  ghost function CallsAfter(runs: seq<seq<Call>>, d: nat): seq<Call> {
    if d < |runs| then runs[d] else []
  }

  lemma {:induction false} LeafPathsSumStep(levels: Levels, d: nat, level: seq<TreeNode>, f: Path -> multiset<Path>)
    requires level != [] && RootedLevel(level, d) && RootedLevel(level[..|level| - 1], d)
    requires var n := |level| - 1;
             && multiset(LeafPathsIn(levels, d, level[..n])) == MSum(LevelPaths(level[..n], d), f)
             && f(PathOf(level[n], d)) ==
               if IsLeaf(levels, d, level[n]) then multiset{PathOf(level[n], d)} else multiset{}
    ensures multiset(LeafPathsIn(levels, d, level)) == MSum(LevelPaths(level, d), f)
  {
    var n := |level| - 1;
    assert LevelPaths(level, d)[..n] == LevelPaths(level[..n], d);
  }

  lemma {:induction false} LeafFilterAt(s: Setup, levels: Levels, runs: seq<seq<Call>>, d: nat, i: nat)
    requires ValidSetup(s) && ScanTree(s, levels, runs) && !s.opts.smartScan && d < |levels| && i < |levels[d]|
    ensures Rooted(levels[d][i], d)
    ensures LeafFilter(s.opts, d + 1, CallsAfter(runs, d))(PathOf(levels[d][i], d)) ==
            if IsLeaf(levels, d, levels[d][i]) then multiset{PathOf(levels[d][i], d)} else multiset{}
  {
    LeafExact(s, levels, runs, d, i);
  }

  lemma LevelKeepsLeaves(s: Setup, levels: Levels, runs: seq<seq<Call>>, d: nat)
    requires ValidSetup(s) && ScanTree(s, levels, runs) && !s.opts.smartScan && d < |levels|
    ensures RootedLevel(levels[d], d)
    ensures KeepsLeaves(levels, d, levels[d], LeafFilter(s.opts, d + 1, CallsAfter(runs, d)))
  {
    forall i | 0 <= i < |levels[d]|
      ensures LeafFilter(s.opts, d + 1, CallsAfter(runs, d))(PathOf(levels[d][i], d)) ==
              if IsLeaf(levels, d, levels[d][i]) then multiset{PathOf(levels[d][i], d)} else multiset{}
    {
      LeafFilterAt(s, levels, runs, d, i);
    }
  }

  lemma {:induction false} LeavesAtSum(s: Setup, levels: Levels, runs: seq<seq<Call>>, d: nat)
    requires ValidSetup(s) && ScanTree(s, levels, runs) && !s.opts.smartScan && d < |levels|
    ensures RootedLevel(levels[d], d)
    ensures multiset(LeafPathsIn(levels, d, levels[d])) ==
            MSum(LevelPaths(levels[d], d), LeafFilter(s.opts, d + 1, CallsAfter(runs, d)))
  {
    LevelKeepsLeaves(s, levels, runs, d);
    LeafPathsSum(levels, d, levels[d], LeafFilter(s.opts, d + 1, CallsAfter(runs, d)));
  }

  lemma SameCallsAfter(s: Setup, levels: Levels, runs: seq<seq<Call>>, levels': Levels, runs': seq<seq<Call>>, d: nat)
    requires ValidSetup(s) && d <= s.opts.maxDepth
    requires ScanTree(s, levels, runs) && ScanTree(s, levels', runs')
    ensures multiset(CallsAfter(runs, d)) == multiset(CallsAfter(runs', d))
  {
    if d < s.opts.maxDepth {
      assert LevelGrown(s, levels, runs, d + 1) && LevelGrown(s, levels', runs', d + 1);
    }
  }

  /** Whether some call is accepted does not depend on the order of the calls. */
  lemma SomeAcceptedPermutation(opts: PtrOptions, depth: nat, calls: seq<Call>, calls': seq<Call>, own: Address)
    requires 0 < depth && multiset(calls) == multiset(calls') && SomeAccepted(opts, depth, calls, own)
    ensures SomeAccepted(opts, depth, calls', own)
  {
    var k :| 0 <= k < |calls| && GoodCall(calls[k]) && Accepts(opts, depth, own, Pointer(calls[k]));
    assert calls[k] in multiset(calls');
    var j :| 0 <= j < |calls'| && calls'[j] == calls[k];
  }

  lemma {:induction false} LeafFilterPermutation(opts: PtrOptions, depth: nat, calls: seq<Call>, calls': seq<Call>,
                                                 ps: seq<Path>)
    requires 0 < depth && multiset(calls) == multiset(calls')
    ensures MSum(ps, LeafFilter(opts, depth, calls)) == MSum(ps, LeafFilter(opts, depth, calls'))
  {
    var f, f' := LeafFilter(opts, depth, calls), LeafFilter(opts, depth, calls');
    forall i | 0 <= i < |ps|
      ensures f(ps[i]) == f'(ps[i])
    {
      if ps[i] != [] {
        var own := ps[i][0].ownAddr;
        if SomeAccepted(opts, depth, calls, own) {
          SomeAcceptedPermutation(opts, depth, calls, calls', own);
        } else if SomeAccepted(opts, depth, calls', own) {
          SomeAcceptedPermutation(opts, depth, calls', calls, own);
        }
      }
    }
    MSumSame(ps, f, f');
  }

  lemma {:induction false} SameLeavesAt(s: Setup, levels: Levels, runs: seq<seq<Call>>, levels': Levels,
                                        runs': seq<seq<Call>>, d: nat)
    requires ValidSetup(s) && !s.opts.smartScan && d <= s.opts.maxDepth
    requires ScanTree(s, levels, runs) && ScanTree(s, levels', runs')
    requires StepOf(levels[0][0]) == StepOf(levels'[0][0])
    ensures RootedLevel(levels[d], d) && RootedLevel(levels'[d], d)
    ensures multiset(LeafPathsIn(levels, d, levels[d])) == multiset(LeafPathsIn(levels', d, levels'[d]))
  {
    SamePaths(s, levels, runs, s, levels', runs', d);
    LeavesAtSum(s, levels, runs, d);
    LeavesAtSum(s, levels', runs', d);
    SameCallsAfter(s, levels, runs, levels', runs', d);
    LeafFilterPermutation(s.opts, d + 1, CallsAfter(runs, d), CallsAfter(runs', d), LevelPaths(levels[d], d));
    MSumPermutation(LevelPaths(levels[d], d), LevelPaths(levels'[d], d),
                    LeafFilter(s.opts, d + 1, CallsAfter(runs', d)));
  }

  lemma SameConcat<T>(a: seq<T>, b: seq<T>, a': seq<T>, b': seq<T>)
    requires multiset(a) == multiset(a') && multiset(b) == multiset(b')
    ensures multiset(a + b) == multiset(a' + b')
  {
  }

  /** The leaves of level `d` of both trees have the same paths. */
  ghost predicate LevelAgrees(levels: Levels, levels': Levels, d: nat)
    requires RootedLevels(levels) && RootedLevels(levels') && d < |levels| == |levels'|
  {
    multiset(LeafPathsIn(levels, d, levels[d])) == multiset(LeafPathsIn(levels', d, levels'[d]))
  }

  lemma {:induction false} LeafPathsAgree(levels: Levels, levels': Levels, upTo: nat)
    requires RootedLevels(levels) && RootedLevels(levels') && upTo <= |levels| == |levels'|
    requires forall d :: 0 <= d < upTo ==> LevelAgrees(levels, levels', d)
    ensures multiset(LeafPaths(levels, upTo)) == multiset(LeafPaths(levels', upTo))
  {
    if upTo != 0 {
      var d := upTo - 1;
      LeafPathsAgree(levels, levels', d);
      assert LevelAgrees(levels, levels', d);
      SameConcat(LeafPaths(levels, d), LeafPathsIn(levels, d, levels[d]),
                 LeafPaths(levels', d), LeafPathsIn(levels', d, levels'[d]));
    }
  }

  /** Two plain scans of the same areas find the same chains, each as often, whatever the order the
      areas were listed in, the number of workers, the division of the areas and the interleaving of
      the batches. */
  lemma {:induction false} SameLeaves(s: Setup, levels: Levels, runs: seq<seq<Call>>, s': Setup, levels': Levels,
                                      runs': seq<seq<Call>>)
    requires ValidSetup(s) && ValidSetup(s') && SameScan(s, s') && !s.opts.smartScan
    requires ScanTree(s, levels, runs) && ScanTree(s', levels', runs')
    requires StepOf(levels[0][0]) == StepOf(levels'[0][0])
    ensures RootedLevels(levels) && RootedLevels(levels')
    ensures multiset(LeafPaths(levels, |levels|)) == multiset(LeafPaths(levels', |levels'|))
  {
    MovedTree(s', s, levels', runs');
    LayeredIsRooted(levels);
    LayeredIsRooted(levels');
    forall d | 0 <= d < |levels|
      ensures LevelAgrees(levels, levels', d)
    {
      SameLeavesAt(s, levels, runs, levels', runs', d);
    }
    LeafPathsAgree(levels, levels', |levels|);
  }
}
