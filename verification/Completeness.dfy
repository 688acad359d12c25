/** The paths and the chains of a plain scan in terms of memory alone: which pointer paths a scan
    finds, and that it finds each of them exactly once. */
module Completeness {
  import opened Target
  import opened MapAreaSet
  import opened PtrscanTree
  import opened ScanWorker
  import opened WorkDivision
  import opened Matching
  import opened Growth
  import opened Paths
  import opened Independence
  import opened Exactness

  // ----- the areas of a scan do not overlap -----

  /** A scan of a set of areas of a well-formed map scans areas that do not overlap. */
  lemma ScanIsSeparate(s: Setup, areaNodes: set<nat>)
    requires ValidSetup(s) && MapWellFormed(s.vmap) && multiset(s.nodes) == multiset(areaNodes)
    ensures Separate(s)
  {
    forall i, j | 0 <= i < j < |s.nodes|
      ensures var a, b := s.vmap.areas[s.nodes[i]], s.vmap.areas[s.nodes[j]];
              a.end <= b.start || b.end <= a.start
    {
      ListedOnce(s.nodes, areaNodes, i, j);
    }
  }

  // ----- the visits, from memory -----

  /** A scan visits the step: its address is an aligned offset of a scanned area, and its pointer
      is the word delivered there. */
  ghost predicate Visited(s: Setup, t: Step)
    requires ValidSetup(s)
  {
    && t.areaNode in s.nodes
    && var area := s.vmap.areas[t.areaNode];
       && area.start <= t.ownAddr < area.end && Multiple(t.ownAddr - area.start, s.opts.alignment)
       && t.ptrAddr == WordValue(DeliveredWord(s.mem, area, s.page, s.width, t.ownAddr - area.start))
  }

  /** What a visited step is, by the fields of its area and the bytes of memory. Every byte of its word is
      the one in memory, or past the end of the area the one `page - width` bytes before. */
  lemma VisitedExactly(s: Setup, t: Step) returns (word: seq<byte>)
    requires ValidSetup(s) && t.areaNode < |s.vmap.areas|
    ensures |word| == s.width
    ensures forall j :: 0 <= j < s.width ==>
              var a := t.ownAddr + j - if t.ownAddr + j < s.vmap.areas[t.areaNode].end then 0 else s.page - s.width;
              word[j] == if a in s.mem then s.mem[a] else 0
    ensures Visited(s, t) <==>
              var area := s.vmap.areas[t.areaNode];
              && t.areaNode in s.nodes && area.start <= t.ownAddr < area.end
              && (t.ownAddr - area.start) % s.opts.alignment == 0 && t.ptrAddr == WordValue(word)
  {
    var area := s.vmap.areas[t.areaNode];
    var off := t.ownAddr - area.start;
    word := DeliveredWord(s.mem, area, s.page, s.width, off);
    assert forall j :: 0 <= j < s.width ==> word[j] == DeliveredByte(s.mem, area, s.page, s.width, off + j);
    MultipleExactly(off, s.opts.alignment);
  }

  function CallStep(c: Call): Step
    requires GoodCall(c)
  {
    Step(c.node, c.addr, Pointer(c))
  }

  lemma {:induction false} VisitsHold(mem: Memory, node: nat, area: Area, page: nat, width: nat, step: nat, off: int,
                                      x: int)
    requires Multiple(off, step) && Multiple(x, step) && x < off
    ensures Visit(mem, node, area, page, width, x) in Visits(mem, node, area, page, width, step, off)
    decreases off
  {
    MultipleGap(x, off, step);
    if x != off - step {
      VisitsHold(mem, node, area, page, width, step, off - step, x);
    }
  }

  lemma {:induction false} SetVisitsHold(s: Setup, nodes: seq<nat>, i: nat, x: int)
    requires ValidSetup(s) && SetScannable(s.vmap, nodes, s.page, s.width, s.opts.alignment) && i < |nodes|
    requires Multiple(x, s.opts.alignment) && x < s.vmap.areas[nodes[i]].Size()
    ensures Visit(s.mem, nodes[i], s.vmap.areas[nodes[i]], s.page, s.width, x)
            in SetVisits(s.mem, s.vmap, nodes, s.page, s.width, s.opts.alignment)
  {
    var n := |nodes| - 1;
    if i < n {
      SetVisitsHold(s, nodes[..n], i, x);
    } else {
      var area := s.vmap.areas[nodes[n]];
      VisitsHold(s.mem, nodes[n], area, s.page, s.width, s.opts.alignment, RoundUp(area.Size(), s.opts.alignment), x);
    }
  }

  ghost predicate CallFor(calls: seq<Call>, t: Step)
    requires GoodCalls(calls)
  {
    exists k :: 0 <= k < |calls| && CallStep(calls[k]) == t
  }

  lemma CallVisits(s: Setup, c: Call)
    requires ValidSetup(s) && c in AllVisits(s) && GoodCall(c)
    ensures Visited(s, CallStep(c))
  {
    SetVisitOrigin(s, s.nodes, c);
    var x :| VisitedAt(s, c, x);
  }

  lemma VisitHasCall(s: Setup, t: Step) returns (c: Call)
    requires ValidSetup(s) && Visited(s, t)
    ensures c in AllVisits(s) && (GoodCall(c) ==> CallStep(c) == t)
  {
    var i :| 0 <= i < |s.nodes| && s.nodes[i] == t.areaNode;
    var area := s.vmap.areas[t.areaNode];
    SetVisitsHold(s, s.nodes, i, t.ownAddr - area.start);
    c := Visit(s.mem, t.areaNode, area, s.page, s.width, t.ownAddr - area.start);
  }

  /** The calls of a scan are for exactly the visited steps. */
  lemma VisitsExactly(s: Setup, t: Step)
    requires ValidSetup(s)
    ensures GoodCalls(AllVisits(s)) && (CallFor(AllVisits(s), t) <==> Visited(s, t))
  {
    var calls := AllVisits(s);
    SetVisitsGood(s.mem, s.vmap, s.nodes, s.page, s.width, s.opts.alignment);
    if CallFor(calls, t) {
      var k :| 0 <= k < |calls| && CallStep(calls[k]) == t;
      CallVisits(s, calls[k]);
    }
    if Visited(s, t) {
      var c := VisitHasCall(s, t);
      var k :| 0 <= k < |calls| && calls[k] == c;
      assert CallStep(calls[k]) == t;
    }
  }

  lemma VisitsAreDistinct(s: Setup)
    requires ValidSetup(s) && Separate(s)
    ensures DistinctAddresses(AllVisits(s))
  {
    assert s.nodes[..|s.nodes|] == s.nodes;
    SetVisitsDistinct(s, |s.nodes|);
  }

  /** What a node above the root is, by its fields, those of its area and the bytes of memory, in a scan of
      any kind: it lies at an aligned offset of a scanned area; its pointer is the word there; its parent is
      a node of the level before, at most the object size above the pointer, and at a depth below the
      number of presets exactly the depth's preset above it, modulo 2^64. */
  lemma NodeExactly(s: Setup, levels: Levels, runs: seq<seq<Call>>, d: nat, i: nat) returns (word: seq<byte>)
    requires ValidSetup(s) && ScanTree(s, levels, runs) && 0 < d < |levels| && i < |levels[d]|
    ensures var n := levels[d][i];
            && n.areaNode in s.nodes && n.areaNode < |s.vmap.areas|
            && var area := s.vmap.areas[n.areaNode];
               && area.start <= n.ownAddr < area.end && (n.ownAddr - area.start) % s.opts.alignment == 0
               && n.ptrAddr == WordValue(word) && |word| == s.width
               && forall j :: 0 <= j < s.width ==>
                    var a := n.ownAddr + j - if n.ownAddr + j < area.end then 0 else s.page - s.width;
                    word[j] == if a in s.mem then s.mem[a] else 0
    ensures var n := levels[d][i];
            && n.parent != null && n.parent in levels[d - 1]
            && s.opts.maxObjSz <= n.parent.ownAddr && 0 <= n.parent.ownAddr - n.ptrAddr <= s.opts.maxObjSz
            && (s.opts.presetOffsets.Some? && d < |s.opts.presetOffsets.value| ==>
                  (n.ptrAddr - (n.parent.ownAddr - s.opts.presetOffsets.value[d - 1])) % 0x1_0000_0000_0000_0000 == 0)
  {
    var n := levels[d][i];
    var c, x, j := NodeOrigin(s, levels, runs, d, i);
    assert Visited(s, StepOf(n));
    word := VisitedExactly(s, StepOf(n));
    AcceptsExactly(s.opts, d, n.parent.ownAddr, n.ptrAddr);
  }

  // ----- the paths of a level -----

  /** A path a scan looks for: it ends at the root, and every step before is a visit whose pointer
      the next step accepts at its depth. */
  ghost predicate IsScanPath(s: Setup, root: Step, p: Path)
    requires ValidSetup(s)
    decreases |p|
  {
    && p != []
    && if |p| == 1 then p[0] == root
       else Visited(s, p[0]) && Accepts(s.opts, |p| - 1, p[1].ownAddr, p[0].ptrAddr) && IsScanPath(s, root, p[1..])
  }

  /** Step `i` of the path is a visit, at depth `d - i` of a path of `d + 1` steps, and the next step accepts
      its pointer there. */
  ghost predicate LinkAt(s: Setup, p: Path, i: nat)
    requires ValidSetup(s) && i + 1 < |p|
  {
    Visited(s, p[i]) && Accepts(s.opts, |p| - 1 - i, p[i + 1].ownAddr, p[i].ptrAddr)
  }

  lemma {:induction false} ScanPathExactly(s: Setup, root: Step, p: Path)
    requires ValidSetup(s)
    ensures IsScanPath(s, root, p) <==>
              p != [] && p[|p| - 1] == root && forall i: nat :: i + 1 < |p| ==> LinkAt(s, p, i)
    decreases |p|
  {
    if |p| > 1 {
      var up := p[1..];
      ScanPathExactly(s, root, up);
      forall i: nat | i + 1 < |up|
        ensures LinkAt(s, up, i) <==> LinkAt(s, p, i + 1)
      {
      }
      if IsScanPath(s, root, p) {
        forall i: nat | i + 1 < |p|
          ensures LinkAt(s, p, i)
        {
          assert i > 0 ==> LinkAt(s, up, i - 1);
        }
      }
      if forall i: nat :: i + 1 < |p| ==> LinkAt(s, p, i) {
        assert LinkAt(s, p, 0);
        forall i: nat | i + 1 < |up|
          ensures LinkAt(s, up, i)
        {
          assert LinkAt(s, p, i + 1);
        }
      }
    }
  }

  /** `p` is a step above one of the paths `ps` that accepts it. */
  predicate Extends(opts: PtrOptions, depth: nat, p: Path)
    requires 0 < depth
  {
    |p| >= 2 && Accepts(opts, depth, p[1].ownAddr, p[0].ptrAddr)
  }

  lemma {:induction false} ExtenderCount(opts: PtrOptions, depth: nat, c: Call, ps: seq<Path>, p: Path)
    requires 0 < depth && GoodCall(c)
    ensures MSum(ps, Extender(opts, depth, c))[p] ==
            if Extends(opts, depth, p) && CallStep(c) == p[0] then multiset(ps)[p[1..]] else 0
  {
    if ps != [] {
      var n := |ps| - 1;
      ExtenderCount(opts, depth, c, ps[..n], p);
      CountLast(ps, if p == [] then [] else p[1..]);
      ExtenderOne(opts, depth, c, ps[n], p);
    }
  }

  lemma ExtenderOne(opts: PtrOptions, depth: nat, c: Call, q: Path, p: Path)
    requires 0 < depth && GoodCall(c)
    ensures Extender(opts, depth, c)(q)[p] ==
            if Extends(opts, depth, p) && CallStep(c) == p[0] && p[1..] == q then 1 else 0
  {
    if q != [] && Accepts(opts, depth, q[0].ownAddr, Pointer(c)) {
      var longer := [CallStep(c)] + q;
      assert longer[1..] == q;
      assert |p| > 0 && p[0] == CallStep(c) && p[1..] == q ==> p == longer;
    }
  }

  lemma {:induction false} GrownCount(opts: PtrOptions, depth: nat, calls: seq<Call>, ps: seq<Path>, p: Path)
    requires 0 < depth && GoodCalls(calls) && DistinctAddresses(calls)
    ensures GrownPaths(opts, depth, calls, ps)[p] ==
            if Extends(opts, depth, p) && CallFor(calls, p[0]) then multiset(ps)[p[1..]] else 0
  {
    if calls != [] {
      var n := |calls| - 1;
      GrownCount(opts, depth, calls[..n], ps, p);
      ExtenderCount(opts, depth, calls[n], ps, p);
      if p != [] {
        CallForLast(calls, p[0]);
      }
    }
  }

  /** With distinct addresses a step has at most one call. */
  lemma CallForLast(calls: seq<Call>, t: Step)
    requires GoodCalls(calls) && DistinctAddresses(calls) && calls != []
    ensures CallFor(calls, t) <==> CallFor(calls[..|calls| - 1], t) || CallStep(calls[|calls| - 1]) == t
    ensures !(CallFor(calls[..|calls| - 1], t) && CallStep(calls[|calls| - 1]) == t)
  {
    var n := |calls| - 1;
    if CallFor(calls[..n], t) {
      var k :| 0 <= k < n && CallStep(calls[..n][k]) == t;
      assert CallStep(calls[k]) == t && calls[k].addr != calls[n].addr;
    }
  }

  lemma AllVisitsGood(s: Setup)
    requires ValidSetup(s) && Separate(s)
    ensures GoodCalls(AllVisits(s)) && DistinctAddresses(AllVisits(s))
  {
    SetVisitsGood(s.mem, s.vmap, s.nodes, s.page, s.width, s.opts.alignment);
    VisitsAreDistinct(s);
  }

  lemma RunCount(s: Setup, run: seq<Call>, depth: nat, ps: seq<Path>, p: Path)
    requires ValidSetup(s) && Separate(s) && FullRun(s, run) && 0 < depth
    ensures GrownPaths(s.opts, depth, run, ps)[p] ==
            if Extends(s.opts, depth, p) && Visited(s, p[0]) then multiset(ps)[p[1..]] else 0
  {
    GrownPathsPermutation(s.opts, depth, run, AllVisits(s), ps, ps);
    AllVisitsGood(s);
    GrownCount(s.opts, depth, AllVisits(s), ps, p);
    if p != [] {
      VisitsExactly(s, p[0]);
    }
  }

  /** 1 for the paths of `d + 1` steps a scan looks for, 0 for others. */
  ghost function PathCount(s: Setup, root: Step, d: nat, p: Path): nat
    requires ValidSetup(s)
  {
    if |p| == d + 1 && IsScanPath(s, root, p) then 1 else 0
  }

  lemma PathCountStep(s: Setup, root: Step, d: nat, p: Path)
    requires ValidSetup(s)
    ensures PathCount(s, root, d + 1, p) ==
            if Extends(s.opts, d + 1, p) && Visited(s, p[0]) then PathCount(s, root, d, p[1..]) else 0
  {
  }

  /** Level `d` of a finished plain scan holds exactly the paths of `d + 1` steps the scan looks for,
      each exactly once. */
  lemma {:induction false} PathsExactly(s: Setup, levels: Levels, runs: seq<seq<Call>>, d: nat, p: Path)
    requires ValidSetup(s) && Separate(s) && !s.opts.smartScan && ScanTree(s, levels, runs) && d < |levels|
    ensures RootedLevel(levels[d], d)
    ensures multiset(LevelPaths(levels[d], d))[p] == PathCount(s, StepOf(levels[0][0]), d, p)
    decreases d
  {
    var root := StepOf(levels[0][0]);
    if d == 0 {
      RootPaths(levels);
      assert |p| == 1 ==> p == [p[0]];
    } else {
      if p != [] {
        PathsExactly(s, levels, runs, d - 1, p[1..]);
      }
      PathsAbove(s, levels, runs, d - 1, p);
    }
  }

  lemma {:induction false} PathsAbove(s: Setup, levels: Levels, runs: seq<seq<Call>>, e: nat, p: Path)
    requires ValidSetup(s) && Separate(s) && !s.opts.smartScan && ScanTree(s, levels, runs) && e + 1 < |levels|
    requires RootedLevel(levels[e], e)
    requires p != [] ==>
               multiset(LevelPaths(levels[e], e))[p[1..]] == PathCount(s, StepOf(levels[0][0]), e, p[1..])
    ensures RootedLevel(levels[e + 1], e + 1)
    ensures multiset(LevelPaths(levels[e + 1], e + 1))[p] == PathCount(s, StepOf(levels[0][0]), e + 1, p)
  {
    ScanLevel(s, levels, runs, e);
    PathsGrown(s, runs[e], e, levels[e], levels[e + 1], StepOf(levels[0][0]), p);
  }

  /** The paths of a level, when those of the level before are as they should be. */
  lemma {:induction false} PathsGrown(s: Setup, run: seq<Call>, e: nat, parents: seq<TreeNode>, level: seq<TreeNode>,
                                      root: Step, p: Path)
    requires ValidSetup(s) && Separate(s) && !s.opts.smartScan && FullRun(s, run)
    requires GrownLevel(s.opts, e, run, parents, level)
    requires p != [] ==> multiset(LevelPaths(parents, e))[p[1..]] == PathCount(s, root, e, p[1..])
    ensures multiset(LevelPaths(level, e + 1))[p] == PathCount(s, root, e + 1, p)
  {
    LevelPathsGrown(s.opts, e, run, parents, level);
    RunCount(s, run, e + 1, LevelPaths(parents, e), p);
    PathCountStep(s, root, e, p);
  }

  // ----- the chains -----

  /** Some visit would make the path longer, and the depth allows it. */
  ghost predicate Longer(s: Setup, p: Path)
    requires ValidSetup(s) && p != []
  {
    |p| <= s.opts.maxDepth && exists t :: Visited(s, t) && Accepts(s.opts, |p|, p[0].ownAddr, t.ptrAddr)
  }

  lemma FilterOne(opts: PtrOptions, depth: nat, calls: seq<Call>, q: Path, p: Path)
    requires 0 < depth
    ensures LeafFilter(opts, depth, calls)(q)[p] == if Unextended(opts, depth, calls, p) && p == q then 1 else 0
  {
  }

  lemma {:induction false} FilterCount(opts: PtrOptions, depth: nat, calls: seq<Call>, ps: seq<Path>, p: Path)
    requires 0 < depth
    ensures MSum(ps, LeafFilter(opts, depth, calls))[p] ==
            if Unextended(opts, depth, calls, p) then multiset(ps)[p] else 0
  {
    if ps != [] {
      var n := |ps| - 1;
      FilterCount(opts, depth, calls, ps[..n], p);
      CountLast(ps, p);
      FilterOne(opts, depth, calls, ps[n], p);
    }
  }

  lemma {:induction false} FilteredCount(opts: PtrOptions, depth: nat, calls: seq<Call>, ps: seq<Path>,
                                         leaves: seq<Path>, p: Path)
    requires 0 < depth && multiset(leaves) == MSum(ps, LeafFilter(opts, depth, calls))
    ensures multiset(leaves)[p] == if Unextended(opts, depth, calls, p) then multiset(ps)[p] else 0
  {
    FilterCount(opts, depth, calls, ps, p);
  }

  lemma SomeAcceptedExactly(s: Setup, run: seq<Call>, depth: nat, own: Address)
    requires ValidSetup(s) && FullRun(s, run) && GoodCalls(run) && 0 < depth
    ensures SomeAccepted(s.opts, depth, run, own) <==>
            exists t :: Visited(s, t) && Accepts(s.opts, depth, own, t.ptrAddr)
  {
    var all := AllVisits(s);
    if SomeAccepted(s.opts, depth, run, own) {
      SomeAcceptedPermutation(s.opts, depth, run, all, own);
      var k :| 0 <= k < |all| && GoodCall(all[k]) && Accepts(s.opts, depth, own, Pointer(all[k]));
      VisitsExactly(s, CallStep(all[k]));
      assert CallStep(all[k]).ptrAddr == Pointer(all[k]);
    } else if t :| Visited(s, t) && Accepts(s.opts, depth, own, t.ptrAddr) {
      VisitsExactly(s, t);
      var k :| 0 <= k < |all| && CallStep(all[k]) == t;
      assert Pointer(all[k]) == t.ptrAddr;
      SomeAcceptedPermutation(s.opts, depth, all, run, own);
    }
  }

  /** 1 for the paths of `d + 1` steps a scan looks for and no visit makes longer, 0 for others. */
  ghost function LeafCount(s: Setup, root: Step, d: nat, p: Path): nat
    requires ValidSetup(s)
  {
    if p != [] && Longer(s, p) then 0 else PathCount(s, root, d, p)
  }

  lemma UnextendedExactly(s: Setup, levels: Levels, runs: seq<seq<Call>>, d: nat, p: Path)
    requires ValidSetup(s) && ScanTree(s, levels, runs) && d < |levels| && |p| == d + 1
    ensures Unextended(s.opts, d + 1, CallsAfter(runs, d), p) <==> !Longer(s, p)
  {
    if d < s.opts.maxDepth {
      assert LevelGrown(s, levels, runs, d + 1);
      SomeAcceptedExactly(s, runs[d], d + 1, p[0].ownAddr);
    }
  }

  lemma {:induction false} LeavesUnextended(s: Setup, levels: Levels, runs: seq<seq<Call>>, d: nat, p: Path)
    requires ValidSetup(s) && !s.opts.smartScan && ScanTree(s, levels, runs) && d < |levels|
    ensures RootedLevel(levels[d], d)
    ensures multiset(LeafPathsIn(levels, d, levels[d]))[p] ==
            if Unextended(s.opts, d + 1, CallsAfter(runs, d), p) then multiset(LevelPaths(levels[d], d))[p] else 0
  {
    LeavesAtSum(s, levels, runs, d);
    var ps, leaves := LevelPaths(levels[d], d), LeafPathsIn(levels, d, levels[d]);
    FilteredCount(s.opts, d + 1, CallsAfter(runs, d), ps, leaves, p);
  }

  /** The leaves of level `d` are the paths of `d + 1` steps that no visit makes longer. */
  lemma {:induction false} LevelLeavesExactly(s: Setup, levels: Levels, runs: seq<seq<Call>>, d: nat, p: Path)
    requires ValidSetup(s) && Separate(s) && !s.opts.smartScan && ScanTree(s, levels, runs) && d < |levels|
    ensures RootedLevel(levels[d], d)
    ensures multiset(LeafPathsIn(levels, d, levels[d]))[p] == LeafCount(s, StepOf(levels[0][0]), d, p)
  {
    PathsExactly(s, levels, runs, d, p);
    LeavesUnextended(s, levels, runs, d, p);
    if |p| == d + 1 {
      UnextendedExactly(s, levels, runs, d, p);
    }
  }

  /** How often `p` is a leaf path of level `d`. */
  ghost function CountAt(levels: Levels, d: nat, p: Path): nat
    requires RootedLevels(levels) && d < |levels|
  {
    multiset(LeafPathsIn(levels, d, levels[d]))[p]
  }

  lemma LeavesMore(levels: Levels, d: nat, p: Path)
    requires RootedLevels(levels) && d < |levels|
    ensures multiset(LeafPaths(levels, d + 1))[p] == multiset(LeafPaths(levels, d))[p] + CountAt(levels, d, p)
  {
  }

  /** How often `p` is a leaf path of each of the first levels. */
  ghost function LeafCounts(levels: Levels, upTo: nat, p: Path): (counts: seq<nat>)
    requires RootedLevels(levels) && upTo <= |levels|
    ensures |counts| == upTo
  {
    if upTo == 0 then [] else LeafCounts(levels, upTo - 1, p) + [CountAt(levels, upTo - 1, p)]
  }

  lemma {:induction false} CountsAtLevel(levels: Levels, upTo: nat, p: Path, d: nat)
    requires RootedLevels(levels) && d < upTo <= |levels|
    ensures LeafCounts(levels, upTo, p)[d] == CountAt(levels, d, p)
  {
    if d < upTo - 1 {
      CountsAtLevel(levels, upTo - 1, p, d);
    }
  }

  lemma {:induction false} LeavesCounted(levels: Levels, upTo: nat, p: Path)
    requires RootedLevels(levels) && upTo <= |levels|
    ensures multiset(LeafPaths(levels, upTo))[p] == Sum(LeafCounts(levels, upTo, p))
  {
    if upTo != 0 {
      LeavesCounted(levels, upTo - 1, p);
      LeavesMore(levels, upTo - 1, p);
      SumLast(LeafCounts(levels, upTo - 1, p), CountAt(levels, upTo - 1, p));
    }
  }

  lemma {:induction false} SumLast(counts: seq<nat>, count: nat)
    ensures Sum(counts + [count]) == Sum(counts) + count
  {
    assert (counts + [count])[..|counts|] == counts;
  }

  lemma {:induction false} SumOfOne(counts: seq<nat>, at: int, count: nat)
    requires forall d :: 0 <= d < |counts| ==> counts[d] == if d == at then count else 0
    ensures Sum(counts) == if 0 <= at < |counts| then count else 0
  {
    if counts != [] {
      SumOfOne(counts[..|counts| - 1], at, count);
    }
  }

  /** The paths a finished plain scan makes chains of, in terms of memory alone: exactly the paths
      to the root of at most `maxDepth + 1` steps that no visit makes longer, each exactly once. */
  lemma {:induction false} LeavesExactly(s: Setup, levels: Levels, runs: seq<seq<Call>>, p: Path)
    requires ValidSetup(s) && Separate(s) && !s.opts.smartScan && ScanTree(s, levels, runs)
    ensures RootedLevels(levels)
    ensures multiset(LeafPaths(levels, |levels|))[p] ==
            if 0 < |p| <= s.opts.maxDepth + 1 && IsScanPath(s, StepOf(levels[0][0]), p) && !Longer(s, p) then 1 else 0
  {
    LayeredIsRooted(levels);
    var root := StepOf(levels[0][0]);
    var count := if p == [] then 0 else LeafCount(s, root, |p| - 1, p);
    var counts := LeafCounts(levels, |levels|, p);
    forall d | 0 <= d < |levels|
      ensures counts[d] == if d == |p| - 1 then count else 0
    {
      CountsAtLevel(levels, |levels|, p, d);
      LevelLeavesExactly(s, levels, runs, d, p);
    }
    LeavesCounted(levels, |levels|, p);
    SumOfOne(counts, |p| - 1, count);
  }
}
