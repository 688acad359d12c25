/** Pointer paths as values: what the chains of a finished scan are, that following them leads to
    the target, and that they do not depend on how the work was divided or interleaved. */
module Paths {
  import opened Target
  import opened PtrscanTree
  import opened ScanWorker
  import opened Matching
  import opened Growth

  datatype Step = Step(areaNode: nat, ownAddr: Address, ptrAddr: Address)

  /** The steps from a node up to the root. */
  type Path = seq<Step>

  function StepOf(n: TreeNode): Step {
    Step(n.areaNode, n.ownAddr, n.ptrAddr)
  }

  ghost function PathOf(n: TreeNode, d: nat): (p: Path)
    requires Rooted(n, d)
    ensures |p| == d + 1 && p[0] == StepOf(n)
    decreases d
  {
    [StepOf(n)] + if d == 0 then [] else PathOf(n.parent, d - 1)
  }

  ghost predicate RootedLevel(level: seq<TreeNode>, d: nat) {
    forall i :: 0 <= i < |level| ==> Rooted(level[i], d)
  }

  ghost function LevelPaths(level: seq<TreeNode>, d: nat): (ps: seq<Path>)
    requires RootedLevel(level, d)
    ensures |ps| == |level|
  {
    seq(|level|, i requires 0 <= i < |level| => PathOf(level[i], d))
  }

  // ----- chains of offsets -----

  /** The object a chain is relative to: the area's own object, or the last one before it. */
  function ObjOf(vmap: VmMap, areaNode: nat): Option<nat>
    requires areaNode < |vmap.areas|
  {
    var area := vmap.areas[areaNode];
    if area.obj.None? then area.lastObj else area.obj
  }

  /** The object of an area is known, as `get_chain_data` needs it to be. */
  predicate HasObj(vmap: VmMap, areaNode: nat) {
    areaNode < |vmap.areas| && ObjOf(vmap, areaNode).Some? && ObjOf(vmap, areaNode).value < |vmap.objs|
  }

  function ObjStart(vmap: VmMap, areaNode: nat): Address
    requires HasObj(vmap, areaNode)
  {
    vmap.objs[ObjOf(vmap, areaNode).value].start
  }

  /** From every pointer to the address below which it points. */
  function OffsetsUp(p: Path): (offs: seq<Offset>)
    ensures p != [] ==> |offs| == |p| - 1
  {
    if |p| <= 1 then [] else [ToOffset(p[1].ownAddr - p[0].ptrAddr)] + OffsetsUp(p[1..])
  }

  function OffsetsFrom(start: Address, p: Path): seq<Offset>
    requires p != []
  {
    [ToOffset(p[0].ownAddr - start)] + OffsetsUp(p)
  }

  /** Every offset is the distance it bridges, modulo 2^64. */
  lemma {:induction false} OffsetsExactly(start: Address, p: Path, i: nat)
    requires i < |p|
    ensures |OffsetsFrom(start, p)| == |p|
    ensures (OffsetsFrom(start, p)[i] - (p[i].ownAddr - if i == 0 then start else p[i - 1].ptrAddr))
            % 0x1_0000_0000_0000_0000 == 0
    decreases i
  {
    if i == 0 {
      OffsetExactly(p[0].ownAddr - start, OffsetsFrom(start, p)[0]);
    } else {
      OffsetsExactly(p[0].ptrAddr, p[1..], i - 1);
      assert OffsetsFrom(start, p)[1..] == OffsetsFrom(p[0].ptrAddr, p[1..]);
    }
  }

  /** Follow offsets from an address, dereferencing after all but the last. */
  function Follow(mem: Memory, width: nat, a: Address, offs: seq<Offset>): Option<Address>
    requires width <= 8
    decreases offs
  {
    if offs == [] then Some(a)
    else
      var next := Wrap(a + offs[0]);
      if |offs| == 1 then Some(next)
      else if !Mapped(mem, next, next + width) then None
      else
        WordValueBound(Bytes(mem, next, width));
        Follow(mem, width, WordValue(Bytes(mem, next, width)), offs[1..])
  }

  /** The address `hops[i]` is the sum of the offset and the word read at the address before, or `a` for the
      first, modulo 2^64; a word can be read at it, unless it is the last. */
  ghost predicate HopAt(mem: Memory, width: nat, a: int, offs: seq<Offset>, hops: seq<int>, i: nat)
    requires i < |offs| == |hops|
  {
    var from := if i == 0 then a else WordValue(Bytes(mem, hops[i - 1], width));
    && 0 <= hops[i] < 0x1_0000_0000_0000_0000 && (hops[i] - (from + offs[i])) % 0x1_0000_0000_0000_0000 == 0
    && (i < |offs| - 1 ==> Mapped(mem, hops[i], hops[i] + width))
  }

  /** `hops` are the addresses that offsets lead to from `a`, and the last one is the target. */
  ghost predicate Arrives(mem: Memory, width: nat, a: int, offs: seq<Offset>, hops: seq<int>, target: int) {
    && |hops| == |offs| && (forall i: nat :: i < |offs| ==> HopAt(mem, width, a, offs, hops, i))
    && target == if offs == [] then a else hops[|offs| - 1]
  }

  lemma {:induction false} ArrivesStep(mem: Memory, width: nat, a: int, offs: seq<Offset>, hops: seq<int>, target: int)
    requires |offs| == |hops| > 1
    ensures Arrives(mem, width, a, offs, hops, target) <==>
              && HopAt(mem, width, a, offs, hops, 0)
              && Arrives(mem, width, WordValue(Bytes(mem, hops[0], width)), offs[1..], hops[1..], target)
  {
    var read := WordValue(Bytes(mem, hops[0], width));
    forall i: nat | 0 < i < |offs|
      ensures HopAt(mem, width, a, offs, hops, i) <==> HopAt(mem, width, read, offs[1..], hops[1..], i - 1)
    {
    }
    if Arrives(mem, width, a, offs, hops, target) {
      forall i: nat | i < |offs[1..]|
        ensures HopAt(mem, width, read, offs[1..], hops[1..], i)
      {
        assert HopAt(mem, width, a, offs, hops, i + 1);
      }
    }
    if Arrives(mem, width, read, offs[1..], hops[1..], target) && HopAt(mem, width, a, offs, hops, 0) {
      forall i: nat | i < |offs|
        ensures HopAt(mem, width, a, offs, hops, i)
      {
        assert i > 0 ==> HopAt(mem, width, read, offs[1..], hops[1..], i - 1);
      }
    }
  }

  /** Following offsets arrives exactly if there are such addresses. */
  lemma {:induction false} FollowArrives(mem: Memory, width: nat, a: Address, offs: seq<Offset>, target: Address)
    returns (hops: seq<int>)
    requires width <= 8 && Follow(mem, width, a, offs) == Some(target)
    ensures Arrives(mem, width, a, offs, hops, target)
    decreases |offs|
  {
    hops := [];
    if offs != [] {
      var next: int := Wrap(a + offs[0]);
      WrapExactly(a + offs[0], next);
      if |offs| > 1 {
        WordValueBound(Bytes(mem, next, width));
        var rest := FollowArrives(mem, width, WordValue(Bytes(mem, next, width)), offs[1..], target);
        hops := [next] + rest;
        assert hops[1..] == rest;
        ArrivesStep(mem, width, a, offs, hops, target);
      } else {
        hops := [next];
      }
    }
  }

  lemma {:induction false} ArrivesFollow(mem: Memory, width: nat, a: Address, offs: seq<Offset>, hops: seq<int>,
                                         target: Address)
    requires width <= 8 && Arrives(mem, width, a, offs, hops, target)
    ensures Follow(mem, width, a, offs) == Some(target)
    decreases |offs|
  {
    if offs != [] {
      assert HopAt(mem, width, a, offs, hops, 0);
      WrapExactly(a + offs[0], hops[0]);
      if |offs| > 1 {
        ArrivesStep(mem, width, a, offs, hops, target);
        WordValueBound(Bytes(mem, hops[0], width));
        ArrivesFollow(mem, width, WordValue(Bytes(mem, hops[0], width)), offs[1..], hops[1..], target);
      }
    }
  }

  /** Every pointer of the path is what memory holds at its address. */
  ghost predicate Truthful(mem: Memory, width: nat, p: Path) {
    forall i :: 0 <= i < |p| - 1 ==> StepTruthful(mem, width, p[i])
  }

  predicate StepTruthful(mem: Memory, width: nat, s: Step) {
    Mapped(mem, s.ownAddr, s.ownAddr + width) && WordValue(Bytes(mem, s.ownAddr, width)) == s.ptrAddr
  }

  lemma WrapOffset(start: Address, x: Address)
    ensures Wrap(start + ToOffset(x - start)) == x
  {
  }

  /** Chains are built from the target backwards; followed forwards they lead back to it. */
  lemma {:induction false} FollowPath(mem: Memory, width: nat, start: Address, p: Path)
    requires width <= 8 && p != [] && Truthful(mem, width, p)
    ensures Follow(mem, width, start, OffsetsFrom(start, p)) == Some(p[|p| - 1].ownAddr)
    decreases |p|
  {
    WrapOffset(start, p[0].ownAddr);
    if |p| > 1 {
      assert StepTruthful(mem, width, p[0]);
      assert forall i :: 0 <= i < |p[1..]| - 1 ==> p[1..][i] == p[i + 1];
      FollowPath(mem, width, p[0].ptrAddr, p[1..]);
      assert OffsetsFrom(start, p)[1..] == OffsetsFrom(p[0].ptrAddr, p[1..]);
    }
  }

  // ----- the levels of a finished scan -----

  /** What a scan works on: memory, map, options, page and pointer width, and the areas. */
  datatype Setup = Setup(mem: Memory, vmap: VmMap, opts: PtrOptions, page: nat, width: nat, nodes: seq<nat>)

  ghost predicate ValidSetup(s: Setup) {
    && (s.width == 4 || s.width == 8) && Geometry(s.page, s.width, s.opts.alignment)
    && s.opts.maxObjSz < TWO_TO_63
    && SetScannable(s.vmap, s.nodes, s.page, s.width, s.opts.alignment)
  }

  /** What is read of an area can be read. */
  ghost predicate NodeReadable(s: Setup, n: nat)
    requires ValidSetup(s) && n < |s.vmap.areas|
  {
    AreaReadable(s.mem, s.vmap.areas[n], s.page, s.width, s.opts.alignment)
  }

  ghost predicate AllReadable(s: Setup)
    requires ValidSetup(s)
  {
    forall i :: 0 <= i < |s.nodes| ==> NodeReadable(s, s.nodes[i])
  }

  ghost function AllVisits(s: Setup): seq<Call>
    requires ValidSetup(s)
  {
    SetVisits(s.mem, s.vmap, s.nodes, s.page, s.width, s.opts.alignment)
  }

  /** `run` makes every visit of the scan once, in some order. */
  ghost predicate FullRun(s: Setup, run: seq<Call>)
    requires ValidSetup(s)
  {
    multiset(run) == multiset(AllVisits(s))
  }

  ghost function VisitsOfNode(s: Setup): nat -> multiset<Call>
    requires ValidSetup(s)
  {
    (n: nat) =>
      if n < |s.vmap.areas|
      then multiset(AreaVisits(s.mem, n, s.vmap.areas[n], s.page, s.width, s.opts.alignment)) else multiset{}
  }

  lemma {:induction false} SetVisitsSum(s: Setup, nodes: seq<nat>)
    requires ValidSetup(s) && forall i :: 0 <= i < |nodes| ==> nodes[i] < |s.vmap.areas|
    ensures multiset(SetVisits(s.mem, s.vmap, nodes, s.page, s.width, s.opts.alignment)) == MSum(nodes, VisitsOfNode(s))
  {
    if nodes != [] {
      SetVisitsSum(s, nodes[..|nodes| - 1]);
    }
  }

  /** The same scan, its areas listed in another order. */
  ghost predicate SameScan(s: Setup, s': Setup) {
    s' == s.(nodes := s'.nodes) && multiset(s.nodes) == multiset(s'.nodes)
  }

  lemma SameNodes(nodes: seq<nat>, nodes': seq<nat>, i: nat) returns (j: nat)
    requires multiset(nodes) == multiset(nodes') && i < |nodes'|
    ensures j < |nodes| && nodes[j] == nodes'[i]
  {
    assert nodes'[i] in multiset(nodes');
    j :| 0 <= j < |nodes| && nodes[j] == nodes'[i];
  }

  lemma SameScanValid(s: Setup, s': Setup)
    requires ValidSetup(s) && SameScan(s, s')
    ensures ValidSetup(s') && (AllReadable(s) ==> AllReadable(s'))
  {
    forall i | 0 <= i < |s'.nodes|
      ensures s'.nodes[i] < |s.vmap.areas| && Scannable(s.vmap.areas[s'.nodes[i]], s.page, s.width, s.opts.alignment)
      ensures AllReadable(s) ==> NodeReadable(s, s'.nodes[i])
    {
      var j := SameNodes(s.nodes, s'.nodes, i);
    }
  }

  lemma {:induction false} SameVisitsOfNode(s: Setup, s': Setup, nodes: seq<nat>)
    requires ValidSetup(s) && ValidSetup(s') && SameScan(s, s')
    ensures MSum(nodes, VisitsOfNode(s)) == MSum(nodes, VisitsOfNode(s'))
  {
    MSumSame(nodes, VisitsOfNode(s), VisitsOfNode(s'));
  }

  /** The order in which the areas are listed does not change the visits. */
  lemma SameVisits(s: Setup, s': Setup)
    requires ValidSetup(s) && ValidSetup(s') && SameScan(s, s')
    ensures multiset(AllVisits(s)) == multiset(AllVisits(s'))
  {
    SetVisitsSum(s, s.nodes);
    SetVisitsSum(s', s'.nodes);
    MSumPermutation(s.nodes, s'.nodes, VisitsOfNode(s));
    SameVisitsOfNode(s, s', s'.nodes);
  }

  lemma {:induction false} VisitsGood(mem: Memory, node: nat, area: Area, page: nat, width: nat, step: nat, off: int)
    requires 0 < step && width <= 8 && off < area.Size() + step && Multiple(off, step)
    ensures GoodCalls(Visits(mem, node, area, page, width, step, off))
    decreases off
  {
    if off >= step {
      VisitsGood(mem, node, area, page, width, step, off - step);
    }
  }

  lemma {:induction false} SetVisitsGood(mem: Memory, vmap: VmMap, nodes: seq<nat>, page: nat, width: nat, step: nat)
    requires width <= 8 && Geometry(page, width, step) && SetScannable(vmap, nodes, page, width, step)
    ensures GoodCalls(SetVisits(mem, vmap, nodes, page, width, step))
  {
    if nodes != [] {
      var n := |nodes| - 1;
      SetVisitsGood(mem, vmap, nodes[..n], page, width, step);
      var area := vmap.areas[nodes[n]];
      assert Scannable(area, page, width, step);
      VisitsGood(mem, nodes[n], area, page, width, step, RoundUp(area.Size(), step));
    }
  }

  ghost predicate HaveParents(level: seq<TreeNode>) {
    forall i :: 0 <= i < |level| ==> level[i].parent != null
  }

  /** The tree of a scan whose depth runs all completed: the root, and at each further level what
      the calls of that level's run add, every visit made once. */
  ghost predicate ScanTree(s: Setup, levels: Levels, runs: seq<seq<Call>>)
    requires ValidSetup(s)
  {
    && |runs| == s.opts.maxDepth && |levels| == s.opts.maxDepth + 1 && Layered(levels)
    && |levels[0]| == 1 && levels[0][0].ownAddr == s.opts.targetAddr
    && forall d :: 0 < d < |levels| ==> LevelGrown(s, levels, runs, d)
  }

  ghost predicate LevelGrown(s: Setup, levels: Levels, runs: seq<seq<Call>>, d: nat)
    requires ValidSetup(s) && 0 < d < |levels| && d <= |runs|
  {
    && AllReadable(s) && FullRun(s, runs[d - 1]) && GoodCalls(runs[d - 1]) && HaveParents(levels[d])
    && Views(levels[d]) == Grow(s.opts, d, runs[d - 1], levels[d - 1])
  }

  /** A tree of a scan is one of the same scan with its areas in another order. */
  lemma MovedTree(s: Setup, s': Setup, levels: Levels, runs: seq<seq<Call>>)
    requires ValidSetup(s) && SameScan(s, s') && ScanTree(s, levels, runs)
    ensures ValidSetup(s') && ScanTree(s', levels, runs)
  {
    SameScanValid(s, s');
    SameVisits(s, s');
    forall d | 0 < d < |levels|
      ensures LevelGrown(s', levels, runs, d)
    {
      assert LevelGrown(s, levels, runs, d);
    }
  }

  // ----- where a node comes from -----

  /** Everything a run adds comes from one of its calls and an accepting parent. */
  lemma {:induction false} GrowOrigin(opts: PtrOptions, depth: nat, calls: seq<Call>, parents: seq<TreeNode>,
                                      c: Candidate)
    requires 0 < depth && GoodCalls(calls) && c in Grow(opts, depth, calls, parents)
    ensures exists k :: 0 <= k < |calls| && Delivers(calls[k], c)
    ensures c.parent in parents && Accepts(opts, depth, c.parent.ownAddr, c.ptrAddr)
  {
    var n := |calls| - 1;
    if c in Grow(opts, depth, calls[..n], parents) {
      GrowOrigin(opts, depth, calls[..n], parents, c);
      var k :| 0 <= k < n && Delivers(calls[..n][k], c);
      assert Delivers(calls[k], c);
    } else {
      assert c in Additions(opts, depth, calls[n], parents);
      assert Delivers(calls[n], c);
    }
  }

  lemma {:induction false} VisitOrigin(mem: Memory, node: nat, area: Area, page: nat, width: nat, step: nat, off: int,
                                       c: Call)
    requires Multiple(off, step) && c in Visits(mem, node, area, page, width, step, off)
    ensures exists x :: 0 <= x && Multiple(x, step) && x + step <= off && c == Visit(mem, node, area, page, width, x)
    decreases off
  {
    if c != Visit(mem, node, area, page, width, off - step) {
      VisitOrigin(mem, node, area, page, width, step, off - step, c);
      var x :| 0 <= x && Multiple(x, step) && x + step <= off - step && c == Visit(mem, node, area, page, width, x);
    }
  }

  /** A visit is made at an aligned offset of a scanned area. */
  ghost predicate VisitedAt(s: Setup, c: Call, x: int)
    requires ValidSetup(s)
  {
    && c.node in s.nodes && 0 <= x && Multiple(x, s.opts.alignment)
    && x < s.vmap.areas[c.node].Size()
    && c == Visit(s.mem, c.node, s.vmap.areas[c.node], s.page, s.width, x)
  }

  lemma {:induction false} SetVisitOrigin(s: Setup, nodes: seq<nat>, c: Call)
    requires ValidSetup(s) && nodes <= s.nodes
    requires c in SetVisits(s.mem, s.vmap, nodes, s.page, s.width, s.opts.alignment)
    ensures exists x :: VisitedAt(s, c, x)
    decreases |nodes|
  {
    var n := |nodes| - 1;
    var area := s.vmap.areas[nodes[n]];
    if c in SetVisits(s.mem, s.vmap, nodes[..n], s.page, s.width, s.opts.alignment) {
      SetVisitOrigin(s, nodes[..n], c);
    } else {
      assert Scannable(s.vmap.areas[s.nodes[n]], s.page, s.width, s.opts.alignment);
      var off := RoundUp(area.Size(), s.opts.alignment);
      VisitOrigin(s.mem, nodes[n], area, s.page, s.width, s.opts.alignment, off, c);
      var x :| 0 <= x && Multiple(x, s.opts.alignment) && x + s.opts.alignment <= off
               && c == Visit(s.mem, nodes[n], area, s.page, s.width, x);
      assert VisitedAt(s, c, x);
    }
  }

  /** The word at a node's address lies within its area. */
  predicate Clear(s: Setup, step: Step) {
    step.areaNode < |s.vmap.areas| && step.ownAddr + s.width <= s.vmap.areas[step.areaNode].end
  }

  /** A visit away from the last bytes of its area delivers what memory holds. */
  lemma VisitTruthful(s: Setup, c: Call, x: int)
    requires ValidSetup(s) && AllReadable(s) && VisitedAt(s, c, x) && GoodCall(c)
    requires c.addr + s.width <= s.vmap.areas[c.node].end
    ensures StepTruthful(s.mem, s.width, Step(c.node, c.addr, Pointer(c)))
  {
    var area := s.vmap.areas[c.node];
    var i :| 0 <= i < |s.nodes| && s.nodes[i] == c.node;
    assert Scannable(area, s.page, s.width, s.opts.alignment) && NodeReadable(s, c.node);
    CallCarriesMemory(s.mem, c.node, area, s.page, s.width, x);
    WordIsRead(area, s.page, s.width, s.opts.alignment, x);
    assert c.word[..s.width] == c.word;
  }

  /** With the alignment equal to the pointer width every visit is clear of the area's end. */
  lemma AlignedIsClear(s: Setup, c: Call, x: int)
    requires ValidSetup(s) && VisitedAt(s, c, x) && s.opts.alignment == s.width
    ensures c.addr + s.width <= s.vmap.areas[c.node].end
  {
    var i :| 0 <= i < |s.nodes| && s.nodes[i] == c.node;
    assert Scannable(s.vmap.areas[c.node], s.page, s.width, s.opts.alignment);
    MultipleGap(x, s.vmap.areas[c.node].Size(), s.width);
  }

  /** Every node above the root comes from a visit, and its parent accepted the pointer. */
  lemma NodeOrigin(s: Setup, levels: Levels, runs: seq<seq<Call>>, d: nat, i: nat) returns (c: Call, x: int, j: nat)
    requires ValidSetup(s) && ScanTree(s, levels, runs)
    requires 0 < d < |levels| && i < |levels[d]|
    ensures j < |levels[d - 1]| && levels[d - 1][j] == levels[d][i].parent
    ensures VisitedAt(s, c, x) && GoodCall(c)
    ensures StepOf(levels[d][i]) == Step(c.node, c.addr, Pointer(c))
    ensures levels[d][i].parent != null
    ensures Accepts(s.opts, d, levels[d][i].parent.ownAddr, levels[d][i].ptrAddr)
  {
    var n := levels[d][i];
    assert LevelGrown(s, levels, runs, d);
    var cand := Views(levels[d])[i];
    assert cand in Grow(s.opts, d, runs[d - 1], levels[d - 1]);
    GrowOrigin(s.opts, d, runs[d - 1], levels[d - 1], cand);
    var k :| 0 <= k < |runs[d - 1]| && Delivers(runs[d - 1][k], cand);
    c := runs[d - 1][k];
    assert c in multiset(AllVisits(s)) by {
      assert c in multiset(runs[d - 1]);
    }
    SetVisitOrigin(s, s.nodes, c);
    x :| VisitedAt(s, c, x);
    j :| 0 <= j < |levels[d - 1]| && levels[d - 1][j] == n.parent;
  }

  // ----- soundness of the chains -----

  ghost predicate ClearPath(s: Setup, p: Path) {
    forall i :: 0 <= i < |p| - 1 ==> Clear(s, p[i])
  }

  lemma {:induction false} PathEndsAtTarget(s: Setup, levels: Levels, d: nat, i: nat)
    requires Layered(levels) && d < |levels| && i < |levels[d]|
    requires |levels[0]| == 1 && levels[0][0].ownAddr == s.opts.targetAddr
    ensures PathOf(levels[d][i], d)[d].ownAddr == s.opts.targetAddr
    decreases d
  {
    if d > 0 {
      var n := levels[d][i];
      assert n.parent in levels[d - 1];
      var j :| 0 <= j < |levels[d - 1]| && levels[d - 1][j] == n.parent;
      PathEndsAtTarget(s, levels, d - 1, j);
    }
  }

  /** The pointer of a node that is clear of its area's end is what memory holds there. */
  lemma NodeTruthful(s: Setup, levels: Levels, runs: seq<seq<Call>>, d: nat, i: nat) returns (j: nat)
    requires ValidSetup(s) && ScanTree(s, levels, runs) && 0 < d < |levels| && i < |levels[d]|
    requires Clear(s, StepOf(levels[d][i])) || s.opts.alignment == s.width
    ensures StepTruthful(s.mem, s.width, StepOf(levels[d][i]))
    ensures j < |levels[d - 1]| && levels[d - 1][j] == levels[d][i].parent
  {
    var c, x, k := NodeOrigin(s, levels, runs, d, i);
    if s.opts.alignment == s.width {
      AlignedIsClear(s, c, x);
    }
    assert LevelGrown(s, levels, runs, d);
    VisitTruthful(s, c, x);
    j := k;
  }

  lemma TruthfulStep(mem: Memory, width: nat, step: Step, up: Path)
    requires up != [] && StepTruthful(mem, width, step) && Truthful(mem, width, up)
    ensures Truthful(mem, width, [step] + up)
  {
    var p := [step] + up;
    forall k | 0 <= k < |p| - 1
      ensures StepTruthful(mem, width, p[k])
    {
      if k > 0 {
        assert p[k] == up[k - 1];
      }
    }
  }

  lemma ClearStep(s: Setup, step: Step, up: Path)
    requires up != [] && ClearPath(s, [step] + up)
    ensures Clear(s, step) && ClearPath(s, up)
  {
    var p := [step] + up;
    assert p[0] == step;
    forall k | 0 <= k < |up| - 1
      ensures Clear(s, up[k])
    {
      assert p[k + 1] == up[k];
    }
  }

  /** The pointers of a path are what memory holds. */
  lemma {:induction false} PathTruthful(s: Setup, levels: Levels, runs: seq<seq<Call>>, d: nat, i: nat)
    requires ValidSetup(s) && ScanTree(s, levels, runs) && d < |levels| && i < |levels[d]|
    requires ClearPath(s, PathOf(levels[d][i], d)) || s.opts.alignment == s.width
    ensures Truthful(s.mem, s.width, PathOf(levels[d][i], d))
    decreases d
  {
    if d > 0 {
      var n := levels[d][i];
      assert Rooted(n, d);
      var up := PathOf(n.parent, d - 1);
      if s.opts.alignment != s.width {
        ClearStep(s, StepOf(n), up);
      }
      var j := NodeTruthful(s, levels, runs, d, i);
      PathTruthful(s, levels, runs, d - 1, j);
      TruthfulStep(s.mem, s.width, StepOf(n), up);
    }
  }

  /** The offsets of a node's path, taken from any start, lead to the target. */
  lemma {:induction false} NodeSound(s: Setup, levels: Levels, runs: seq<seq<Call>>, d: nat, i: nat, start: Address)
    requires ValidSetup(s) && ScanTree(s, levels, runs) && d < |levels| && i < |levels[d]|
    requires ClearPath(s, PathOf(levels[d][i], d)) || s.opts.alignment == s.width
    ensures Follow(s.mem, s.width, start, OffsetsFrom(start, PathOf(levels[d][i], d))) == Some(s.opts.targetAddr)
  {
    PathTruthful(s, levels, runs, d, i);
    PathEndsAtTarget(s, levels, d, i);
    FollowPath(s.mem, s.width, start, PathOf(levels[d][i], d));
  }

  /** The central promise: a chain found by a scan leads from its object to the target when
      followed in the same memory, if no pointer of it lies across the end of its area. With the
      alignment equal to the pointer width that is always so. */
  lemma {:induction false} ScanSound(s: Setup, levels: Levels, runs: seq<seq<Call>>, d: nat, i: nat)
    requires ValidSetup(s) && ScanTree(s, levels, runs) && d < |levels| && i < |levels[d]|
    requires HasObj(s.vmap, levels[d][i].areaNode)
    requires ClearPath(s, PathOf(levels[d][i], d)) || s.opts.alignment == s.width
    ensures var p := PathOf(levels[d][i], d);
            var start := ObjStart(s.vmap, levels[d][i].areaNode);
            Follow(s.mem, s.width, start, OffsetsFrom(start, p)) == Some(s.opts.targetAddr)
  {
    NodeSound(s, levels, runs, d, i, ObjStart(s.vmap, levels[d][i].areaNode));
  }

  lemma OffsetsUpHead(n: TreeNode, d: nat)
    requires d > 0 && Rooted(n, d)
    ensures OffsetsUp(PathOf(n, d)) == [ToOffset(n.parent.ownAddr - n.ptrAddr)] + OffsetsUp(PathOf(n.parent, d - 1))
  {
    var up := PathOf(n.parent, d - 1);
    assert ([StepOf(n)] + up)[1..] == up;
  }

  /** A node's pointer lies in the object-sized window below its parent. */
  lemma NodeInWindow(s: Setup, levels: Levels, runs: seq<seq<Call>>, d: nat, i: nat) returns (j: nat)
    requires ValidSetup(s) && ScanTree(s, levels, runs) && 0 < d < |levels| && i < |levels[d]|
    ensures Rooted(levels[d][i], d) && j < |levels[d - 1]| && levels[d - 1][j] == levels[d][i].parent
    ensures 0 <= levels[d][i].parent.ownAddr - levels[d][i].ptrAddr <= s.opts.maxObjSz
  {
    var c, x, k := NodeOrigin(s, levels, runs, d, i);
    var n := levels[d][i];
    WindowExact(n.parent.ownAddr, n.ptrAddr, s.opts.maxObjSz);
    j := k;
  }

  /** The chain of a node at depth `d` has `d + 1` offsets, and all but the first lie within the
      object size. */
  lemma {:induction false} ChainShape(s: Setup, levels: Levels, runs: seq<seq<Call>>, d: nat, i: nat, k: nat)
    requires ValidSetup(s) && ScanTree(s, levels, runs) && d < |levels| && i < |levels[d]| && k < d
    ensures Rooted(levels[d][i], d)
    ensures var offs := OffsetsUp(PathOf(levels[d][i], d));
            |offs| == d && 0 <= offs[k] <= s.opts.maxObjSz
    decreases d
  {
    var j := NodeInWindow(s, levels, runs, d, i);
    if k > 0 {
      ChainShape(s, levels, runs, d - 1, j, k - 1);
    }
    NodeShape(levels[d][i], d, s.opts.maxObjSz, k);
  }

  lemma NodeShape(n: TreeNode, d: nat, maxObjSz: nat, k: nat)
    requires Rooted(n, d) && k < d && maxObjSz < TWO_TO_63
    requires 0 <= n.parent.ownAddr - n.ptrAddr <= maxObjSz
    requires k > 0 ==> 0 <= OffsetsUp(PathOf(n.parent, d - 1))[k - 1] <= maxObjSz
    ensures var offs := OffsetsUp(PathOf(n, d)); |offs| == d && 0 <= offs[k] <= maxObjSz
  {
    OffsetsUpHead(n, d);
  }

  // ----- independence of the division and the interleaving -----

  /** What a call adds above one path in a plain scan. */
  ghost function Extender(opts: PtrOptions, depth: nat, c: Call): Path -> multiset<Path>
    requires 0 < depth && GoodCall(c)
  {
    (p: Path) => if p != [] && Accepts(opts, depth, p[0].ownAddr, Pointer(c))
         then multiset{[Step(c.node, c.addr, Pointer(c))] + p} else multiset{}
  }

  ghost function CallGrowth(opts: PtrOptions, depth: nat, ps: seq<Path>): Call -> multiset<Path>
    requires 0 < depth
  {
    (c: Call) => if GoodCall(c) then MSum(ps, Extender(opts, depth, c)) else multiset{}
  }

  /** The paths of a level, from the calls and the paths of the level before. */
  ghost function GrownPaths(opts: PtrOptions, depth: nat, calls: seq<Call>, ps: seq<Path>): multiset<Path>
    requires 0 < depth
  {
    MSum(calls, CallGrowth(opts, depth, ps))
  }

  /** Neither the order of the calls nor that of the paths matters. */
  lemma GrownPathsPermutation(opts: PtrOptions, depth: nat, calls: seq<Call>, calls': seq<Call>, ps: seq<Path>,
                              ps': seq<Path>)
    requires 0 < depth && multiset(calls) == multiset(calls') && multiset(ps) == multiset(ps')
    ensures GrownPaths(opts, depth, calls, ps) == GrownPaths(opts, depth, calls', ps')
  {
    var f, f' := CallGrowth(opts, depth, ps), CallGrowth(opts, depth, ps');
    forall i | 0 <= i < |calls|
      ensures f(calls[i]) == f'(calls[i])
    {
      if GoodCall(calls[i]) {
        MSumPermutation(ps, ps', Extender(opts, depth, calls[i]));
      }
    }
    MSumSame(calls, f, f');
    MSumPermutation(calls, calls', f');
  }

  /** Candidates as the paths they become. */
  ghost function CandidatePaths(cs: seq<Candidate>, d: nat): (ps: seq<Path>)
    requires ParentsRooted(cs, d)
    ensures |ps| == |cs|
  {
    seq(|cs|, i requires 0 <= i < |cs| =>
      [Step(cs[i].areaNode, cs[i].ownAddr, cs[i].ptrAddr)] + PathOf(cs[i].parent, d))
  }

  ghost predicate ParentsRooted(cs: seq<Candidate>, d: nat) {
    forall i :: 0 <= i < |cs| ==> Rooted(cs[i].parent, d)
  }

  lemma CandidatePathsConcat(a: seq<Candidate>, b: seq<Candidate>, d: nat)
    requires ParentsRooted(a, d) && ParentsRooted(b, d)
    ensures ParentsRooted(a + b, d)
    ensures CandidatePaths(a + b, d) == CandidatePaths(a, d) + CandidatePaths(b, d)
  {
  }

  lemma AdditionsStep(opts: PtrOptions, depth: nat, c: Call, parents: seq<TreeNode>)
    requires 0 < depth && GoodCall(c) && !opts.smartScan && parents != []
    ensures var n := |parents| - 1;
            Additions(opts, depth, c, parents) ==
            Additions(opts, depth, c, parents[..n]) +
            if Accepts(opts, depth, parents[n].ownAddr, Pointer(c))
            then [Candidate(c.addr, Pointer(c), parents[n], c.node)] else []
  {
  }

  lemma {:induction false} CallPaths(opts: PtrOptions, depth: nat, c: Call, parents: seq<TreeNode>, d: nat)
    requires 0 < depth && GoodCall(c) && !opts.smartScan && RootedLevel(parents, d)
    ensures ParentsRooted(Additions(opts, depth, c, parents), d)
    ensures multiset(CandidatePaths(Additions(opts, depth, c, parents), d)) ==
            MSum(LevelPaths(parents, d), Extender(opts, depth, c))
  {
    if parents != [] {
      var n := |parents| - 1;
      CallPaths(opts, depth, c, parents[..n], d);
      AdditionsStep(opts, depth, c, parents);
      var before := Additions(opts, depth, c, parents[..n]);
      assert LevelPaths(parents, d)[..n] == LevelPaths(parents[..n], d);
      if Accepts(opts, depth, parents[n].ownAddr, Pointer(c)) {
        var last := Candidate(c.addr, Pointer(c), parents[n], c.node);
        CandidatePathsConcat(before, [last], d);
        assert CandidatePaths([last], d) == [[Step(c.node, c.addr, Pointer(c))] + PathOf(parents[n], d)];
      } else {
        assert before + [] == before;
      }
    }
  }

  lemma {:induction false} GrowPaths(opts: PtrOptions, depth: nat, calls: seq<Call>, parents: seq<TreeNode>, d: nat)
    requires 0 < depth && GoodCalls(calls) && !opts.smartScan && RootedLevel(parents, d)
    ensures ParentsRooted(Grow(opts, depth, calls, parents), d)
    ensures multiset(CandidatePaths(Grow(opts, depth, calls, parents), d)) ==
            GrownPaths(opts, depth, calls, LevelPaths(parents, d))
  {
    if calls != [] {
      var n := |calls| - 1;
      GrowPaths(opts, depth, calls[..n], parents, d);
      CallPaths(opts, depth, calls[n], parents, d);
      CandidatePathsConcat(Grow(opts, depth, calls[..n], parents), Additions(opts, depth, calls[n], parents), d);
    }
  }

  /** `level`, at depth `d + 1`, is what `run` makes of `parents` at depth `d`. */
  ghost predicate GrownLevel(opts: PtrOptions, d: nat, run: seq<Call>, parents: seq<TreeNode>, level: seq<TreeNode>) {
    && RootedLevel(parents, d) && RootedLevel(level, d + 1)
    && GoodCalls(run) && HaveParents(level)
    && Views(level) == Grow(opts, d + 1, run, parents)
  }

  lemma LevelPathsGrown(opts: PtrOptions, d: nat, run: seq<Call>, parents: seq<TreeNode>, level: seq<TreeNode>)
    requires GrownLevel(opts, d, run, parents, level) && !opts.smartScan
    ensures multiset(LevelPaths(level, d + 1)) == GrownPaths(opts, d + 1, run, LevelPaths(parents, d))
  {
    GrowPaths(opts, d + 1, run, parents, d);
    ViewsPaths(level, d + 1);
  }

  lemma ViewsPaths(level: seq<TreeNode>, d: nat)
    requires 0 < d && RootedLevel(level, d) && HaveParents(level)
    ensures ParentsRooted(Views(level), d - 1)
    ensures LevelPaths(level, d) == CandidatePaths(Views(level), d - 1)
  {
  }

  lemma RootPaths(levels: Levels)
    requires Layered(levels) && levels != [] && |levels[0]| == 1
    ensures RootedLevel(levels[0], 0) && LevelPaths(levels[0], 0) == [[StepOf(levels[0][0])]]
  {
    var root := levels[0][0];
    assert Rooted(root, 0);
    assert PathOf(root, 0) == [StepOf(root)];
  }

  lemma SamePathsStep(opts: PtrOptions, d: nat, run: seq<Call>, parents: seq<TreeNode>, level: seq<TreeNode>,
                      run': seq<Call>, parents': seq<TreeNode>, level': seq<TreeNode>)
    requires GrownLevel(opts, d, run, parents, level) && GrownLevel(opts, d, run', parents', level')
    requires !opts.smartScan && multiset(run) == multiset(run')
    requires multiset(LevelPaths(parents, d)) == multiset(LevelPaths(parents', d))
    ensures multiset(LevelPaths(level, d + 1)) == multiset(LevelPaths(level', d + 1))
  {
    LevelPathsGrown(opts, d, run, parents, level);
    LevelPathsGrown(opts, d, run', parents', level');
    GrownPathsPermutation(opts, d + 1, run, run', LevelPaths(parents, d), LevelPaths(parents', d));
  }

  lemma ScanLevel(s: Setup, levels: Levels, runs: seq<seq<Call>>, d: nat)
    requires ValidSetup(s) && ScanTree(s, levels, runs) && d < s.opts.maxDepth
    ensures GrownLevel(s.opts, d, runs[d], levels[d], levels[d + 1])
    ensures FullRun(s, runs[d])
  {
    assert LevelGrown(s, levels, runs, d + 1);
  }

  /** Two plain scans of the same areas, visited in any order, have the same paths at every depth. */
  lemma {:induction false} SamePaths(s: Setup, levels: Levels, runs: seq<seq<Call>>, s': Setup, levels': Levels,
                                     runs': seq<seq<Call>>, d: nat)
    requires ValidSetup(s) && ValidSetup(s') && SameScan(s, s') && !s.opts.smartScan
    requires ScanTree(s, levels, runs) && ScanTree(s', levels', runs')
    requires StepOf(levels[0][0]) == StepOf(levels'[0][0])
    requires d <= s.opts.maxDepth
    ensures RootedLevel(levels[d], d) && RootedLevel(levels'[d], d)
    ensures multiset(LevelPaths(levels[d], d)) == multiset(LevelPaths(levels'[d], d))
    decreases d
  {
    if d == 0 {
      RootPaths(levels);
      RootPaths(levels');
    } else {
      var e := d - 1;
      SamePaths(s, levels, runs, s', levels', runs', e);
      SameVisits(s, s');
      ScanLevel(s, levels, runs, e);
      ScanLevel(s', levels', runs', e);
      SamePathsStep(s.opts, e, runs[e], levels[e], levels[d], runs'[e], levels'[e], levels'[d]);
    }
  }
}
