/** What a finished scan promises about its list of chains, and where the promise ends. */
module ScanTheorems {
  import opened Target
  import opened ResultFile
  import opened PtrscanTree
  import opened ScanWorker
  import opened WorkDivision
  import opened Matching
  import opened Growth
  import opened Paths
  import opened Independence
  import opened Ptrscanner

  // ----- where a chain comes from -----

  lemma {:induction false} LeafPathInLevel(levels: Levels, d: nat, level: seq<TreeNode>, k: nat) returns (i: nat)
    requires RootedLevel(level, d) && k < |LeafPathsIn(levels, d, level)|
    ensures i < |level| && IsLeaf(levels, d, level[i]) && LeafPathsIn(levels, d, level)[k] == PathOf(level[i], d)
    decreases |level|
  {
    var n := |level| - 1;
    if k < |LeafPathsIn(levels, d, level[..n])| {
      i := LeafPathInLevel(levels, d, level[..n], k);
    } else {
      i := n;
    }
  }

  lemma LeafPathsAt(levels: Levels, d: nat, k: nat)
    requires RootedLevels(levels) && d < |levels| && k < |LeafPaths(levels, d + 1)|
    ensures var below := LeafPaths(levels, d);
            LeafPaths(levels, d + 1)[k] ==
            if k < |below| then below[k] else LeafPathsIn(levels, d, levels[d])[k - |below|]
  {
  }

  /** Every listed path is the path of some childless node. */
  lemma {:induction false} LeafPathOrigin(levels: Levels, upTo: nat, k: nat) returns (d: nat, i: nat)
    requires RootedLevels(levels) && upTo <= |levels| && k < |LeafPaths(levels, upTo)|
    ensures d < upTo && i < |levels[d]| && IsLeaf(levels, d, levels[d][i])
    ensures LeafPaths(levels, upTo)[k] == PathOf(levels[d][i], d)
  {
    LeafPathsAt(levels, upTo - 1, k);
    var below := |LeafPaths(levels, upTo - 1)|;
    if k < below {
      d, i := LeafPathOrigin(levels, upTo - 1, k);
    } else {
      d := upTo - 1;
      i := LeafPathInLevel(levels, d, levels[d], k - below);
    }
  }

  /** A leaf is a node that is nobody's parent. */
  lemma {:induction false} LeafExactly(levels: Levels, d: nat, n: TreeNode)
    ensures IsLeaf(levels, d, n) <==> (d + 1 < |levels| ==> forall m :: m in levels[d + 1] ==> m.parent != n)
  {
    if d + 1 < |levels| {
      if m: TreeNode :| m in levels[d + 1] && m.parent == n {
        var i :| 0 <= i < |levels[d + 1]| && levels[d + 1][i] == m;
        SomeChildIn(levels[d + 1], n, i);
      } else {
        NoChildrenIn(levels[d + 1], n);
      }
    }
  }

  lemma {:induction false} LeavesConcat(levels: Levels, d: nat, a: seq<TreeNode>, b: seq<TreeNode>)
    requires RootedLevel(a, d) && RootedLevel(b, d)
    ensures RootedLevel(a + b, d)
    ensures LeafPathsIn(levels, d, a + b) == LeafPathsIn(levels, d, a) + LeafPathsIn(levels, d, b)
    decreases |b|
  {
    if b == [] {
      assert a + b == a;
    } else {
      var n := |b| - 1;
      assert (a + b)[..|a + b| - 1] == a + b[..n];
      LeavesConcat(levels, d, a, b[..n]);
    }
  }

  lemma {:induction false} OneLeaf(levels: Levels, d: nat, n: TreeNode)
    requires Rooted(n, d) && IsLeaf(levels, d, n)
    ensures RootedLevel([n], d) && LeafPathsIn(levels, d, [n]) == [PathOf(n, d)]
  {
    assert [n][..0] == [];
  }

  /** The path of a leaf is listed after those of the leaves before it. */
  lemma {:induction false} LeafListedIn(levels: Levels, d: nat, level: seq<TreeNode>, i: nat)
    requires RootedLevel(level, d) && i < |level| && IsLeaf(levels, d, level[i])
    ensures var k := |LeafPathsIn(levels, d, level[..i])|;
            k < |LeafPathsIn(levels, d, level)| && LeafPathsIn(levels, d, level)[k] == PathOf(level[i], d)
  {
    var a, b, c := level[..i], [level[i]], level[i + 1..];
    OneLeaf(levels, d, level[i]);
    LeavesConcat(levels, d, a, b);
    LeavesConcat(levels, d, a + b, c);
    SplitAround(level, i);
  }

  lemma SplitAround<T>(s: seq<T>, i: nat)
    requires i < |s|
    ensures s == s[..i] + [s[i]] + s[i + 1..]
  {
  }

  lemma {:induction false} FewerLeaves(levels: Levels, d: nat, level: seq<TreeNode>, i: nat, j: nat)
    requires RootedLevel(level, d) && i < j <= |level| && IsLeaf(levels, d, level[i])
    ensures |LeafPathsIn(levels, d, level[..i])| < |LeafPathsIn(levels, d, level[..j])|
  {
    LeafListedIn(levels, d, level[..j], i);
    assert level[..j][..i] == level[..i];
  }

  /** How many leaves come before a node. */
  ghost function LeavesBefore(levels: Levels, d: nat, i: nat): nat
    requires RootedLevels(levels) && d < |levels| && i < |levels[d]|
  {
    |LeafPaths(levels, d)| + |LeafPathsIn(levels, d, levels[d][..i])|
  }

  ghost predicate ListedAt(levels: Levels, upTo: nat, k: nat, p: Path)
    requires RootedLevels(levels) && upTo <= |levels|
  {
    k < |LeafPaths(levels, upTo)| && LeafPaths(levels, upTo)[k] == p
  }

  lemma {:induction false} ListedStays(levels: Levels, d: nat, upTo: nat, k: nat, p: Path)
    requires RootedLevels(levels) && d <= upTo <= |levels| && ListedAt(levels, d, k, p)
    ensures ListedAt(levels, upTo, k, p)
    decreases upTo
  {
    if d < upTo {
      ListedStays(levels, d, upTo - 1, k, p);
      LeafPathsMore(levels, upTo - 1);
    }
  }

  lemma LeafPathsMore(levels: Levels, d: nat)
    requires RootedLevels(levels) && d < |levels|
    ensures LeafPaths(levels, d + 1) == LeafPaths(levels, d) + LeafPathsIn(levels, d, levels[d])
  {
  }

  lemma ElementBehind<T>(a: seq<T>, b: seq<T>, k: nat)
    requires k < |b|
    ensures (a + b)[|a| + k] == b[k]
  {
  }

  lemma {:induction false} ListedInLevel(levels: Levels, d: nat, i: nat)
    requires RootedLevels(levels) && d < |levels| && i < |levels[d]| && IsLeaf(levels, d, levels[d][i])
    ensures ListedAt(levels, d + 1, LeavesBefore(levels, d, i), PathOf(levels[d][i], d))
  {
    var before := LeafPathsIn(levels, d, levels[d][..i]);
    LeafListedIn(levels, d, levels[d], i);
    LeafPathsMore(levels, d);
    ElementBehind(LeafPaths(levels, d), LeafPathsIn(levels, d, levels[d]), |before|);
  }

  lemma {:induction false} LeafListedAt(levels: Levels, upTo: nat, d: nat, i: nat)
    requires RootedLevels(levels) && d < upTo <= |levels| && i < |levels[d]| && IsLeaf(levels, d, levels[d][i])
    ensures ListedAt(levels, upTo, LeavesBefore(levels, d, i), PathOf(levels[d][i], d))
  {
    ListedInLevel(levels, d, i);
    ListedStays(levels, d + 1, upTo, LeavesBefore(levels, d, i), PathOf(levels[d][i], d));
  }

  lemma {:induction false} MoreBefore(levels: Levels, d: nat, i: nat, e: nat, j: nat)
    requires RootedLevels(levels) && d < |levels| && i < |levels[d]| && e < |levels| && j < |levels[e]|
    requires IsLeaf(levels, d, levels[d][i]) && (d < e || (d == e && i < j))
    ensures LeavesBefore(levels, d, i) < LeavesBefore(levels, e, j)
  {
    if d == e {
      FewerLeaves(levels, d, levels[d], i, j);
    } else {
      LeafListedAt(levels, e, d, i);
    }
  }

  /** Of any two nodes that are nobody's parent, the one of the lower level, or the first one of the same
      level, is listed first. */
  lemma {:induction false} ListedInOrder(levels: Levels, d: nat, i: nat, e: nat, j: nat) returns (k: nat, l: nat)
    requires RootedLevels(levels) && d < |levels| && i < |levels[d]| && e < |levels| && j < |levels[e]|
    requires d + 1 < |levels| ==> forall n :: n in levels[d + 1] ==> n.parent != levels[d][i]
    requires e + 1 < |levels| ==> forall n :: n in levels[e + 1] ==> n.parent != levels[e][j]
    requires d < e || (d == e && i < j)
    ensures k < l && ListedAt(levels, |levels|, k, PathOf(levels[d][i], d))
    ensures ListedAt(levels, |levels|, l, PathOf(levels[e][j], e))
  {
    LeafExactly(levels, d, levels[d][i]);
    LeafExactly(levels, e, levels[e][j]);
    LeafListedAt(levels, |levels|, d, i);
    LeafListedAt(levels, |levels|, e, j);
    MoreBefore(levels, d, i, e, j);
    k, l := LeavesBefore(levels, d, i), LeavesBefore(levels, e, j);
  }

  /** The result of a scan: its tree, and the chains and pathnames flattening made of it. */
  ghost predicate ScanResult(s: Setup, levels: Levels, runs: seq<seq<Call>>, names: seq<seq<byte>>,
                             chains: seq<Chain>) {
    && ValidSetup(s) && ScanTree(s, levels, runs) && RootedLevels(levels)
    && Flattened(s.vmap, names, chains, LeafPaths(levels, |levels|))
  }

  /** The nodes of a path, from its first step to the root. */
  ghost predicate NodesUp(nodes: seq<TreeNode>, p: Path) {
    && |nodes| == |p| && (forall i :: 0 <= i < |p| - 1 ==> nodes[i].parent == nodes[i + 1])
    && forall i :: 0 <= i < |p| ==>
         nodes[i].areaNode == p[i].areaNode && nodes[i].ownAddr == p[i].ownAddr && nodes[i].ptrAddr == p[i].ptrAddr
  }

  lemma {:induction false} PathNodes(levels: Levels, d: nat, i: nat) returns (nodes: seq<TreeNode>)
    requires Layered(levels) && d < |levels| && i < |levels[d]|
    ensures Rooted(levels[d][i], d) && NodesUp(nodes, PathOf(levels[d][i], d))
    ensures nodes[0] == levels[d][i] && nodes[d] in levels[0]
    decreases d
  {
    var n := levels[d][i];
    assert Rooted(n, d);
    if d == 0 {
      nodes := [n];
    } else {
      assert n.parent in levels[d - 1];
      var j :| 0 <= j < |levels[d - 1]| && levels[d - 1][j] == n.parent;
      var up := PathNodes(levels, d - 1, j);
      nodes := [n] + up;
    }
  }

  /** The nodes lead from one that is nobody's parent, as many levels above the target as there are steps, by
      parents to the target's. */
  ghost predicate UpToTarget(levels: Levels, nodes: seq<TreeNode>) {
    && 0 < |nodes| <= |levels| && |levels[0]| == 1
    && nodes[0] in levels[|nodes| - 1] && nodes[|nodes| - 1] == levels[0][0]
    && (forall i :: 0 <= i < |nodes| - 1 ==> nodes[i].parent == nodes[i + 1])
    && (|nodes| < |levels| ==> forall n :: n in levels[|nodes|] ==> n.parent != nodes[0])
  }

  /** The object of the chain is that of the first node's area, or the last one before it, and its pathname
      is that object's. Its first offset leads from the start of that object to the first node, the others
      from the pointer of a node to the address of its parent, modulo 2^64. */
  ghost predicate ChainOf(vmap: VmMap, names: seq<seq<byte>>, c: Chain, nodes: seq<TreeNode>) {
    && 0 < |nodes| == |c.offsets| && nodes[0].areaNode < |vmap.areas|
    && var area := vmap.areas[nodes[0].areaNode];
       && c.obj == (if area.obj.Some? then area.obj else area.lastObj) && c.pathname == None
       && c.obj.Some? && c.obj.value < |vmap.objs|
       && c.objIdx < |names| && names[c.objIdx] == vmap.objs[c.obj.value].pathname
       && (c.offsets[0] - (nodes[0].ownAddr - vmap.objs[c.obj.value].start)) % 0x1_0000_0000_0000_0000 == 0
       && forall i :: 0 < i < |nodes| ==>
            (c.offsets[i] - (nodes[i].ownAddr - nodes[i - 1].ptrAddr)) % 0x1_0000_0000_0000_0000 == 0
  }

  lemma {:induction false} ChainOfNodes(vmap: VmMap, names: seq<seq<byte>>, c: Chain, p: Path, nodes: seq<TreeNode>)
    requires ChainFor(vmap, names, c, p) && NodesUp(nodes, p)
    ensures ChainOf(vmap, names, c, nodes)
  {
    var start := vmap.objs[c.obj.value].start;
    OffsetsExactly(start, p, 0);
    forall i | 0 < i < |nodes|
      ensures (c.offsets[i] - (nodes[i].ownAddr - nodes[i - 1].ptrAddr)) % 0x1_0000_0000_0000_0000 == 0
    {
      OffsetsExactly(start, p, i);
    }
  }

  /** The leaf a listed chain is made of. */
  lemma {:induction false} ListedLeaf(vmap: VmMap, levels: Levels, names: seq<seq<byte>>, chains: seq<Chain>, k: nat)
    returns (d: nat, i: nat)
    requires RootedLevels(levels) && Flattened(vmap, names, chains, LeafPaths(levels, |levels|)) && k < |chains|
    ensures d < |levels| && i < |levels[d]| && IsLeaf(levels, d, levels[d][i])
    ensures Rooted(levels[d][i], d) && LeafPaths(levels, |levels|)[k] == PathOf(levels[d][i], d)
    ensures ChainFor(vmap, names, chains[k], PathOf(levels[d][i], d))
  {
    d, i := LeafPathOrigin(levels, |levels|, k);
    assert ChainFor(vmap, names, chains[k], LeafPaths(levels, |levels|)[k]);
  }

  lemma {:induction false} LeafNodes(levels: Levels, d: nat, i: nat) returns (nodes: seq<TreeNode>)
    requires Layered(levels) && d < |levels| && i < |levels[d]| && |levels[0]| == 1 && IsLeaf(levels, d, levels[d][i])
    ensures Rooted(levels[d][i], d) && NodesUp(nodes, PathOf(levels[d][i], d)) && nodes[0] == levels[d][i]
    ensures UpToTarget(levels, nodes)
  {
    nodes := PathNodes(levels, d, i);
    LeafExactly(levels, d, nodes[0]);
  }

  /** What a listed chain is, by the fields of nodes, areas and objects. */
  lemma {:induction false} ChainExactly(vmap: VmMap, levels: Levels, names: seq<seq<byte>>, chains: seq<Chain>, k: nat)
    returns (nodes: seq<TreeNode>)
    requires Layered(levels) && levels != [] && |levels[0]| == 1 && RootedLevels(levels)
    requires Flattened(vmap, names, chains, LeafPaths(levels, |levels|)) && k < |chains|
    ensures UpToTarget(levels, nodes) && ChainOf(vmap, names, chains[k], nodes)
    ensures Rooted(nodes[0], |nodes| - 1) && LeafPaths(levels, |levels|)[k] == PathOf(nodes[0], |nodes| - 1)
  {
    var d, i := ListedLeaf(vmap, levels, names, chains, k);
    nodes := LeafNodes(levels, d, i);
    ChainOfNodes(vmap, names, chains[k], PathOf(levels[d][i], d), nodes);
  }

  // ----- soundness -----

  /** With 8-byte pointers a chain of a scan passes verification in the memory that was scanned, if
      none of its pointers lies across the end of its area. */
  lemma {:induction false} ChainSound(s: Setup, levels: Levels, runs: seq<seq<Call>>, names: seq<seq<byte>>,
                                      chains: seq<Chain>, k: nat)
    requires ScanResult(s, levels, runs, names, chains) && s.width == 8 && k < |chains|
    requires ClearPath(s, LeafPaths(levels, |levels|)[k]) || s.opts.alignment == 8
    ensures ChainAccepted(s.mem, s.vmap, chains[k], s.opts.targetAddr)
  {
    var d, i := LeafPathOrigin(levels, |levels|, k);
    assert ChainFor(s.vmap, names, chains[k], LeafPaths(levels, |levels|)[k]);
    ScanSound(s, levels, runs, d, i);
  }

  /** So with aligned 8-byte pointers verifying right after a scan removes nothing. */
  lemma {:induction false} ScanVerifies(s: Setup, levels: Levels, runs: seq<seq<Call>>, names: seq<seq<byte>>,
                                        chains: seq<Chain>)
    requires ScanResult(s, levels, runs, names, chains) && s.width == 8 && s.opts.alignment == 8
    ensures AcceptedChains(s.mem, s.vmap, chains, s.opts.targetAddr) == chains
  {
    forall k | 0 <= k < |chains|
      ensures ChainAccepted(s.mem, s.vmap, chains[k], s.opts.targetAddr)
    {
      ChainSound(s, levels, runs, names, chains, k);
    }
    AllAcceptedStay(s.mem, s.vmap, chains, s.opts.targetAddr);
  }

  lemma {:induction false} PathOffsets(s: Setup, levels: Levels, runs: seq<seq<Call>>, d: nat, i: nat, start: Address)
    requires ValidSetup(s) && ScanTree(s, levels, runs) && d < |levels| && i < |levels[d]|
    ensures Rooted(levels[d][i], d)
    ensures var offs := OffsetsFrom(start, PathOf(levels[d][i], d));
            |offs| == d + 1 && forall j :: 0 < j < |offs| ==> 0 <= offs[j] <= s.opts.maxObjSz
  {
    var up := OffsetsUp(PathOf(levels[d][i], d));
    forall j | 0 <= j < d
      ensures |up| == d && 0 <= up[j] <= s.opts.maxObjSz
    {
      ChainShape(s, levels, runs, d, i, j);
    }
  }

  /** A chain comes from a childless node of some depth `d`, has `d + 1` offsets, and all but the
      first lie in [0, `maxObjSz`]. */
  lemma ChainOffsets(s: Setup, levels: Levels, runs: seq<seq<Call>>, names: seq<seq<byte>>, chains: seq<Chain>, k: nat)
    returns (d: nat, i: nat)
    requires ScanResult(s, levels, runs, names, chains) && k < |chains|
    ensures d <= s.opts.maxDepth && i < |levels[d]| && IsLeaf(levels, d, levels[d][i])
    ensures |chains[k].offsets| == d + 1
    ensures forall j :: 0 < j <= d ==> 0 <= chains[k].offsets[j] <= s.opts.maxObjSz
  {
    d, i := LeafPathOrigin(levels, |levels|, k);
    assert ChainFor(s.vmap, names, chains[k], LeafPaths(levels, |levels|)[k]);
    PathOffsets(s, levels, runs, d, i, ObjStart(s.vmap, levels[d][i].areaNode));
  }

  // ----- what can be saved -----

  lemma {:induction false} AllLeaves(levels: Levels, d: nat, level: seq<TreeNode>)
    requires RootedLevel(level, d) && level != [] && LevelAfter(levels, d) == []
    ensures LeafPathsIn(levels, d, level) != []
  {
  }

  /** The deepest nodes are leaves. */
  lemma {:induction false} SomeLeaf(levels: Levels, d: nat, upTo: nat)
    requires RootedLevels(levels) && d < upTo <= |levels| && levels[d] != []
    requires forall e :: upTo <= e < |levels| ==> levels[e] == []
    ensures LeafPaths(levels, upTo) != []
    decreases upTo
  {
    var e := upTo - 1;
    if levels[e] == [] {
      SomeLeaf(levels, d, e);
    } else {
      AllLeaves(levels, e, levels[e]);
    }
  }

  /** The result of any scan of objects with NUL-free pathnames is one a file can be made of. */
  lemma ScanIsProduced(s: Setup, levels: Levels, runs: seq<seq<Call>>, names: seq<seq<byte>>, chains: seq<Chain>)
    requires ScanResult(s, levels, runs, names, chains)
    requires forall o :: 0 <= o < |s.vmap.objs| ==> 0 !in s.vmap.objs[o].pathname
    ensures Produced(Table(names, chains))
  {
    var paths := LeafPaths(levels, |levels|);
    SomeLeaf(levels, 0, |levels|);
    forall i | 0 <= i < |chains|
      ensures chains[i].objIdx < |names| && 0 !in names[chains[i].objIdx] && chains[i].offsets != []
    {
      assert ChainFor(s.vmap, names, chains[i], paths[i]);
    }
    forall k | 0 <= k < |names|
      ensures 0 !in names[k]
    {
      assert Used(chains, k);
    }
  }

  // ----- independence -----

  /** What a chain says, apart from its position in the pathname table. */
  datatype Key = Key(obj: Option<nat>, pathname: seq<byte>, offsets: seq<Offset>)

  function KeyOf(names: seq<seq<byte>>, c: Chain): Key {
    Key(c.obj, if c.objIdx < |names| then names[c.objIdx] else [], c.offsets)
  }

  function Keys(names: seq<seq<byte>>, chains: seq<Chain>): (keys: seq<Key>)
    ensures |keys| == |chains|
    ensures forall i :: 0 <= i < |chains| ==>
              && keys[i].obj == chains[i].obj && keys[i].offsets == chains[i].offsets
              && (chains[i].objIdx < |names| ==> keys[i].pathname == names[chains[i].objIdx])
  {
    if chains == [] then [] else Keys(names, chains[..|chains| - 1]) + [KeyOf(names, chains[|chains| - 1])]
  }

  ghost function PathKey(vmap: VmMap): Path -> multiset<Key> {
    (p: Path) =>
      if p != [] && HasObj(vmap, p[0].areaNode) then
        var o := ObjOf(vmap, p[0].areaNode).value;
        multiset{Key(Some(o), vmap.objs[o].pathname, OffsetsFrom(vmap.objs[o].start, p))}
      else multiset{}
  }

  lemma {:induction false} KeysSum(vmap: VmMap, names: seq<seq<byte>>, chains: seq<Chain>, paths: seq<Path>)
    requires |chains| == |paths|
    requires forall i :: 0 <= i < |chains| ==> ChainFor(vmap, names, chains[i], paths[i])
    ensures multiset(Keys(names, chains)) == MSum(paths, PathKey(vmap))
  {
    if chains != [] {
      var n := |chains| - 1;
      KeysSum(vmap, names, chains[..n], paths[..n]);
      assert ChainFor(vmap, names, chains[n], paths[n]);
    }
  }

  /** Two plain scans of the same areas list the same chains, each as often: the same objects,
      pathnames and offsets, whatever the order the areas were listed in, the number of workers, the
      division of the areas and the interleaving of the batches. */
  lemma {:induction false} SameChains(s: Setup, levels: Levels, runs: seq<seq<Call>>, names: seq<seq<byte>>,
                                      chains: seq<Chain>,
                   s': Setup, levels': Levels, runs': seq<seq<Call>>, names': seq<seq<byte>>, chains': seq<Chain>)
    requires ScanResult(s, levels, runs, names, chains) && ScanResult(s', levels', runs', names', chains')
    requires SameScan(s, s') && !s.opts.smartScan && StepOf(levels[0][0]) == StepOf(levels'[0][0])
    ensures multiset(Keys(names, chains)) == multiset(Keys(names', chains'))
  {
    SameLeaves(s, levels, runs, s', levels', runs');
    var paths, paths' := LeafPaths(levels, |levels|), LeafPaths(levels', |levels'|);
    KeysSum(s.vmap, names, chains, paths);
    KeysSum(s.vmap, names', chains', paths');
    MSumPermutation(paths, paths', PathKey(s.vmap));
  }

  /** Two crews that read the same memory in the same way. */
  ghost predicate SameCrews(crew: seq<Worker>, crew': seq<Worker>) {
    && crew != [] && crew' != [] && SameKind(crew) && SameKind(crew') && crew[0].session == crew'[0].session
    && crew[0].pageSize == crew'[0].pageSize && crew[0].addrWidth == crew'[0].addrWidth
  }

  /** Scanning the same areas twice, with whatever pools and crews, lists the same chains. */
  method ScanTwice(scanner: Ptrscan, scanner': Ptrscan, opts: PtrOptions, vmap: VmMap, areaNodes: set<nat>,
                   rootArea: nat,
                   pool: WorkerPool, crew: seq<Worker>, pool': WorkerPool, crew': seq<Worker>)
    returns (completed: bool, completed': bool)
    requires scanner != scanner' && SameCrews(crew, crew') && !opts.smartScan
    requires pool.workerCount == |crew| && pool'.workerCount == |crew'| && pool != pool'
    requires NodesInMap(vmap, areaNodes) && |vmap.objs| < TWO_TO_32
    requires ScanPossible(opts, vmap, areaNodes, rootArea, crew[0])
    modifies scanner, scanner', pool, pool', set w | w in crew :: w.buf, set w | w in crew' :: w.buf
    ensures completed == completed'
    ensures multiset(Keys(scanner.serPathnames, scanner.chains)) ==
            multiset(Keys(scanner'.serPathnames, scanner'.chains))
  {
    var ret;
    ghost var s, runs, s', runs';
    ret, completed, s, runs := scanner.Scan(Some(opts), vmap, areaNodes, rootArea, pool, crew);
    ghost var levels := if completed then scanner.tree.depthLevels else [];
    ret, completed', s', runs' := scanner'.Scan(Some(opts), vmap, areaNodes, rootArea, pool', crew');
    if completed {
      SameChains(s, levels, runs, scanner.serPathnames, scanner.chains,
                 s', scanner'.tree.depthLevels, runs', scanner'.serPathnames, scanner'.chains);
    }
  }

  // ----- 4-byte pointers -----

  /** Following a chain of one pointer reads one word. */
  lemma {:induction false} FollowPair(mem: Memory, start: Address, p: Path)
    requires |p| == 2
    ensures var a: int := p[0].ownAddr;
            Follow(mem, 8, start, OffsetsFrom(start, p)) ==
            if Mapped(mem, a, a + 8)
            then Some(Wrap(WordValue(Bytes(mem, a, 8)) + ToOffset(p[1].ownAddr - p[0].ptrAddr)))
            else None
  {
    WrapOffset(start, p[0].ownAddr);
    var offs := OffsetsFrom(start, p);
    assert offs[1..] == [ToOffset(p[1].ownAddr - p[0].ptrAddr)];
  }

  lemma {:induction false} ZerosAreZero(bytes: seq<byte>)
    ensures WordValue(bytes) == 0 <==> forall i :: 0 <= i < |bytes| ==> bytes[i] == 0
  {
    if bytes != [] {
      ZerosAreZero(bytes[1..]);
      assert forall i :: 0 < i < |bytes| ==> bytes[i] == bytes[1..][i - 1];
    }
  }

  lemma SecondByte(b: byte)
    ensures WordValue([0, b, 0, 0, 0, 0, 0, 0]) == 256 * (b as int)
  {
    var zeros: seq<byte> := [0, 0, 0, 0, 0, 0];
    ZerosAreZero(zeros);
    assert [b, 0, 0, 0, 0, 0, 0][1..] == zeros;
    assert [0, b, 0, 0, 0, 0, 0, 0][1..] == [b, 0, 0, 0, 0, 0, 0];
  }

  lemma {:induction false} WordSplit(a: seq<byte>, b: seq<byte>)
    ensures WordValue(a + b) == WordValue(a) + Pow256(|a|) * WordValue(b)
  {
    if a == [] {
      assert a + b == b;
    } else {
      WordSplit(a[1..], b);
      assert (a + b)[1..] == a[1..] + b;
      Regrouped(Pow256(|a| - 1), WordValue(b));
    }
  }

  lemma Regrouped(p: int, x: int)
    ensures 256 * (p * x) == (256 * p) * x
  {
  }

  /** The four bytes after a 4-byte pointer are mapped and zero. */
  predicate Padded(mem: Memory, a: int) {
    Mapped(mem, a, a + 8) && Bytes(mem, a + 4, 4) == [0, 0, 0, 0]
  }

  /** Verification reads eight bytes. It reads the same pointer as a 4-byte scan exactly if the
      four bytes after it are zero. */
  lemma WideReadExact(mem: Memory, a: int)
    requires Mapped(mem, a, a + 8)
    ensures WordValue(Bytes(mem, a, 8)) == WordValue(Bytes(mem, a, 4)) <==> Padded(mem, a)
  {
    var low, high := Bytes(mem, a, 4), Bytes(mem, a + 4, 4);
    assert Bytes(mem, a, 8) == low + high;
    WordSplit(low, high);
    assert Pow256(4) == 0x1_0000_0000;
    ZerosAreZero(high);
  }

  /** All pointers of the path are padded. */
  ghost predicate AllPadded(mem: Memory, p: Path) {
    forall j :: 0 <= j < |p| - 1 ==> Padded(mem, p[j].ownAddr)
  }

  lemma PaddedTruthful(mem: Memory, p: Path)
    requires Truthful(mem, 4, p) && AllPadded(mem, p)
    ensures Truthful(mem, 8, p)
  {
    forall j | 0 <= j < |p| - 1
      ensures StepTruthful(mem, 8, p[j])
    {
      assert StepTruthful(mem, 4, p[j]);
      WideReadExact(mem, p[j].ownAddr);
    }
  }

  lemma {:induction false} FollowPadded(mem: Memory, start: Address, p: Path)
    requires p != [] && Truthful(mem, 4, p) && AllPadded(mem, p)
    ensures Follow(mem, 8, start, OffsetsFrom(start, p)) == Some(p[|p| - 1].ownAddr)
  {
    PaddedTruthful(mem, p);
    FollowPath(mem, 8, start, p);
  }

  lemma {:induction false} NarrowNodeSound(s: Setup, levels: Levels, runs: seq<seq<Call>>, d: nat, i: nat,
                                           start: Address)
    requires ValidSetup(s) && ScanTree(s, levels, runs) && s.width == 4 && d < |levels| && i < |levels[d]|
    requires var p := PathOf(levels[d][i], d);
             (ClearPath(s, p) || s.opts.alignment == 4) && AllPadded(s.mem, p)
    ensures Follow(s.mem, 8, start, OffsetsFrom(start, PathOf(levels[d][i], d))) == Some(s.opts.targetAddr)
  {
    PathTruthful(s, levels, runs, d, i);
    PathEndsAtTarget(s, levels, d, i);
    FollowPadded(s.mem, start, PathOf(levels[d][i], d));
  }

  /** So a chain of a 4-byte scan passes verification if all its pointers are padded. */
  lemma {:induction false} NarrowChainSound(s: Setup, levels: Levels, runs: seq<seq<Call>>, names: seq<seq<byte>>,
                                            chains: seq<Chain>,
                         k: nat)
    requires ScanResult(s, levels, runs, names, chains) && s.width == 4 && k < |chains|
    requires var p := LeafPaths(levels, |levels|)[k];
             (ClearPath(s, p) || s.opts.alignment == 4) && AllPadded(s.mem, p)
    ensures ChainAccepted(s.mem, s.vmap, chains[k], s.opts.targetAddr)
  {
    var d, i := LeafPathOrigin(levels, |levels|, k);
    var p := LeafPaths(levels, |levels|)[k];
    assert ChainFor(s.vmap, names, chains[k], p);
    NarrowNodeSound(s, levels, runs, d, i, ObjStart(s.vmap, p[0].areaNode));
  }

  lemma OffsetReaches(read: Address, held: Address, x: Address)
    ensures Wrap(read + ToOffset(x - held)) == x <==> read == held
  {
  }

  /** And a chain of one 4-byte pointer passes exactly if that pointer is padded. */
  lemma {:induction false} NarrowPairExact(mem: Memory, start: Address, p: Path)
    requires |p| == 2 && StepTruthful(mem, 4, p[0])
    ensures Follow(mem, 8, start, OffsetsFrom(start, p)) == Some(p[1].ownAddr) <==> Padded(mem, p[0].ownAddr)
  {
    var a: int := p[0].ownAddr;
    FollowPair(mem, start, p);
    if Mapped(mem, a, a + 8) {
      WideReadExact(mem, a);
      WordValueBound(Bytes(mem, a, 8));
      OffsetReaches(WordValue(Bytes(mem, a, 8)), p[0].ptrAddr, p[1].ownAddr);
    }
  }
}
