/** The pointer scanner: growing the tree call by call, flattening it to chains, verifying
    chains against memory, and storing and loading them. */
module Ptrscanner {
  import opened Target
  import opened FbufUtil
  import opened ResultFile
  import opened PtrscanTree
  import opened ScanWorker
  import opened Matching
  import opened Growth
  import opened Paths
  import opened Independence
  import opened WorkDivision

  // ----- what flattening has to produce -----

  /** The chain of a path: relative to the object of its first area, whose pathname it names. */
  ghost predicate ChainFor(vmap: VmMap, names: seq<seq<byte>>, c: Chain, p: Path) {
    && p != [] && HasObj(vmap, p[0].areaNode)
    && var o := ObjOf(vmap, p[0].areaNode).value;
       && c.obj == Some(o) && c.pathname == None
       && c.offsets == OffsetsFrom(vmap.objs[o].start, p)
       && c.objIdx < |names| && names[c.objIdx] == vmap.objs[o].pathname
  }

  ghost predicate Used(chains: seq<Chain>, k: nat) {
    exists i :: 0 <= i < |chains| && chains[i].objIdx == k
  }

  /** `chains` are the chains of `paths`, in order, and the pathname table holds exactly the
      pathnames they need, each once. */
  ghost predicate Flattened(vmap: VmMap, names: seq<seq<byte>>, chains: seq<Chain>, paths: seq<Path>) {
    && |chains| == |paths|
    && (forall i :: 0 <= i < |chains| ==> ChainFor(vmap, names, chains[i], paths[i]))
    && Distinct(names)
    && (forall k :: 0 <= k < |names| ==> Used(chains, k))
  }

  lemma {:induction false} FlattenedNone(vmap: VmMap, levels: Levels)
    requires RootedLevels(levels)
    ensures Flattened(vmap, [], [], LeafPaths(levels, 0))
  {
  }

  lemma {:induction false} FlattenedMore(vmap: VmMap, names: seq<seq<byte>>, chains: seq<Chain>, paths: seq<Path>,
                      names': seq<seq<byte>>, c: Chain, p: Path)
    requires Flattened(vmap, names, chains, paths) && Distinct(names')
    requires names <= names' && |names'| <= |names| + 1
    requires ChainFor(vmap, names', c, p) && (names' != names ==> c.objIdx == |names|)
    ensures Flattened(vmap, names', chains + [c], paths + [p])
  {
    var chains' := chains + [c];
    forall k | 0 <= k < |names'|
      ensures Used(chains', k)
    {
      if k < |names| {
        assert Used(chains, k);
        var i :| 0 <= i < |chains| && chains[i].objIdx == k;
        assert chains'[i].objIdx == k;
      } else {
        assert chains'[|chains|].objIdx == k;
      }
    }
  }

  function NameSet(objs: seq<Obj>): (names: set<seq<byte>>)
    ensures |names| <= |objs|
    ensures forall i :: 0 <= i < |objs| ==> objs[i].pathname in names
  {
    if objs == [] then {} else NameSet(objs[..|objs| - 1]) + {objs[|objs| - 1].pathname}
  }

  lemma {:induction false} DistinctFit(names: seq<seq<byte>>, all: set<seq<byte>>)
    requires Distinct(names) && forall k :: 0 <= k < |names| ==> names[k] in all
    ensures |names| <= |all|
    decreases |names|
  {
    if names != [] {
      var n := |names| - 1;
      DistinctFit(names[..n], all - {names[n]});
    }
  }

  /** The table never has more entries than the map has objects. */
  lemma {:induction false} TableFits(vmap: VmMap, names: seq<seq<byte>>, chains: seq<Chain>, paths: seq<Path>,
                                     names': seq<seq<byte>>,
                  o: nat)
    requires Flattened(vmap, names, chains, paths) && o < |vmap.objs|
    requires Distinct(names') && (names' == names || names' == names + [vmap.objs[o].pathname])
    ensures |names'| <= |vmap.objs|
  {
    forall k | 0 <= k < |names'|
      ensures names'[k] in NameSet(vmap.objs)
    {
      if k < |names| {
        assert Used(chains, k);
        var i :| 0 <= i < |chains| && chains[i].objIdx == k;
        assert ChainFor(vmap, names, chains[i], paths[i]);
      }
    }
    DistinctFit(names', NameSet(vmap.objs));
  }

  // ----- what verification accepts -----

  /** Following the chain with 8-byte reads arrives at the target. */
  predicate ChainAccepted(mem: Memory, vmap: VmMap, c: Chain, target: Address) {
    && c.obj.Some? && c.obj.value < |vmap.objs|
    && Follow(mem, 8, vmap.objs[c.obj.value].start, c.offsets) == Some(target)
  }

  function AcceptedChains(mem: Memory, vmap: VmMap, chains: seq<Chain>, target: Address): seq<Chain> {
    if chains == [] then []
    else
      var n := |chains| - 1;
      AcceptedChains(mem, vmap, chains[..n], target) +
      if ChainAccepted(mem, vmap, chains[n], target) then [chains[n]] else []
  }

  class Ptrscan {
    var tree: Tree?
    var curDepthLevel: nat
    var chains: seq<Chain>
    var serPathnames: seq<seq<byte>>

    constructor ()
      ensures tree == null && curDepthLevel == 0 && chains == [] && serPathnames == []
    {
      tree, curDepthLevel, chains, serPathnames := null, 0, [], [];
    }

    ghost predicate Valid()
      reads this, tree, if tree == null then {} else tree.repr
    {
      tree != null ==> tree.Valid()
    }

    // ----- growing the tree -----

    /** One turn of the loop over a level: what becomes of the container. */
    method MatchNode(opts: PtrOptions, depth: nat, c: Call, node: TreeNode, newNodes: seq<Candidate>)
      returns (nodes: seq<Candidate>)
      requires 0 < depth && GoodCall(c) && opts.maxObjSz < TWO_TO_63
      ensures nodes == WithNode(opts, depth, c, node, newNodes)
      ensures var own, p := node.ownAddr, WordValue(c.word);
              nodes ==
              if !(opts.maxObjSz <= own && 0 <= own - p <= opts.maxObjSz
                   && (opts.presetOffsets.Some? && depth < |opts.presetOffsets.value| ==>
                         (p - (own - opts.presetOffsets.value[depth - 1])) % 0x1_0000_0000_0000_0000 == 0))
              then newNodes
              else
                (if opts.smartScan && own - p < opts.maxObjSz then [] else newNodes)
                + [Candidate(c.addr, p, node, c.node)]
    {
      nodes := newNodes;
      var own, potentialPtr := node.ownAddr, Pointer(c);
      AcceptsExactly(opts, depth, own, potentialPtr);
      var minObjSz := opts.maxObjSz;
      if potentialPtr < Wrap(own - opts.maxObjSz) || potentialPtr > own {
        return;
      }
      if opts.presetOffsets.Some? && |opts.presetOffsets.value| > depth {
        if potentialPtr != Wrap(own - opts.presetOffsets.value[depth - 1]) {
          return;
        }
      }
      WindowExact(own, potentialPtr, opts.maxObjSz);
      if opts.smartScan {
        if Wrap(own - potentialPtr) > minObjSz {
          return;
        }
        if Wrap(own - potentialPtr) < minObjSz {
          nodes := [];
        }
      }
      nodes := nodes + [Candidate(c.addr, potentialPtr, node, c.node)];
    }

    /** The matches of a call among the parents. */
    method FindMatches(opts: PtrOptions, depth: nat, c: Call, level: seq<TreeNode>) returns (newNodes: seq<Candidate>)
      requires 0 < depth && GoodCall(c) && opts.maxObjSz < TWO_TO_63
      ensures newNodes == Additions(opts, depth, c, level)
    {
      newNodes := [];
      for i := 0 to |level|
        invariant newNodes == Additions(opts, depth, c, level[..i])
      {
        MatchesStep(opts, depth, c, level, i);
        newNodes := MatchNode(opts, depth, c, level[i], newNodes);
      }
      assert level[..|level|] == level;
    }

    /** Process one address: add all its matches to the current level in one batch. The answer is
        how far the caller is to advance. */
    method ProcessAddr(opts: PtrOptions, c: Call) returns (advance: nat)
      requires tree != null && tree.Valid() && 0 < curDepthLevel < |tree.depthLevels|
      requires GoodCall(c) && opts.maxObjSz < TWO_TO_63 && HaveParents(tree.depthLevels[curDepthLevel])
      modifies tree, tree.repr
      ensures advance == opts.alignment
      ensures tree.Valid() && fresh(tree.repr - old(tree.repr))
      ensures LevelExtended(old(tree.depthLevels), tree.depthLevels, curDepthLevel,
                            Additions(opts, curDepthLevel, c, old(tree.depthLevels[curDepthLevel - 1])))
    {
      var newNodes := FindMatches(opts, curDepthLevel, c, tree.depthLevels[curDepthLevel - 1]);
      AddBatch(newNodes);
      advance := opts.alignment;
    }

    /** Add one match to the current level. */
    method AddCandidate(c: Candidate)
      requires tree != null && tree.Valid() && 0 < curDepthLevel < |tree.depthLevels|
      requires HaveParents(tree.depthLevels[curDepthLevel]) && c.parent in tree.depthLevels[curDepthLevel - 1]
      modifies tree, tree.repr
      ensures tree.Valid() && fresh(tree.repr - old(tree.repr))
      ensures LevelExtended(old(tree.depthLevels), tree.depthLevels, curDepthLevel, [c])
    {
      ghost var level := tree.depthLevels[curDepthLevel];
      var node := tree.AddNode(c.parent, c.areaNode, curDepthLevel, c.ownAddr, c.ptrAddr);
      ViewsMore(level, node, c);
    }

    /** Add nodes to the current level, under the tree's mutex. */
    method AddBatch(newNodes: seq<Candidate>)
      requires tree != null && tree.Valid() && 0 < curDepthLevel < |tree.depthLevels|
      requires HaveParents(tree.depthLevels[curDepthLevel])
      requires forall i :: 0 <= i < |newNodes| ==> newNodes[i].parent in tree.depthLevels[curDepthLevel - 1]
      modifies tree, tree.repr
      ensures tree.Valid() && fresh(tree.repr - old(tree.repr))
      ensures LevelExtended(old(tree.depthLevels), tree.depthLevels, curDepthLevel, newNodes)
    {
      ghost var was := tree.depthLevels;
      ghost var parents := was[curDepthLevel - 1];
      for i := 0 to |newNodes|
        invariant tree.Valid() && fresh(tree.repr - old(tree.repr))
        invariant 0 < curDepthLevel < |tree.depthLevels| && tree.depthLevels[curDepthLevel - 1] == parents
        invariant LevelExtended(was, tree.depthLevels, curDepthLevel, newNodes[..i])
      {
        ghost var levels := tree.depthLevels;
        assert newNodes[i].parent in parents;
        AddCandidate(newNodes[i]);
        BatchStep(was, levels, tree.depthLevels, curDepthLevel, newNodes, i);
      }
      assert newNodes[..|newNodes|] == newNodes;
    }

    // ----- flattening -----

    /** The position of a pathname in the table, entered at the end if it is new. */
    method GetChainIdx(pathname: seq<byte>) returns (idx: nat)
      requires Distinct(serPathnames)
      modifies this`serPathnames
      ensures Distinct(serPathnames)
      ensures idx < |serPathnames| && serPathnames[idx] == pathname
      ensures pathname in old(serPathnames) ==> serPathnames == old(serPathnames)
      ensures pathname !in old(serPathnames) ==>
                serPathnames == old(serPathnames) + [pathname] && idx == |old(serPathnames)|
    {
      idx := 0;
      while idx < |serPathnames|
        invariant 0 <= idx <= |serPathnames|
        invariant forall j :: 0 <= j < idx ==> serPathnames[j] != pathname
      {
        if serPathnames[idx] == pathname {
          return;
        }
        idx := idx + 1;
      }
      serPathnames := serPathnames + [pathname];
    }

    /** The offsets from a leaf up to the root. */
    static method WalkUp(leaf: TreeNode, ghost d: nat) returns (offsets: seq<Offset>)
      requires Rooted(leaf, d)
      ensures offsets == OffsetsAbove(leaf, d)
    {
      offsets := [];
      var node: TreeNode := leaf;
      ghost var k: nat := d;
      while true
        invariant k <= d && Rooted(node, k)
        invariant offsets + OffsetsAbove(node, k) == OffsetsAbove(leaf, d)
        decreases k
      {
        var parent := node.parent;
        if parent == null {
          break;
        }
        WalkStep(node, k, offsets);
        offsets := offsets + [ToOffset(parent.ownAddr - node.ptrAddr)];
        node := parent;
        k := k - 1;
      }
    }

    /** The chain of one leaf, added to the chains. */
    method AddChain(vmap: VmMap, leaf: TreeNode, ghost d: nat, ghost paths: seq<Path>)
      requires Rooted(leaf, d) && HasObj(vmap, leaf.areaNode)
      requires Flattened(vmap, serPathnames, chains, paths) && |vmap.objs| < TWO_TO_32
      modifies this`serPathnames, this`chains
      ensures Flattened(vmap, serPathnames, chains, paths + [PathOf(leaf, d)])
    {
      var offsets := WalkUp(leaf, d);
      OffsetsOfPath(leaf, d);
      var o := ObjOf(vmap, leaf.areaNode).value;
      var obj := vmap.objs[o];
      ghost var names := serPathnames;
      var idx := GetChainIdx(obj.pathname);
      TableFits(vmap, names, chains, paths, serPathnames, o);
      offsets := [ToOffset(leaf.ownAddr - obj.start)] + offsets;
      var chain := Chain(Low32(idx), Some(o), None, offsets);
      FlattenedMore(vmap, names, chains, paths, serPathnames, chain, PathOf(leaf, d));
      chains := chains + [chain];
    }

    /** Leaves get a chain, other nodes are skipped. */
    method FlattenNode(vmap: VmMap, node: TreeNode, ghost d: nat, ghost leaf: bool, ghost paths: seq<Path>)
      requires Rooted(node, d) && HasObj(vmap, node.areaNode) && (leaf <==> !node.HasChildren())
      requires Flattened(vmap, serPathnames, chains, paths) && |vmap.objs| < TWO_TO_32
      modifies this`serPathnames, this`chains
      ensures Flattened(vmap, serPathnames, chains, if leaf then paths + [PathOf(node, d)] else paths)
    {
      if node.HasChildren() {
        return;
      }
      AddChain(vmap, node, d, paths);
    }

    /** One chain for every leaf, level by level. */
    method FlattenTree(vmap: VmMap)
      requires tree != null && tree.Valid() && chains == [] && serPathnames == []
      requires ObjsKnown(vmap, tree.depthLevels) && RootedLevels(tree.depthLevels)
      requires |vmap.objs| < TWO_TO_32
      modifies this`serPathnames, this`chains
      ensures Flattened(vmap, serPathnames, chains, LeafPaths(tree.depthLevels, |tree.depthLevels|))
    {
      TreeReady(tree, vmap);
      FlattenLevels(vmap, tree.depthLevels, tree.repr);
    }

    method FlattenLevels(vmap: VmMap, levels: Levels, ghost nodes: set<TreeNode>)
      requires RootedLevels(levels) && AllReady(vmap, levels, nodes)
      requires chains == [] && serPathnames == []
      requires |vmap.objs| < TWO_TO_32
      modifies this`serPathnames, this`chains
      ensures Flattened(vmap, serPathnames, chains, LeafPaths(levels, |levels|))
    {
      FlattenedNone(vmap, levels);
      for d := 0 to |levels|
        invariant Flattened(vmap, serPathnames, chains, LeafPaths(levels, d))
      {
        FlattenNext(vmap, levels, d, nodes);
      }
    }

    method FlattenNext(vmap: VmMap, levels: Levels, d: nat, ghost nodes: set<TreeNode>)
      requires RootedLevels(levels) && d < |levels| && AllReady(vmap, levels, nodes)
      requires |vmap.objs| < TWO_TO_32
      requires Flattened(vmap, serPathnames, chains, LeafPaths(levels, d))
      modifies this`serPathnames, this`chains
      ensures Flattened(vmap, serPathnames, chains, LeafPaths(levels, d + 1))
    {
      FlattenLevel(vmap, levels, d, levels[d], LeafPaths(levels, d), nodes);
    }

    /** One chain for every leaf of a level. */
    method FlattenLevel(vmap: VmMap, ghost levels: Levels, ghost d: nat, level: seq<TreeNode>, ghost paths: seq<Path>,
                        ghost nodes: set<TreeNode>)
      requires LevelReady(vmap, levels, d, level, nodes)
      requires Flattened(vmap, serPathnames, chains, paths)
      requires |vmap.objs| < TWO_TO_32
      modifies this`serPathnames, this`chains
      ensures Flattened(vmap, serPathnames, chains, paths + LeafPathsIn(levels, d, level))
    {
      assert paths + [] == paths;
      for i := 0 to |level|
        invariant Flattened(vmap, serPathnames, chains, paths + LeafPathsIn(levels, d, level[..i]))
      {
        LeafPathsNext(levels, d, level, i, paths);
        FlattenNode(vmap, level[i], d, IsLeaf(levels, d, level[i]), paths + LeafPathsIn(levels, d, level[..i]));
      }
      assert level[..|level|] == level;
    }

    // ----- verification -----

    /** Follow a chain in memory: true exactly if it arrives at the target. */
    static method IsChainValid(target: Address, chain: Chain, vmap: VmMap, session: Memory) returns (valid: bool)
      requires chain.obj.Some? ==> chain.obj.value < |vmap.objs|
      ensures valid == ChainAccepted(session, vmap, chain, target)
    {
      if chain.obj.None? {
        return false;
      }
      var addr: Address := vmap.objs[chain.obj.value].start;
      var offs := chain.offsets;
      ghost var arrives := Follow(session, 8, addr, offs);
      assert offs[0..] == offs;
      for i := 0 to |offs|
        invariant Follow(session, 8, addr, offs[i..]) == arrives
      {
        FollowStep(session, addr, offs, i);
        addr := Wrap(addr + offs[i]);
        if i < |offs| - 1 {
          if !Mapped(session, addr, addr + 8) {
            return false;
          }
          WordValueBound(Bytes(session, addr, 8));
          addr := WordValue(Bytes(session, addr, 8));
        }
      }
      valid := addr == target;
    }

    /** Drop the chains that do not lead to the target, in place. `ret` is -1, and nothing
        changes, without a target, a session or a chain, or when the chains of a file have not
        been matched to objects. */
    method Verify(target: Option<Address>, sessions: seq<Memory>, vmap: VmMap) returns (ret: int)
      requires forall i :: 0 <= i < |chains| ==> chains[i].obj.Some? ==> chains[i].obj.value < |vmap.objs|
      modifies this`chains
      ensures ret == 0 <==> target.Some? && sessions != [] && old(chains) != [] && old(chains)[0].obj.Some?
      ensures ret == 0 ==> chains == AcceptedChains(sessions[0], vmap, old(chains), target.value)
      ensures ret != 0 ==> ret == -1 && chains == old(chains)
    {
      if target.None? || sessions == [] || chains == [] || chains[0].obj.None? {
        return -1;
      }
      ghost var all := chains;
      ghost var done := 0;
      var i := 0;
      while i < |chains|
        invariant 0 <= i <= |chains| && 0 <= done <= |all| && |chains| - i == |all| - done
        invariant chains[i..] == all[done..]
        invariant chains[..i] == AcceptedChains(sessions[0], vmap, all[..done], target.value)
        decreases |chains| - i
      {
        VerifyStep(sessions[0], vmap, all, target.value, done);
        EraseStep(chains, i, all, done);
        var valid := IsChainValid(target.value, chains[i], vmap, sessions[0]);
        if !valid {
          chains := chains[..i] + chains[i + 1..];
          i := i - 1;
        }
        i := i + 1;
        done := done + 1;
      }
      assert all[..done] == all && chains[..i] == chains;
      return 0;
    }

    // ----- storing and loading -----

    /** The sizes of the pathname section and of the chain section. */
    method GetFbufDataSz() returns (pathnamesSz: nat, chainsSz: nat)
      ensures pathnamesSz == |EncPathnames(serPathnames)| + 1
      ensures chainsSz == |EncChains(chains)|
    {
      pathnamesSz, chainsSz := 0, 0;
      for i := 0 to |serPathnames|
        invariant pathnamesSz == |EncPathnames(serPathnames[..i])|
      {
        assert serPathnames[..i + 1][..i] == serPathnames[..i];
        pathnamesSz := pathnamesSz + |serPathnames[i]| + 1;
      }
      assert serPathnames[..|serPathnames|] == serPathnames;
      pathnamesSz := pathnamesSz + 1;
      for i := 0 to |chains|
        invariant chainsSz == |EncChains(chains[..i])|
      {
        assert chains[..i + 1][..i] == chains[..i];
        chainsSz := chainsSz + 4;
        chainsSz := chainsSz + |chains[i].offsets| * 5;
      }
      assert chains[..|chains|] == chains;
    }

    /** Lay out the body in a new buffer. No write fails or leaves the buffer, and the cursor ends
        at its end. */
    method GenerateBody(hdrOff: nat) returns (ret: int, buf: array<byte>, bufOff: nat)
      ensures ret == if chains == [] then -1 else 0
      ensures ret == 0 ==> buf[..] == Body(serPathnames, chains, hdrOff) && bufOff == buf.Length
      ensures fresh(buf)
    {
      if chains == [] {
        buf := new byte[0];
        return -1, buf, 0;
      }
      var pathnamesSz, chainsSz := GetFbufDataSz();
      var hdr := PtrFileHdr(Low32(|serPathnames|), Low32(hdrOff + HDR_SIZE),
                            Low32(|chains|), Low32(hdrOff + HDR_SIZE + pathnamesSz));
      assert hdr == HeaderOf(serPathnames, chains, hdrOff);
      buf := new byte[HDR_SIZE + pathnamesSz + chainsSz + 1](_ => 0);
      ghost var done: seq<byte> := [];
      bufOff := PutType(buf, 0, EncHdr(hdr), done);
      bufOff := PutPathnames(buf, bufOff, EncHdr(hdr));
      done := EncHdr(hdr) + EncPathnames(serPathnames);
      bufOff := PutType(buf, bufOff, [0], done);
      done := done + [0];
      bufOff := PutChains(buf, bufOff, done);
      done := done + EncChains(chains);
      bufOff := PutType(buf, bufOff, [FILE_END], done);
      done := done + [FILE_END];
      assert buf[..] == done;
      ret := 0;
    }

    /** `PackType` after what is written already. */
    static method PutType(buf: array<byte>, off: nat, repr: seq<byte>, ghost done: seq<byte>) returns (next: nat)
      requires off == |done| && |done| + |repr| <= buf.Length && Written(buf[..], done)
      modifies buf
      ensures next == |done + repr| && Written(buf[..], done + repr)
    {
      WriteMore(buf[..], done, repr);
      var r;
      r, next := PackType(buf, off, repr);
      assert r == Packed;
    }

    method PutPathnames(buf: array<byte>, off: nat, ghost done: seq<byte>) returns (next: nat)
      requires off == |done| && |done| + |EncPathnames(serPathnames)| <= buf.Length && Written(buf[..], done)
      modifies buf
      ensures next == off + |EncPathnames(serPathnames)|
      ensures Written(buf[..], done + EncPathnames(serPathnames))
    {
      next := off;
      assert done + [] == done;
      for i := 0 to |serPathnames|
        invariant next == off + |EncPathnames(serPathnames[..i])|
        invariant Written(buf[..], done + EncPathnames(serPathnames[..i]))
      {
        PathnamesNext(serPathnames, i, done);
        WriteString(buf[..], done + EncPathnames(serPathnames[..i]), serPathnames[i]);
        var r;
        r, next := PackString(buf, next, serPathnames[i]);
        assert r == Packed;
      }
      assert serPathnames[..|serPathnames|] == serPathnames;
    }

    method PutChains(buf: array<byte>, off: nat, ghost done: seq<byte>) returns (next: nat)
      requires off == |done| && |done| + |EncChains(chains)| <= buf.Length && Written(buf[..], done)
      modifies buf
      ensures next == off + |EncChains(chains)|
      ensures Written(buf[..], done + EncChains(chains))
    {
      next := off;
      assert done + [] == done;
      for i := 0 to |chains|
        invariant next == off + |EncChains(chains[..i])|
        invariant Written(buf[..], done + EncChains(chains[..i]))
      {
        ChainsNext(chains, i, done);
        next := PutChain(buf, next, chains[i], done + EncChains(chains[..i]));
      }
      assert chains[..|chains|] == chains;
    }

    static method PutChain(buf: array<byte>, off: nat, c: Chain, ghost done: seq<byte>) returns (next: nat)
      requires off == |done| && |done| + |EncChain(c)| <= buf.Length && Written(buf[..], done)
      modifies buf
      ensures next == |done| + |EncChain(c)| && Written(buf[..], done + EncChain(c))
    {
      next := PutType(buf, off, EncU32(c.objIdx), done);
      WriteMore(buf[..], done + EncU32(c.objIdx), EncArray(Low32s(c.offsets)));
      var r;
      r, next := PackTypeArray(buf, next, Low32s(c.offsets));
      assert done + EncU32(c.objIdx) + EncArray(Low32s(c.offsets)) == done + EncChain(c);
    }

    /** The start of a body: the pathnames it yields are entered in the table. `next` is the
        cursor, which may end past the end of the bytes. */
    method HandleBodyStart(buf: seq<byte>) returns (outcome: Outcome, next: nat)
      modifies this`serPathnames
      ensures outcome == ParseStart(buf).outcome
      ensures outcome != Undefined ==> serPathnames == old(serPathnames) + ParseStart(buf).names
      ensures outcome == Done ==> next == ParseStart(buf).next
    {
      var hdr;
      hdr, next := UnpackType(buf, 0, HDR_SIZE);
      if !hdr.Got? {
        return InvalidFile, next;
      }
      // only one turn can find a non-empty string, because its terminator is read next
      ghost var turns := 2;
      while true
        invariant turns == 2 ==> next == HDR_SIZE && serPathnames == old(serPathnames)
        invariant turns == 1 ==> AfterFirstName(buf, next) && serPathnames == old(serPathnames) + ParseStart(buf).names
        invariant HDR_SIZE <= |buf| && turns >= 1
        decreases turns
      {
        var pathname;
        pathname, next := UnpackString(buf, next);
        if pathname == Outside {
          return Undefined, next;
        }
        if pathname == Nothing {
          return InvalidFile, next;
        }
        if pathname.value == [] {
          next := next + 1;
          break;
        }
        serPathnames := serPathnames + [pathname.value];
        turns := turns - 1;
      }
      outcome := Done;
    }

    static method HandleBodyChain(buf: seq<byte>, off: nat) returns (chain: Reading<RawChain>, next: nat)
      ensures |buf| < off ==> chain == Outside
      ensures off <= |buf| ==> ParseChain(buf, off) == ChainParse(chain, next)
    {
      var objIdx;
      objIdx, next := UnpackType(buf, off, 4);
      if objIdx == Outside {
        return Outside, next;
      }
      if objIdx == Nothing {
        return Nothing, next;
      }
      var chainArr;
      chainArr, next := UnpackTypeArray(buf, next);
      if chainArr == Outside {
        return Outside, next;
      }
      if chainArr == Nothing {
        return Nothing, next;
      }
      chain := Got(RawChain(WordValue(objIdx.value), chainArr.value));
    }

    /** The shallow load. */
    method ReadBody(buf: seq<byte>) returns (outcome: Outcome)
      modifies this`serPathnames, this`chains
      ensures outcome == ReadBack(old(Table(serPathnames, chains)), buf).outcome
      ensures outcome != Undefined ==>
                Table(serPathnames, chains) == ReadBack(old(Table(serPathnames, chains)), buf).table
    {
      var bufOff;
      outcome, bufOff := HandleBodyStart(buf);
      if outcome != Done {
        return;
      }
      var more := true;
      while more
        invariant more ==>
                    && bufOff == ParseStart(buf).next
                    && serPathnames == old(serPathnames) + ParseStart(buf).names && chains == old(chains)
        invariant !more ==>
                    ReadBack(old(Table(serPathnames, chains)), buf) == Load(Done, Table(serPathnames, chains))
        decreases more
      {
        var inprog;
        inprog, bufOff := HandleBodyChain(buf, bufOff);
        if inprog == Outside {
          return Undefined;
        }
        if inprog == Nothing {
          serPathnames := [];
          return InvalidFile;
        }
        if |serPathnames| <= inprog.value.objIdx {
          return Undefined;
        }
        chains := chains + [PathChain(inprog.value, serPathnames)];
        // the test for the file end byte that follows in the source is never reached
        more := !(|buf| >= bufOff);
      }
      return Done;
    }

    /** The deep load: chains whose object is not in the map are skipped, and the first one whose
        object is ends the load. */
    method ProcessBody(buf: seq<byte>, vmap: VmMap) returns (outcome: Outcome)
      modifies this`serPathnames, this`chains
      ensures outcome == Deep(old(Table(serPathnames, chains)), vmap, buf).outcome
      ensures outcome != Undefined ==>
                Table(serPathnames, chains) == Deep(old(Table(serPathnames, chains)), vmap, buf).table
    {
      var bufOff;
      outcome, bufOff := HandleBodyStart(buf);
      if outcome != Done {
        return;
      }
      ghost var names := serPathnames;
      ghost var whole := DeepFrom(names, vmap, buf, bufOff);
      while true
        invariant serPathnames == names && chains == old(chains)
        invariant DeepFrom(names, vmap, buf, bufOff) == whole
        decreases |buf| - bufOff
      {
        var inprog;
        inprog, bufOff := HandleBodyChain(buf, bufOff);
        if inprog == Outside {
          return Undefined;
        }
        if inprog == Nothing {
          serPathnames := [];
          return InvalidFile;
        }
        if |serPathnames| <= inprog.value.objIdx {
          return Undefined;
        }
        var o := ObjByPathname(vmap.objs, serPathnames[inprog.value.objIdx]);
        if o.None? {
          continue;
        }
        chains := chains + [ObjChain(inprog.value, o.value)];
        // as in the shallow load, the cursor never passes the end of the buffer
        return Done;
      }
    }

    // ----- the scan -----

    /** The calls every worker makes for its set, or failure if a worker cannot read an area. */
    static method CollectCalls(ghost s: Setup, workers: seq<Worker>, sets: seq<seq<nat>>, vmap: VmMap, alignment: nat)
      returns (ok: bool, calls: seq<seq<Call>>)
      requires ValidSetup(s) && vmap == s.vmap && alignment == s.opts.alignment
      requires Crew(s, workers) && |sets| == |workers| && SetsInMap(s, sets)
      requires forall w :: 0 <= w < |sets| ==> SetScannable(vmap, sets[w], s.page, s.width, s.opts.alignment)
      modifies set w | w in workers :: w.buf
      ensures ok ==> calls == WorkerCalls(s, sets)
      ensures ok <==> forall w, i :: 0 <= w < |sets| && 0 <= i < |sets[w]| ==> NodeReadable(s, sets[w][i])
    {
      calls := [];
      for w := 0 to |workers|
        invariant calls == WorkerCalls(s, sets[..w])
        invariant forall v, i :: 0 <= v < w && 0 <= i < |sets[v]| ==> NodeReadable(s, sets[v][i])
      {
        assert sets[..w + 1][..w] == sets[..w];
        var worker := workers[w];
        var more;
        ok, more := worker.ScanSet(vmap, sets[w], alignment);
        if !ok {
          return;
        }
        calls := calls + [more];
      }
      assert sets[..|workers|] == sets;
      ok := true;
    }

    /** Run all calls in an interleaving of the scheduler's choice: at every turn any worker that
        has calls left may be the next. */
    method ProcessAll(opts: PtrOptions, calls: seq<seq<Call>>) returns (ghost schedule: seq<nat>)
      requires tree != null && tree.Valid() && 0 < curDepthLevel < |tree.depthLevels|
      requires opts.maxObjSz < TWO_TO_63 && HaveParents(tree.depthLevels[curDepthLevel])
      requires forall w :: 0 <= w < |calls| ==> GoodCalls(calls[w])
      modifies tree, tree.repr
      ensures tree.Valid() && fresh(tree.repr - old(tree.repr))
      ensures LevelRan(opts, calls, schedule, old(tree.depthLevels), tree.depthLevels, curDepthLevel)
    {
      ghost var was := tree.depthLevels;
      var pos;
      schedule, pos := TakeTurns(opts, calls);
      AllTaken(opts, calls, schedule, pos, was, tree.depthLevels, curDepthLevel);
    }

    method TakeTurns(opts: PtrOptions, calls: seq<seq<Call>>) returns (ghost schedule: seq<nat>, pos: seq<nat>)
      requires tree != null && tree.Valid() && 0 < curDepthLevel < |tree.depthLevels|
      requires opts.maxObjSz < TWO_TO_63 && HaveParents(tree.depthLevels[curDepthLevel])
      requires forall w :: 0 <= w < |calls| ==> GoodCalls(calls[w])
      modifies tree, tree.repr
      ensures tree.Valid() && fresh(tree.repr - old(tree.repr))
      ensures Progress(opts, calls, schedule, pos, old(tree.depthLevels), tree.depthLevels, curDepthLevel)
      ensures |pos| == |calls| && !AnyLeft(calls, pos)
    {
      schedule := [];
      pos := seq(|calls|, _ => 0);
      NoTurns(opts, calls, pos, tree.depthLevels, curDepthLevel);
      while AnyLeft(calls, pos)
        invariant |pos| == |calls| && tree.Valid() && fresh(tree.repr - old(tree.repr))
        invariant Progress(opts, calls, schedule, pos, old(tree.depthLevels), tree.depthLevels, curDepthLevel)
        decreases Left(calls, pos, |calls|)
      {
        var w: nat :| w < |calls| && pos[w] < |calls[w]|;
        LeftStep(calls, pos, w, |calls|);
        TakeTurn(opts, calls, schedule, pos, w, old(tree.depthLevels));
        schedule := schedule + [w];
        pos := pos[w := pos[w] + 1];
      }
    }

    /** Worker `w` makes its next call. */
    method TakeTurn(opts: PtrOptions, calls: seq<seq<Call>>, ghost schedule: seq<nat>, pos: seq<nat>, w: nat,
                    ghost was: Levels)
      requires tree != null && tree.Valid() && opts.maxObjSz < TWO_TO_63
      requires w < |calls| == |pos| && pos[w] < |calls[w]| && GoodCalls(calls[w])
      requires Progress(opts, calls, schedule, pos, was, tree.depthLevels, curDepthLevel)
      modifies tree, tree.repr
      ensures tree.Valid() && fresh(tree.repr - old(tree.repr))
      ensures Progress(opts, calls, schedule + [w], pos[w := pos[w] + 1], was, tree.depthLevels, curDepthLevel)
    {
      ghost var levels := tree.depthLevels;
      var _ := ProcessAddr(opts, calls[w][pos[w]]);
      TurnTaken(opts, calls, schedule, pos, w, was, levels, tree.depthLevels, curDepthLevel, was[curDepthLevel - 1]);
    }

    /** One depth of a scan: every worker scans its set, in an interleaving of the scheduler's
        choice. A worker that cannot read an area ends the run. */
    method SingleRun(ghost s: Setup, opts: PtrOptions, vmap: VmMap, workers: seq<Worker>, sets: seq<seq<nat>>)
      returns (ok: bool, ghost run: seq<Call>)
      requires ValidSetup(s) && vmap == s.vmap && opts == s.opts
      requires Crew(s, workers) && |sets| == |workers| && DividedAreas(s, sets)
      requires tree != null && tree.Valid() && 0 < curDepthLevel < |tree.depthLevels|
      requires HaveParents(tree.depthLevels[curDepthLevel])
      modifies tree, tree.repr, set w | w in workers :: w.buf
      ensures tree.Valid() && fresh(tree.repr - old(tree.repr))
      ensures ok <==> AllReadable(s)
      ensures ok ==> LevelComplete(s, run, old(tree.depthLevels), tree.depthLevels, curDepthLevel)
    {
      ghost var was := tree.depthLevels;
      var calls;
      run := [];
      DividedScannable(s, sets);
      ReadableDivided(s, sets);
      ok, calls := CollectCalls(s, workers, sets, vmap, opts.alignment);
      if !ok {
        return;
      }
      WorkerCallsGood(s, sets);
      ghost var schedule := ProcessAll(opts, calls);
      run := Interleave(calls, schedule);
      RunComplete(s, sets, schedule, was, tree.depthLevels, curDepthLevel);
    }

    /** A tree that holds the target at level 0. */
    method PlantRoot(opts: PtrOptions, rootArea: nat)
      modifies this`tree, this`curDepthLevel
      ensures tree != null && fresh(tree) && tree.Valid() && fresh(tree.repr) && curDepthLevel == 1
      ensures Planted(tree.depthLevels, opts, rootArea)
    {
      tree := new Tree(opts.maxDepth);
      curDepthLevel := 0;
      var root := tree.AddNode(null, rootArea, curDepthLevel, opts.targetAddr, 0);
      curDepthLevel := curDepthLevel + 1;
    }

    /** All depths, until one fails. */
    method RunDepths(ghost s: Setup, opts: PtrOptions, vmap: VmMap, rootArea: nat, workers: seq<Worker>,
                     sets: seq<seq<nat>>)
      returns (ok: bool, ghost runs: seq<seq<Call>>)
      requires ValidSetup(s) && vmap == s.vmap && opts == s.opts
      requires Crew(s, workers) && |sets| == |workers| && DividedAreas(s, sets)
      requires tree != null && tree.Valid() && curDepthLevel == 1 && Planted(tree.depthLevels, opts, rootArea)
      modifies this`curDepthLevel, tree, tree.repr, set w | w in workers :: w.buf
      ensures tree == old(tree) && tree.Valid() && fresh(tree.repr - old(tree.repr))
      ensures ok <==> opts.maxDepth == 0 || AllReadable(s)
      ensures ok ==> curDepthLevel == opts.maxDepth + 1
      ensures ok ==> |runs| == opts.maxDepth && PartialTree(s, tree.depthLevels, runs, rootArea)
    {
      runs := [];
      PlantedIsPartial(s, tree.depthLevels, rootArea);
      for i := 0 to opts.maxDepth
        invariant tree == old(tree) && tree.Valid() && fresh(tree.repr - old(tree.repr))
        invariant |runs| == i && curDepthLevel == i + 1 && (i > 0 ==> AllReadable(s))
        invariant PartialTree(s, tree.depthLevels, runs, rootArea)
      {
        PartialNext(s, tree.depthLevels, runs, rootArea);
        ghost var was := tree.depthLevels;
        ghost var run;
        ok, run := SingleRun(s, opts, vmap, workers, sets);
        if !ok {
          return;
        }
        PartialStep(s, was, runs, tree.depthLevels, run, rootArea);
        runs := runs + [run];
        curDepthLevel := curDepthLevel + 1;
      }
      ok := true;
    }

    /** Divide the areas between the workers. */
    static method Prepare(opts: PtrOptions, vmap: VmMap, areaNodes: set<nat>, rootArea: nat,
                          pool: WorkerPool, workers: seq<Worker>)
      returns (ok: bool, ghost s: Setup)
      requires 0 < pool.workerCount == |workers| && NodesInMap(vmap, areaNodes) && SameKind(workers)
      requires ScanPossible(opts, vmap, areaNodes, rootArea, workers[0])
      modifies pool
      ensures ok <==> areaNodes != {}
      ensures ok ==> ScanOf(s, opts, vmap, workers[0]) && multiset(s.nodes) == multiset(areaNodes)
      ensures ok ==> ValidSetup(s) && Crew(s, workers)
      ensures ok ==> |pool.scanAreaSets| == |workers| && DividedAreas(s, pool.scanAreaSets)
    {
      ghost var who;
      var sums;
      ok, who, sums := pool.UpdateScanAreaSet(vmap, areaNodes);
      s := Setup(workers[0].session, vmap, opts, workers[0].pageSize, workers[0].addrWidth,
                 NodesIn(pool.sortedEntries));
      if ok {
        SetupDivided(s, areaNodes, pool.sortedEntries, who, pool.workerCount, pool.scanAreaSets, sums);
        SetupValid(s, areaNodes, rootArea, workers[0]);
      }
    }

    /** The scan. `completed` tells that all depths ran; the return value of the source is 0 as
        well when dividing the areas or a run fails. `rootArea` is the area of the target. */
    method Scan(optsPtr: Option<PtrOptions>, vmap: VmMap, areaNodes: set<nat>, rootArea: nat,
                pool: WorkerPool, workers: seq<Worker>)
      returns (ret: int, completed: bool, ghost s: Setup, ghost runs: seq<seq<Call>>)
      requires 0 < pool.workerCount == |workers| && NodesInMap(vmap, areaNodes) && |vmap.objs| < TWO_TO_32
      requires SameKind(workers)
      requires optsPtr.Some? ==> ScanPossible(optsPtr.value, vmap, areaNodes, rootArea, workers[0])
      modifies this, pool, set w | w in workers :: w.buf
      ensures ret == if optsPtr.None? then -1 else 0
      ensures completed <==>
                && optsPtr.Some? && areaNodes != {}
                && (optsPtr.value.maxDepth == 0 || NodesReadable(workers[0], optsPtr.value, vmap, areaNodes))
      ensures completed ==> tree != null && tree.Valid() && curDepthLevel == optsPtr.value.maxDepth + 1
      ensures completed ==> ScanOf(s, optsPtr.value, vmap, workers[0]) && multiset(s.nodes) == multiset(areaNodes)
      ensures completed ==> ValidSetup(s) && ScanTree(s, tree.depthLevels, runs)
      ensures completed ==> StepOf(tree.depthLevels[0][0]) == Step(rootArea, optsPtr.value.targetAddr, 0)
      ensures completed ==> RootedLevels(tree.depthLevels)
      ensures completed ==> Flattened(vmap, serPathnames, chains, LeafPaths(tree.depthLevels, |tree.depthLevels|))
      ensures !completed ==> chains == [] && serPathnames == []
    {
      tree, curDepthLevel, chains, serPathnames := null, 0, [], [];
      completed, runs := false, [];
      s := Setup(map[], vmap, PtrOptions(0, 0, 0, 0, None, false), 0, 0, []);
      if optsPtr.None? {
        return -1, false, s, [];
      }
      ret := 0;
      var opts := optsPtr.value;
      var divided;
      divided, s := Prepare(opts, vmap, areaNodes, rootArea, pool, workers);
      if !divided {
        return;
      }
      var sets := pool.scanAreaSets;
      PlantRoot(opts, rootArea);
      var ok;
      ok, runs := RunDepths(s, opts, vmap, rootArea, workers, sets);
      SetupReadable(s, areaNodes, workers[0]);
      if !ok {
        return;
      }
      SetupKnown(s, areaNodes, rootArea, workers[0]);
      PartialDone(s, tree.depthLevels, runs, rootArea);
      FlattenTree(vmap);
      completed := true;
    }
  }

  /** `after` is `before` with nodes for `cs` added at the end of level `k`. */
  ghost predicate LevelExtended(before: Levels, after: Levels, k: nat, cs: seq<Candidate>) {
    && |after| == |before| && k < |before|
    && after == before[k := after[k]]
    && HaveParents(before[k]) && HaveParents(after[k]) && before[k] <= after[k]
    && Views(after[k]) == Views(before[k]) + cs
  }

  lemma BatchStep(was: Levels, levels: Levels, levels': Levels, k: nat, newNodes: seq<Candidate>, i: nat)
    requires 0 < k && i < |newNodes|
    requires LevelExtended(was, levels, k, newNodes[..i]) && LevelExtended(levels, levels', k, [newNodes[i]])
    ensures LevelExtended(was, levels', k, newNodes[..i + 1]) && levels'[k - 1] == was[k - 1]
  {
    assert newNodes[..i + 1] == newNodes[..i] + [newNodes[i]];
  }

  lemma ViewsMore(level: seq<TreeNode>, node: TreeNode, c: Candidate)
    requires HaveParents(level) && c == Candidate(node.ownAddr, node.ptrAddr, c.parent, node.areaNode)
    requires node.parent == c.parent
    ensures HaveParents(level + [node])
    ensures Views(level + [node]) == Views(level) + [c]
  {
  }

  /** The container after one more parent: a match closer than the object size empties it. */
  ghost function WithNode(opts: PtrOptions, depth: nat, c: Call, node: TreeNode, before: seq<Candidate>): seq<Candidate>
    requires 0 < depth && GoodCall(c)
  {
    var cand := Candidate(c.addr, Pointer(c), node, c.node);
    if !Accepts(opts, depth, node.ownAddr, Pointer(c)) then before
    else if opts.smartScan && Gap(node, Pointer(c)) < opts.maxObjSz then [cand]
    else before + [cand]
  }

  lemma {:induction false} CandidatesMore(c: Call, ms: seq<TreeNode>, n: TreeNode)
    requires GoodCall(c)
    ensures Candidates(c, ms + [n]) == Candidates(c, ms) + [Candidate(c.addr, Pointer(c), n, c.node)]
  {
  }

  /** What a scan keeps with one more match. */
  lemma {:induction false} SurvivorsMore(opts: PtrOptions, p: Address, ms: seq<TreeNode>, n: TreeNode)
    ensures Survivors(opts, p, ms + [n]) ==
            if opts.smartScan && Gap(n, p) < opts.maxObjSz then [n] else Survivors(opts, p, ms) + [n]
  {
    var more := ms + [n];
    assert more[..|ms|] == ms;
    var j := LastCloser(ms, p, opts.maxObjSz);
    assert more[j..] == ms[j..] + [n];
    assert more[|ms|..] == [n];
  }

  lemma {:induction false} AcceptedMore(opts: PtrOptions, depth: nat, p: Address, level: seq<TreeNode>, i: nat)
    requires 0 < depth && i < |level|
    ensures Accepted(opts, depth, p, level[..i + 1]) ==
            Accepted(opts, depth, p, level[..i]) + if Accepts(opts, depth, level[i].ownAddr, p) then [level[i]] else []
  {
    assert level[..i + 1][..i] == level[..i];
  }

  /** How the matches change with one more parent. */
  lemma {:induction false} MatchesStep(opts: PtrOptions, depth: nat, c: Call, level: seq<TreeNode>, i: nat)
    requires 0 < depth && GoodCall(c) && i < |level|
    ensures Additions(opts, depth, c, level[..i + 1]) ==
            WithNode(opts, depth, c, level[i], Additions(opts, depth, c, level[..i]))
  {
    var p := Pointer(c);
    var ms := Accepted(opts, depth, p, level[..i]);
    AcceptedMore(opts, depth, p, level, i);
    if Accepts(opts, depth, level[i].ownAddr, p) {
      SurvivorsMore(opts, p, ms, level[i]);
      CandidatesMore(c, Survivors(opts, p, ms), level[i]);
      assert Candidates(c, [level[i]]) == [Candidate(c.addr, p, level[i], c.node)];
    } else {
      assert ms + [] == ms;
    }
  }

  /** The node at position `j` is kept: it is accepted, and in a smart scan none that is accepted later is
      closer than the object size. */
  ghost predicate KeptAt(opts: PtrOptions, depth: nat, p: Address, level: seq<TreeNode>, j: nat)
    requires 0 < depth
  {
    && j < |level| && Accepts(opts, depth, level[j].ownAddr, p)
    && (opts.smartScan ==>
          forall k :: j < k < |level| && Accepts(opts, depth, level[k].ownAddr, p) ==>
            Gap(level[k], p) >= opts.maxObjSz)
  }

  /** `at` lists the positions that are kept, in ascending order, and `cs` the candidates made of them. */
  ghost predicate ListsKept(opts: PtrOptions, depth: nat, c: Call, level: seq<TreeNode>, at: seq<nat>,
                            cs: seq<Candidate>)
    requires 0 < depth && GoodCall(c)
  {
    && |cs| == |at| && (forall i, j :: 0 <= i < j < |at| ==> at[i] < at[j])
    && (forall j: nat :: j in at <==> KeptAt(opts, depth, Pointer(c), level, j))
    && forall i :: 0 <= i < |at| ==>
         at[i] < |level| && cs[i] == Candidate(c.addr, Pointer(c), level[at[i]], c.node)
  }

  lemma KeptMore(opts: PtrOptions, depth: nat, p: Address, level: seq<TreeNode>, n: nat, j: nat)
    requires 0 < depth && n < |level|
    ensures var accepted := Accepts(opts, depth, level[n].ownAddr, p);
            KeptAt(opts, depth, p, level[..n + 1], j) <==>
              if j == n then accepted
              else
                && KeptAt(opts, depth, p, level[..n], j)
                && (accepted && opts.smartScan ==> Gap(level[n], p) >= opts.maxObjSz)
  {
    var now, was := level[..n + 1], level[..n];
    assert now[n] == level[n] && forall k :: 0 <= k < n ==> now[k] == was[k];
  }

  lemma {:induction false} ListsMore(opts: PtrOptions, depth: nat, c: Call, level: seq<TreeNode>, n: nat, at: seq<nat>,
                                     cs: seq<Candidate>)
    returns (at': seq<nat>)
    requires 0 < depth && GoodCall(c) && n < |level| && ListsKept(opts, depth, c, level[..n], at, cs)
    ensures ListsKept(opts, depth, c, level[..n + 1], at', WithNode(opts, depth, c, level[n], cs))
  {
    var p := Pointer(c);
    if !Accepts(opts, depth, level[n].ownAddr, p) {
      at' := at;
    } else if opts.smartScan && Gap(level[n], p) < opts.maxObjSz {
      at' := [n];
    } else {
      at' := at + [n];
    }
    forall j: nat
      ensures j in at' <==> KeptAt(opts, depth, p, level[..n + 1], j)
    {
      KeptMore(opts, depth, p, level, n, j);
      assert j in at <==> KeptAt(opts, depth, p, level[..n], j);
    }
  }

  lemma {:induction false} AdditionsListed(opts: PtrOptions, depth: nat, c: Call, level: seq<TreeNode>, n: nat)
    returns (at: seq<nat>)
    requires 0 < depth && GoodCall(c) && n <= |level|
    ensures ListsKept(opts, depth, c, level[..n], at, Additions(opts, depth, c, level[..n]))
  {
    if n == 0 {
      at := [];
    } else {
      at := AdditionsListed(opts, depth, c, level, n - 1);
      MatchesStep(opts, depth, c, level, n - 1);
      at := ListsMore(opts, depth, c, level, n - 1, at, Additions(opts, depth, c, level[..n - 1]));
    }
  }

  /** What a call adds, in plain integers. `fit` are the positions of the parents that the pointer lies in
      the window of and meets the preset of, `at` those that are kept: in a smart scan, the ones that no
      fitting one closer than the object size follows. Each gets a node with the address of the call, its
      word as pointer and its area, in level order. */
  lemma MatchesExactly(opts: PtrOptions, depth: nat, c: Call, level: seq<TreeNode>)
    returns (fit: set<nat>, at: seq<nat>)
    requires 0 < depth && GoodCall(c) && opts.maxObjSz < 0x1_0000_0000_0000_0000
    ensures forall j: nat :: j in fit <==>
              && j < |level|
              && opts.maxObjSz <= level[j].ownAddr && 0 <= level[j].ownAddr - WordValue(c.word) <= opts.maxObjSz
              && (opts.presetOffsets.Some? && depth < |opts.presetOffsets.value| ==>
                    (WordValue(c.word) - (level[j].ownAddr - opts.presetOffsets.value[depth - 1]))
                    % 0x1_0000_0000_0000_0000 == 0)
    ensures forall j :: j in at <==>
              && j in fit
              && (opts.smartScan ==>
                    forall k :: k in fit && j < k ==> level[k].ownAddr - WordValue(c.word) >= opts.maxObjSz)
    ensures forall i, j :: 0 <= i < j < |at| ==> at[i] < at[j]
    ensures |Additions(opts, depth, c, level)| == |at|
    ensures forall i :: 0 <= i < |at| ==>
              && at[i] < |level|
              && Additions(opts, depth, c, level)[i] == Candidate(c.addr, WordValue(c.word), level[at[i]], c.node)
  {
    var p := Pointer(c);
    fit := set j: nat | j < |level| && Accepts(opts, depth, level[j].ownAddr, p);
    at := AdditionsListed(opts, depth, c, level, |level|);
    assert level[..|level|] == level;
    forall j: nat
      ensures j in at <==> KeptAt(opts, depth, p, level, j)
    {
    }
    forall j: nat | j < |level|
    {
      AcceptsExactly(opts, depth, level[j].ownAddr, p);
    }
  }

  /** The offsets passed on the way from a node up to the root. */
  ghost function OffsetsAbove(n: TreeNode, d: nat): seq<Offset>
    requires Rooted(n, d)
    decreases d
  {
    if d == 0 then [] else [ToOffset(n.parent.ownAddr - n.ptrAddr)] + OffsetsAbove(n.parent, d - 1)
  }

  /** They are those of the node's path. */
  lemma {:induction false} OffsetsOfPath(n: TreeNode, d: nat)
    requires Rooted(n, d)
    ensures OffsetsAbove(n, d) == OffsetsUp(PathOf(n, d))
    decreases d
  {
    if d > 0 {
      OffsetsOfPath(n.parent, d - 1);
      OffsetsUpHead(n, d);
    }
  }

  lemma {:induction false} WalkStep(n: TreeNode, k: nat, offsets: seq<Offset>)
    requires Rooted(n, k) && k > 0
    ensures Rooted(n.parent, k - 1)
    ensures offsets + [ToOffset(n.parent.ownAddr - n.ptrAddr)] + OffsetsAbove(n.parent, k - 1) ==
            offsets + OffsetsAbove(n, k)
  {
  }

  /** The area of every node belongs to a known object. */
  ghost predicate ObjsKnown(vmap: VmMap, levels: Levels) {
    forall d, i :: 0 <= d < |levels| && 0 <= i < |levels[d]| ==> HasObj(vmap, levels[d][i].areaNode)
  }

  /** What flattening needs to know of a level: the children lists tell its leaves. */
  ghost predicate LevelReady(vmap: VmMap, levels: Levels, d: nat, level: seq<TreeNode>, nodes: set<TreeNode>)
    reads nodes
  {
    && RootedLevel(level, d) && (forall i :: 0 <= i < |level| ==> level[i] in nodes)
    && (forall i :: 0 <= i < |level| ==> HasObj(vmap, level[i].areaNode))
    && forall i :: 0 <= i < |level| ==> (IsLeaf(levels, d, level[i]) <==> !level[i].HasChildren())
  }

  ghost predicate AllReady(vmap: VmMap, levels: Levels, nodes: set<TreeNode>)
    reads nodes
  {
    forall d {:trigger LevelReady(vmap, levels, d, levels[d], nodes)} ::
      0 <= d < |levels| ==> LevelReady(vmap, levels, d, levels[d], nodes)
  }

  lemma TreeLevelReady(tree: Tree, vmap: VmMap, d: nat)
    requires tree.Valid() && d < |tree.depthLevels| && ObjsKnown(vmap, tree.depthLevels)
    ensures LevelReady(vmap, tree.depthLevels, d, tree.depthLevels[d], tree.repr)
  {
  }

  lemma TreeReady(tree: Tree, vmap: VmMap)
    requires tree.Valid() && ObjsKnown(vmap, tree.depthLevels)
    ensures AllReady(vmap, tree.depthLevels, tree.repr)
  {
    forall d | 0 <= d < |tree.depthLevels|
      ensures LevelReady(vmap, tree.depthLevels, d, tree.depthLevels[d], tree.repr)
    {
      TreeLevelReady(tree, vmap, d);
    }
  }

  /** What the next node of a level does to the paths. */
  lemma {:induction false} LeafPathsNext(levels: Levels, d: nat, level: seq<TreeNode>, i: nat, paths: seq<Path>)
    requires RootedLevel(level, d) && i < |level|
    ensures RootedLevel(level[..i], d) && RootedLevel(level[..i + 1], d) && Rooted(level[i], d)
    ensures var now := paths + LeafPathsIn(levels, d, level[..i]);
            paths + LeafPathsIn(levels, d, level[..i + 1]) ==
            if IsLeaf(levels, d, level[i]) then now + [PathOf(level[i], d)] else now
  {
    var next := level[..i + 1];
    assert next[..i] == level[..i];
    var before := LeafPathsIn(levels, d, level[..i]);
    if IsLeaf(levels, d, level[i]) {
      assert paths + (before + [PathOf(level[i], d)]) == paths + before + [PathOf(level[i], d)];
    } else {
      assert before + [] == before;
    }
  }

  lemma {:induction false} FollowStep(mem: Memory, addr: Address, offs: seq<Offset>, i: nat)
    requires i < |offs|
    ensures var next := Wrap(addr + offs[i]);
            && (i == |offs| - 1 ==>
                  Follow(mem, 8, addr, offs[i..]) == Some(next) == Follow(mem, 8, next, offs[i + 1..]))
            && (i < |offs| - 1 ==>
                  if !Mapped(mem, next, next + 8) then Follow(mem, 8, addr, offs[i..]) == None
                  else
                    WordValue(Bytes(mem, next, 8)) < TWO_TO_64 &&
                    Follow(mem, 8, addr, offs[i..]) == Follow(mem, 8, WordValue(Bytes(mem, next, 8)), offs[i + 1..]))
  {
    var rest := offs[i..];
    assert rest[0] == offs[i] && rest[1..] == offs[i + 1..];
    WordValueBound(Bytes(mem, Wrap(addr + offs[i]), 8));
  }

  lemma EraseStep(chains: seq<Chain>, i: nat, all: seq<Chain>, done: nat)
    requires i < |chains| && done < |all| && chains[i..] == all[done..]
    ensures chains[i] == all[done] && chains[i + 1..] == all[done + 1..]
    ensures chains[..i + 1] == chains[..i] + [chains[i]]
    ensures var erased := chains[..i] + chains[i + 1..];
            erased[i..] == all[done + 1..] && erased[..i] == chains[..i]
  {
    assert chains[i] == chains[i..][0];
    assert chains[i + 1..] == chains[i..][1..];
  }

  lemma {:induction false} VerifyStep(mem: Memory, vmap: VmMap, all: seq<Chain>, target: Address, k: nat)
    requires k < |all|
    ensures AcceptedChains(mem, vmap, all[..k + 1], target) ==
            AcceptedChains(mem, vmap, all[..k], target) +
            if ChainAccepted(mem, vmap, all[k], target) then [all[k]] else []
  {
    assert all[..k + 1][..k] == all[..k];
  }

  /** A chain is accepted exactly if its object is known and there are addresses to go through: each is
      the sum of an offset and, first the start of the object, then the 8-byte word read at the address
      before, modulo 2^64, and the last one is the target. */
  lemma {:induction false} AcceptedExactly(mem: Memory, vmap: VmMap, c: Chain, target: Address)
    ensures ChainAccepted(mem, vmap, c, target) <==>
              && c.obj.Some? && c.obj.value < |vmap.objs|
              && exists hops :: Arrives(mem, 8, vmap.objs[c.obj.value].start, c.offsets, hops, target)
  {
    if c.obj.Some? && c.obj.value < |vmap.objs| {
      var start := vmap.objs[c.obj.value].start;
      if ChainAccepted(mem, vmap, c, target) {
        var hops := FollowArrives(mem, 8, start, c.offsets, target);
      } else if hops :| Arrives(mem, 8, start, c.offsets, hops, target) {
        ArrivesFollow(mem, 8, start, c.offsets, hops, target);
        assert false;
      }
    }
  }

  /** The kept chains stay in order. */
  lemma {:induction false} AcceptedInOrder(mem: Memory, vmap: VmMap, a: seq<Chain>, b: seq<Chain>, target: Address)
    ensures AcceptedChains(mem, vmap, a + b, target) ==
            AcceptedChains(mem, vmap, a, target) + AcceptedChains(mem, vmap, b, target)
    decreases |b|
  {
    if b == [] {
      assert a + b == a;
    } else {
      var n := |b| - 1;
      assert (a + b)[..|a + b| - 1] == a + b[..n];
      AcceptedInOrder(mem, vmap, a, b[..n], target);
    }
  }

  /** Verification keeps exactly the accepted chains. */
  lemma {:induction false} AcceptedAreAccepted(mem: Memory, vmap: VmMap, chains: seq<Chain>, target: Address)
    ensures var kept := AcceptedChains(mem, vmap, chains, target);
            && (forall i :: 0 <= i < |kept| ==> ChainAccepted(mem, vmap, kept[i], target))
            && forall c :: multiset(kept)[c] == if ChainAccepted(mem, vmap, c, target) then multiset(chains)[c] else 0
  {
    if chains != [] {
      var n := |chains| - 1;
      AcceptedAreAccepted(mem, vmap, chains[..n], target);
      assert chains == chains[..n] + [chains[n]];
    }
  }

  lemma {:induction false} AllAcceptedStay(mem: Memory, vmap: VmMap, chains: seq<Chain>, target: Address)
    requires forall i :: 0 <= i < |chains| ==> ChainAccepted(mem, vmap, chains[i], target)
    ensures AcceptedChains(mem, vmap, chains, target) == chains
  {
    if chains != [] {
      AllAcceptedStay(mem, vmap, chains[..|chains| - 1], target);
    }
  }

  /** Verifying again in the same memory removes nothing. */
  lemma {:induction false} VerifyIdempotent(mem: Memory, vmap: VmMap, chains: seq<Chain>, target: Address)
    ensures var kept := AcceptedChains(mem, vmap, chains, target);
            AcceptedChains(mem, vmap, kept, target) == kept
  {
    AcceptedAreAccepted(mem, vmap, chains, target);
    AllAcceptedStay(mem, vmap, AcceptedChains(mem, vmap, chains, target), target);
  }

  // ----- writing -----

  function Zeros(n: nat): seq<byte> {
    seq<byte>(n, _ => 0)
  }

  /** The buffer starts with `done` and is zero from there on. */
  ghost predicate Written(buf: seq<byte>, done: seq<byte>) {
    |done| <= |buf| && buf == done + Zeros(|buf| - |done|)
  }

  lemma WriteMore(buf: seq<byte>, done: seq<byte>, data: seq<byte>)
    requires Written(buf, done) && |done| + |data| <= |buf|
    ensures Written(Splice(buf, |done|, data), done + data)
  {
  }

  /** A string is followed by the zero that is there already. */
  lemma WriteString(buf: seq<byte>, done: seq<byte>, s: seq<byte>)
    requires Written(buf, done) && |done| + |s| + 1 <= |buf|
    ensures Written(Splice(buf, |done|, s), done + EncString(s))
  {
    WriteMore(buf, done, s);
    assert done + EncString(s) == done + s + [0];
  }

  lemma PathnamesNext(names: seq<seq<byte>>, i: nat, done: seq<byte>)
    requires i < |names|
    ensures |EncPathnames(names[..i])| + |names[i]| + 1 == |EncPathnames(names[..i + 1])| <= |EncPathnames(names)|
    ensures done + EncPathnames(names[..i]) + EncString(names[i]) == done + EncPathnames(names[..i + 1])
  {
    assert names[..i + 1][..i] == names[..i];
    EncPathnamesPrefix(names, i + 1);
  }

  lemma ChainsNext(chains: seq<Chain>, i: nat, done: seq<byte>)
    requires i < |chains|
    ensures |EncChains(chains[..i])| + |EncChain(chains[i])| == |EncChains(chains[..i + 1])| <= |EncChains(chains)|
    ensures done + EncChains(chains[..i]) + EncChain(chains[i]) == done + EncChains(chains[..i + 1])
  {
    assert chains[..i + 1][..i] == chains[..i];
    EncChainsPrefix(chains, i + 1);
  }

  /** The cursor stands on the terminator of the first pathname. */
  ghost predicate AfterFirstName(buf: seq<byte>, next: nat) {
    && HDR_SIZE < |buf| && buf[HDR_SIZE] != 0
    && next == HDR_SIZE + |Leading(buf[HDR_SIZE..])| < |buf| && buf[next] == 0
  }

  // ----- running a level -----

  /** The workers of a scan: all read the same memory with the same page and pointer width. */
  ghost predicate Crew(s: Setup, workers: seq<Worker>) {
    forall w :: 0 <= w < |workers| ==>
      && workers[w].Valid() && workers[w].session == s.mem
      && workers[w].pageSize == s.page && workers[w].addrWidth == s.width
  }

  /** `pos` counts the turns each worker has had. */
  ghost predicate Position(calls: seq<seq<Call>>, schedule: seq<nat>, pos: seq<nat>) {
    && |pos| == |calls|
    && (forall w :: 0 <= w < |calls| ==> Turns(schedule, w) == pos[w] <= |calls[w]|)
    && (forall i :: 0 <= i < |schedule| ==> schedule[i] < |calls|)
    && TurnsFit(calls, schedule) && GoodCalls(Interleave(calls, schedule))
  }

  /** Level `k` holds what the calls made so far add to it. */
  ghost predicate Progress(opts: PtrOptions, calls: seq<seq<Call>>, schedule: seq<nat>, pos: seq<nat>,
                           was: Levels, levels: Levels, k: nat) {
    && Position(calls, schedule, pos)
    && 0 < k < |was| == |levels| && levels[k - 1] == was[k - 1]
    && LevelExtended(was, levels, k, Grow(opts, k, Interleave(calls, schedule), was[k - 1]))
  }

  lemma NoTurns(opts: PtrOptions, calls: seq<seq<Call>>, pos: seq<nat>, was: Levels, k: nat)
    requires |pos| == |calls| && forall w :: 0 <= w < |calls| ==> pos[w] == 0
    requires 0 < k < |was| && HaveParents(was[k])
    ensures Progress(opts, calls, [], pos, was, was, k)
  {
    assert Views(was[k]) + [] == Views(was[k]);
    assert was == was[k := was[k]];
  }

  predicate AnyLeft(calls: seq<seq<Call>>, pos: seq<nat>)
    requires |pos| == |calls|
  {
    exists w: nat :: w < |calls| && pos[w] < |calls[w]|
  }

  lemma AllTaken(opts: PtrOptions, calls: seq<seq<Call>>, schedule: seq<nat>, pos: seq<nat>, was: Levels,
                 levels: Levels, k: nat)
    requires Progress(opts, calls, schedule, pos, was, levels, k) && !AnyLeft(calls, pos)
    ensures LevelRan(opts, calls, schedule, was, levels, k)
  {
  }

  /** Level `k` was extended by all calls, merged by a complete schedule. */
  ghost predicate LevelRan(opts: PtrOptions, calls: seq<seq<Call>>, schedule: seq<nat>, was: Levels, levels: Levels,
                           k: nat) {
    && CompleteSchedule(schedule, calls) && GoodCalls(Interleave(calls, schedule))
    && 0 < k < |was|
    && LevelExtended(was, levels, k, Grow(opts, k, Interleave(calls, schedule), was[k - 1]))
  }

  /** How many calls the first `n` workers have left to make. */
  function Left(calls: seq<seq<Call>>, pos: seq<nat>, n: nat): nat
    requires |pos| == |calls| && n <= |calls|
  {
    if n == 0 then 0
    else Left(calls, pos, n - 1) + if pos[n - 1] < |calls[n - 1]| then |calls[n - 1]| - pos[n - 1] else 0
  }

  lemma {:induction false} LeftStep(calls: seq<seq<Call>>, pos: seq<nat>, w: nat, n: nat)
    requires |pos| == |calls| && w < |calls| && pos[w] < |calls[w]| && n <= |calls|
    ensures Left(calls, pos[w := pos[w] + 1], n) == Left(calls, pos, n) - if w < n then 1 else 0
  {
    if n > 0 {
      LeftStep(calls, pos, w, n - 1);
    }
  }

  lemma {:induction false} PositionStep(calls: seq<seq<Call>>, schedule: seq<nat>, pos: seq<nat>, w: nat)
    requires Position(calls, schedule, pos) && w < |calls| && pos[w] < |calls[w]| && GoodCalls(calls[w])
    ensures Position(calls, schedule + [w], pos[w := pos[w] + 1])
    ensures Interleave(calls, schedule + [w]) == Interleave(calls, schedule) + [calls[w][pos[w]]]
  {
    var next := schedule + [w];
    assert next[..|schedule|] == schedule;
    forall v | 0 <= v < |calls|
      ensures Turns(next, v) == pos[w := pos[w] + 1][v] <= |calls[v]|
    {
      assert Turns(schedule, v) == pos[v];
    }
  }

  lemma {:induction false} TurnTaken(opts: PtrOptions, calls: seq<seq<Call>>, schedule: seq<nat>, pos: seq<nat>, w: nat,
                  was: Levels, levels: Levels, levels': Levels, k: nat, parents: seq<TreeNode>)
    requires Position(calls, schedule, pos) && w < |calls| && pos[w] < |calls[w]| && GoodCalls(calls[w])
    requires 0 < k < |was| && was[k - 1] == parents
    requires LevelExtended(was, levels, k, Grow(opts, k, Interleave(calls, schedule), parents))
    requires LevelExtended(levels, levels', k, Additions(opts, k, calls[w][pos[w]], parents))
    ensures Position(calls, schedule + [w], pos[w := pos[w] + 1])
    ensures LevelExtended(was, levels', k, Grow(opts, k, Interleave(calls, schedule + [w]), parents))
    ensures levels'[k - 1] == parents
  {
    PositionStep(calls, schedule, pos, w);
    GrowMore(opts, k, Interleave(calls, schedule), calls[w][pos[w]], parents);
    ExtendedTwice(was, levels, levels', k, Grow(opts, k, Interleave(calls, schedule), parents),
                  Additions(opts, k, calls[w][pos[w]], parents));
  }

  lemma {:induction false} GrowMore(opts: PtrOptions, k: nat, merged: seq<Call>, c: Call, parents: seq<TreeNode>)
    requires 0 < k && GoodCalls(merged) && GoodCall(c)
    ensures GoodCalls(merged + [c])
    ensures Grow(opts, k, merged + [c], parents) == Grow(opts, k, merged, parents) + Additions(opts, k, c, parents)
  {
    assert (merged + [c])[..|merged|] == merged;
  }

  lemma ExtendedTwice(a: Levels, b: Levels, c: Levels, k: nat, cs: seq<Candidate>, ds: seq<Candidate>)
    requires 0 < k && LevelExtended(a, b, k, cs) && LevelExtended(b, c, k, ds)
    ensures LevelExtended(a, c, k, cs + ds) && c[k - 1] == a[k - 1]
  {
  }

  // ----- the whole scan -----

  ghost predicate SameKind(workers: seq<Worker>) {
    forall w :: 0 <= w < |workers| ==>
      && workers[w].Valid() && workers[w].session == workers[0].session
      && workers[w].pageSize == workers[0].pageSize && workers[w].addrWidth == workers[0].addrWidth
  }

  /** What a scan needs of its options and areas: a pointer width of 4 or 8, scannable areas of
      known objects. */
  ghost predicate ScanPossible(opts: PtrOptions, vmap: VmMap, areaNodes: set<nat>, rootArea: nat, worker: Worker) {
    && (worker.addrWidth == 4 || worker.addrWidth == 8)
    && Geometry(worker.pageSize, worker.addrWidth, opts.alignment) && opts.maxObjSz < TWO_TO_63
    && HasObj(vmap, rootArea)
    && forall n :: n in areaNodes ==>
         HasObj(vmap, n) && Scannable(vmap.areas[n], worker.pageSize, worker.addrWidth, opts.alignment)
  }

  ghost predicate ScanOf(s: Setup, opts: PtrOptions, vmap: VmMap, worker: Worker) {
    && s.mem == worker.session && s.vmap == vmap && s.opts == opts
    && s.page == worker.pageSize && s.width == worker.addrWidth
  }

  /** The sets hold the areas of the scan, each once. */
  ghost predicate DividedAreas(s: Setup, sets: seq<seq<nat>>) {
    SetsInMap(s, sets) && AllNodes(sets) == multiset(s.nodes)
  }

  lemma {:induction false} InAllNodes(sets: seq<seq<nat>>, w: nat, i: nat)
    requires w < |sets| && i < |sets[w]|
    ensures sets[w][i] in AllNodes(sets)
  {
    if w < |sets| - 1 {
      InAllNodes(sets[..|sets| - 1], w, i);
    }
  }

  lemma InDivided(s: Setup, sets: seq<seq<nat>>, w: nat, i: nat)
    requires DividedAreas(s, sets) && w < |sets| && i < |sets[w]|
    ensures sets[w][i] in s.nodes
  {
    InAllNodes(sets, w, i);
    assert sets[w][i] in multiset(s.nodes);
  }

  lemma DividedScannable(s: Setup, sets: seq<seq<nat>>)
    requires ValidSetup(s) && DividedAreas(s, sets)
    ensures forall w :: 0 <= w < |sets| ==> SetScannable(s.vmap, sets[w], s.page, s.width, s.opts.alignment)
  {
    forall w, i | 0 <= w < |sets| && 0 <= i < |sets[w]|
      ensures sets[w][i] < |s.vmap.areas| && Scannable(s.vmap.areas[sets[w][i]], s.page, s.width, s.opts.alignment)
    {
      InDivided(s, sets, w, i);
    }
  }

  lemma {:induction false} FindSet(sets: seq<seq<nat>>, n: nat) returns (w: nat, i: nat)
    requires n in AllNodes(sets)
    ensures w < |sets| && i < |sets[w]| && sets[w][i] == n
  {
    var k := |sets| - 1;
    if n in multiset(sets[k]) {
      w := k;
      i :| 0 <= i < |sets[k]| && sets[k][i] == n;
    } else {
      w, i := FindSet(sets[..k], n);
    }
  }

  lemma DividedReadable(s: Setup, sets: seq<seq<nat>>)
    requires ValidSetup(s) && DividedAreas(s, sets)
    requires forall w, i :: 0 <= w < |sets| && 0 <= i < |sets[w]| ==> NodeReadable(s, sets[w][i])
    ensures AllReadable(s)
  {
    forall k | 0 <= k < |s.nodes|
      ensures NodeReadable(s, s.nodes[k])
    {
      assert s.nodes[k] in multiset(s.nodes);
      var w, i := FindSet(sets, s.nodes[k]);
    }
  }

  /** The sets of a division are all readable exactly if the areas of the scan are. */
  lemma ReadableDivided(s: Setup, sets: seq<seq<nat>>)
    requires ValidSetup(s) && DividedAreas(s, sets)
    ensures (forall w, i :: 0 <= w < |sets| && 0 <= i < |sets[w]| ==>
               sets[w][i] < |s.vmap.areas| && NodeReadable(s, sets[w][i])) <==> AllReadable(s)
  {
    if AllReadable(s) {
      forall w, i | 0 <= w < |sets| && 0 <= i < |sets[w]|
        ensures sets[w][i] < |s.vmap.areas| && NodeReadable(s, sets[w][i])
      {
        InDivided(s, sets, w, i);
      }
    } else if forall w, i :: 0 <= w < |sets| && 0 <= i < |sets[w]| ==>
                sets[w][i] < |s.vmap.areas| && NodeReadable(s, sets[w][i]) {
      DividedReadable(s, sets);
    }
  }

  ghost predicate NodesReadable(worker: Worker, opts: PtrOptions, vmap: VmMap, nodes: set<nat>)
    requires NodesInMap(vmap, nodes)
  {
    forall n :: n in nodes ==>
      AreaReadable(worker.session, vmap.areas[n], worker.pageSize, worker.addrWidth, opts.alignment)
  }

  lemma SetupReadable(s: Setup, areaNodes: set<nat>, worker: Worker)
    requires ValidSetup(s) && NodesInMap(s.vmap, areaNodes) && multiset(s.nodes) == multiset(areaNodes)
    requires ScanOf(s, s.opts, s.vmap, worker)
    ensures AllReadable(s) <==> NodesReadable(worker, s.opts, s.vmap, areaNodes)
  {
    forall n
      ensures n in areaNodes <==> n in s.nodes
    {
      assert n in multiset(s.nodes) <==> n in multiset(areaNodes);
    }
  }

  lemma {:induction false} WorkerCallsGood(s: Setup, sets: seq<seq<nat>>)
    requires ValidSetup(s) && DividedAreas(s, sets)
    ensures forall w :: 0 <= w < |sets| ==> GoodCalls(WorkerCalls(s, sets)[w])
  {
    DividedScannable(s, sets);
    forall w | 0 <= w < |sets|
      ensures GoodCalls(WorkerCalls(s, sets)[w])
    {
      WorkerCallsAt(s, sets, w);
      SetVisitsGood(s.mem, s.vmap, sets[w], s.page, s.width, s.opts.alignment);
    }
  }

  /** A run that made every visit once and extended level `k` by what they add. */
  ghost predicate LevelComplete(s: Setup, run: seq<Call>, was: Levels, now: Levels, k: nat)
    requires ValidSetup(s)
  {
    && AllReadable(s) && FullRun(s, run) && GoodCalls(run) && 0 < k < |was|
    && LevelExtended(was, now, k, Grow(s.opts, k, run, was[k - 1]))
  }

  lemma {:induction false} RunComplete(s: Setup, sets: seq<seq<nat>>, schedule: seq<nat>, was: Levels, now: Levels,
                                       k: nat)
    requires ValidSetup(s) && DividedAreas(s, sets)
    requires forall w, i :: 0 <= w < |sets| && 0 <= i < |sets[w]| ==> NodeReadable(s, sets[w][i])
    requires LevelRan(s.opts, WorkerCalls(s, sets), schedule, was, now, k)
    ensures LevelComplete(s, Interleave(WorkerCalls(s, sets), schedule), was, now, k)
  {
    DividedReadable(s, sets);
    DivisionMakesFullRun(s, sets, schedule);
  }

  ghost predicate Planted(levels: Levels, opts: PtrOptions, rootArea: nat) {
    && |levels| == opts.maxDepth + 1
    && |levels[0]| == 1 && StepOf(levels[0][0]) == Step(rootArea, opts.targetAddr, 0)
    && forall d :: 0 < d < |levels| ==> levels[d] == []
  }

  /** The tree while the depths run: the levels run so far are complete, the others empty. */
  ghost predicate PartialTree(s: Setup, levels: Levels, runs: seq<seq<Call>>, rootArea: nat)
    requires ValidSetup(s)
  {
    && |levels| == s.opts.maxDepth + 1 && |runs| <= s.opts.maxDepth
    && |levels[0]| == 1 && StepOf(levels[0][0]) == Step(rootArea, s.opts.targetAddr, 0)
    && (forall d :: 0 < d <= |runs| ==> LevelGrown(s, levels, runs, d))
    && forall d :: |runs| < d < |levels| ==> levels[d] == []
  }

  lemma PlantedIsPartial(s: Setup, levels: Levels, rootArea: nat)
    requires ValidSetup(s) && Planted(levels, s.opts, rootArea)
    ensures PartialTree(s, levels, [], rootArea)
  {
  }

  lemma PartialNext(s: Setup, levels: Levels, runs: seq<seq<Call>>, rootArea: nat)
    requires ValidSetup(s) && PartialTree(s, levels, runs, rootArea) && |runs| < s.opts.maxDepth
    ensures |runs| + 1 < |levels| && HaveParents(levels[|runs| + 1])
  {
  }

  lemma PartialStep(s: Setup, levels: Levels, runs: seq<seq<Call>>, levels': Levels, run: seq<Call>, rootArea: nat)
    requires ValidSetup(s) && PartialTree(s, levels, runs, rootArea) && |runs| < s.opts.maxDepth
    requires LevelComplete(s, run, levels, levels', |runs| + 1)
    ensures PartialTree(s, levels', runs + [run], rootArea)
  {
    var k := |runs| + 1;
    assert Views(levels[k]) == [];
    forall d | 0 < d <= k
      ensures LevelGrown(s, levels', runs + [run], d)
    {
      if d < k {
        assert LevelGrown(s, levels, runs, d);
      }
    }
  }

  /** Every area a finished scan's nodes lie in belongs to a known object. */
  lemma NodesKnown(s: Setup, levels: Levels, runs: seq<seq<Call>>)
    requires ValidSetup(s) && ScanTree(s, levels, runs)
    requires HasObj(s.vmap, levels[0][0].areaNode) && forall n :: n in s.nodes ==> HasObj(s.vmap, n)
    ensures ObjsKnown(s.vmap, levels)
  {
    forall d, i | 0 <= d < |levels| && 0 <= i < |levels[d]|
      ensures HasObj(s.vmap, levels[d][i].areaNode)
    {
      if d > 0 {
        var c, x, j := NodeOrigin(s, levels, runs, d, i);
      }
    }
  }

  lemma PartialDone(s: Setup, levels: Levels, runs: seq<seq<Call>>, rootArea: nat)
    requires ValidSetup(s) && PartialTree(s, levels, runs, rootArea) && |runs| == s.opts.maxDepth && Layered(levels)
    requires HasObj(s.vmap, rootArea) && forall n :: n in s.nodes ==> HasObj(s.vmap, n)
    ensures ScanTree(s, levels, runs) && ObjsKnown(s.vmap, levels) && RootedLevels(levels)
  {
    NodesKnown(s, levels, runs);
    LayeredIsRooted(levels);
  }

  lemma SetupDivided(s: Setup, areaNodes: set<nat>, entries: seq<Entry>, who: seq<nat>, m: nat,
                     sets: seq<seq<nat>>, sums: seq<nat>)
    requires NodesInMap(s.vmap, areaNodes) && ListsOnce(s.vmap, entries, areaNodes) && s.nodes == NodesIn(entries)
    requires Divides(entries, who, m, sets, sums)
    ensures |sets| == m && DividedAreas(s, sets) && multiset(s.nodes) == multiset(areaNodes)
  {
    DivisionPartitions(entries, who, m);
    forall w | 0 <= w < |sets|
      ensures SetInMap(s, sets[w])
    {
      forall i | 0 <= i < |sets[w]|
        ensures sets[w][i] < |s.vmap.areas|
      {
        InAllNodes(sets, w, i);
        assert sets[w][i] in multiset(areaNodes);
      }
    }
  }

  lemma SetupKnown(s: Setup, areaNodes: set<nat>, rootArea: nat, worker: Worker)
    requires ScanPossible(s.opts, s.vmap, areaNodes, rootArea, worker) && multiset(s.nodes) == multiset(areaNodes)
    ensures forall n :: n in s.nodes ==> n in areaNodes && HasObj(s.vmap, n)
  {
    forall n | n in s.nodes
      ensures n in areaNodes
    {
      assert n in multiset(s.nodes);
    }
  }

  lemma SetupValid(s: Setup, areaNodes: set<nat>, rootArea: nat, worker: Worker)
    requires ScanPossible(s.opts, s.vmap, areaNodes, rootArea, worker) && multiset(s.nodes) == multiset(areaNodes)
    requires ScanOf(s, s.opts, s.vmap, worker)
    ensures ValidSetup(s)
  {
    SetupKnown(s, areaNodes, rootArea, worker);
    assert forall i :: 0 <= i < |s.nodes| ==> s.nodes[i] in s.nodes;
  }
}
