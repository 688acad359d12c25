/** The chains of a smart scan depend on the order in which the workers' batches reach the tree. */
module SmartOrder {
  import opened Target
  import opened PtrscanTree
  import opened ScanWorker
  import opened Matching
  import opened Growth
  import opened Paths
  import opened Independence
  import opened Ptrscanner
  import opened ScanTheorems

  // ----- the scan -----

  /** Where two adjacent areas meet, each of one page. */
  const MIDDLE := 0x100_0000

  /** Page sizes for which the example is given. */
  predicate SmartPage(page: nat) {
    0x48 < page <= 0x10_0000 && Multiple(page, 8)
  }

  /** Two pointers to the target, in the last word of the first area and in the first word of the second,
      and at 0x20 in the second area a pointer to the former of them; all other words are zero. */
  function SmartMemory(page: nat): Memory {
    Filled(MIDDLE - page, 2 * page, 0)
    [MIDDLE - 8 := 0x40][MIDDLE - 5 := 0x01]
    [MIDDLE := 0x40][MIDDLE + 3 := 0x01]
    [MIDDLE + 0x20 := 0xF8][MIDDLE + 0x21 := 0xFF][MIDDLE + 0x22 := 0xFF]
  }

  function SmartArea(page: nat, node: nat): Area
    requires SmartPage(page) && node < 2
  {
    var start := if node == 0 then MIDDLE - page else MIDDLE;
    Area(start, start + page, 0, Some(0), None)
  }

  /** A smart scan of depth 2. The target lies in the second area. */
  function SmartOptions(): PtrOptions {
    PtrOptions(MIDDLE + 0x40, 8, 0x10, 2, None, true)
  }

  function SmartMap(page: nat): VmMap
    requires SmartPage(page)
  {
    VmMap([SmartArea(page, 0), SmartArea(page, 1)], [Obj([97], MIDDLE - page, [0, 1])])
  }

  function SmartSetup(page: nat): Setup
    requires SmartPage(page)
  {
    Setup(SmartMemory(page), SmartMap(page), SmartOptions(), page, 8, [0, 1])
  }

  lemma {:induction false} SmartValid(page: nat)
    requires SmartPage(page)
    ensures ValidSetup(SmartSetup(page)) && AllReadable(SmartSetup(page)) && RoundUp(page, 8) == page
  {
    assert Multiple(8, 8);
    AlignmentDividesWidth(page, 8, 8);
    RoundUpUnique(page, 8, page);
    FilledAt(MIDDLE - page, 2 * page, 0);
  }

  // ----- its visits -----

  /** The pointer at an aligned offset of an area. */
  function SmartValue(page: nat, node: nat, off: int): Address {
    if (node == 0 && off == page - 8) || (node == 1 && off == 0) then MIDDLE + 0x40
    else if node == 1 && off == 0x20 then MIDDLE - 8
    else 0
  }

  function SmartWord(page: nat, node: nat, off: int): seq<byte> {
    var p := SmartValue(page, node, off);
    if p == MIDDLE + 0x40 then [0x40, 0, 0, 0x01, 0, 0, 0, 0]
    else if p == MIDDLE - 8 then [0xF8, 0xFF, 0xFF, 0, 0, 0, 0, 0]
    else [0, 0, 0, 0, 0, 0, 0, 0]
  }

  function SmartCall(page: nat, node: nat, off: int): (c: Call)
    requires SmartPage(page) && node < 2 && 0 <= off < page
    ensures GoodCall(c)
  {
    Call(node, SmartArea(page, node).start + off, SmartWord(page, node, off))
  }

  /** Aligned offsets below the end leave room for a word, and differ by at least a word. */
  lemma {:induction false} Apart(page: nat, off: int)
    requires SmartPage(page) && 0 <= off < page && Multiple(off, 8)
    ensures off <= page - 8 && (off != page - 8 ==> off <= page - 16)
    ensures off == 0 || 8 <= off
    ensures off <= 0x18 || off == 0x20 || 0x28 <= off
  {
    assert Multiple(8, 8) && Multiple(0x20, 8);
    MultipleDifference(8, page, 8);
    MultipleGap(off, page, 8);
    if off < page - 8 {
      MultipleGap(off, page - 8, 8);
    }
    if 0 < off {
      MultipleGap(0, off, 8);
    }
    if off < 0x20 {
      MultipleGap(off, 0x20, 8);
    } else if 0x20 < off {
      MultipleGap(0x20, off, 8);
    }
  }

  lemma {:induction false} SmartBytes(page: nat, node: nat, off: int, j: nat)
    requires SmartPage(page) && node < 2 && 0 <= off < page && Multiple(off, 8) && j < 8
    ensures Peek(SmartMemory(page), SmartArea(page, node).start + off + j) == SmartWord(page, node, off)[j]
  {
    Apart(page, off);
    FilledAt(MIDDLE - page, 2 * page, 0);
  }

  lemma {:induction false} SmartVisit(page: nat, node: nat, off: int)
    requires SmartPage(page) && node < 2 && 0 <= off < page && Multiple(off, 8)
    ensures Visit(SmartMemory(page), node, SmartArea(page, node), page, 8, off) == SmartCall(page, node, off)
  {
    Apart(page, off);
    var word := DeliveredWord(SmartMemory(page), SmartArea(page, node), page, 8, off);
    forall j | 0 <= j < 8
      ensures word[j] == SmartWord(page, node, off)[j]
    {
      assert word[j] == DeliveredByte(SmartMemory(page), SmartArea(page, node), page, 8, off + j);
      SmartBytes(page, node, off, j);
    }
  }

  /** The calls for the words of an area below offset `off`. */
  function SmartCalls(page: nat, node: nat, off: int): (calls: seq<Call>)
    requires SmartPage(page) && node < 2 && off <= page
    ensures GoodCalls(calls)
    decreases off
  {
    if off < 8 then [] else SmartCalls(page, node, off - 8) + [SmartCall(page, node, off - 8)]
  }

  lemma {:induction false} VisitsAreCalls(page: nat, node: nat, off: int)
    requires SmartPage(page) && node < 2 && 0 <= off <= page && Multiple(off, 8)
    ensures Visits(SmartMemory(page), node, SmartArea(page, node), page, 8, 8, off) == SmartCalls(page, node, off)
    decreases off
  {
    if 8 <= off {
      VisitsAreCalls(page, node, off - 8);
      SmartVisit(page, node, off - 8);
    }
  }

  lemma {:induction false} AreaCalls(page: nat, node: nat)
    requires SmartPage(page) && node < 2
    ensures AreaVisits(SmartMemory(page), node, SmartMap(page).areas[node], page, 8, 8) == SmartCalls(page, node, page)
  {
    SmartValid(page);
    VisitsAreCalls(page, node, page);
  }

  /** All calls, those of area `node` first. */
  function RunFrom(page: nat, node: nat): (run: seq<Call>)
    requires SmartPage(page) && node < 2
    ensures GoodCalls(run)
  {
    SmartCalls(page, node, page) + SmartCalls(page, 1 - node, page)
  }

  lemma {:induction false} RunIsFull(page: nat, node: nat)
    requires SmartPage(page) && node < 2
    ensures ValidSetup(SmartSetup(page)) && FullRun(SmartSetup(page), RunFrom(page, node))
  {
    var s := SmartSetup(page);
    SmartValid(page);
    AreaCalls(page, 0);
    AreaCalls(page, 1);
    BothAreas(s, SmartCalls(page, 0, page), SmartCalls(page, 1, page));
    RunHolds(page, node);
  }

  lemma {:induction false} RunHolds(page: nat, node: nat)
    requires SmartPage(page) && node < 2
    ensures multiset(RunFrom(page, node)) == multiset(SmartCalls(page, 0, page)) + multiset(SmartCalls(page, 1, page))
  {
    if node == 0 {
      assert 1 - node == 1;
    } else {
      assert node == 1 && 1 - node == 0;
    }
  }

  lemma {:induction false} BothAreas(s: Setup, a: seq<Call>, b: seq<Call>)
    requires ValidSetup(s) && s.nodes == [0, 1] && |s.vmap.areas| == 2
    requires AreaVisits(s.mem, 0, s.vmap.areas[0], s.page, s.width, s.opts.alignment) == a
    requires AreaVisits(s.mem, 1, s.vmap.areas[1], s.page, s.width, s.opts.alignment) == b
    ensures multiset(AllVisits(s)) == multiset(a) + multiset(b)
  {
    var nodes := s.nodes;
    assert nodes[..1] == [0] && [0][..0] == [];
    assert SetVisits(s.mem, s.vmap, [0], s.page, s.width, s.opts.alignment) == [] + a;
    assert AllVisits(s) == [] + a + b;
  }

  // ----- what the pointers match -----

  lemma {:induction false} FourBytes(a: byte, b: byte, c: byte, d: byte)
    ensures WordValue([a, b, c, d, 0, 0, 0, 0]) == a + 256 * (b + 256 * (c + 256 * d))
  {
    var zeros: seq<byte> := [0, 0, 0, 0];
    ZerosAreZero(zeros);
    FirstOf(a, [b, c, d, 0, 0, 0, 0]);
    FirstOf(b, [c, d, 0, 0, 0, 0]);
    FirstOf(c, [d, 0, 0, 0, 0]);
    FirstOf(d, zeros);
    assert [d] + zeros == [d, 0, 0, 0, 0] && [c] + [d, 0, 0, 0, 0] == [c, d, 0, 0, 0, 0];
    assert [b] + [c, d, 0, 0, 0, 0] == [b, c, d, 0, 0, 0, 0];
    assert [a] + [b, c, d, 0, 0, 0, 0] == [a, b, c, d, 0, 0, 0, 0];
  }

  lemma {:induction false} FirstOf(b: byte, bytes: seq<byte>)
    ensures WordValue([b] + bytes) == b + 256 * WordValue(bytes)
  {
    assert ([b] + bytes)[1..] == bytes;
  }

  lemma {:induction false} SmartPointer(page: nat, node: nat, off: int)
    requires SmartPage(page) && node < 2 && 0 <= off < page
    ensures Pointer(SmartCall(page, node, off)) == SmartValue(page, node, off)
  {
    FourBytes(0x40, 0, 0, 0x01);
    FourBytes(0xF8, 0xFF, 0xFF, 0);
    FourBytes(0, 0, 0, 0);
  }

  lemma {:induction false} NothingAccepted(opts: PtrOptions, depth: nat, c: Call, parents: seq<TreeNode>)
    requires 0 < depth && GoodCall(c)
    requires forall i :: 0 <= i < |parents| ==> !Accepts(opts, depth, parents[i].ownAddr, Pointer(c))
    ensures Additions(opts, depth, c, parents) == []
  {
    NoneAccepted(opts, depth, Pointer(c), parents);
  }

  lemma {:induction false} NoneAccepted(opts: PtrOptions, depth: nat, p: Address, parents: seq<TreeNode>)
    requires 0 < depth && forall i :: 0 <= i < |parents| ==> !Accepts(opts, depth, parents[i].ownAddr, p)
    ensures Accepted(opts, depth, p, parents) == []
  {
    if parents != [] {
      NoneAccepted(opts, depth, p, parents[..|parents| - 1]);
    }
  }

  /** A single survivor gets the child. */
  lemma {:induction false} AddedToOne(depth: nat, c: Call, level: seq<TreeNode>, ms: seq<TreeNode>, m: TreeNode)
    requires 0 < depth && GoodCall(c)
    requires Accepted(SmartOptions(), depth, Pointer(c), level) == ms
    requires Survivors(SmartOptions(), Pointer(c), ms) == [m]
    ensures Additions(SmartOptions(), depth, c, level) == [Candidate(c.addr, Pointer(c), m, c.node)]
  {
    assert Candidates(c, [m]) == [Candidate(c.addr, Pointer(c), m, c.node)];
  }

  lemma {:induction false} OneAccepted(depth: nat, p: Address, n: TreeNode)
    requires 0 < depth && Accepts(SmartOptions(), depth, n.ownAddr, p)
    ensures Accepted(SmartOptions(), depth, p, [n]) == [n]
  {
    var level := [n];
    AcceptedMore(SmartOptions(), depth, p, level, 0);
    assert level[..1] == level && level[..0] == [];
  }

  lemma {:induction false} BothAccepted(depth: nat, p: Address, n: TreeNode, m: TreeNode)
    requires 0 < depth && Accepts(SmartOptions(), depth, n.ownAddr, p) && Accepts(SmartOptions(), depth, m.ownAddr, p)
    ensures Accepted(SmartOptions(), depth, p, [n, m]) == [n, m]
  {
    var level := [n, m];
    AcceptedMore(SmartOptions(), depth, p, level, 0);
    AcceptedMore(SmartOptions(), depth, p, level, 1);
    assert level[..2] == level && level[..0] == [];
  }

  /** Without presets a pointer is accepted below a node within the object size. */
  lemma SmartAccepts(depth: nat, own: Address, p: Address)
    requires 0 < depth && 0x10 <= own
    ensures Accepts(SmartOptions(), depth, own, p) <==> 0 <= own - p <= 0x10
  {
    WindowExact(own, p, 0x10);
  }

  /** The child a call gets below a parent. */
  ghost function ChildOf(c: Call, parent: TreeNode): Candidate
    requires GoodCall(c)
  {
    Candidate(c.addr, Pointer(c), parent, c.node)
  }

  /** Depth 1: a pointer to the target adds a child of the root. */
  lemma {:induction false} RootMatches(c: Call, root: TreeNode)
    requires GoodCall(c) && root.ownAddr == Pointer(c) && 0x10 <= root.ownAddr
    ensures Additions(SmartOptions(), 1, c, [root]) == [ChildOf(c, root)]
  {
    SmartAccepts(1, root.ownAddr, Pointer(c));
    OneAccepted(1, Pointer(c), root);
    AddedToOne(1, c, [root], [root], root);
  }

  /** The two pointers to the target. */
  ghost predicate IsPair(n: TreeNode, m: TreeNode) {
    (n.ownAddr == MIDDLE - 8 && m.ownAddr == MIDDLE) || (n.ownAddr == MIDDLE && m.ownAddr == MIDDLE - 8)
  }

  /** Depth 2, below the two pointers to the target in either order: the pointer to the former adds a
      child of the one that comes later in the level. */
  lemma {:induction false} LaterMatches(c: Call, n: TreeNode, m: TreeNode)
    requires GoodCall(c) && IsPair(n, m) && Pointer(c) == MIDDLE - 8
    ensures Additions(SmartOptions(), 2, c, [n, m]) == [ChildOf(c, m)]
  {
    SmartAccepts(2, n.ownAddr, Pointer(c));
    SmartAccepts(2, m.ownAddr, Pointer(c));
    BothAccepted(2, Pointer(c), n, m);
    LaterMatchWins(SmartOptions(), Pointer(c), n, m);
    AddedToOne(2, c, [n, m], [n, m], m);
  }

  // ----- what the runs add -----

  /** What the words at the aligned offsets below `off` add, one after the other. */
  ghost function UpTo(adds: int -> seq<Candidate>, off: int): seq<Candidate>
    decreases off
  {
    if off < 8 then [] else UpTo(adds, off - 8) + adds(off - 8)
  }

  /** If a single word adds anything, that is what the area adds. */
  lemma {:induction false} OnlyOne(adds: int -> seq<Candidate>, page: nat, off: int, at: int)
    requires 0 <= off <= page && Multiple(off, 8) && (0 <= at < page ==> Multiple(at, 8))
    requires forall x :: 0 <= x < page && Multiple(x, 8) && x != at ==> adds(x) == []
    ensures UpTo(adds, off) == if 0 <= at < off then adds(at) else []
    decreases off
  {
    if off != 0 {
      MultipleGap(0, off, 8);
      OnlyOne(adds, page, off - 8, at);
      if off - 8 < at < page {
        MultipleGap(off - 8, at, 8);
      }
      if off - 8 == at {
        assert [] + adds(at) == adds(at);
      } else {
        assert UpTo(adds, off - 8) + [] == UpTo(adds, off - 8);
      }
    }
  }

  /** What the word at an offset adds to a level. */
  ghost function AddsAt(page: nat, node: nat, depth: nat, parents: seq<TreeNode>): int -> seq<Candidate>
    requires SmartPage(page) && node < 2 && 0 < depth
  {
    off => if 0 <= off < page then Additions(SmartOptions(), depth, SmartCall(page, node, off), parents) else []
  }

  lemma {:induction false} GrowLast(opts: PtrOptions, depth: nat, calls: seq<Call>, c: Call, parents: seq<TreeNode>)
    requires 0 < depth && GoodCalls(calls) && GoodCall(c)
    ensures Grow(opts, depth, calls + [c], parents)
            == Grow(opts, depth, calls, parents) + Additions(opts, depth, c, parents)
  {
    assert (calls + [c])[..|calls|] == calls;
  }

  lemma {:induction false} GrowAfter(opts: PtrOptions, depth: nat, before: seq<Call>, calls: seq<Call>, c: Call,
                                     parents: seq<TreeNode>, grown: seq<Candidate>)
    requires 0 < depth && GoodCalls(before) && GoodCalls(calls) && GoodCall(c)
    requires Grow(opts, depth, before + calls, parents) == grown
    ensures Grow(opts, depth, before + (calls + [c]), parents) == grown + Additions(opts, depth, c, parents)
  {
    GrowLast(opts, depth, before + calls, c, parents);
    assert before + (calls + [c]) == before + calls + [c];
  }

  lemma AppendTwice<T>(a: seq<T>, b: seq<T>, c: seq<T>)
    ensures a + b + c == a + (b + c)
  {
  }

  /** The calls of an area after other calls. */
  lemma {:induction false} AreaAdds(page: nat, node: nat, off: int, depth: nat, parents: seq<TreeNode>,
                                    before: seq<Call>, adds: int -> seq<Candidate>, grown: seq<Candidate>)
    requires SmartPage(page) && node < 2 && 0 < depth && 0 <= off <= page && GoodCalls(before)
    requires adds == AddsAt(page, node, depth, parents) && grown == Grow(SmartOptions(), depth, before, parents)
    ensures Grow(SmartOptions(), depth, before + SmartCalls(page, node, off), parents) == grown + UpTo(adds, off)
    decreases off
  {
    if off < 8 {
      assert before + [] == before && grown + [] == grown;
    } else {
      var calls, c := SmartCalls(page, node, off - 8), SmartCall(page, node, off - 8);
      AreaAdds(page, node, off - 8, depth, parents, before, adds, grown);
      GrowAfter(SmartOptions(), depth, before, calls, c, parents, grown + UpTo(adds, off - 8));
      AppendTwice(grown, UpTo(adds, off - 8), adds(off - 8));
    }
  }

  lemma {:induction false} RunAdds(page: nat, node: nat, depth: nat, parents: seq<TreeNode>, first: seq<Candidate>,
                                   second: seq<Candidate>)
    requires SmartPage(page) && node < 2 && 0 < depth
    requires UpTo(AddsAt(page, node, depth, parents), page) == first
    requires UpTo(AddsAt(page, 1 - node, depth, parents), page) == second
    ensures Grow(SmartOptions(), depth, RunFrom(page, node), parents) == first + second
  {
    AreaAdds(page, node, page, depth, parents, [], AddsAt(page, node, depth, parents), []);
    assert [] + SmartCalls(page, node, page) == SmartCalls(page, node, page) && [] + first == first;
    AreaAdds(page, 1 - node, page, depth, parents, SmartCalls(page, node, page),
             AddsAt(page, 1 - node, depth, parents), first);
  }

  /** The child of the root in area `node`. */
  ghost function RootChild(page: nat, node: nat, root: TreeNode): Candidate
    requires SmartPage(page) && node < 2
  {
    Candidate(if node == 0 then MIDDLE - 8 else MIDDLE, MIDDLE + 0x40, root, node)
  }

  lemma {:induction false} AreaUnderRoot(page: nat, node: nat, root: TreeNode)
    requires SmartPage(page) && node < 2 && root.ownAddr == MIDDLE + 0x40
    ensures UpTo(AddsAt(page, node, 1, [root]), page) == [RootChild(page, node, root)]
  {
    var adds := AddsAt(page, node, 1, [root]);
    var at := if node == 0 then page - 8 else 0;
    assert Multiple(8, 8);
    MultipleDifference(8, page, 8);
    forall off | 0 <= off < page
      ensures adds(off) == if off == at then [RootChild(page, node, root)] else []
    {
      SmartPointer(page, node, off);
      if off == at {
        RootMatches(SmartCall(page, node, off), root);
      } else {
        SmartAccepts(1, root.ownAddr, SmartValue(page, node, off));
        NothingAccepted(SmartOptions(), 1, SmartCall(page, node, off), [root]);
      }
    }
    OnlyOne(adds, page, page, at);
  }

  lemma {:induction false} AreaUnderPair(page: nat, node: nat, pair: seq<TreeNode>)
    requires SmartPage(page) && node < 2 && |pair| == 2 && IsPair(pair[0], pair[1])
    ensures UpTo(AddsAt(page, node, 2, pair), page)
            == if node == 1 then [Candidate(MIDDLE + 0x20, MIDDLE - 8, pair[1], 1)] else []
  {
    var adds := AddsAt(page, node, 2, pair);
    assert pair == [pair[0], pair[1]];
    var at := if node == 1 then 0x20 else -8;
    assert Multiple(0x20, 8);
    forall off | 0 <= off < page
      ensures adds(off) == if off == at then [Candidate(MIDDLE + 0x20, MIDDLE - 8, pair[1], 1)] else []
    {
      SmartPointer(page, node, off);
      if off == at {
        LaterMatches(SmartCall(page, node, off), pair[0], pair[1]);
      } else {
        SmartAccepts(2, pair[0].ownAddr, SmartValue(page, node, off));
        SmartAccepts(2, pair[1].ownAddr, SmartValue(page, node, off));
        NothingAccepted(SmartOptions(), 2, SmartCall(page, node, off), pair);
      }
    }
    OnlyOne(adds, page, page, at);
  }

  lemma {:induction false} FirstLevel(page: nat, node: nat, root: TreeNode)
    requires SmartPage(page) && node < 2 && root.ownAddr == MIDDLE + 0x40
    ensures Grow(SmartOptions(), 1, RunFrom(page, node), [root])
            == [RootChild(page, node, root)] + [RootChild(page, 1 - node, root)]
  {
    AreaUnderRoot(page, node, root);
    AreaUnderRoot(page, 1 - node, root);
    RunAdds(page, node, 1, [root], [RootChild(page, node, root)], [RootChild(page, 1 - node, root)]);
  }

  lemma {:induction false} SecondLevel(page: nat, node: nat, pair: seq<TreeNode>)
    requires SmartPage(page) && node < 2 && |pair| == 2 && IsPair(pair[0], pair[1])
    ensures Grow(SmartOptions(), 2, RunFrom(page, node), pair) == [Candidate(MIDDLE + 0x20, MIDDLE - 8, pair[1], 1)]
  {
    var added := [Candidate(MIDDLE + 0x20, MIDDLE - 8, pair[1], 1)];
    var first, second := if node == 1 then added else [], if node == 1 then [] else added;
    AreaUnderPair(page, node, pair);
    AreaUnderPair(page, 1 - node, pair);
    RunAdds(page, node, 2, pair, first, second);
    assert first + second == added;
  }

  // ----- the trees -----

  /** The only path of three steps when the calls of area `node` come first at depth 1: the pointer to
      the first area's word is taken for one to the word that was entered later. */
  function DeepPath(node: nat): Path
    requires node < 2
  {
    [Step(1, MIDDLE + 0x20, MIDDLE - 8),
     if node == 0 then Step(1, MIDDLE, MIDDLE + 0x40) else Step(0, MIDDLE - 8, MIDDLE + 0x40),
     Step(1, MIDDLE + 0x40, 0)]
  }

  lemma {:induction false} PathUp(root: TreeNode, parent: TreeNode, n: TreeNode)
    requires Rooted(n, 2) && n.parent == parent && parent.parent == root
    ensures PathOf(n, 2) == [StepOf(n), StepOf(parent), StepOf(root)]
  {
    assert PathOf(root, 0) == [StepOf(root)];
    assert PathOf(parent, 1) == [StepOf(parent), StepOf(root)];
  }

  /** Every tree of the scan whose first run makes the calls of area `node` first. */
  lemma {:induction false} OrderDecides(page: nat, node: nat, levels: Levels, runs: seq<seq<Call>>)
    requires SmartPage(page) && node < 2 && ValidSetup(SmartSetup(page)) && ScanTree(SmartSetup(page), levels, runs)
    requires runs[0] == RunFrom(page, node) && (runs[1] == RunFrom(page, 0) || runs[1] == RunFrom(page, 1))
    requires RootedLevels(levels) && StepOf(levels[0][0]) == Step(1, MIDDLE + 0x40, 0)
    ensures |levels| == 3 && LevelPaths(levels[2], 2) == [DeepPath(node)]
  {
    var s := SmartSetup(page);
    var root := levels[0][0];
    assert levels[0] == [root];
    assert LevelGrown(s, levels, runs, 1) && LevelGrown(s, levels, runs, 2);
    FirstLevel(page, node, root);
    TwoViews(levels[1], RootChild(page, node, root), RootChild(page, 1 - node, root));
    var m := levels[1][1];
    SecondLevel(page, if runs[1] == RunFrom(page, 0) then 0 else 1, levels[1]);
    OneView(levels[2], Candidate(MIDDLE + 0x20, MIDDLE - 8, m, 1));
    DeepLeaf(page, node, root, m, levels[2]);
  }

  lemma {:induction false} TwoViews(level: seq<TreeNode>, a: Candidate, b: Candidate)
    requires HaveParents(level) && Views(level) == [a] + [b]
    ensures |level| == 2
    ensures StepOf(level[0]) == Step(a.areaNode, a.ownAddr, a.ptrAddr) && level[0].parent == a.parent
    ensures StepOf(level[1]) == Step(b.areaNode, b.ownAddr, b.ptrAddr) && level[1].parent == b.parent
  {
    assert Views(level)[0] == a && Views(level)[1] == b;
  }

  lemma {:induction false} OneView(level: seq<TreeNode>, a: Candidate)
    requires HaveParents(level) && Views(level) == [a]
    ensures |level| == 1 && StepOf(level[0]) == Step(a.areaNode, a.ownAddr, a.ptrAddr) && level[0].parent == a.parent
  {
    assert Views(level)[0] == a;
  }

  lemma {:induction false} DeepLeaf(page: nat, node: nat, root: TreeNode, m: TreeNode, level: seq<TreeNode>)
    requires SmartPage(page) && node < 2 && |level| == 1 && RootedLevel(level, 2)
    requires level[0].parent == m && m.parent == root && StepOf(root) == Step(1, MIDDLE + 0x40, 0)
    requires StepOf(level[0]) == Step(1, MIDDLE + 0x20, MIDDLE - 8)
    requires StepOf(m) == Step(1 - node, if node == 0 then MIDDLE else MIDDLE - 8, MIDDLE + 0x40)
    ensures LevelPaths(level, 2) == [DeepPath(node)]
  {
    PathUp(root, m, level[0]);
    assert LevelPaths(level, 2)[0] == PathOf(level[0], 2);
  }

  /** The calls of one depth, in the given order. */
  method RunLevel(page: nat, scanner: Ptrscan, run: seq<Call>)
    requires SmartPage(page) && GoodCalls(run)
    requires scanner.tree != null && scanner.tree.Valid() && 0 < scanner.curDepthLevel < |scanner.tree.depthLevels|
    requires HaveParents(scanner.tree.depthLevels[scanner.curDepthLevel])
    modifies scanner.tree, scanner.tree.repr
    ensures scanner.tree.Valid() && fresh(scanner.tree.repr - old(scanner.tree.repr))
    ensures LevelExtended(old(scanner.tree.depthLevels), scanner.tree.depthLevels, scanner.curDepthLevel,
                          Grow(SmartOptions(), scanner.curDepthLevel, run,
                               old(scanner.tree.depthLevels[scanner.curDepthLevel - 1])))
  {
    ghost var was := scanner.tree.depthLevels;
    ghost var k := scanner.curDepthLevel;
    assert Views(was[k]) + [] == Views(was[k]);
    for i := 0 to |run|
      invariant scanner.tree.Valid() && fresh(scanner.tree.repr - old(scanner.tree.repr))
      invariant LevelExtended(was, scanner.tree.depthLevels, k, Grow(SmartOptions(), k, run[..i], was[k - 1]))
    {
      ghost var levels := scanner.tree.depthLevels;
      assert run[..i + 1][..i] == run[..i];
      var _ := scanner.ProcessAddr(SmartOptions(), run[i]);
      ExtendedTwice(was, levels, scanner.tree.depthLevels, k, Grow(SmartOptions(), k, run[..i], was[k - 1]),
                    Additions(SmartOptions(), k, run[i], was[k - 1]));
    }
    assert run[..|run|] == run;
  }

  /** One more depth. */
  method RunDepth(page: nat, node: nat, scanner: Ptrscan, ghost runs: seq<seq<Call>>)
    returns (ghost more: seq<seq<Call>>)
    requires SmartPage(page) && node < 2 && ValidSetup(SmartSetup(page))
    requires scanner.tree != null && scanner.tree.Valid() && scanner.curDepthLevel == |runs| + 1 <= 2
    requires PartialTree(SmartSetup(page), scanner.tree.depthLevels, runs, 1)
    modifies scanner`curDepthLevel, scanner.tree, scanner.tree.repr
    ensures scanner.tree == old(scanner.tree) && scanner.tree.Valid()
    ensures fresh(scanner.tree.repr - old(scanner.tree.repr))
    ensures scanner.curDepthLevel == |more| + 1 && more == runs + [RunFrom(page, node)]
    ensures PartialTree(SmartSetup(page), scanner.tree.depthLevels, more, 1)
  {
    ghost var s := SmartSetup(page);
    PartialNext(s, scanner.tree.depthLevels, runs, 1);
    ghost var was := scanner.tree.depthLevels;
    RunLevel(page, scanner, RunFrom(page, node));
    SmartValid(page);
    RunIsFull(page, node);
    PartialStep(s, was, runs, scanner.tree.depthLevels, RunFrom(page, node), 1);
    more := runs + [RunFrom(page, node)];
    scanner.curDepthLevel := scanner.curDepthLevel + 1;
  }

  /** Both depths, the calls of area `node` first. */
  method SmartScan(page: nat, node: nat) returns (scanner: Ptrscan, ghost runs: seq<seq<Call>>)
    requires SmartPage(page) && node < 2 && ValidSetup(SmartSetup(page))
    ensures scanner.tree != null && ScanTree(SmartSetup(page), scanner.tree.depthLevels, runs)
    ensures runs == [RunFrom(page, node), RunFrom(page, node)]
    ensures RootedLevels(scanner.tree.depthLevels)
    ensures StepOf(scanner.tree.depthLevels[0][0]) == Step(1, MIDDLE + 0x40, 0)
  {
    ghost var s := SmartSetup(page);
    scanner := new Ptrscan();
    scanner.PlantRoot(SmartOptions(), 1);
    runs := [];
    PlantedIsPartial(s, scanner.tree.depthLevels, 1);
    runs := RunDepth(page, node, scanner, runs);
    runs := RunDepth(page, node, scanner, runs);
    PartialDone(s, scanner.tree.depthLevels, runs, 1);
  }

  /** Smart scans are not deterministic. Two scans of the same memory with the same options, in which
      every depth makes every visit once, differ: the pointer to the first area's last word is taken for
      what it is only if that word reached the tree last. */
  method TwoOrders(page: nat)
    returns (scanner: Ptrscan, scanner': Ptrscan, ghost runs: seq<seq<Call>>, ghost runs': seq<seq<Call>>)
    requires SmartPage(page)
    ensures ValidSetup(SmartSetup(page)) && scanner.tree != null && scanner'.tree != null
    ensures ScanTree(SmartSetup(page), scanner.tree.depthLevels, runs) && RootedLevels(scanner.tree.depthLevels)
    ensures ScanTree(SmartSetup(page), scanner'.tree.depthLevels, runs') && RootedLevels(scanner'.tree.depthLevels)
    ensures LevelPaths(scanner.tree.depthLevels[2], 2) ==
            [[Step(1, MIDDLE + 0x20, MIDDLE - 8), Step(1, MIDDLE, MIDDLE + 0x40), Step(1, MIDDLE + 0x40, 0)]]
    ensures LevelPaths(scanner'.tree.depthLevels[2], 2) ==
            [[Step(1, MIDDLE + 0x20, MIDDLE - 8), Step(0, MIDDLE - 8, MIDDLE + 0x40), Step(1, MIDDLE + 0x40, 0)]]
  {
    SmartValid(page);
    scanner, runs := SmartScan(page, 0);
    scanner', runs' := SmartScan(page, 1);
    OrderDecides(page, 0, scanner.tree.depthLevels, runs);
    OrderDecides(page, 1, scanner'.tree.depthLevels, runs');
  }
}
