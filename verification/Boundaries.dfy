/** Where the read buffer stops agreeing with memory: the last bytes of an area, and alignments that
    do not fit the slide. */
module Boundaries {
  import opened Target
  import opened ResultFile
  import opened PtrscanTree
  import opened ScanWorker
  import opened WorkDivision
  import opened Matching
  import opened Paths
  import opened Independence
  import opened Exactness
  import opened Completeness
  import opened Ptrscanner
  import opened ScanTheorems

  // ----- the end of an area -----

  /** Exactly the visits clear of the area's end deliver what memory holds, whatever it holds: any
      other reads bytes left over from an earlier slide of the buffer. */
  lemma ClearExactly(node: nat, area: Area, page: nat, width: nat, off: int)
    requires 0 <= off < area.Size() && 0 < width < page <= area.Size()
    ensures (forall mem :: AreaMapped(mem, area) ==>
               Visit(mem, node, area, page, width, off).word == Bytes(mem, area.start + off, width))
            <==> off + width <= area.Size()
  {
    if off + width <= area.Size() {
      forall mem | AreaMapped(mem, area)
        ensures Visit(mem, node, area, page, width, off).word == Bytes(mem, area.start + off, width)
      {
        CallCarriesMemory(mem, node, area, page, width, off);
        var w := Visit(mem, node, area, page, width, off).word;
        assert w[..width] == w;
      }
    } else {
      var mem := Filled(area.start, area.Size(), 1);
      FilledAt(area.start, area.Size(), 1);
      assert AreaMapped(mem, area);
      var k := area.Size() - off;
      assert DeliveredByte(mem, area, page, width, off + k) == 1;
      assert Visit(mem, node, area, page, width, off).word[k] == 1;
      assert Bytes(mem, area.start + off, width)[k] == Peek(mem, area.end);
    }
  }

  // ----- the alignment -----

  /** Over this area the loop offers the visits, and never goes on outside the buffer. */
  ghost predicate OffersVisits(mem: Memory, node: nat, area: Area, buf: seq<byte>, width: nat, step: nat)
    requires 0 < step && width <= |buf|
  {
    var o := AreaOffered(mem, node, area, buf, width, step);
    !o.outside && o.calls == AreaVisits(mem, node, area, |buf|, width, step)
  }

  /** The area mapped, with a one at offset `off` and a zero at another one. */
  lemma OneAt(area: Area, off: int, other: int) returns (mem: Memory)
    requires 0 <= off < area.Size() && off != other
    ensures AreaMapped(mem, area) && Peek(mem, area.start + off) == 1 && Peek(mem, area.start + other) == 0
  {
    FilledAt(area.start, area.Size(), 0);
    mem := Filled(area.start, area.Size(), 0)[area.start + off := 1];
  }

  /** The loop has read the first page and used up `l.off` bytes of it. */
  ghost predicate InFirstPage(mem: Memory, area: Area, page: nat, step: nat, l: Place) {
    && |l.page| == page && 0 < l.off && Multiple(l.off, step) && l.left == page - l.off
    && forall j :: 0 <= j < page ==> l.page[j] == Peek(mem, area.start + j)
  }

  /** A call for the address at offset `off` whose word starts with a zero. */
  predicate ZeroCall(area: Area, off: int, c: Call) {
    c.addr == area.start + off && c.word != [] && c.word[0] == 0
  }

  ghost predicate HasZeroCall(area: Area, off: int, calls: seq<Call>) {
    exists i :: 0 <= i < |calls| && ZeroCall(area, off, calls[i])
  }

  lemma {:induction false} ZeroCallStays(mem: Memory, node: nat, area: Area, width: nat, step: nat, l: Place, off: int)
    requires 0 < step && width <= |l.page| && l.left <= |l.page| && HasZeroCall(area, off, l.calls)
    ensures HasZeroCall(area, off, Offered(mem, node, area, width, step, l).calls)
    decreases area.Size() - l.off
  {
    if l.off < area.Size() && 0 <= l.left {
      var next := Turned(mem, node, area, width, step, l);
      var i :| 0 <= i < |l.calls| && ZeroCall(area, off, l.calls[i]);
      assert ZeroCall(area, off, next.calls[i]);
      ZeroCallStays(mem, node, area, width, step, next, off);
    }
  }

  /** A second read that comes off the step moves the last word of the page to where another one is
      expected. */
  lemma {:induction false} MovesWrongWord(mem: Memory, node: nat, area: Area, page: nat, width: nat, step: nat,
                                          l: Place)
    requires 0 < step && 0 < width && width <= page && InFirstPage(mem, area, page, step, l) && 0 <= l.left <= width
    requires l.off < area.Size() && Peek(mem, area.start + page - width) == 0
    ensures HasZeroCall(area, l.off, Turned(mem, node, area, width, step, l).calls)
  {
    var t := TurnAt(mem, area, l.page, width, l.off, l.left);
    var c := TurnCall(node, area, t, width, l.off);
    assert t.buffer[0] == l.page[page - width];
    assert c.word[0] == t.buffer[0];
    assert Turned(mem, node, area, width, step, l).calls[|l.calls|] == c;
  }

  lemma {:induction false} FirstPageGoesOn(mem: Memory, node: nat, area: Area, page: nat, width: nat, step: nat,
                                           l: Place)
    requires 0 < step && width <= page && InFirstPage(mem, area, page, step, l) && width < l.left
    ensures InFirstPage(mem, area, page, step, Turned(mem, node, area, width, step, l))
  {
    MultipleSum(l.off, step, step);
  }

  /** The first visited offset at which at most a word of the first page is left. */
  ghost predicate SecondRead(page: nat, width: nat, step: nat, off: int) {
    0 < step && Multiple(off, step) && page - width <= off < page - width + step
  }

  /** From within the first page the loop comes to a second read that is wrong, or runs out of the
      buffer. */
  lemma {:induction false} GoesWrong(mem: Memory, node: nat, area: Area, page: nat, width: nat, step: nat, off: int,
                                     l: Place)
    requires 0 < width < page && SecondRead(page, width, step, off) && InFirstPage(mem, area, page, step, l)
    requires l.off <= off < area.Size() && Peek(mem, area.start + page - width) == 0
    ensures var o := Offered(mem, node, area, width, step, l); o.outside || HasZeroCall(area, off, o.calls)
    decreases area.Size() - l.off
  {
    if 0 <= l.left {
      OfferedTurn(mem, node, area, width, step, l);
      var next := Turned(mem, node, area, width, step, l);
      if l.off < off {
        MultipleGap(l.off, off, step);
        FirstPageGoesOn(mem, node, area, page, width, step, l);
        GoesWrong(mem, node, area, page, width, step, off, next);
      } else {
        MovesWrongWord(mem, node, area, page, width, step, l);
        ZeroCallStays(mem, node, area, width, step, next, off);
      }
    }
  }

  /** The first turn reads the first page. */
  lemma {:induction false} FirstTurn(mem: Memory, node: nat, area: Area, buf: seq<byte>, width: nat, step: nat)
    returns (next: Place)
    requires 0 < step && width <= |buf| && 0 < area.Size()
    ensures InFirstPage(mem, area, |buf|, step, next) && next.off == step
    ensures AreaOffered(mem, node, area, buf, width, step) == Offered(mem, node, area, width, step, next)
  {
    var start := Place(buf, 0, 0, [], []);
    OfferedTurn(mem, node, area, width, step, start);
    MultipleSum(0, step, step);
    next := Turned(mem, node, area, width, step, start);
  }

  lemma VisitStarts(mem: Memory, node: nat, area: Area, page: nat, width: nat, off: int)
    requires 0 < width && off < area.Size()
    ensures Visit(mem, node, area, page, width, off).word[0] == Peek(mem, area.start + off)
  {
    assert DeliveredWord(mem, area, page, width, off)[0] == DeliveredByte(mem, area, page, width, off + 0);
  }

  /** A visit for the offset with the one does not start with a zero. */
  lemma {:induction false} VisitsHoldOne(mem: Memory, node: nat, area: Area, page: nat, width: nat, step: nat, off: int)
    requires 0 < step && 0 < width && 0 <= off < area.Size() && Peek(mem, area.start + off) == 1
    ensures !HasZeroCall(area, off, AreaVisits(mem, node, area, page, width, step))
  {
    var calls := AreaVisits(mem, node, area, page, width, step);
    VisitStarts(mem, node, area, page, width, off);
    if i :| 0 <= i < |calls| && ZeroCall(area, off, calls[i]) {
      VisitOrigin(mem, node, area, page, width, step, RoundUp(area.Size(), step), calls[i]);
    }
  }

  lemma {:induction false} MisfitIn(mem: Memory, node: nat, area: Area, buf: seq<byte>, width: nat, step: nat, off: int)
    requires 0 < width < |buf| && SecondRead(|buf|, width, step, off) && off < area.Size()
    requires Peek(mem, area.start + |buf| - width) == 0
    ensures var o := AreaOffered(mem, node, area, buf, width, step); o.outside || HasZeroCall(area, off, o.calls)
  {
    var next := FirstTurn(mem, node, area, buf, width, step);
    MultipleGap(0, off, step);
    GoesWrong(mem, node, area, |buf|, width, step, off, next);
  }

  /** The alignments that work. Whatever memory and the buffer hold, the loop over an area offers its
      visits and stays inside the buffer, exactly if the alignment divides what a slide moves over or the
      area ends before a second read. */
  lemma {:induction false} AlignmentExactly(node: nat, area: Area, page: nat, width: nat, step: nat)
    requires Geometry(page, width, step) && 2 * width <= page <= area.Size() && Multiple(area.Size(), width)
    ensures (forall mem, buf :: AreaMapped(mem, area) && |buf| == page ==>
               OffersVisits(mem, node, area, buf, width, step))
            <==> Suits(area, page, width, step)
  {
    if Suits(area, page, width, step) {
      forall mem, buf | AreaMapped(mem, area) && |buf| == page
        ensures OffersVisits(mem, node, area, buf, width, step)
      {
        OfferedSuits(mem, node, area, buf, width, step);
      }
    } else {
      var off := RoundUp(page - width, step);
      var mem := OneAt(area, off, page - width);
      var buf := seq<byte>(page, _ => 0);
      MisfitIn(mem, node, area, buf, width, step, off);
      VisitsHoldOne(mem, node, area, page, width, step, off);
      assert !OffersVisits(mem, node, area, buf, width, step);
    }
  }

  // ----- a scan that lists a chain its own memory refutes -----

  predicate StalePage(page: nat) {
    8 < page < TWO_TO_63 && Multiple(page, 8)
  }

  function StaleArea(page: nat): Area
    requires StalePage(page)
  {
    Area(0x1000, 0x1000 + page, 0, Some(0), None)
  }

  /** One page at 0x1000 whose only non-zero byte is the third from its end. */
  function StaleMemory(page: nat): Memory
    requires StalePage(page)
  {
    Filled(0x1000, page, 0)[0x1000 + page - 3 := 0x10]
  }

  function StaleMap(page: nat): VmMap
    requires StalePage(page)
  {
    VmMap([StaleArea(page)], [Obj([97], 0x1000, [0])])
  }

  /** Aligned to 4 bytes, one depth, the start of the page the target. */
  function StaleOptions(): PtrOptions {
    PtrOptions(0x1000, 4, 0x100, 1, None, false)
  }

  function StaleSetup(page: nat): Setup
    requires StalePage(page)
  {
    Setup(StaleMemory(page), StaleMap(page), StaleOptions(), page, 8, [0])
  }

  /** The path of the node four bytes before the end of the page: it seems to hold the target. */
  function StalePath(page: nat): Path
    requires StalePage(page)
  {
    [Step(0, 0x1000 + page - 4, 0x1000), Step(0, 0x1000, 0)]
  }

  lemma {:induction false} PageBounds(page: nat)
    requires StalePage(page)
    ensures 16 <= page && Multiple(page - 4, 4) && Geometry(page, 8, 4) && Multiple(8, 4)
  {
    assert Multiple(4, 4) && Multiple(8, 4);
    MultipleGap(8, page, 8) by {
      assert Multiple(8, 8);
    }
    AlignmentDividesWidth(page, 8, 4);
    MultipleTrans(page, 8, 4);
  }

  lemma StaleValid(page: nat)
    requires StalePage(page)
    ensures ValidSetup(StaleSetup(page)) && Separate(StaleSetup(page))
  {
    PageBounds(page);
  }

  /** The last four bytes of the word come from eight bytes after the start of the page. */
  lemma StaleWord(page: nat)
    requires StalePage(page)
    ensures DeliveredWord(StaleMemory(page), StaleArea(page), page, 8, page - 4) == [0, 0x10, 0, 0, 0, 0, 0, 0]
  {
    PageBounds(page);
    FilledAt(0x1000, page, 0);
    var mem, area := StaleMemory(page), StaleArea(page);
    assert DeliveredByte(mem, area, page, 8, page - 3) == 0x10;
    forall x | page - 4 <= x < page + 4 && x != page - 3
      ensures DeliveredByte(mem, area, page, 8, x) == 0
    {
    }
  }

  lemma StaleIsPath(page: nat)
    requires StalePage(page) && ValidSetup(StaleSetup(page))
    ensures IsScanPath(StaleSetup(page), Step(0, 0x1000, 0), StalePath(page))
  {
    var s, p := StaleSetup(page), StalePath(page);
    PageBounds(page);
    StaleWord(page);
    SecondByte(0x10);
    assert Visited(s, p[0]);
    assert p[1..] == [Step(0, 0x1000, 0)];
  }

  /** Memory ends before the word does. */
  lemma StaleRefuted(page: nat)
    requires StalePage(page)
    ensures OffsetsFrom(0x1000, StalePath(page)) == [page - 4, 0]
    ensures Follow(StaleMemory(page), 8, 0x1000, [page - 4, 0]) == None
  {
    FilledAt(0x1000, page, 0);
    assert 0x1000 + page !in StaleMemory(page);
    FollowPair(StaleMemory(page), 0x1000, StalePath(page));
    assert OffsetsFrom(0x1000, StalePath(page)) == [page - 4, 0];
  }

  /** Every plain scan of the page lists the chain, and following it does not arrive. */
  lemma {:induction false} StaleListed(page: nat, levels: Levels, runs: seq<seq<Call>>, names: seq<seq<byte>>,
                                       chains: seq<Chain>)
    returns (k: nat)
    requires StalePage(page) && ScanResult(StaleSetup(page), levels, runs, names, chains)
    requires StepOf(levels[0][0]) == Step(0, 0x1000, 0)
    ensures k < |chains| && chains[k].obj == Some(0) && chains[k].offsets == [page - 4, 0]
    ensures !ChainAccepted(StaleMemory(page), StaleMap(page), chains[k], 0x1000)
  {
    var s, p := StaleSetup(page), StalePath(page);
    StaleValid(page);
    StaleIsPath(page);
    LeavesExactly(s, levels, runs, p);
    var paths := LeafPaths(levels, |levels|);
    assert p in multiset(paths);
    k :| 0 <= k < |paths| && paths[k] == p;
    assert ChainFor(s.vmap, names, chains[k], paths[k]);
    StaleRefuted(page);
  }

  lemma OnlyNode(nodes: seq<nat>, n: nat)
    requires multiset(nodes) == multiset({n})
    ensures nodes == [n]
  {
    assert |nodes| == |multiset(nodes)| == 1;
    assert nodes[0] in multiset(nodes);
  }

  /** The same on the scanner itself: a scan of the page lists the chain, and verifying right after,
      in the very memory that was scanned, drops it. */
  method StaleScan(page: nat) returns (scanner: Ptrscan, ghost listed: seq<Chain>, ghost k: nat)
    requires StalePage(page)
    ensures k < |listed| && listed[k].obj == Some(0) && listed[k].offsets == [page - 4, 0]
    ensures scanner.chains == AcceptedChains(StaleMemory(page), StaleMap(page), listed, 0x1000)
    ensures listed[k] !in scanner.chains
  {
    var mem, vmap := StaleMemory(page), StaleMap(page);
    var worker := new Worker(mem, page, 8);
    var pool := new WorkerPool(1);
    scanner := new Ptrscan();
    PageBounds(page);
    FilledAt(0x1000, page, 0);
    assert AreaMapped(mem, vmap.areas[0]);
    var ret, completed;
    ghost var s, runs;
    ret, completed, s, runs := scanner.Scan(Some(StaleOptions()), vmap, {0}, 0, pool, [worker]);
    OnlyNode(s.nodes, 0);
    listed := scanner.chains;
    k := StaleListed(page, scanner.tree.depthLevels, runs, scanner.serPathnames, listed);
    ret := scanner.Verify(Some(0x1000), [mem], vmap);
    AcceptedAreAccepted(mem, vmap, listed, 0x1000);
  }
}
