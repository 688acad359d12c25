/** What a level of a plain scan holds, exactly: one node for every visited address and every
    parent its pointer is accepted for. */
module Exactness {
  import opened Target
  import opened PtrscanTree
  import opened ScanWorker
  import opened Matching
  import opened Growth
  import opened Paths

  // ----- every address is visited once -----

  ghost predicate DistinctAddresses(calls: seq<Call>) {
    forall i, j :: 0 <= i < j < |calls| ==> calls[i].addr != calls[j].addr
  }

  ghost predicate AddressesIn(calls: seq<Call>, lo: int, hi: int) {
    forall i :: 0 <= i < |calls| ==> lo <= calls[i].addr < hi
  }

  lemma {:induction false} VisitsDistinct(mem: Memory, node: nat, area: Area, page: nat, width: nat, step: nat,
                                          off: int)
    requires 0 < step && Multiple(off, step)
    ensures DistinctAddresses(Visits(mem, node, area, page, width, step, off))
    ensures AddressesIn(Visits(mem, node, area, page, width, step, off), area.start, area.start + off - step + 1)
    decreases off
  {
    if off >= step {
      VisitsDistinct(mem, node, area, page, width, step, off - step);
    }
  }

  /** Areas do not overlap and no area is scanned twice. */
  ghost predicate Separate(s: Setup)
    requires ValidSetup(s)
  {
    forall i, j :: 0 <= i < j < |s.nodes| ==>
      var a, b := s.vmap.areas[s.nodes[i]], s.vmap.areas[s.nodes[j]];
      a.end <= b.start || b.end <= a.start
  }

  /** Every call of the first areas lies in one of them. */
  ghost predicate CallsInAreas(s: Setup, k: nat, calls: seq<Call>)
    requires ValidSetup(s) && k <= |s.nodes|
  {
    forall i :: 0 <= i < |calls| ==> InFirstAreas(s, k, calls[i].addr)
  }

  ghost predicate InFirstAreas(s: Setup, k: nat, a: int)
    requires ValidSetup(s) && k <= |s.nodes|
  {
    exists j :: 0 <= j < k && InArea(s.vmap.areas[s.nodes[j]], a)
  }

  predicate InArea(area: Area, a: int) {
    area.start <= a < area.end
  }

  lemma {:induction false} SetVisitsDistinct(s: Setup, k: nat)
    requires ValidSetup(s) && Separate(s) && k <= |s.nodes|
    ensures var calls := SetVisits(s.mem, s.vmap, s.nodes[..k], s.page, s.width, s.opts.alignment);
            DistinctAddresses(calls) && CallsInAreas(s, k, calls)
    decreases k
  {
    if k > 0 {
      var n := s.nodes[k - 1];
      var area := s.vmap.areas[n];
      SetVisitsDistinct(s, k - 1);
      assert s.nodes[..k][..k - 1] == s.nodes[..k - 1];
      assert Scannable(area, s.page, s.width, s.opts.alignment);
      VisitsDistinct(s.mem, n, area, s.page, s.width, s.opts.alignment, RoundUp(area.Size(), s.opts.alignment));
      AppendArea(s, k, SetVisits(s.mem, s.vmap, s.nodes[..k - 1], s.page, s.width, s.opts.alignment),
                 AreaVisits(s.mem, n, area, s.page, s.width, s.opts.alignment));
    }
  }

  lemma AppendArea(s: Setup, k: nat, before: seq<Call>, last: seq<Call>)
    requires ValidSetup(s) && Separate(s) && 0 < k <= |s.nodes|
    requires DistinctAddresses(before) && CallsInAreas(s, k - 1, before)
    requires var area := s.vmap.areas[s.nodes[k - 1]];
             DistinctAddresses(last) && AddressesIn(last, area.start, area.end)
    ensures DistinctAddresses(before + last) && CallsInAreas(s, k, before + last)
  {
    var area := s.vmap.areas[s.nodes[k - 1]];
    forall i | 0 <= i < |before|
      ensures !InArea(area, before[i].addr) && InFirstAreas(s, k, before[i].addr)
    {
      assert InFirstAreas(s, k - 1, before[i].addr);
      var j :| 0 <= j < k - 1 && InArea(s.vmap.areas[s.nodes[j]], before[i].addr);
      assert InArea(s.vmap.areas[s.nodes[j]], before[i].addr);
    }
    forall i | 0 <= i < |last|
      ensures InArea(area, last[i].addr) && InFirstAreas(s, k, last[i].addr)
    {
      assert InArea(s.vmap.areas[s.nodes[k - 1]], last[i].addr);
    }
    var calls := before + last;
    forall i | 0 <= i < |calls|
      ensures InFirstAreas(s, k, calls[i].addr)
    {
      assert calls[i] == if i < |before| then before[i] else last[i - |before|];
    }
  }

  // ----- deliveries do not depend on the order -----

  ghost function DeliverySet(c: Candidate): Call -> multiset<Candidate> {
    (call: Call) => if GoodCall(call) && Delivers(call, c) then multiset{c} else multiset{}
  }

  lemma {:induction false} DeliveriesSum(calls: seq<Call>, c: Candidate)
    requires GoodCalls(calls)
    ensures MSum(calls, DeliverySet(c))[c] == Deliveries(calls, c)
  {
    if calls != [] {
      DeliveriesSum(calls[..|calls| - 1], c);
    }
  }

  /** The visit that delivers a candidate's pointer at its address. */
  ghost predicate Delivered(s: Setup, c: Candidate)
    requires ValidSetup(s)
  {
    exists call :: call in AllVisits(s) && GoodCall(call) && Delivers(call, c)
  }

  lemma {:induction false} AllVisitsOnce(s: Setup, c: Candidate)
    requires ValidSetup(s) && Separate(s)
    ensures GoodCalls(AllVisits(s))
    ensures Deliveries(AllVisits(s), c) == if Delivered(s, c) then 1 else 0
  {
    var all := AllVisits(s);
    SetVisitsGood(s.mem, s.vmap, s.nodes, s.page, s.width, s.opts.alignment);
    assert s.nodes[..|s.nodes|] == s.nodes;
    SetVisitsDistinct(s, |s.nodes|);
    DeliveredOnce(all, c);
    DeliveredIndex(all, c);
  }

  lemma DeliveredIndex(calls: seq<Call>, c: Candidate)
    requires GoodCalls(calls)
    ensures (exists call :: call in calls && GoodCall(call) && Delivers(call, c)) <==>
            exists i :: 0 <= i < |calls| && Delivers(calls[i], c)
  {
    if exists call :: call in calls && GoodCall(call) && Delivers(call, c) {
      var call :| call in calls && GoodCall(call) && Delivers(call, c);
      var i :| 0 <= i < |calls| && calls[i] == call;
      assert Delivers(calls[i], c);
    }
  }

  lemma {:induction false} DeliveredExactly(s: Setup, run: seq<Call>, c: Candidate)
    requires ValidSetup(s) && Separate(s) && FullRun(s, run) && GoodCalls(run)
    ensures Deliveries(run, c) == if Delivered(s, c) then 1 else 0
  {
    AllVisitsOnce(s, c);
    DeliveriesSum(run, c);
    DeliveriesSum(AllVisits(s), c);
    MSumPermutation(run, AllVisits(s), DeliverySet(c));
  }

  /** Level `d` of a finished plain scan holds exactly one node for every visited address and
      every node of the level before that accepts the pointer delivered there, and nothing else,
      whatever the number of workers, the division of the areas and the order of the batches. */
  lemma LevelHoldsExactly(s: Setup, levels: Levels, runs: seq<seq<Call>>, d: nat, c: Candidate)
    requires ValidSetup(s) && Separate(s) && !s.opts.smartScan
    requires ScanTree(s, levels, runs) && 0 < d < |levels|
    ensures HaveParents(levels[d])
    ensures multiset(Views(levels[d]))[c] ==
            if c.parent in levels[d - 1] && Accepts(s.opts, d, c.parent.ownAddr, c.ptrAddr) && Delivered(s, c)
            then 1 else 0
  {
    assert LevelGrown(s, levels, runs, d);
    assert Distinct(levels[d - 1]);
    LevelExact(s.opts, d, runs[d - 1], levels[d - 1], c);
    DeliveredExactly(s, runs[d - 1], c);
  }
}
