/** Which parents a scanned word points at, and which of them a smart scan keeps. */
module Matching {
  import opened Target
  import opened PtrscanTree
  import opened ScanWorker

  /** The options of a pointer scan; sizes are not negative. */
  datatype PtrOptions = PtrOptions(
    targetAddr: Address,
    alignment: nat,
    maxObjSz: nat,
    maxDepth: nat,
    presetOffsets: Option<seq<Offset>>,
    smartScan: bool)

  // ----- acceptance -----

  /** The window test, in wrapping arithmetic. */
  predicate InWindow(own: Address, p: Address, maxObjSz: nat) {
    Wrap(own - maxObjSz) <= p <= own
  }

  /** The preset that applies at `depth`, if the test of the source looks at one. */
  predicate PresetMet(presets: Option<seq<Offset>>, depth: nat, own: Address, p: Address)
    requires 0 < depth
  {
    presets.Some? && depth < |presets.value| ==> p == Wrap(own - presets.value[depth - 1])
  }

  predicate Accepts(opts: PtrOptions, depth: nat, own: Address, p: Address)
    requires 0 < depth
  {
    InWindow(own, p, opts.maxObjSz) && PresetMet(opts.presetOffsets, depth, own, p)
  }

  /** Without presets a pointer is accepted exactly if it lies in the object-sized window below
      the parent and the parent is not so low that the window would start below zero. */
  lemma WindowExact(own: Address, p: Address, maxObjSz: nat)
    requires maxObjSz < TWO_TO_64
    ensures InWindow(own, p, maxObjSz) <==> maxObjSz <= own && 0 <= own - p <= maxObjSz
  {
    assert own < maxObjSz ==> Wrap(own - maxObjSz) == own - maxObjSz + TWO_TO_64;
  }

  /** What the documentation asks: the first `n` levels have to meet the `n` presets. */
  predicate PresetIntended(presets: Option<seq<Offset>>, depth: nat, own: Address, p: Address)
    requires 0 < depth
  {
    presets.Some? && depth <= |presets.value| ==> p == Wrap(own - presets.value[depth - 1])
  }

  /** The last preset is not enforced: the test agrees with the documentation for every pointer
      exactly at the depths that are not the number of presets. */
  lemma PresetsEnforced(presets: Option<seq<Offset>>, depth: nat, own: Address)
    requires 0 < depth
    ensures (forall p: Address :: PresetMet(presets, depth, own, p) <==> PresetIntended(presets, depth, own, p))
            <==> presets.None? || depth != |presets.value|
  {
    if presets.Some? && depth == |presets.value| {
      var wrong := Wrap(own - presets.value[depth - 1] + 1);
      assert wrong != Wrap(own - presets.value[depth - 1]);
      assert PresetMet(presets, depth, own, wrong) && !PresetIntended(presets, depth, own, wrong);
    }
  }

  /** What is accepted, in plain integers: the window for `own >= maxObjSz`, and at depths below the
      number of presets the one address that is the depth's preset below the parent, modulo 2^64. */
  lemma AcceptsExactly(opts: PtrOptions, depth: nat, own: Address, p: Address)
    requires 0 < depth && opts.maxObjSz < 0x1_0000_0000_0000_0000
    ensures Accepts(opts, depth, own, p) <==>
              && opts.maxObjSz <= own && 0 <= own - p <= opts.maxObjSz
              && (opts.presetOffsets.Some? && depth < |opts.presetOffsets.value| ==>
                    (p - (own - opts.presetOffsets.value[depth - 1])) % 0x1_0000_0000_0000_0000 == 0)
  {
    WindowExact(own, p, opts.maxObjSz);
    if opts.presetOffsets.Some? && depth < |opts.presetOffsets.value| {
      WrapExactly(own - opts.presetOffsets.value[depth - 1], p);
    }
  }

  /** The parents of a level that a pointer is accepted for, in level order. */
  ghost function Accepted(opts: PtrOptions, depth: nat, p: Address, level: seq<TreeNode>): (ms: seq<TreeNode>)
    requires 0 < depth
    ensures forall i :: 0 <= i < |ms| ==> ms[i] in level && Accepts(opts, depth, ms[i].ownAddr, p)
  {
    if level == [] then []
    else
      var n := |level| - 1;
      Accepted(opts, depth, p, level[..n]) + if Accepts(opts, depth, level[n].ownAddr, p) then [level[n]] else []
  }

  // ----- smart scan -----

  function Gap(n: TreeNode, p: Address): int {
    n.ownAddr - p
  }

  /** The position of the last match closer than the object size; 0 if there is none. */
  ghost function LastCloser(ms: seq<TreeNode>, p: Address, maxObjSz: nat): (j: nat)
    ensures j <= |ms|
    ensures forall i :: j < i < |ms| ==> Gap(ms[i], p) >= maxObjSz
    ensures j < |ms| && Gap(ms[j], p) >= maxObjSz ==> j == 0
  {
    if ms == [] then 0
    else if Gap(ms[|ms| - 1], p) < maxObjSz then |ms| - 1
    else LastCloser(ms[..|ms| - 1], p, maxObjSz)
  }

  /** What a scan keeps of the matches. Since the running minimum is never lowered, a smart scan
      keeps the last match closer than the object size and the matches after it, which are all at
      exactly the object size. */
  ghost function Survivors(opts: PtrOptions, p: Address, ms: seq<TreeNode>): seq<TreeNode> {
    if opts.smartScan then ms[LastCloser(ms, p, opts.maxObjSz)..] else ms
  }

  predicate Nearest(ms: seq<TreeNode>, p: Address, n: TreeNode) {
    forall i :: 0 <= i < |ms| ==> Gap(n, p) <= Gap(ms[i], p)
  }

  /** What the documentation asks of a smart scan: the matches at the smallest gap. */
  ghost function NearestOf(all: seq<TreeNode>, p: Address, ms: seq<TreeNode>): (r: seq<TreeNode>)
    ensures forall i :: 0 <= i < |r| ==> r[i] in ms && Nearest(all, p, r[i])
    ensures forall i :: 0 <= i < |ms| && Nearest(all, p, ms[i]) ==> ms[i] in r
  {
    if ms == [] then []
    else
      var n := |ms| - 1;
      NearestOf(all, p, ms[..n]) + if Nearest(all, p, ms[n]) then [ms[n]] else []
  }

  predicate AllAtGap(ms: seq<TreeNode>, p: Address, gap: int) {
    forall i :: 0 <= i < |ms| ==> Gap(ms[i], p) == gap
  }

  predicate LastIsNearest(ms: seq<TreeNode>, p: Address) {
    forall i :: 0 <= i < |ms| - 1 ==> Gap(ms[|ms| - 1], p) < Gap(ms[i], p)
  }

  lemma {:induction false} NearestOfAll(all: seq<TreeNode>, p: Address, ms: seq<TreeNode>)
    requires forall i :: 0 <= i < |ms| ==> Nearest(all, p, ms[i])
    ensures NearestOf(all, p, ms) == ms
  {
    if ms != [] {
      var n := |ms| - 1;
      var before := ms[..n];
      forall i | 0 <= i < n
        ensures Nearest(all, p, before[i])
      {
        assert before[i] == ms[i];
      }
      NearestOfAll(all, p, before);
      assert ms == before + [ms[n]];
    }
  }

  lemma {:induction false} NearestOfNone(all: seq<TreeNode>, p: Address, ms: seq<TreeNode>)
    requires forall i :: 0 <= i < |ms| ==> !Nearest(all, p, ms[i])
    ensures NearestOf(all, p, ms) == []
  {
    if ms != [] {
      NearestOfNone(all, p, ms[..|ms| - 1]);
    }
  }

  /** A smart scan keeps exactly the nearest matches if and only if all matches are at the object
      size, or the last match is strictly nearer than all others. */
  lemma {:induction false} SmartScanExact(opts: PtrOptions, p: Address, ms: seq<TreeNode>)
    requires opts.smartScan
    requires forall i :: 0 <= i < |ms| ==> Gap(ms[i], p) <= opts.maxObjSz
    requires forall i, j :: 0 <= i < j < |ms| ==> ms[i] != ms[j]
    ensures Survivors(opts, p, ms) == NearestOf(ms, p, ms)
            <==> AllAtGap(ms, p, opts.maxObjSz) || LastIsNearest(ms, p)
  {
    var j := LastCloser(ms, p, opts.maxObjSz);
    if ms == [] {
    } else if Gap(ms[j], p) >= opts.maxObjSz {
      NearestOfAll(ms, p, ms);
    } else {
      var last := |ms| - 1;
      if LastIsNearest(ms, p) {
        NearestOfNone(ms, p, ms[..last]);
        assert ms[..last] + [ms[last]] == ms;
        assert j == last;
      } else if Survivors(opts, p, ms) == NearestOf(ms, p, ms) {
        SurvivorsNotNearest(opts, p, ms, j);
      }
    }
  }

  lemma {:induction false} SurvivorsNotNearest(opts: PtrOptions, p: Address, ms: seq<TreeNode>, j: nat)
    requires opts.smartScan && j < |ms| && j == LastCloser(ms, p, opts.maxObjSz)
    requires Gap(ms[j], p) < opts.maxObjSz && !LastIsNearest(ms, p)
    requires forall i, k :: 0 <= i < k < |ms| ==> ms[i] != ms[k]
    ensures Survivors(opts, p, ms) != NearestOf(ms, p, ms)
  {
    var last := |ms| - 1;
    var kept, nearest := ms[j..], NearestOf(ms, p, ms);
    assert kept[|kept| - 1] == ms[last];
    if Nearest(ms, p, ms[last]) {
      var i :| 0 <= i < last && Gap(ms[last], p) >= Gap(ms[i], p);
      assert Nearest(ms, p, ms[i]);
      assert ms[i] in nearest && ms[i] !in kept;
    } else {
      assert ms[last] in kept && ms[last] !in nearest;
    }
  }

  // ----- the corrected smart scan, not in the source -----

  /** The container and the running minimum of a loop that lowers the minimum on each
      improvement. */
  datatype Kept = Kept(nodes: seq<TreeNode>, min: int)

  ghost function LoweringScan(ms: seq<TreeNode>, p: Address, maxObjSz: nat): Kept {
    if ms == [] then Kept([], maxObjSz)
    else
      var n := |ms| - 1;
      var k := LoweringScan(ms[..n], p, maxObjSz);
      var gap := Gap(ms[n], p);
      if gap > k.min then k
      else if gap < k.min then Kept([ms[n]], gap)
      else Kept(k.nodes + [ms[n]], k.min)
  }

  ghost function AtGap(ms: seq<TreeNode>, p: Address, gap: int): seq<TreeNode> {
    if ms == [] then []
    else AtGap(ms[..|ms| - 1], p, gap) + if Gap(ms[|ms| - 1], p) == gap then [ms[|ms| - 1]] else []
  }

  lemma {:induction false} AtGapNone(ms: seq<TreeNode>, p: Address, gap: int)
    requires forall i :: 0 <= i < |ms| ==> gap < Gap(ms[i], p)
    ensures AtGap(ms, p, gap) == []
  {
    if ms != [] {
      AtGapNone(ms[..|ms| - 1], p, gap);
    }
  }

  lemma {:induction false} LoweringInvariant(ms: seq<TreeNode>, p: Address, maxObjSz: nat)
    ensures var k := LoweringScan(ms, p, maxObjSz);
            && k.nodes == AtGap(ms, p, k.min) && k.min <= maxObjSz
            && (forall i :: 0 <= i < |ms| ==> k.min <= Gap(ms[i], p))
            && (k.min == maxObjSz || exists i :: 0 <= i < |ms| && Gap(ms[i], p) == k.min)
  {
    if ms != [] {
      var n := |ms| - 1;
      LoweringInvariant(ms[..n], p, maxObjSz);
      var k := LoweringScan(ms[..n], p, maxObjSz);
      if Gap(ms[n], p) < k.min {
        AtGapNone(ms[..n], p, Gap(ms[n], p));
      }
      if k.min < maxObjSz {
        var i :| 0 <= i < n && Gap(ms[..n][i], p) == k.min;
        assert Gap(ms[i], p) == k.min;
      }
    }
  }

  lemma {:induction false} AtGapIsNearest(all: seq<TreeNode>, p: Address, ms: seq<TreeNode>, gap: int)
    requires forall i :: 0 <= i < |ms| ==> (Gap(ms[i], p) == gap <==> Nearest(all, p, ms[i]))
    ensures AtGap(ms, p, gap) == NearestOf(all, p, ms)
  {
    if ms != [] {
      AtGapIsNearest(all, p, ms[..|ms| - 1], gap);
    }
  }

  /** With a minimum that is lowered, the scan keeps exactly the nearest matches. */
  lemma {:induction false} LoweringScanIsNearest(ms: seq<TreeNode>, p: Address, maxObjSz: nat)
    requires forall i :: 0 <= i < |ms| ==> Gap(ms[i], p) <= maxObjSz
    ensures LoweringScan(ms, p, maxObjSz).nodes == NearestOf(ms, p, ms)
  {
    LoweringInvariant(ms, p, maxObjSz);
    AtGapIsNearest(ms, p, ms, LoweringScan(ms, p, maxObjSz).min);
  }

  lemma {:induction false} NearestCount(all: seq<TreeNode>, p: Address, ms: seq<TreeNode>, n: TreeNode)
    ensures multiset(NearestOf(all, p, ms))[n] == if Nearest(all, p, n) then multiset(ms)[n] else 0
  {
    if ms != [] {
      var k := |ms| - 1;
      NearestCount(all, p, ms[..k], n);
      CountLast(ms, n);
    }
  }

  lemma SameNearest(ms: seq<TreeNode>, ms': seq<TreeNode>, p: Address, n: TreeNode)
    requires multiset(ms) == multiset(ms') && Nearest(ms, p, n)
    ensures Nearest(ms', p, n)
  {
    forall i | 0 <= i < |ms'|
      ensures Gap(n, p) <= Gap(ms'[i], p)
    {
      assert ms'[i] in multiset(ms');
      var j :| 0 <= j < |ms| && ms[j] == ms'[i];
    }
  }

  /** What the corrected loop keeps does not depend on the order of the matches. */
  lemma {:induction false} LoweringScanOrder(ms: seq<TreeNode>, ms': seq<TreeNode>, p: Address, maxObjSz: nat)
    requires multiset(ms) == multiset(ms') && forall i :: 0 <= i < |ms| ==> Gap(ms[i], p) <= maxObjSz
    ensures multiset(LoweringScan(ms, p, maxObjSz).nodes) == multiset(LoweringScan(ms', p, maxObjSz).nodes)
  {
    forall i | 0 <= i < |ms'|
      ensures Gap(ms'[i], p) <= maxObjSz
    {
      assert ms'[i] in multiset(ms');
      assert ms'[i] in multiset(ms);
    }
    LoweringScanIsNearest(ms, p, maxObjSz);
    LoweringScanIsNearest(ms', p, maxObjSz);
    forall n: TreeNode
      ensures multiset(NearestOf(ms, p, ms))[n] == multiset(NearestOf(ms', p, ms'))[n]
    {
      NearestCount(ms, p, ms, n);
      NearestCount(ms', p, ms', n);
      if Nearest(ms, p, n) {
        SameNearest(ms, ms', p, n);
      } else if Nearest(ms', p, n) {
        SameNearest(ms', ms, p, n);
      }
    }
  }

  /** The loop as it is keeps the later of two matches that are both nearer than the object size,
      whichever is the nearer one. */
  lemma LaterMatchWins(opts: PtrOptions, p: Address, a: TreeNode, b: TreeNode)
    requires opts.smartScan && Gap(a, p) < opts.maxObjSz && Gap(b, p) < opts.maxObjSz
    ensures Survivors(opts, p, [a, b]) == [b] && Survivors(opts, p, [b, a]) == [a]
  {
  }

  lemma {:induction false} LastCloserAt(ms: seq<TreeNode>, p: Address, maxObjSz: nat, i: nat)
    requires i < |ms| && Gap(ms[i], p) < maxObjSz
    ensures i <= LastCloser(ms, p, maxObjSz) < |ms|
    ensures Gap(ms[LastCloser(ms, p, maxObjSz)], p) < maxObjSz
    decreases |ms|
  {
    if Gap(ms[|ms| - 1], p) >= maxObjSz {
      LastCloserAt(ms[..|ms| - 1], p, maxObjSz, i);
    }
  }

  /** A near match moved to the end is all that is kept. */
  lemma {:induction false} NearMatchLast(opts: PtrOptions, p: Address, rest: seq<TreeNode>, n: TreeNode)
    requires opts.smartScan && Gap(n, p) < opts.maxObjSz
    ensures Survivors(opts, p, rest + [n]) == [n]
  {
    var ms := rest + [n];
    LastCloserAt(ms, p, opts.maxObjSz, |rest|);
    assert ms[|rest|..] == [n];
  }

  /** A near match moved to the front is not all that is kept, if there are others. */
  lemma {:induction false} NearMatchFirst(opts: PtrOptions, p: Address, rest: seq<TreeNode>, n: TreeNode)
    requires opts.smartScan && rest != [] && n !in rest
    ensures multiset(Survivors(opts, p, [n] + rest)) != multiset{n}
  {
    var ms := [n] + rest;
    var j := LastCloser(ms, p, opts.maxObjSz);
    if j < |ms| {
      var kept := ms[j..];
      assert kept[|kept| - 1] == rest[|rest| - 1];
      assert rest[|rest| - 1] in multiset(kept);
    }
  }

  /** The match at `i` taken out. */
  lemma {:induction false} TakenOut(ms: seq<TreeNode>, i: nat) returns (rest: seq<TreeNode>)
    requires i < |ms| && forall j, k :: 0 <= j < k < |ms| ==> ms[j] != ms[k]
    ensures |rest| == |ms| - 1 && ms[i] !in rest
    ensures multiset(rest + [ms[i]]) == multiset(ms) && multiset([ms[i]] + rest) == multiset(ms)
  {
    rest := ms[..i] + ms[i + 1..];
    assert ms == ms[..i] + [ms[i]] + ms[i + 1..];
    MovedAbout(ms[..i], ms[i], ms[i + 1..]);
  }

  lemma MovedAbout<T>(a: seq<T>, x: T, b: seq<T>)
    ensures multiset(a + b + [x]) == multiset(a + [x] + b)
    ensures multiset([x] + (a + b)) == multiset(a + [x] + b)
  {
  }

  lemma {:induction false} AllKept(opts: PtrOptions, p: Address, ms: seq<TreeNode>)
    requires AllAtGap(ms, p, opts.maxObjSz)
    ensures Survivors(opts, p, ms) == ms
  {
    var j := LastCloser(ms, p, opts.maxObjSz);
    if j == |ms| {
      assert ms == [];
    }
  }

  lemma {:induction false} SameGaps(ms: seq<TreeNode>, ms': seq<TreeNode>, p: Address, gap: int)
    requires multiset(ms) == multiset(ms') && AllAtGap(ms, p, gap)
    ensures AllAtGap(ms', p, gap)
  {
    forall i | 0 <= i < |ms'|
      ensures Gap(ms'[i], p) == gap
    {
      assert ms'[i] in multiset(ms');
      var j :| 0 <= j < |ms| && ms[j] == ms'[i];
    }
  }

  /** When the order of the matches does not matter to the loop as it is: exactly when there is at most
      one of them, or all are at the object size. */
  lemma {:induction false} SmartScanOrder(opts: PtrOptions, p: Address, ms: seq<TreeNode>)
    requires opts.smartScan
    requires forall i :: 0 <= i < |ms| ==> Gap(ms[i], p) <= opts.maxObjSz
    requires forall i, j :: 0 <= i < j < |ms| ==> ms[i] != ms[j]
    ensures (forall ms' :: multiset(ms') == multiset(ms) ==>
               multiset(Survivors(opts, p, ms')) == multiset(Survivors(opts, p, ms)))
            <==> |ms| <= 1 || AllAtGap(ms, p, opts.maxObjSz)
  {
    if AllAtGap(ms, p, opts.maxObjSz) {
      forall ms' | multiset(ms') == multiset(ms)
        ensures multiset(Survivors(opts, p, ms')) == multiset(Survivors(opts, p, ms))
      {
        SameGaps(ms, ms', p, opts.maxObjSz);
        AllKept(opts, p, ms);
        AllKept(opts, p, ms');
      }
    } else if |ms| > 1 {
      var i :| 0 <= i < |ms| && Gap(ms[i], p) < opts.maxObjSz;
      var rest := TakenOut(ms, i);
      NearMatchLast(opts, p, rest, ms[i]);
      NearMatchFirst(opts, p, rest, ms[i]);
      assert multiset(Survivors(opts, p, rest + [ms[i]])) != multiset(Survivors(opts, p, [ms[i]] + rest));
    } else {
      forall ms' | multiset(ms') == multiset(ms)
        ensures multiset(Survivors(opts, p, ms')) == multiset(Survivors(opts, p, ms))
      {
        OnlyOrder(ms, ms');
      }
    }
  }

  lemma {:induction false} OnlyOrder(ms: seq<TreeNode>, ms': seq<TreeNode>)
    requires |ms| <= 1 && multiset(ms') == multiset(ms)
    ensures ms' == ms
  {
    assert |ms'| == |multiset(ms')| == |ms|;
    if |ms| == 1 {
      assert ms'[0] in multiset(ms');
    }
  }

  // ----- what a call adds to the tree -----

  /** A node about to be added. */
  datatype Candidate = Candidate(ownAddr: Address, ptrAddr: Address, parent: TreeNode, areaNode: nat)

  /** A callable word: at a 64-bit address, of at most eight bytes. */
  predicate GoodCall(c: Call) {
    0 <= c.addr < TWO_TO_64 && |c.word| <= 8
  }

  function Pointer(c: Call): Address
    requires GoodCall(c)
  {
    WordValueBound(c.word);
    WordValue(c.word)
  }

  ghost function Candidates(c: Call, ms: seq<TreeNode>): (r: seq<Candidate>)
    requires GoodCall(c)
    ensures |r| == |ms|
  {
    seq(|ms|, i requires 0 <= i < |ms| => Candidate(c.addr, Pointer(c), ms[i], c.node))
  }

  /** What one call adds to level `depth`, the level before being `parents`. */
  ghost function Additions(opts: PtrOptions, depth: nat, c: Call, parents: seq<TreeNode>): seq<Candidate>
    requires 0 < depth && GoodCall(c)
  {
    Candidates(c, Survivors(opts, Pointer(c), Accepted(opts, depth, Pointer(c), parents)))
  }

  /** The nodes of a level as candidates. */
  ghost function Views(level: seq<TreeNode>): seq<Candidate>
    requires forall i :: 0 <= i < |level| ==> level[i].parent != null
  {
    seq(|level|, i requires 0 <= i < |level| =>
      Candidate(level[i].ownAddr, level[i].ptrAddr, level[i].parent, level[i].areaNode))
  }
}
