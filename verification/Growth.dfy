/** How a level grows out of the level before when several workers process their addresses in
    any interleaving, and what the level holds in the end. */
module Growth {
  import opened Target
  import opened PtrscanTree
  import opened ScanWorker
  import opened Matching

  ghost predicate GoodCalls(calls: seq<Call>) {
    forall i :: 0 <= i < |calls| ==> GoodCall(calls[i])
  }

  /** What a sequence of calls adds to level `depth`. */
  ghost function Grow(opts: PtrOptions, depth: nat, calls: seq<Call>, parents: seq<TreeNode>): seq<Candidate>
    requires 0 < depth && GoodCalls(calls)
  {
    if calls == [] then []
    else
      var n := |calls| - 1;
      Grow(opts, depth, calls[..n], parents) + Additions(opts, depth, calls[n], parents)
  }

  // ----- sums of multisets -----

  ghost function MSum<T, U>(s: seq<T>, f: T -> multiset<U>): multiset<U> {
    if s == [] then multiset{} else MSum(s[..|s| - 1], f) + f(s[|s| - 1])
  }

  lemma {:induction false} MSumConcat<T, U>(a: seq<T>, b: seq<T>, f: T -> multiset<U>)
    ensures MSum(a + b, f) == MSum(a, f) + MSum(b, f)
  {
    if b == [] {
      assert a + b == a;
    } else {
      var n := |b| - 1;
      assert (a + b)[..|a + b| - 1] == a + b[..n];
      MSumConcat(a, b[..n], f);
    }
  }

  lemma {:induction false} MSumRemove<T, U>(s: seq<T>, j: nat, f: T -> multiset<U>)
    requires j < |s|
    ensures MSum(s, f) == MSum(s[..j] + s[j + 1..], f) + f(s[j])
  {
    var n := |s| - 1;
    if j == n {
      assert s[..j] + s[j + 1..] == s[..n];
    } else {
      MSumRemove(s[..n], j, f);
      var rest := s[..n][..j] + s[..n][j + 1..];
      assert s[..j] + s[j + 1..] == rest + [s[n]];
      assert (rest + [s[n]])[..|rest|] == rest;
      Regroup(MSum(rest, f), f(s[j]), f(s[n]));
    }
  }

  lemma RemoveLeaves<T>(s: seq<T>, j: nat)
    requires j < |s|
    ensures multiset(s[..j] + s[j + 1..]) == multiset(s) - multiset{s[j]}
  {
    assert s == s[..j] + [s[j]] + s[j + 1..];
  }

  /** The sum does not depend on the order. */
  lemma {:induction false} MSumPermutation<T, U>(a: seq<T>, b: seq<T>, f: T -> multiset<U>)
    requires multiset(a) == multiset(b)
    ensures MSum(a, f) == MSum(b, f)
    decreases |a|
  {
    assert |multiset(a)| == |a| && |multiset(b)| == |b|;
    if a != [] {
      var n := |a| - 1;
      assert a[n] in multiset(b);
      var j :| 0 <= j < |b| && b[j] == a[n];
      RemoveLeaves(a, n);
      RemoveLeaves(b, j);
      assert a[..n] + a[n + 1..] == a[..n];
      MSumPermutation(a[..n], b[..j] + b[j + 1..], f);
      MSumRemove(b, j, f);
    }
  }

  lemma {:induction false} MSumSame<T, U>(s: seq<T>, f: T -> multiset<U>, g: T -> multiset<U>)
    requires forall i :: 0 <= i < |s| ==> f(s[i]) == g(s[i])
    ensures MSum(s, f) == MSum(s, g)
  {
    if s != [] {
      MSumSame(s[..|s| - 1], f, g);
    }
  }

  // ----- exactly one node per address and parent -----

  /** The calls that deliver `c.ptrAddr` at address `c.ownAddr` of area `c.areaNode`. */
  ghost function Deliveries(calls: seq<Call>, c: Candidate): nat
    requires GoodCalls(calls)
  {
    if calls == [] then 0
    else
      var n := |calls| - 1;
      Deliveries(calls[..n], c) + if Delivers(calls[n], c) then 1 else 0
  }

  ghost predicate Delivers(call: Call, c: Candidate)
    requires GoodCall(call)
  {
    call.addr == c.ownAddr && call.node == c.areaNode && Pointer(call) == c.ptrAddr
  }

  ghost predicate Distinct<T>(s: seq<T>) {
    forall i, j :: 0 <= i < j < |s| ==> s[i] != s[j]
  }

  lemma {:induction false} AcceptedOnce(opts: PtrOptions, depth: nat, p: Address, level: seq<TreeNode>, q: TreeNode)
    requires 0 < depth && Distinct(level)
    ensures multiset(Accepted(opts, depth, p, level))[q] ==
            if q in level && Accepts(opts, depth, q.ownAddr, p) then 1 else 0
  {
    if level != [] {
      var n := |level| - 1;
      AcceptedOnce(opts, depth, p, level[..n], q);
      assert level == level[..n] + [level[n]];
    }
  }

  lemma {:induction false} CandidatesOnce(call: Call, ms: seq<TreeNode>, c: Candidate)
    requires GoodCall(call)
    ensures multiset(Candidates(call, ms))[c] == if Delivers(call, c) then multiset(ms)[c.parent] else 0
  {
    if ms != [] {
      var n := |ms| - 1;
      CandidatesOnce(call, ms[..n], c);
      assert Candidates(call, ms) ==
             Candidates(call, ms[..n]) + [Candidate(call.addr, Pointer(call), ms[n], call.node)];
      assert ms == ms[..n] + [ms[n]];
    }
  }

  /** In a plain scan the level holds, for each parent, exactly one node for every call whose
      delivered pointer the parent accepts, and nothing else, in whatever order the calls came. */
  lemma {:induction false} LevelExact(opts: PtrOptions, depth: nat, calls: seq<Call>, parents: seq<TreeNode>,
                                      c: Candidate)
    requires 0 < depth && GoodCalls(calls) && Distinct(parents) && !opts.smartScan
    ensures multiset(Grow(opts, depth, calls, parents))[c] ==
            if c.parent in parents && Accepts(opts, depth, c.parent.ownAddr, c.ptrAddr) then Deliveries(calls, c) else 0
  {
    if calls != [] {
      var n := |calls| - 1;
      LevelExact(opts, depth, calls[..n], parents, c);
      var ms := Accepted(opts, depth, Pointer(calls[n]), parents);
      AcceptedOnce(opts, depth, Pointer(calls[n]), parents, c.parent);
      CandidatesOnce(calls[n], ms, c);
      assert Additions(opts, depth, calls[n], parents) == Candidates(calls[n], ms);
    }
  }

  /** With no two calls at one address, there is at most one node per address and parent. */
  lemma {:induction false} DeliveredOnce(calls: seq<Call>, c: Candidate)
    requires GoodCalls(calls)
    requires forall i, j :: 0 <= i < j < |calls| ==> calls[i].addr != calls[j].addr
    ensures Deliveries(calls, c) == if exists i :: 0 <= i < |calls| && Delivers(calls[i], c) then 1 else 0
  {
    if calls != [] {
      var n := |calls| - 1;
      DeliveredOnce(calls[..n], c);
      if Delivers(calls[n], c) {
        assert forall i :: 0 <= i < n ==> !Delivers(calls[..n][i], c);
      } else if exists i :: 0 <= i < |calls| && Delivers(calls[i], c) {
        var i :| 0 <= i < |calls| && Delivers(calls[i], c);
        assert Delivers(calls[..n][i], c);
      }
    }
  }

  // ----- interleaving -----

  /** How often worker `w` has its turn. */
  function Turns(schedule: seq<nat>, w: nat): nat {
    if schedule == [] then 0
    else Turns(schedule[..|schedule| - 1], w) + if schedule[|schedule| - 1] == w then 1 else 0
  }

  /** Every worker makes all its calls and there are no other turns. */
  ghost predicate CompleteSchedule(schedule: seq<nat>, calls: seq<seq<Call>>) {
    && (forall i :: 0 <= i < |schedule| ==> schedule[i] < |calls|)
    && forall w :: 0 <= w < |calls| ==> Turns(schedule, w) == |calls[w]|
  }

  /** No worker has more turns than calls. */
  ghost predicate TurnsFit(calls: seq<seq<Call>>, schedule: seq<nat>) {
    forall w :: 0 <= w < |calls| ==> Turns(schedule, w) <= |calls[w]|
  }

  /** The calls in the order of the schedule, each worker's own calls staying in order. */
  ghost function Interleave(calls: seq<seq<Call>>, schedule: seq<nat>): (merged: seq<Call>)
    requires forall i :: 0 <= i < |schedule| ==> schedule[i] < |calls|
    requires TurnsFit(calls, schedule)
    ensures |merged| == |schedule|
  {
    if schedule == [] then []
    else
      var n := |schedule| - 1;
      var w := schedule[n];
      TurnsGrow(calls, schedule);
      Interleave(calls, schedule[..n]) + [calls[w][Turns(schedule[..n], w)]]
  }

  lemma {:induction false} TurnsExactly(schedule: seq<nat>, w: nat)
    ensures Turns(schedule, w) == multiset(schedule)[w]
  {
    if schedule != [] {
      TurnsExactly(schedule[..|schedule| - 1], w);
      CountLast(schedule, w);
    }
  }

  /** The call made in turn `i` is the next one of the worker whose turn it is, after as many as it has had
      turns before. */
  lemma {:induction false} InterleaveExactly(calls: seq<seq<Call>>, schedule: seq<nat>, i: nat)
    requires i < |schedule| && forall k :: 0 <= k < |schedule| ==> schedule[k] < |calls|
    requires TurnsFit(calls, schedule)
    ensures var w := schedule[i];
            var turn := multiset(schedule[..i])[w];
            turn < |calls[w]| && Interleave(calls, schedule)[i] == calls[w][turn]
    decreases |schedule|
  {
    var n := |schedule| - 1;
    TurnsGrow(calls, schedule);
    if i < n {
      InterleaveExactly(calls, schedule[..n], i);
      assert schedule[..n][..i] == schedule[..i];
    } else {
      TurnsExactly(schedule[..n], schedule[n]);
    }
  }

  /** The calls of all workers made so far. */
  ghost function CallsSoFar(calls: seq<seq<Call>>, schedule: seq<nat>): multiset<Call>
    requires TurnsFit(calls, schedule)
  {
    if calls == [] then multiset{}
    else
      var n := |calls| - 1;
      CallsSoFar(calls[..n], schedule) + multiset(calls[n][..Turns(schedule, n)])
  }

  lemma {:induction false} CallsSoFarNone(calls: seq<seq<Call>>)
    ensures CallsSoFar(calls, []) == multiset{}
  {
    if calls != [] {
      CallsSoFarNone(calls[..|calls| - 1]);
    }
  }

  lemma TurnsGrow(calls: seq<seq<Call>>, schedule: seq<nat>)
    requires schedule != [] && TurnsFit(calls, schedule)
    ensures TurnsFit(calls, schedule[..|schedule| - 1])
  {
    forall v | 0 <= v < |calls|
      ensures Turns(schedule[..|schedule| - 1], v) <= |calls[v]|
    {
      assert Turns(schedule[..|schedule| - 1], v) <= Turns(schedule, v);
    }
  }

  lemma TakeMore<T>(s: seq<T>, t: nat)
    requires t < |s|
    ensures multiset(s[..t + 1]) == multiset(s[..t]) + multiset{s[t]}
  {
    assert s[..t + 1] == s[..t] + [s[t]];
  }

  /** The calls of the last worker, when it is the one whose turn it was. */
  lemma {:induction false} OwnTurn(calls: seq<seq<Call>>, schedule: seq<nat>)
    requires calls != [] && schedule != [] && TurnsFit(calls, schedule) && TurnsFit(calls, schedule[..|schedule| - 1])
    requires schedule[|schedule| - 1] == |calls| - 1
    ensures var before := schedule[..|schedule| - 1];
            var k := |calls| - 1;
            var t := Turns(before, k);
            && t < |calls[k]|
            && multiset(calls[k][..Turns(schedule, k)]) == multiset(calls[k][..t]) + multiset{calls[k][t]}
  {
    var k := |calls| - 1;
    assert Turns(schedule, k) <= |calls[k]|;
    TakeMore(calls[k], Turns(schedule[..|schedule| - 1], k));
  }

  lemma {:induction false} CallsSoFarStep(calls: seq<seq<Call>>, schedule: seq<nat>)
    requires schedule != [] && TurnsFit(calls, schedule) && TurnsFit(calls, schedule[..|schedule| - 1])
    ensures var n := |schedule| - 1;
            var w := schedule[n];
            && (|calls| <= w ==> CallsSoFar(calls, schedule) == CallsSoFar(calls, schedule[..n]))
            && (w < |calls| ==>
                  CallsSoFar(calls, schedule) ==
                  CallsSoFar(calls, schedule[..n]) + multiset{calls[w][Turns(schedule[..n], w)]})
  {
    var n := |schedule| - 1;
    var w := schedule[n];
    if calls != [] {
      var k := |calls| - 1;
      CallsSoFarStep(calls[..k], schedule);
      var was := multiset(calls[k][..Turns(schedule[..n], k)]);
      if w == k {
        OwnTurn(calls, schedule);
        Regroup(CallsSoFar(calls[..k], schedule[..n]), was, multiset{calls[k][Turns(schedule[..n], k)]});
      } else if w < k {
        Regroup(CallsSoFar(calls[..k], schedule[..n]), was, multiset{calls[w][Turns(schedule[..n], w)]});
      }
    }
  }

  lemma Regroup<T>(a: multiset<T>, b: multiset<T>, c: multiset<T>)
    ensures a + (b + c) == a + b + c
    ensures a + c + b == a + b + c
  {
  }

  lemma {:induction false} InterleaveSoFar(calls: seq<seq<Call>>, schedule: seq<nat>)
    requires forall i :: 0 <= i < |schedule| ==> schedule[i] < |calls|
    requires TurnsFit(calls, schedule)
    ensures multiset(Interleave(calls, schedule)) == CallsSoFar(calls, schedule)
  {
    if schedule == [] {
      CallsSoFarNone(calls);
    } else {
      TurnsGrow(calls, schedule);
      CallsSoFarStep(calls, schedule);
      InterleaveSoFar(calls, schedule[..|schedule| - 1]);
    }
  }

  function Flatten<T>(ss: seq<seq<T>>): seq<T> {
    if ss == [] then [] else Flatten(ss[..|ss| - 1]) + ss[|ss| - 1]
  }

  lemma {:induction false} CallsSoFarAll(calls: seq<seq<Call>>, schedule: seq<nat>)
    requires forall w :: 0 <= w < |calls| ==> Turns(schedule, w) == |calls[w]|
    ensures CallsSoFar(calls, schedule) == multiset(Flatten(calls))
  {
    if calls != [] {
      var n := |calls| - 1;
      CallsSoFarAll(calls[..n], schedule);
      assert calls[n][..|calls[n]|] == calls[n];
    }
  }

  /** Whatever the schedule, the merged calls are the workers' calls, each made once. */
  lemma {:induction false} InterleaveIsPermutation(calls: seq<seq<Call>>, schedule: seq<nat>)
    requires CompleteSchedule(schedule, calls)
    ensures multiset(Interleave(calls, schedule)) == multiset(Flatten(calls))
  {
    InterleaveSoFar(calls, schedule);
    CallsSoFarAll(calls, schedule);
  }
}
