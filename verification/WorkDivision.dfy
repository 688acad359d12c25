/** Division of the scan areas between workers: an insertion sort by descending size, then
    each area to the worker with the least to do. */
module WorkDivision {
  import opened Target

  /** A sort entry: an area node and its size. */
  datatype Entry = Entry(size: nat, node: nat)

  // ----- sums -----

  function Sum(s: seq<nat>): nat {
    if s == [] then 0 else Sum(s[..|s| - 1]) + s[|s| - 1]
  }

  function Sizes(entries: seq<Entry>): seq<nat> {
    seq(|entries|, i requires 0 <= i < |entries| => entries[i].size)
  }

  /** What every one of `m` workers has to do when job `i`, of size `sizes[i]`, goes to worker
      `who[i]`. */
  function Loads(sizes: seq<nat>, who: seq<nat>, m: nat): (loads: seq<nat>)
    requires Assignment(who, |sizes|, m)
    ensures |loads| == m
  {
    if sizes == [] then seq(m, _ => 0)
    else
      var n := |sizes| - 1;
      var before := Loads(sizes[..n], who[..n], m);
      before[who[n] := before[who[n]] + sizes[n]]
  }

  predicate Assignment(who: seq<nat>, n: nat, m: nat) {
    |who| == n && forall i :: 0 <= i < n ==> who[i] < m
  }

  /** Nothing in `s` is below position `k`. */
  predicate IsLeast(s: seq<nat>, k: nat) {
    k < |s| && forall j :: 0 <= j < |s| ==> s[k] <= s[j]
  }

  /** `k` is the first position of the least element. */
  predicate IsFirstLeast(s: seq<nat>, k: nat) {
    IsLeast(s, k) && forall j :: 0 <= j < k ==> s[k] < s[j]
  }

  /** Every job went, when its turn came, to the first of the least loaded workers. */
  predicate ListScheduled(sizes: seq<nat>, who: seq<nat>, m: nat)
    requires Assignment(who, |sizes|, m)
  {
    sizes == [] ||
    var n := |sizes| - 1;
    && ListScheduled(sizes[..n], who[..n], m)
    && IsFirstLeast(Loads(sizes[..n], who[..n], m), who[n])
  }

  /** No load is above `best`. */
  predicate Within(loads: seq<nat>, best: nat) {
    forall w :: 0 <= w < |loads| ==> loads[w] <= best
  }

  /** Every load is above `floor`. */
  predicate Above(loads: seq<nat>, floor: int) {
    forall w :: 0 <= w < |loads| ==> floor < loads[w]
  }

  predicate Descending(s: seq<nat>) {
    forall i, j :: 0 <= i <= j < |s| ==> s[i] >= s[j]
  }

  /** The areas of every one of `m` workers, in the order they were assigned. */
  function SetsOf(entries: seq<Entry>, who: seq<nat>, m: nat): (sets: seq<seq<nat>>)
    requires Assignment(who, |entries|, m)
    ensures |sets| == m
  {
    if entries == [] then seq(m, _ => [])
    else
      var n := |entries| - 1;
      var before := SetsOf(entries[..n], who[..n], m);
      before[who[n] := before[who[n]] + [entries[n].node]]
  }

  // ----- properties of sums and loads -----

  lemma {:induction false} SumZeros(m: nat)
    ensures Sum(seq(m, _ => 0)) == 0
  {
    if m != 0 {
      assert seq(m, _ => 0)[..m - 1] == seq(m - 1, _ => 0);
      SumZeros(m - 1);
    }
  }

  lemma {:induction false} SumUpdate(s: seq<nat>, k: nat, v: nat)
    requires k < |s|
    ensures Sum(s[k := v]) == Sum(s) - s[k] + v
  {
    var n := |s| - 1;
    if k == n {
      assert s[k := v][..n] == s[..n];
    } else {
      assert s[k := v][..n] == s[..n][k := v];
      SumUpdate(s[..n], k, v);
    }
  }

  /** What all workers have to do is what there is to do. */
  lemma {:induction false} LoadsTotal(sizes: seq<nat>, who: seq<nat>, m: nat)
    requires Assignment(who, |sizes|, m)
    ensures Sum(Loads(sizes, who, m)) == Sum(sizes)
  {
    if sizes == [] {
      SumZeros(m);
    } else {
      var n := |sizes| - 1;
      LoadsTotal(sizes[..n], who[..n], m);
      var before := Loads(sizes[..n], who[..n], m);
      SumUpdate(before, who[n], before[who[n]] + sizes[n]);
    }
  }

  lemma {:induction false} LeastIsBelowAverage(s: seq<nat>, lo: nat)
    requires forall j :: 0 <= j < |s| ==> lo <= s[j]
    ensures |s| * lo <= Sum(s)
  {
    if s != [] {
      LeastIsBelowAverage(s[..|s| - 1], lo);
      assert |s| * lo == (|s| - 1) * lo + lo;
    }
  }

  lemma {:induction false} SumAtMost(s: seq<nat>, hi: nat)
    requires forall j :: 0 <= j < |s| ==> s[j] <= hi
    ensures Sum(s) <= |s| * hi
  {
    if s != [] {
      SumAtMost(s[..|s| - 1], hi);
      assert |s| * hi == (|s| - 1) * hi + hi;
    }
  }

  lemma {:induction false} PrefixLoads(sizes: seq<nat>, who: seq<nat>, m: nat, w: nat)
    requires sizes != [] && Assignment(who, |sizes|, m) && w < m
    ensures var n := |sizes| - 1;
            Loads(sizes[..n], who[..n], m)[w] <= Loads(sizes, who, m)[w]
  {
  }

  // ----- any list schedule is within 2 - 1/m of any other division -----

  lemma MulMono(a: nat, x: int, y: int)
    requires x <= y
    ensures a * x <= a * y
  {
    assert 0 <= a * (y - x);
  }

  lemma Distribute(a: int, x: int, y: int)
    ensures a * (x + y) == a * x + a * y
    ensures (x + y) * a == x * a + y * a
  {
  }

  lemma StepBound(m: nat, least: nat, total: nat, last: nat, rival: nat)
    requires 0 < m && m * least <= total && total + last <= m * rival
    ensures m * (least + last) <= m * rival + (m - 1) * last
  {
    Distribute(m, least, last);
    Distribute(last, m, -1);
  }

  /** The least loaded worker has at most the average of what has been given out, and all together
      is at most what the rival gives out. */
  lemma {:induction false} AverageFacts(sizes: seq<nat>, who: seq<nat>, rival: seq<nat>, m: nat, best: nat)
    requires sizes != [] && 0 < m
    requires Assignment(who, |sizes|, m) && ListScheduled(sizes, who, m)
    requires Assignment(rival, |sizes|, m)
    requires Within(Loads(sizes, rival, m), best)
    ensures var n := |sizes| - 1;
            && m * Loads(sizes[..n], who[..n], m)[who[n]] <= Sum(sizes[..n])
            && Sum(sizes[..n]) + sizes[n] <= m * best
  {
    var n := |sizes| - 1;
    var before := Loads(sizes[..n], who[..n], m);
    LeastIsBelowAverage(before, before[who[n]]);
    LoadsTotal(sizes[..n], who[..n], m);
    LoadsTotal(sizes, rival, m);
    SumAtMost(Loads(sizes, rival, m), best);
  }

  /** The invariants of a step of the division, against any rival whose loads are at most
      `best`: the least loaded worker has at most the average. */
  lemma {:induction false} StepAverage(sizes: seq<nat>, who: seq<nat>, rival: seq<nat>, m: nat, best: nat)
    requires sizes != [] && 0 < m
    requires Assignment(who, |sizes|, m) && ListScheduled(sizes, who, m)
    requires Assignment(rival, |sizes|, m)
    requires Within(Loads(sizes, rival, m), best)
    ensures var n := |sizes| - 1;
            var least := Loads(sizes[..n], who[..n], m)[who[n]];
            m * (least + sizes[n]) <= m * best + (m - 1) * sizes[n]
    ensures sizes[|sizes| - 1] <= best
  {
    var n := |sizes| - 1;
    AverageFacts(sizes, who, rival, m, best);
    StepBound(m, Loads(sizes[..n], who[..n], m)[who[n]], Sum(sizes[..n]), sizes[n], best);
    LastFits(sizes, rival, m, best);
  }

  lemma {:induction false} LastFits(sizes: seq<nat>, rival: seq<nat>, m: nat, best: nat)
    requires sizes != [] && Assignment(rival, |sizes|, m) && Within(Loads(sizes, rival, m), best)
    ensures sizes[|sizes| - 1] <= best
  {
    assert sizes[|sizes| - 1] <= Loads(sizes, rival, m)[rival[|sizes| - 1]];
  }

  lemma {:induction false} RivalPrefix(sizes: seq<nat>, rival: seq<nat>, m: nat, best: nat)
    requires sizes != [] && Assignment(rival, |sizes|, m)
    requires Within(Loads(sizes, rival, m), best)
    ensures Within(Loads(sizes[..|sizes| - 1], rival[..|sizes| - 1], m), best)
  {
    var before := Loads(sizes[..|sizes| - 1], rival[..|sizes| - 1], m);
    forall w | 0 <= w < m
      ensures before[w] <= best
    {
      PrefixLoads(sizes, rival, m, w);
    }
  }

  lemma BoundStep(m: nat, least: nat, last: nat, best: nat)
    requires 0 < m && last <= best && m * (least + last) <= m * best + (m - 1) * last
    ensures m * (least + last) <= (2 * m - 1) * best
  {
    MulMono(m - 1, last, best);
    Distribute(best, m, m - 1);
  }

  lemma {:induction false} BoundKept(sizes: seq<nat>, who: seq<nat>, rival: seq<nat>, m: nat, best: nat, w: nat)
    requires sizes != [] && 0 < m && w < m
    requires Assignment(who, |sizes|, m) && ListScheduled(sizes, who, m)
    requires Assignment(rival, |sizes|, m)
    requires Within(Loads(sizes, rival, m), best)
    requires m * Loads(sizes[..|sizes| - 1], who[..|sizes| - 1], m)[w] <= (2 * m - 1) * best
    ensures m * Loads(sizes, who, m)[w] <= (2 * m - 1) * best
  {
    var n := |sizes| - 1;
    if w == who[n] {
      StepAverage(sizes, who, rival, m, best);
      BoundStep(m, Loads(sizes[..n], who[..n], m)[w], sizes[n], best);
      assert Loads(sizes, who, m)[w] == Loads(sizes[..n], who[..n], m)[w] + sizes[n];
    } else {
      assert Loads(sizes, who, m)[w] == Loads(sizes[..n], who[..n], m)[w];
    }
  }

  /** A list schedule in any order is within (2m - 1)/m of every rival division. */
  lemma {:induction false} ListSchedulingBound(sizes: seq<nat>, who: seq<nat>, rival: seq<nat>, m: nat, best: nat,
                                               w: nat)
    requires 0 < m && w < m
    requires Assignment(who, |sizes|, m) && ListScheduled(sizes, who, m)
    requires Assignment(rival, |sizes|, m)
    requires Within(Loads(sizes, rival, m), best)
    ensures m * Loads(sizes, who, m)[w] <= (2 * m - 1) * best
  {
    if sizes == [] {
      assert m * Loads(sizes, who, m)[w] == 0;
    } else {
      var n := |sizes| - 1;
      RivalPrefix(sizes, rival, m, best);
      ListSchedulingBound(sizes[..n], who[..n], rival[..n], m, best, w);
      BoundKept(sizes, who, rival, m, best, w);
    }
  }

  /** No two workers of a list schedule differ by more than the largest area. */
  lemma {:induction false} LoadsAreClose(sizes: seq<nat>, who: seq<nat>, m: nat, v: nat, w: nat, largest: nat)
    requires v < m && w < m
    requires Assignment(who, |sizes|, m) && ListScheduled(sizes, who, m)
    requires forall i :: 0 <= i < |sizes| ==> sizes[i] <= largest
    ensures Loads(sizes, who, m)[v] <= Loads(sizes, who, m)[w] + largest
  {
    if sizes != [] {
      var n := |sizes| - 1;
      LoadsAreClose(sizes[..n], who[..n], m, v, w, largest);
    }
  }

  // ----- in descending order the schedule is within 4/3 - 1/(3m) -----

  function Ones(n: nat): seq<nat> {
    seq(n, _ => 1)
  }

  /** How many jobs every worker has. */
  function Counts(who: seq<nat>, m: nat): (counts: seq<nat>)
    requires Assignment(who, |who|, m)
    ensures |counts| == m
  {
    Loads(Ones(|who|), who, m)
  }

  lemma CountsStep(who: seq<nat>, m: nat)
    requires who != [] && Assignment(who, |who|, m)
    ensures var n := |who| - 1;
            Counts(who, m) == Counts(who[..n], m)[who[n] := Counts(who[..n], m)[who[n]] + 1]
  {
    assert Ones(|who|)[..|who| - 1] == Ones(|who| - 1);
  }

  lemma {:induction false} SumOnes(n: nat)
    ensures Sum(Ones(n)) == n
  {
    if n != 0 {
      assert Ones(n)[..n - 1] == Ones(n - 1);
      SumOnes(n - 1);
    }
  }

  lemma CountsTotal(who: seq<nat>, m: nat)
    requires Assignment(who, |who|, m)
    ensures Sum(Counts(who, m)) == |who|
  {
    LoadsTotal(Ones(|who|), who, m);
    SumOnes(|who|);
  }

  /** `c` jobs of size at least `s` make a load of at least `c * s`. */
  lemma {:induction false} LoadAtLeast(sizes: seq<nat>, who: seq<nat>, m: nat, w: nat, s: nat)
    requires Assignment(who, |sizes|, m) && w < m
    requires forall i :: 0 <= i < |sizes| ==> s <= sizes[i]
    ensures Counts(who, m)[w] * s <= Loads(sizes, who, m)[w]
  {
    if sizes != [] {
      var n := |sizes| - 1;
      LoadAtLeast(sizes[..n], who[..n], m, w, s);
      CountsStep(who, m);
      Distribute(s, Counts(who[..n], m)[w], 1);
    }
  }

  /** The worker of job `j` carries it, and a job of size `s` more if it has two jobs. */
  lemma {:induction false} LoadWithJob(sizes: seq<nat>, who: seq<nat>, m: nat, j: nat, s: nat)
    requires Assignment(who, |sizes|, m) && j < |sizes|
    requires forall i :: 0 <= i < |sizes| ==> s <= sizes[i]
    ensures 1 <= Counts(who, m)[who[j]]
    ensures sizes[j] <= Loads(sizes, who, m)[who[j]]
    ensures 2 <= Counts(who, m)[who[j]] ==> sizes[j] + s <= Loads(sizes, who, m)[who[j]]
  {
    var n := |sizes| - 1;
    CountsStep(who, m);
    if j == n {
      LoadAtLeast(sizes[..n], who[..n], m, who[j], s);
      if 1 <= Counts(who[..n], m)[who[j]] {
        MulMono(s, 1, Counts(who[..n], m)[who[j]]);
      }
    } else {
      LoadWithJob(sizes[..n], who[..n], m, j, s);
    }
  }

  /** Two jobs of one worker count as two. */
  lemma {:induction false} TwoJobs(who: seq<nat>, m: nat, i: nat, j: nat)
    requires Assignment(who, |who|, m) && i < j < |who| && who[i] == who[j]
    ensures 2 <= Counts(who, m)[who[i]]
  {
    var n := |who| - 1;
    CountsStep(who, m);
    if j == n {
      LoadWithJob(Ones(n), who[..n], m, i, 0);
    } else {
      TwoJobs(who[..n], m, i, j);
    }
  }

  /** A worker with one job has the load of that job. */
  lemma {:induction false} SingleJob(sizes: seq<nat>, who: seq<nat>, m: nat, w: nat) returns (j: nat)
    requires Assignment(who, |sizes|, m) && w < m && Counts(who, m)[w] == 1
    ensures j < |sizes| && who[j] == w && Loads(sizes, who, m)[w] == sizes[j]
  {
    var n := |sizes| - 1;
    CountsStep(who, m);
    if who[n] == w {
      NoJob(sizes[..n], who[..n], m, w);
      j := n;
    } else {
      j := SingleJob(sizes[..n], who[..n], m, w);
    }
  }

  lemma {:induction false} NoJob(sizes: seq<nat>, who: seq<nat>, m: nat, w: nat)
    requires Assignment(who, |sizes|, m) && w < m && Counts(who, m)[w] == 0
    ensures Loads(sizes, who, m)[w] == 0
  {
    if sizes != [] {
      var n := |sizes| - 1;
      CountsStep(who, m);
      NoJob(sizes[..n], who[..n], m, w);
    }
  }

  /** The workers with exactly one job. */
  function Singles(counts: seq<nat>): set<nat> {
    set w | 0 <= w < |counts| && counts[w] == 1
  }

  lemma {:induction false} SumWithSingles(counts: seq<nat>)
    ensures (forall w :: 0 <= w < |counts| ==> 1 <= counts[w]) ==> 2 * |counts| <= Sum(counts) + |Singles(counts)|
    ensures (forall w :: 0 <= w < |counts| ==> counts[w] <= 2) ==> Sum(counts) + |Singles(counts)| <= 2 * |counts|
  {
    if counts != [] {
      var n := |counts| - 1;
      SumWithSingles(counts[..n]);
      assert Singles(counts) == Singles(counts[..n]) + if counts[n] == 1 then {n} else {};
    }
  }

  lemma {:induction false} InjectionCardinality(a: set<nat>, b: set<nat>, f: map<nat, nat>)
    requires forall x :: x in a ==> x in f && f[x] in b
    requires forall x, y :: x in a && y in a && x != y ==> f[x] != f[y]
    ensures |a| <= |b|
  {
    if a != {} {
      var x :| x in a;
      InjectionCardinality(a - {x}, b - {f[x]}, f);
    }
  }

  /** The only case where the average does not decide: the last job is over a third of the
      rival's largest load, so no rival worker has three jobs. If the last job did not fit
      under that load, every worker's load would be above `best - s`. */
  ghost predicate Tight(sizes: seq<nat>, who: seq<nat>, rival: seq<nat>, m: nat, best: nat)
    requires Assignment(who, |sizes|, m)
  {
    && sizes != [] && Descending(sizes)
    && Assignment(rival, |sizes|, m) && Within(Loads(sizes, rival, m), best)
    && best < 3 * sizes[|sizes| - 1]
    && Above(Loads(sizes[..|sizes| - 1], who[..|sizes| - 1], m), best - sizes[|sizes| - 1])
  }

  /** A job alone on its worker in the schedule is alone on its rival worker too. */
  lemma SingleStaysSingle(sizes: seq<nat>, who: seq<nat>, rival: seq<nat>, m: nat, best: nat, w: nat) returns (j: nat)
    requires Assignment(who, |sizes|, m) && Tight(sizes, who, rival, m, best)
    requires w in Singles(Counts(who[..|sizes| - 1], m))
    ensures j < |sizes| && who[j] == w && rival[j] in Singles(Counts(rival, m))
  {
    var n := |sizes| - 1;
    j := SingleJob(sizes[..n], who[..n], m, w);
    LoadWithJob(sizes, rival, m, j, sizes[n]);
  }

  lemma SinglesInject(sizes: seq<nat>, who: seq<nat>, rival: seq<nat>, m: nat, best: nat)
    requires Assignment(who, |sizes|, m) && Tight(sizes, who, rival, m, best)
    ensures |Singles(Counts(who[..|sizes| - 1], m))| <= |Singles(Counts(rival, m))|
  {
    var mine := Singles(Counts(who[..|sizes| - 1], m));
    var f: map<nat, nat> := map[];
    var job: map<nat, nat> := map[];
    var todo := mine;
    while todo != {}
      invariant todo <= mine && f.Keys == job.Keys == mine - todo
      invariant forall w :: w in job ==> job[w] < |sizes| && who[job[w]] == w && f[w] == rival[job[w]]
      invariant forall w :: w in f ==> f[w] in Singles(Counts(rival, m))
    {
      var w :| w in todo;
      var j := SingleStaysSingle(sizes, who, rival, m, best, w);
      f, job, todo := f[w := rival[j]], job[w := j], todo - {w};
    }
    forall v, w | v in mine && w in mine && v != w
      ensures f[v] != f[w]
    {
      if f[v] == f[w] {
        TwoJobs(rival, m, if job[v] < job[w] then job[v] else job[w], if job[v] < job[w] then job[w] else job[v]);
      }
    }
    InjectionCardinality(mine, Singles(Counts(rival, m)), f);
  }

  /** Counting jobs shows that the tight case does not arise: the schedule would have placed at
      least `2m - k` jobs before the last, and the rival has room for `2m - k` in all. */
  lemma NeverTight(sizes: seq<nat>, who: seq<nat>, rival: seq<nat>, m: nat, best: nat)
    requires Assignment(who, |sizes|, m)
    ensures !Tight(sizes, who, rival, m, best)
  {
    if Tight(sizes, who, rival, m, best) {
      var n := |sizes| - 1;
      var mine, theirs := Counts(who[..n], m), Counts(rival, m);
      LoadWithJob(sizes, rival, m, n, 0);
      forall w | 0 <= w < m
        ensures 1 <= mine[w]
      {
        if mine[w] == 0 {
          NoJob(sizes[..n], who[..n], m, w);
        }
      }
      forall w | 0 <= w < m
        ensures theirs[w] <= 2
      {
        LoadAtLeast(sizes, rival, m, w, sizes[n]);
        if 3 <= theirs[w] {
          MulMono(sizes[n], 3, theirs[w]);
        }
      }
      SumWithSingles(mine);
      SumWithSingles(theirs);
      CountsTotal(who[..n], m);
      CountsTotal(rival, m);
      SinglesInject(sizes, who, rival, m, best);
      assert false;
    }
  }

  /** In descending order the largest load is within (4m - 1)/(3m) of every rival division. */
  lemma {:induction false} DescendingBound(sizes: seq<nat>, who: seq<nat>, rival: seq<nat>, m: nat, best: nat, w: nat)
    requires 0 < m && w < m && Descending(sizes)
    requires Assignment(who, |sizes|, m) && ListScheduled(sizes, who, m)
    requires Assignment(rival, |sizes|, m) && Within(Loads(sizes, rival, m), best)
    ensures 3 * m * Loads(sizes, who, m)[w] <= (4 * m - 1) * best
  {
    if sizes == [] {
      assert 3 * m * Loads(sizes, who, m)[w] == 0;
    } else {
      var n := |sizes| - 1;
      RivalPrefix(sizes, rival, m, best);
      DescendingBound(sizes[..n], who[..n], rival[..n], m, best, w);
      if w == who[n] {
        LastJobBound(sizes, who, rival, m, best);
      } else {
        assert Loads(sizes, who, m)[w] == Loads(sizes[..n], who[..n], m)[w];
      }
    }
  }

  lemma {:induction false} LastJobBound(sizes: seq<nat>, who: seq<nat>, rival: seq<nat>, m: nat, best: nat)
    requires 0 < m && sizes != [] && Descending(sizes)
    requires Assignment(who, |sizes|, m) && ListScheduled(sizes, who, m)
    requires Assignment(rival, |sizes|, m) && Within(Loads(sizes, rival, m), best)
    ensures 3 * m * Loads(sizes, who, m)[who[|sizes| - 1]] <= (4 * m - 1) * best
  {
    var n := |sizes| - 1;
    var before := Loads(sizes[..n], who[..n], m);
    var load := before[who[n]] + sizes[n];
    if 3 * sizes[n] <= best {
      StepAverage(sizes, who, rival, m, best);
      ThirdBound(m, load, sizes[n], best);
    } else {
      if best < load {
        NeverTight(sizes, who, rival, m, best);
      }
      FitBound(m, load, best);
    }
  }

  lemma ThirdBound(m: nat, load: nat, last: nat, best: nat)
    requires 0 < m && m * load <= m * best + (m - 1) * last && 3 * last <= best
    ensures 3 * m * load <= (4 * m - 1) * best
  {
    MulMono(m - 1, 3 * last, best);
    assert (m - 1) * (3 * last) == 3 * ((m - 1) * last);
    assert 3 * m * load == 3 * (m * load);
    Distribute(best, 3 * m, m - 1);
    assert 3 * m * best == 3 * (m * best);
  }

  lemma FitBound(m: nat, load: nat, best: nat)
    requires 0 < m && load <= best
    ensures 3 * m * load <= (4 * m - 1) * best
  {
    MulMono(3 * m, load, best);
    MulMono(best, 3 * m, 4 * m - 1);
  }

  // ----- the worker pool -----

  predicate SortedBySize(entries: seq<Entry>) {
    Descending(Sizes(entries))
  }

  /** Inserting an entry below all larger ones and above all others keeps the order. */
  lemma InsertSorted(entries: seq<Entry>, i: nat, entry: Entry)
    requires SortedBySize(entries) && i <= |entries|
    requires forall j :: 0 <= j < i ==> entry.size < entries[j].size
    requires i < |entries| ==> entries[i].size <= entry.size
    ensures SortedBySize(entries[..i] + [entry] + entries[i..])
  {
    var sizes, now := Sizes(entries), entries[..i] + [entry] + entries[i..];
    assert Sizes(now) == sizes[..i] + [entry.size] + sizes[i..];
    assert forall j :: i <= j < |sizes| ==> sizes[j] <= sizes[i];
    assert forall j :: 0 <= j < i ==> entry.size < sizes[j];
  }

  function EntryOf(vmap: VmMap, node: nat): Entry
    requires node < |vmap.areas| && 0 <= vmap.areas[node].Size()
  {
    Entry(vmap.areas[node].Size(), node)
  }

  ghost predicate NodesInMap(vmap: VmMap, nodes: set<nat>) {
    forall n :: n in nodes ==> n < |vmap.areas| && 0 <= vmap.areas[n].Size()
  }

  function NodesIn(entries: seq<Entry>): seq<nat> {
    seq(|entries|, i requires 0 <= i < |entries| => entries[i].node)
  }

  /** `entries` lists exactly the areas of `nodes`, each once, with its size. */
  ghost predicate ListsOnce(vmap: VmMap, entries: seq<Entry>, nodes: set<nat>)
    requires NodesInMap(vmap, nodes)
  {
    && multiset(NodesIn(entries)) == multiset(nodes)
    && forall i :: 0 <= i < |entries| ==> entries[i].node in nodes && entries[i] == EntryOf(vmap, entries[i].node)
  }

  lemma FirstListed(vmap: VmMap, node: nat)
    requires NodesInMap(vmap, {node})
    ensures ListsOnce(vmap, [EntryOf(vmap, node)], {node})
  {
    InsertLists(vmap, [], 0, {}, node);
    assert [] + [EntryOf(vmap, node)] + [] == [EntryOf(vmap, node)] && {} + {node} == {node};
  }

  lemma InsertLists(vmap: VmMap, was: seq<Entry>, i: nat, nodes: set<nat>, node: nat)
    requires NodesInMap(vmap, nodes + {node}) && node !in nodes && i <= |was|
    requires ListsOnce(vmap, was, nodes)
    ensures ListsOnce(vmap, was[..i] + [EntryOf(vmap, node)] + was[i..], nodes + {node})
  {
    var now := was[..i] + [EntryOf(vmap, node)] + was[i..];
    assert NodesIn(now) == NodesIn(was[..i]) + [node] + NodesIn(was[i..]);
    assert NodesIn(was) == NodesIn(was[..i]) + NodesIn(was[i..]);
    assert multiset(nodes + {node}) == multiset(nodes) + multiset{node};
  }

  /** `sets` and `sums` are the areas and the total size of every one of `m` workers when entry
      `i` is assigned to worker `who[i]` by list scheduling. */
  ghost predicate Divides(entries: seq<Entry>, who: seq<nat>, m: nat, sets: seq<seq<nat>>, sums: seq<nat>) {
    && Assignment(who, |entries|, m) && ListScheduled(Sizes(entries), who, m)
    && sums == Loads(Sizes(entries), who, m)
    && sets == SetsOf(entries, who, m)
  }

  lemma EntriesStep(entries: seq<Entry>)
    requires entries != []
    ensures var n := |entries| - 1;
            && Sizes(entries)[..n] == Sizes(entries[..n]) && |Sizes(entries)| == n + 1
            && Sizes(entries)[n] == entries[n].size
            && NodesIn(entries) == NodesIn(entries[..n]) + [entries[n].node]
  {
  }

  lemma DividesStep(entries: seq<Entry>, who: seq<nat>, m: nat, sets: seq<seq<nat>>, sums: seq<nat>, k: nat)
    requires entries != [] && IsFirstLeast(sums, k)
    requires Divides(entries[..|entries| - 1], who, m, sets, sums)
    ensures var last := entries[|entries| - 1];
            Divides(entries, who + [k], m, sets[k := sets[k] + [last.node]], sums[k := sums[k] + last.size])
  {
    var n := |entries| - 1;
    EntriesStep(entries);
    assert (who + [k])[..n] == who;
  }

  /** What a division is, step by step: entry `i` goes to the first of the workers that have least to do
      with the entries before it; its size is added to what that worker has to do and its area is put at
      the end of that worker's set. To begin with, nobody has anything. */
  lemma {:induction false} DivisionExactly(entries: seq<Entry>, who: seq<nat>, m: nat, i: nat, w: nat)
    requires Assignment(who, |entries|, m) && i < |entries| && w < m
    ensures var sizes, k := Sizes(entries), who[i];
            && |sizes| == |entries| && sizes[i] == entries[i].size && Assignment(who[..i], i, m)
            && Assignment(who[..i + 1], i + 1, m) && Loads(sizes[..0], who[..0], m)[w] == 0
            && Loads(sizes[..i + 1], who[..i + 1], m)[w] ==
               Loads(sizes[..i], who[..i], m)[w] + (if w == k then entries[i].size else 0)
            && (ListScheduled(sizes, who, m) ==>
                  && Loads(sizes[..i], who[..i], m)[k] <= Loads(sizes[..i], who[..i], m)[w]
                  && (w < k ==> Loads(sizes[..i], who[..i], m)[k] < Loads(sizes[..i], who[..i], m)[w]))
    ensures SetsOf(entries[..0], who[..0], m)[w] == []
    ensures SetsOf(entries[..i + 1], who[..i + 1], m)[w] ==
            SetsOf(entries[..i], who[..i], m)[w] + (if w == who[i] then [entries[i].node] else [])
  {
    var sizes := Sizes(entries);
    assert sizes[..i + 1][..i] == sizes[..i] && who[..i + 1][..i] == who[..i] && entries[..i + 1][..i] == entries[..i];
    if ListScheduled(sizes, who, m) {
      ScheduledPrefix(sizes, who, m, i);
    }
  }

  lemma {:induction false} ScheduledPrefix(sizes: seq<nat>, who: seq<nat>, m: nat, i: nat)
    requires Assignment(who, |sizes|, m) && ListScheduled(sizes, who, m) && i < |sizes|
    ensures Assignment(who[..i], i, m) && IsFirstLeast(Loads(sizes[..i], who[..i], m), who[i])
    decreases |sizes|
  {
    var n := |sizes| - 1;
    if i < n {
      ScheduledPrefix(sizes[..n], who[..n], m, i);
      assert sizes[..n][..i] == sizes[..i] && who[..n][..i] == who[..i];
    }
  }

  /** The areas of all sets together. */
  function AllNodes(sets: seq<seq<nat>>): multiset<nat> {
    if sets == [] then multiset{} else AllNodes(sets[..|sets| - 1]) + multiset(sets[|sets| - 1])
  }

  lemma {:induction false} AllNodesUpdate(sets: seq<seq<nat>>, k: nat, node: nat)
    requires k < |sets|
    ensures AllNodes(sets[k := sets[k] + [node]]) == AllNodes(sets) + multiset{node}
  {
    var n := |sets| - 1;
    if k == n {
      assert sets[k := sets[k] + [node]][..n] == sets[..n];
    } else {
      assert sets[k := sets[k] + [node]][..n] == sets[..n][k := sets[k] + [node]];
      AllNodesUpdate(sets[..n], k, node);
    }
  }

  lemma {:induction false} AllNodesEmpty(sets: seq<seq<nat>>)
    requires forall w :: 0 <= w < |sets| ==> sets[w] == []
    ensures AllNodes(sets) == multiset{}
  {
    if sets != [] {
      AllNodesEmpty(sets[..|sets| - 1]);
    }
  }

  lemma AppendedNode(nodes: seq<nat>, node: nat)
    ensures multiset(nodes + [node]) == multiset(nodes) + multiset{node}
  {
  }

  /** However the division went, the worker sets together hold each entry exactly once. */
  lemma {:induction false} DivisionPartitions(entries: seq<Entry>, who: seq<nat>, m: nat)
    requires Assignment(who, |entries|, m)
    ensures AllNodes(SetsOf(entries, who, m)) == multiset(NodesIn(entries))
  {
    if entries == [] {
      AllNodesEmpty(SetsOf(entries, who, m));
    } else {
      var n := |entries| - 1;
      DivisionPartitions(entries[..n], who[..n], m);
      EntriesStep(entries);
      var before := SetsOf(entries[..n], who[..n], m);
      AllNodesUpdate(before, who[n], entries[n].node);
      AppendedNode(NodesIn(entries[..n]), entries[n].node);
    }
  }

  /** The sorted entries, by the fields of the areas: each area of the set is listed with its size in some
      position, and only there, and no entry is smaller than a later one. */
  lemma {:induction false} SortedExactly(vmap: VmMap, entries: seq<Entry>, areaNodes: set<nat>)
    requires NodesInMap(vmap, areaNodes) && SortedBySize(entries) && ListsOnce(vmap, entries, areaNodes)
    ensures forall i, j :: 0 <= i < j < |entries| ==>
              entries[i].size >= entries[j].size && entries[i].node != entries[j].node
    ensures forall i :: 0 <= i < |entries| ==>
              && entries[i].node in areaNodes
              && entries[i].size == vmap.areas[entries[i].node].end - vmap.areas[entries[i].node].start
    ensures forall n :: n in areaNodes ==> exists i :: 0 <= i < |entries| && entries[i].node == n
  {
    var nodes, sizes := NodesIn(entries), Sizes(entries);
    forall i, j | 0 <= i < j < |entries|
      ensures entries[i].size >= entries[j].size && entries[i].node != entries[j].node
    {
      assert sizes[i] >= sizes[j];
      ListedOnce(nodes, areaNodes, i, j);
    }
    forall n | n in areaNodes
      ensures exists i :: 0 <= i < |entries| && entries[i].node == n
    {
      assert n in multiset(areaNodes);
      assert n in multiset(nodes);
      var i :| 0 <= i < |nodes| && nodes[i] == n;
      assert entries[i].node == n;
    }
  }

  lemma ListedOnce(nodes: seq<nat>, areaNodes: set<nat>, i: nat, j: nat)
    requires multiset(nodes) == multiset(areaNodes) && i < j < |nodes|
    ensures nodes[i] != nodes[j]
  {
    assert nodes == nodes[..j] + nodes[j..];
    assert nodes[i] in nodes[..j] && nodes[j] in nodes[j..];
    assert multiset(nodes)[nodes[j]] <= 1;
  }

  function SetSize(vmap: VmMap, nodes: seq<nat>): int
    requires forall i :: 0 <= i < |nodes| ==> nodes[i] < |vmap.areas|
  {
    if nodes == [] then 0
    else SetSize(vmap, nodes[..|nodes| - 1]) + vmap.areas[nodes[|nodes| - 1]].Size()
  }

  /** A worker's entry in the running sums is the total size of the areas in its set. */
  lemma {:induction false} LoadIsSetSize(vmap: VmMap, entries: seq<Entry>, who: seq<nat>, m: nat, w: nat)
    requires Assignment(who, |entries|, m) && w < m
    requires forall i :: 0 <= i < |entries| ==>
               && entries[i].node < |vmap.areas|
               && entries[i].size == vmap.areas[entries[i].node].Size()
    ensures var nodes := SetsOf(entries, who, m)[w];
            && (forall i :: 0 <= i < |nodes| ==> nodes[i] < |vmap.areas|)
            && SetSize(vmap, nodes) == Loads(Sizes(entries), who, m)[w]
  {
    if entries != [] {
      var n := |entries| - 1;
      assert Sizes(entries)[..n] == Sizes(entries[..n]);
      LoadIsSetSize(vmap, entries[..n], who[..n], m, w);
      var before := SetsOf(entries[..n], who[..n], m)[w];
      if who[n] == w {
        assert (before + [entries[n].node])[..|before|] == before;
      }
    }
  }

  class WorkerPool {
    const workerCount: nat
    var sortedEntries: seq<Entry>
    var scanAreaSets: seq<seq<nat>>

    constructor (workerCount: nat)
      ensures this.workerCount == workerCount
    {
      this.workerCount := workerCount;
      sortedEntries, scanAreaSets := [], [];
    }

    /** Insert `entry` before the first element that is not larger, or at the end. */
    method Insert(entry: Entry) returns (i: nat)
      requires SortedBySize(sortedEntries)
      modifies this`sortedEntries
      ensures i <= |old(sortedEntries)| && SortedBySize(sortedEntries)
      ensures forall j :: 0 <= j < i ==> entry.size < old(sortedEntries)[j].size
      ensures i < |old(sortedEntries)| ==> old(sortedEntries)[i].size <= entry.size
      ensures sortedEntries == old(sortedEntries)[..i] + [entry] + old(sortedEntries)[i..]
    {
      i := 0;
      while i < |sortedEntries|
        invariant 0 <= i <= |sortedEntries|
        invariant sortedEntries == old(sortedEntries)
        invariant forall j :: 0 <= j < i ==> entry.size < sortedEntries[j].size
      {
        if entry.size >= sortedEntries[i].size {
          break;
        }
        i := i + 1;
      }
      InsertSorted(sortedEntries, i, entry);
      sortedEntries := sortedEntries[..i] + [entry] + sortedEntries[i..];
    }

    method InsertNode(vmap: VmMap, node: nat, ghost nodes: set<nat>)
      requires NodesInMap(vmap, nodes + {node}) && node !in nodes
      requires SortedBySize(sortedEntries) && ListsOnce(vmap, sortedEntries, nodes)
      modifies this`sortedEntries
      ensures SortedBySize(sortedEntries) && ListsOnce(vmap, sortedEntries, nodes + {node})
    {
      ghost var was := sortedEntries;
      ghost var i := Insert(EntryOf(vmap, node));
      InsertLists(vmap, was, i, nodes, node);
    }

    /** The area set is unordered: the loop may take its elements in any order. */
    method SortBySize(vmap: VmMap, areaNodes: set<nat>) returns (ok: bool)
      requires NodesInMap(vmap, areaNodes) && sortedEntries == []
      modifies this`sortedEntries
      ensures ok <==> areaNodes != {}
      ensures SortedBySize(sortedEntries) && ListsOnce(vmap, sortedEntries, areaNodes)
    {
      if areaNodes == {} {
        return false;
      }
      var first :| first in areaNodes;
      FirstListed(vmap, first);
      sortedEntries := [EntryOf(vmap, first)];
      ghost var done := {first};
      var todo := areaNodes - {first};
      while todo != {}
        invariant done <= areaNodes && todo == areaNodes - done
        invariant SortedBySize(sortedEntries) && ListsOnce(vmap, sortedEntries, done)
        decreases |todo|
      {
        var node :| node in todo;
        InsertNode(vmap, node, done);
        todo, done := todo - {node}, done + {node};
      }
      assert areaNodes == done;
      return true;
    }

    /** The first of the smallest elements. */
    static method MinElement(sums: seq<nat>) returns (k: nat)
      requires sums != []
      ensures IsFirstLeast(sums, k)
      ensures k < |sums| && forall j :: 0 <= j < |sums| ==> sums[k] <= sums[j] && (j < k ==> sums[k] < sums[j])
    {
      k := 0;
      for i := 1 to |sums|
        invariant k < i && forall j :: 0 <= j < i ==> sums[k] <= sums[j]
        invariant forall j :: 0 <= j < k ==> sums[k] < sums[j]
      {
        if sums[i] < sums[k] {
          k := i;
        }
      }
    }

    /** Divide the areas between the workers. `who` records the worker each sorted entry went
        to and `greedySizeSum` what every worker has to do. */
    method UpdateScanAreaSet(vmap: VmMap, areaNodes: set<nat>)
      returns (ok: bool, ghost who: seq<nat>, greedySizeSum: seq<nat>)
      requires NodesInMap(vmap, areaNodes) && 0 < workerCount
      modifies this
      ensures ok <==> areaNodes != {}
      ensures SortedBySize(sortedEntries) && ListsOnce(vmap, sortedEntries, areaNodes)
      ensures ok ==> Divides(sortedEntries, who, workerCount, scanAreaSets, greedySizeSum)
    {
      sortedEntries, scanAreaSets := [], [];
      who, greedySizeSum := [], [];
      ok := SortBySize(vmap, areaNodes);
      if !ok {
        return;
      }
      ghost var sorted := sortedEntries;
      greedySizeSum := seq(workerCount, _ => 0);
      scanAreaSets := seq(workerCount, _ => []);
      for i := 0 to |sortedEntries|
        invariant sortedEntries == sorted
        invariant Divides(sorted[..i], who, workerCount, scanAreaSets, greedySizeSum)
      {
        var minIndex := MinElement(greedySizeSum);
        assert sorted[..i + 1][..i] == sorted[..i];
        DividesStep(sorted[..i + 1], who, workerCount, scanAreaSets, greedySizeSum, minIndex);
        greedySizeSum := greedySizeSum[minIndex := greedySizeSum[minIndex] + sortedEntries[i].size];
        scanAreaSets := scanAreaSets[minIndex := scanAreaSets[minIndex] + [sortedEntries[i].node]];
        who := who + [minIndex];
      }
      assert sorted[..|sorted|] == sorted;
    }
  }

  /** The division the pool makes, against any rival division of the same areas: each area in
      exactly one set, and no set larger than (4m - 1)/(3m) times the rival's largest. */
  lemma {:induction false} PoolDivision(vmap: VmMap, areaNodes: set<nat>, entries: seq<Entry>, who: seq<nat>, m: nat,
                     sets: seq<seq<nat>>, sums: seq<nat>, rival: seq<nat>, best: nat, w: nat)
    requires NodesInMap(vmap, areaNodes) && SortedBySize(entries) && ListsOnce(vmap, entries, areaNodes)
    requires 0 < m && w < m && Divides(entries, who, m, sets, sums)
    requires Assignment(rival, |entries|, m) && Within(Loads(Sizes(entries), rival, m), best)
    ensures AllNodes(sets) == multiset(areaNodes)
    ensures forall i :: 0 <= i < |sets[w]| ==> sets[w][i] < |vmap.areas|
    ensures 3 * m * SetSize(vmap, sets[w]) <= (4 * m - 1) * best
  {
    DivisionPartitions(entries, who, m);
    LoadIsSetSize(vmap, entries, who, m, w);
    DescendingBound(Sizes(entries), who, rival, m, best, w);
  }
}
