/** Coverage: topping every run up to its share of the day's work, oldest first, returns every
    configuration within one day's runs, unless too many newcomers arrive at once. */
module SchedulerCoverage {
  import opened Basics
  import opened Scheduler

  /** Everything the due query can return, whatever the time: external and community configurations
      whose last snapshot completed or never took place. */
  function Pool(t: Table): set<Uuid> {
    set u | u in Snapshottable(t, {External, Community}, None) && (Has(t[u], Completed) || t[u].lastTask.None?)
  }

  /** Those that were never snapshotted. */
  function Newcomers(t: Table): set<Uuid> {
    set u | u in Pool(t) && t[u].lastTask.None?
  }

  /** The pool is `p`, and whatever completed a snapshot in it was queued at a known time. */
  ghost predicate Known(t: Table, p: set<Uuid>) {
    Pool(t) == p && forall u :: u in p ==> u in t && (t[u].lastTask.None? || QueueTime(t, u).Some?)
  }

  function ByShare(runs: int): Filter {
    Filter(None, Some(runs))
  }

  /** `u` was queued in `t'` at `now` or after it, and later than everything in `t`. */
  ghost predicate QueuedAnew(t: Table, now: int, t': Table, p: set<Uuid>, u: Uuid) {
    && QueueTime(t', u).Some? && now <= QueueTime(t', u).value
    && forall v :: v in p && QueueTime(t, v).Some? ==> QueueTime(t, v).value < QueueTime(t', u).value
  }

  /** A run and what follows: each returned configuration completes a snapshot queued then, and the
      others keep theirs. Rows outside the pool may change in any way. */
  ghost predicate Round(t: Table, now: int, runs: int, answer: seq<Uuid>, t': Table, p: set<Uuid>) {
    && DueAnswer(t, now, ByShare(runs), answer)
    && Known(t, p) && Known(t', p)
    && (forall u :: u in p && u in answer ==> QueuedAnew(t, now, t', p, u))
    && (forall u :: u in p && u !in answer ==> QueueTime(t', u) == QueueTime(t, u))
  }

  /** A sequence of runs with the tables before, between and after them. */
  datatype Runs = Runs(tables: seq<Table>, times: seq<int>, answers: seq<seq<Uuid>>)

  ghost predicate Consecutive(r: Runs, runs: int, p: set<Uuid>) {
    && |r.times| == |r.answers| && |r.tables| == |r.answers| + 1
    && forall k :: 0 <= k < |r.answers| ==> Round(r.tables[k], r.times[k], runs, r.answers[k], r.tables[k + 1], p)
  }

  /** The configurations the first `k` runs returned. */
  ghost function Covered(answers: seq<seq<Uuid>>, k: int): set<Uuid>
    requires 0 <= k <= |answers|
  {
    if k == 0 then {} else Covered(answers, k - 1) + Elements(answers[k - 1])
  }

  /** How many rows the first `k` runs returned. */
  function Returned(answers: seq<seq<Uuid>>, k: int): int
    requires 0 <= k <= |answers|
  {
    if k == 0 then 0 else Returned(answers, k - 1) + |answers[k - 1]|
  }

  function Min(a: int, b: int): int {
    if a < b then a else b
  }

  function Max(a: int, b: int): int {
    if a < b then b else a
  }

  // ---------- one run

  lemma PoolSplits(t: Table, now: int)
    ensures Pool(t) == Stale(t, now, None) + ExtraPool(t, now, None) && Stale(t, now, None) !! ExtraPool(t, now, None)
    ensures Newcomers(t) <= Stale(t, now, None)
  {
    forall u
      ensures u in Pool(t) <==> u in Stale(t, now, None) || u in ExtraPool(t, now, None)
      ensures u in Newcomers(t) ==> u in Stale(t, now, None)
    {
    }
  }

  /** The sizes alone: a list of all of `stale` followed by some of `extra`. */
  lemma ToppedUpSize(stale: set<Uuid>, extra: set<Uuid>, first: seq<Uuid>, more: seq<Uuid>, quota: int)
    requires IsListing(stale, first) && Distinct(more) && Elements(more) <= extra && stale !! extra
    requires |more| == Min(Max(quota - |stale|, 0), |extra|)
    ensures Elements(first + more) <= stale + extra && |Elements(first + more)| == |first + more|
    ensures |first + more| == Min(|stale + extra|, Max(|stale|, quota))
  {
    ElementsSize(first);
    ElementsSize(more);
    assert Elements(first + more) == Elements(first) + Elements(more);
    assert |stale + extra| == |stale| + |extra|;
  }

  /** A run returns pool members only, each once: the stale ones, and more up to the minimum. */
  lemma AnswerSize(t: Table, now: int, runs: int, answer: seq<Uuid>)
    requires DueAnswer(t, now, ByShare(runs), answer) && runs > 0
    ensures Elements(answer) <= Pool(t) && |Elements(answer)| == |answer|
    ensures |answer| == Min(|Pool(t)|, Max(|Stale(t, now, None)|, MinimumSnapshotCount(t, runs)))
  {
    var stale, extra := Stale(t, now, None), ExtraPool(t, now, None);
    PoolSplits(t, now);
    assert answer == answer[..|stale|] + answer[|stale|..];
    ToppedUpSize(stale, extra, answer[..|stale|], answer[|stale|..], MinimumSnapshotCount(t, runs));
  }

  /** If a run leaves a configuration of the pool out, it returned nothing that was queued later. */
  lemma LeftOutMeansOlderOnly(t: Table, now: int, runs: int, answer: seq<Uuid>, p: set<Uuid>, u: Uuid)
    requires DueAnswer(t, now, ByShare(runs), answer) && Known(t, p)
    requires u in p && u !in answer
    ensures forall c :: c in answer ==> NotLater(t, c, u)
  {
    var stale := Stale(t, now, None);
    var n := |stale|;
    DueAnswerIsDistinct(t, now, ByShare(runs), answer);
    assert u !in stale && u in ExtraPool(t, now, None);
    assert u !in answer[n..];
    forall c | c in answer
      ensures NotLater(t, c, u)
    {
      if c in answer[..n] {
        assert c in Elements(answer[..n]);
      } else {
        assert c in answer[n..];
      }
    }
  }

  /** Whatever is not covered yet is older than all that is. */
  ghost predicate UncoveredAreOlder(t: Table, p: set<Uuid>, covered: set<Uuid>) {
    forall u, c :: u in p && u !in covered && c in covered ==> !NotLater(t, c, u)
  }

  lemma UncoveredStayOlder(t: Table, now: int, runs: int, answer: seq<Uuid>, t': Table, p: set<Uuid>,
      covered: set<Uuid>)
    requires Round(t, now, runs, answer, t', p) && UncoveredAreOlder(t, p, covered)
    requires covered <= p && Elements(answer) <= p
    ensures UncoveredAreOlder(t', p, covered + Elements(answer))
  {
    forall u, c | u in p && u !in covered + Elements(answer) && c in covered + Elements(answer)
      ensures !NotLater(t', c, u)
    {
      assert u !in answer;
      if c in answer {
        assert QueuedAnew(t, now, t', p, c);
      } else {
        assert c in covered && !NotLater(t, c, u);
      }
    }
  }

  /** A run returns only what is uncovered, or all of it. */
  lemma RunExtendsCoverage(t: Table, now: int, runs: int, answer: seq<Uuid>, p: set<Uuid>, covered: set<Uuid>)
    requires DueAnswer(t, now, ByShare(runs), answer) && Known(t, p) && runs > 0
    requires UncoveredAreOlder(t, p, covered) && covered <= p
    ensures Elements(answer) <= p
    ensures |covered + Elements(answer)| == Min(|p|, |covered| + |answer|)
  {
    AnswerSize(t, now, runs, answer);
    var covered' := covered + Elements(answer);
    SubsetSize(covered', p);
    if covered' != p {
      var u := MemberOutside(p, covered');
      assert u !in answer;
      LeftOutMeansOlderOnly(t, now, runs, answer, p, u);
      forall c | c in answer
        ensures c !in covered
      {
        assert NotLater(t, c, u);
      }
      assert Elements(answer) !! covered;
    } else {
      UnionSize(covered, Elements(answer));
    }
  }

  lemma UnionSize(a: set<Uuid>, b: set<Uuid>)
    ensures |a + b| <= |a| + |b|
  {
    assert a + b == a + (b - a);
    SubsetSize(b - a, b);
  }

  // ---------- many runs

  /** What `k` runs have achieved. */
  ghost predicate Achieved(r: Runs, p: set<Uuid>, k: int, covered: set<Uuid>, returned: int)
    requires 0 <= k < |r.tables|
  {
    covered <= p && UncoveredAreOlder(r.tables[k], p, covered) && |covered| == Min(|p|, returned)
  }

  ghost predicate NextAchieves(r: Runs, p: set<Uuid>, k: int, covered: set<Uuid>, returned: int)
    requires 0 <= k < |r.answers| < |r.tables|
  {
    Achieved(r, p, k, covered, returned) ==>
      Achieved(r, p, k + 1, covered + Elements(r.answers[k]), returned + |r.answers[k]|)
  }

  /** Every run builds on whatever was achieved before it. */
  ghost predicate Advancing(r: Runs, p: set<Uuid>) {
    && |r.tables| == |r.answers| + 1
    && forall k, covered, returned :: 0 <= k < |r.answers| ==> NextAchieves(r, p, k, covered, returned)
  }

  lemma ConsecutiveRunsAdvance(r: Runs, runs: int, p: set<Uuid>)
    requires Consecutive(r, runs, p) && runs > 0
    ensures Advancing(r, p)
  {
    forall k, covered, returned | 0 <= k < |r.answers|
      ensures NextAchieves(r, p, k, covered, returned)
    {
      var t, now, answer, t' := r.tables[k], r.times[k], r.answers[k], r.tables[k + 1];
      assert Round(t, now, runs, answer, t', p);
      if Achieved(r, p, k, covered, returned) {
        RunExtendsCoverage(t, now, runs, answer, p, covered);
        UncoveredStayOlder(t, now, runs, answer, t', p, covered);
      }
    }
  }

  /** Coverage is exact: until everything is covered no run returns a configuration again, so `k` runs
      have returned as many different configurations as they returned rows, or the whole pool. */
  lemma {:induction false} CoverageIsExact(r: Runs, p: set<Uuid>, k: int)
    requires Advancing(r, p) && 0 <= k <= |r.answers|
    ensures Achieved(r, p, k, Covered(r.answers, k), Returned(r.answers, k))
  {
    if k > 0 {
      CoverageIsExact(r, p, k - 1);
      assert NextAchieves(r, p, k - 1, Covered(r.answers, k - 1), Returned(r.answers, k - 1));
    }
  }

  /** So everything has been returned exactly when enough rows have. */
  lemma AllCoveredExactly(r: Runs, p: set<Uuid>, k: int)
    requires Advancing(r, p) && 0 <= k <= |r.answers|
    ensures p <= Covered(r.answers, k) <==> Returned(r.answers, k) >= |p|
  {
    CoverageIsExact(r, p, k);
    SubsetSize(Covered(r.answers, k), p);
    assert p <= Covered(r.answers, k) ==> p == Covered(r.answers, k);
  }

  /** The first run returns all newcomers, so later tables have none. */
  lemma NewcomersComeFirst(r: Runs, runs: int, p: set<Uuid>, k: int)
    requires Consecutive(r, runs, p) && 0 < k <= |r.answers|
    ensures Newcomers(r.tables[k]) == {}
  {
    var t, now, answer, t' := r.tables[k - 1], r.times[k - 1], r.answers[k - 1], r.tables[k];
    assert Round(t, now, runs, answer, t', p);
    DueAnswerIsDistinct(t, now, ByShare(runs), answer);
    forall u | u in p
      ensures u !in Newcomers(t')
    {
      assert t[u].lastTask.None? ==> u in Stale(t, now, None);
      assert u in answer ==> QueuedAnew(t, now, t', p, u);
    }
    assert forall u :: u in Newcomers(t') ==> u in Pool(t');
  }

  /** The minimum of a run counts the pool except newcomers, and perhaps others. */
  lemma QuotaCoversShare(t: Table, p: set<Uuid>, runs: int)
    requires Pool(t) == p && runs > 0
    ensures MinimumSnapshotCount(t, runs) >= (|p| - |Newcomers(t)|) / runs + 1
    ensures Counted(t) <= p ==> MinimumSnapshotCount(t, runs) == (|p| - |Newcomers(t)|) / runs + 1
  {
    CountedCoversPool(t);
    DivisionIsMonotone(|p| - |Newcomers(t)|, |Counted(t)|, runs);
  }

  lemma CountedCoversPool(t: Table)
    ensures |Counted(t)| >= |Pool(t)| - |Newcomers(t)| >= 0
    ensures Counted(t) <= Pool(t) ==> |Counted(t)| == |Pool(t)| - |Newcomers(t)|
  {
    var snapshotted := Pool(t) - Newcomers(t);
    forall u
      ensures u in snapshotted ==> u in Counted(t)
      ensures u in Counted(t) && u in Pool(t) ==> u in snapshotted
      ensures u in Newcomers(t) ==> u in Pool(t)
    {
    }
    assert Pool(t) == snapshotted + Newcomers(t);
    SubsetSize(snapshotted, Counted(t));
    assert Counted(t) <= Pool(t) ==> Counted(t) == snapshotted;
  }

  lemma DivisionIsMonotone(a: int, b: int, d: int)
    requires 0 <= a <= b && d > 0
    ensures a / d <= b / d
  {
    if b / d < a / d {
      ProductIsMonotone(b / d + 1, a / d, d);
      assert false;
    }
  }

  lemma ProductIsMonotone(x: int, y: int, d: int)
    requires x <= y && d > 0
    ensures x * d <= y * d
  {
  }

  // ---------- how many runs are enough

  /** What the first run of a pool with `completed` old members and `newcomers` is asked for. */
  function FirstShare(completed: int, newcomers: int, runs: int): int
    requires runs > 0
  {
    Max(newcomers, completed / runs + 1)
  }

  /** `k` runs are enough: the first one is sized without counting the newcomers, the others with them. */
  predicate Enough(completed: int, newcomers: int, runs: int, k: int)
    requires runs > 0
  {
    FirstShare(completed, newcomers, runs) + (k - 1) * ((completed + newcomers) / runs + 1) >= completed + newcomers
  }

  function NewcomersAtFirst(r: Runs): int
    requires r.tables != []
  {
    |Newcomers(r.tables[0])|
  }

  /** One run returns what the pool and its newcomers ask for, and no more if nothing else does. */
  lemma AnswerMeetsShare(t: Table, now: int, runs: int, answer: seq<Uuid>)
    requires DueAnswer(t, now, ByShare(runs), answer) && runs > 0
    ensures var w := |Newcomers(t)|;
            && |answer| >= Min(|Pool(t)|, FirstShare(|Pool(t)| - w, w, runs))
            && (Stale(t, now, None) == Newcomers(t) && Counted(t) <= Pool(t) ==>
                  |answer| <= FirstShare(|Pool(t)| - w, w, runs))
  {
    AnswerSize(t, now, runs, answer);
    QuotaCoversShare(t, Pool(t), runs);
    PoolSplits(t, now);
    SubsetSize(Newcomers(t), Stale(t, now, None));
  }

  lemma RunMeetsShare(r: Runs, runs: int, p: set<Uuid>, k: int)
    requires Consecutive(r, runs, p) && runs > 0 && 0 <= k < |r.answers|
    ensures k == 0 ==> |r.answers[k]| >= Min(|p|, FirstShare(|p| - NewcomersAtFirst(r), NewcomersAtFirst(r), runs))
    ensures k > 0 ==> |r.answers[k]| >= Min(|p|, |p| / runs + 1)
  {
    assert Round(r.tables[k], r.times[k], runs, r.answers[k], r.tables[k + 1], p);
    AnswerMeetsShare(r.tables[k], r.times[k], runs, r.answers[k]);
    if k > 0 {
      NewcomersComeFirst(r, runs, p, k);
    }
  }

  lemma {:induction false} ReturnedIsAtLeast(answers: seq<seq<Uuid>>, size: int, first: int, share: int, k: int)
    requires size >= 0 && first >= 0 && share >= 0 && 0 < k <= |answers| && |answers[0]| >= Min(size, first)
    requires forall i :: 0 < i < |answers| ==> |answers[i]| >= Min(size, share)
    ensures Returned(answers, k) >= Min(size, first + (k - 1) * share)
  {
    if k == 1 {
      assert Returned(answers, 1) == Returned(answers, 0) + |answers[0]|;
    } else {
      ReturnedIsAtLeast(answers, size, first, share, k - 1);
      assert first + (k - 1) * share == first + (k - 2) * share + share;
    }
  }

  lemma {:induction false} ReturnedIsAtMost(answers: seq<seq<Uuid>>, first: int, share: int, k: int)
    requires 0 < k <= |answers| && |answers[0]| <= first
    requires forall i :: 0 < i < |answers| ==> |answers[i]| <= share
    ensures Returned(answers, k) <= first + (k - 1) * share
  {
    if k == 1 {
      assert Returned(answers, 1) == Returned(answers, 0) + |answers[0]|;
    } else {
      ReturnedIsAtMost(answers, first, share, k - 1);
      assert first + (k - 1) * share == first + (k - 2) * share + share;
    }
  }

  /** The sizes of the answers are at least the shares, as far as the pool goes. */
  ghost predicate MeetShares(answers: seq<seq<Uuid>>, size: int, newcomers: int, runs: int)
    requires runs > 0
  {
    && answers != [] && |answers[0]| >= Min(size, FirstShare(size - newcomers, newcomers, runs))
    && forall i :: 0 < i < |answers| ==> |answers[i]| >= Min(size, size / runs + 1)
  }

  lemma RunsMeetShares(r: Runs, runs: int, p: set<Uuid>)
    requires Consecutive(r, runs, p) && runs > 0 && r.answers != []
    ensures MeetShares(r.answers, |p|, NewcomersAtFirst(r), runs)
  {
    RunMeetsShare(r, runs, p, 0);
    forall i | 0 < i < |r.answers|
      ensures |r.answers[i]| >= Min(|p|, |p| / runs + 1)
    {
      RunMeetsShare(r, runs, p, i);
    }
  }

  lemma SharesReachPool(answers: seq<seq<Uuid>>, size: nat, newcomers: nat, runs: int, k: int)
    requires runs > 0 && MeetShares(answers, size, newcomers, runs) && 0 < k <= |answers|
    requires Enough(size - newcomers, newcomers, runs, k)
    ensures Returned(answers, k) >= size
  {
    ReturnedIsAtLeast(answers, size, FirstShare(size - newcomers, newcomers, runs), size / runs + 1, k);
  }

  /** If `k` runs are enough for the newcomers there are, any `k` runs return everything, however other
      rows change and whatever becomes stale meanwhile. */
  lemma EnoughRunsReturnAll(r: Runs, runs: int, p: set<Uuid>, k: int)
    requires runs > 0 && Consecutive(r, runs, p) && 0 < k <= |r.answers|
    requires Enough(|p| - NewcomersAtFirst(r), NewcomersAtFirst(r), runs, k)
    ensures p <= Covered(r.answers, k)
  {
    RunsMeetShares(r, runs, p);
    SharesReachPool(r.answers, |p|, NewcomersAtFirst(r), runs, k);
    ConsecutiveRunsAdvance(r, runs, p);
    AllCoveredExactly(r, p, k);
  }

  /** Nothing is stale until `latest`, the time of the last run or later: what completed a snapshot did
      so within the interval, and the first run is within the interval as well. */
  ghost predicate FreshUntil(r: Runs, p: set<Uuid>, latest: int) {
    && (forall k :: 0 <= k < |r.times| ==> latest - STALE_AFTER < r.times[k] <= latest)
    && r.tables != []
    && (forall u :: u in p && QueueTime(r.tables[0], u).Some? ==>
        latest - STALE_AFTER < QueueTime(r.tables[0], u).value)
  }

  /** The minimum counts nothing but the pool: no other configuration has a task that did not fail. */
  ghost predicate OnlyPoolCounts(r: Runs, p: set<Uuid>) {
    forall k :: 0 <= k < |r.tables| ==> Counted(r.tables[k]) <= p
  }

  lemma {:induction false} NothingTurnsStale(r: Runs, runs: int, p: set<Uuid>, latest: int, k: int)
    requires Consecutive(r, runs, p) && FreshUntil(r, p, latest) && 0 <= k <= |r.answers|
    ensures forall u :: u in p && QueueTime(r.tables[k], u).Some? ==>
                          latest - STALE_AFTER < QueueTime(r.tables[k], u).value
  {
    if k > 0 {
      NothingTurnsStale(r, runs, p, latest, k - 1);
      var t, now, answer, t' := r.tables[k - 1], r.times[k - 1], r.answers[k - 1], r.tables[k];
      assert Round(t, now, runs, answer, t', p);
      forall u | u in p && QueueTime(t', u).Some?
        ensures latest - STALE_AFTER < QueueTime(t', u).value
      {
        assert u in answer ==> QueuedAnew(t, now, t', p, u);
      }
    }
  }

  lemma OnlyNewcomersAreStale(t: Table, now: int, p: set<Uuid>)
    requires Known(t, p)
    requires forall u :: u in p && QueueTime(t, u).Some? ==> now - STALE_AFTER < QueueTime(t, u).value
    ensures Stale(t, now, None) == Newcomers(t)
  {
    PoolSplits(t, now);
    forall u
      ensures u in Stale(t, now, None) ==> u in Newcomers(t)
    {
      assert u in Stale(t, now, None) ==> u in Pool(t);
    }
  }

  lemma RunIsWithinShare(r: Runs, runs: int, p: set<Uuid>, latest: int, k: int)
    requires runs > 0 && Consecutive(r, runs, p) && FreshUntil(r, p, latest) && OnlyPoolCounts(r, p)
    requires 0 <= k < |r.answers|
    ensures k == 0 ==> |r.answers[k]| <= FirstShare(|p| - NewcomersAtFirst(r), NewcomersAtFirst(r), runs)
    ensures k > 0 ==> |r.answers[k]| <= |p| / runs + 1
  {
    assert Round(r.tables[k], r.times[k], runs, r.answers[k], r.tables[k + 1], p);
    NothingTurnsStale(r, runs, p, latest, k);
    OnlyNewcomersAreStale(r.tables[k], r.times[k], p);
    AnswerMeetsShare(r.tables[k], r.times[k], runs, r.answers[k]);
    if k > 0 {
      NewcomersComeFirst(r, runs, p, k);
    }
  }

  /** The documented promise, exactly: while nothing turns stale and only the pool counts, `k` runs
      return every configuration if and only if they are enough for the newcomers there are. */
  lemma AllReturnedIffEnough(r: Runs, runs: int, p: set<Uuid>, latest: int, k: int)
    requires runs > 0 && Consecutive(r, runs, p) && FreshUntil(r, p, latest) && OnlyPoolCounts(r, p)
    requires 0 < k <= |r.answers|
    ensures p <= Covered(r.answers, k) <==> Enough(|p| - NewcomersAtFirst(r), NewcomersAtFirst(r), runs, k)
  {
    var w := NewcomersAtFirst(r);
    if Enough(|p| - w, w, runs, k) {
      EnoughRunsReturnAll(r, runs, p, k);
    } else {
      RunIsWithinShare(r, runs, p, latest, 0);
      forall i | 0 < i < |r.answers|
        ensures |r.answers[i]| <= |p| / runs + 1
      {
        RunIsWithinShare(r, runs, p, latest, i);
      }
      ReturnedIsAtMost(r.answers, FirstShare(|p| - w, w, runs), |p| / runs + 1, k);
      ConsecutiveRunsAdvance(r, runs, p);
      AllCoveredExactly(r, p, k);
    }
  }

  /** The shares of `runs` runs add up to more than the pool. */
  lemma SharesExceedPool(size: int, runs: int)
    requires size >= 0 && runs > 0
    ensures runs * (size / runs + 1) > size
  {
    assert runs * (size / runs + 1) == runs * (size / runs) + runs;
  }

  lemma {:induction false} CoveredMeansReturned(answers: seq<seq<Uuid>>, k: int, u: Uuid)
    requires 0 <= k <= |answers| && u in Covered(answers, k)
    ensures exists i :: 0 <= i < k && u in answers[i]
  {
    if u !in answers[k - 1] {
      CoveredMeansReturned(answers, k - 1, u);
    }
  }

  /** With a minimum of `runs` runs a day and no newcomers, any `runs` consecutive runs return every
      configuration; with newcomers, any `runs + 1` do. */
  lemma EveryConfigurationIsReturned(r: Runs, runs: int, p: set<Uuid>, u: Uuid)
    requires runs > 0 && Consecutive(r, runs, p) && u in p
    requires |r.answers| == if Newcomers(r.tables[0]) == {} then runs else runs + 1
    ensures exists k :: 0 <= k < |r.answers| && u in r.answers[k]
  {
    var w, share := NewcomersAtFirst(r), |p| / runs + 1;
    SharesExceedPool(|p|, runs);
    if w == 0 {
      assert share + (runs - 1) * share == runs * share;
    }
    EnoughRunsReturnAll(r, runs, p, |r.answers|);
    CoveredMeansReturned(r.answers, |r.answers|, u);
  }

  // ---------- such runs exist

  /** Every returned configuration completes a snapshot queued at `now`. */
  function AllComplete(t: Table, answer: seq<Uuid>, now: int): Table {
    map u | u in t :: if u in answer then t[u].(lastTask := Some(Task(Completed, Some(now)))) else t[u]
  }

  ghost predicate QueuedBefore(t: Table, p: set<Uuid>, now: int) {
    forall u :: u in p && QueueTime(t, u).Some? ==> QueueTime(t, u).value < now
  }

  ghost predicate Ready(t: Table, now: int, p: set<Uuid>) {
    Known(t, p) && QueuedBefore(t, p, now) && Counted(t) <= p
  }

  lemma CompletionKeepsReady(t: Table, now: int, p: set<Uuid>, answer: seq<Uuid>)
    requires Ready(t, now, p) && forall u :: u in answer ==> u in p
    ensures Ready(AllComplete(t, answer, now), now + 1, p)
  {
    var t' := AllComplete(t, answer, now);
    forall u
      ensures u in Pool(t') <==> u in Pool(t)
      ensures u in Counted(t') ==> u in Counted(t) || u in p
    {
      assert u in p ==> u in Pool(t);
    }
  }

  lemma RoundExists(t: Table, now: int, runs: int, p: set<Uuid>) returns (answer: seq<Uuid>)
    requires Ready(t, now, p) && runs > 0
    ensures Round(t, now, runs, answer, AllComplete(t, answer, now), p)
    ensures Ready(AllComplete(t, answer, now), now + 1, p)
  {
    var stale := ListingExists(Stale(t, now, None));
    var extra := OldestFirstExists(t, ExtraPool(t, now, None), Shortfall(t, now, ByShare(runs)));
    answer := stale + extra;
    DueAnswerFrom(t, now, ByShare(runs), stale, extra);
    AnswerSize(t, now, runs, answer);
    assert forall u :: u in answer ==> u in Elements(answer);
    CompletionKeepsReady(t, now, p, answer);
  }

  lemma Appended(f: Runs, runs: int, p: set<Uuid>, now: int, answer: seq<Uuid>, t': Table)
    requires Consecutive(f, runs, p) && Round(f.tables[|f.answers|], now, runs, answer, t', p)
    ensures Consecutive(Runs(f.tables + [t'], f.times + [now], f.answers + [answer]), runs, p)
  {
    var n, r := |f.answers|, Runs(f.tables + [t'], f.times + [now], f.answers + [answer]);
    forall k | 0 <= k < |r.answers|
      ensures Round(r.tables[k], r.times[k], runs, r.answers[k], r.tables[k + 1], p)
    {
      assert k < n ==> Round(f.tables[k], f.times[k], runs, f.answers[k], f.tables[k + 1], p);
    }
  }

  /** From any table whose tasks were queued in the past there are runs, one tick after the other. */
  lemma {:induction false} RunsExist(t: Table, now: int, runs: int, p: set<Uuid>, count: nat) returns (r: Runs)
    requires Ready(t, now, p) && runs > 0
    ensures Consecutive(r, runs, p) && |r.answers| == count && r.tables[0] == t
    ensures forall k :: 0 <= k < count ==> r.times[k] == now + k
    ensures forall k :: 0 <= k <= count ==> Ready(r.tables[k], now + k, p)
  {
    if count == 0 {
      r := Runs([t], [], []);
    } else {
      var f := RunsExist(t, now, runs, p, count - 1);
      var time, last := now + count - 1, f.tables[count - 1];
      assert Ready(last, time, p);
      var answer := RoundExists(last, time, runs, p);
      var t' := AllComplete(last, answer, time);
      Appended(f, runs, p, time, answer, t');
      r := Runs(f.tables + [t'], f.times + [time], f.answers + [answer]);
    }
  }

  function Below(n: int): set<Uuid> {
    if n <= 0 then {} else Below(n - 1) + {n - 1}
  }

  lemma {:induction false} BelowIsAnInterval(n: int)
    requires 0 <= n
    ensures |Below(n)| == n && forall u :: u in Below(n) <==> 0 <= u < n
  {
    if n > 0 {
      BelowIsAnInterval(n - 1);
    }
  }

  /** `total` external configurations, of which the first `done` have completed a snapshot, in order. */
  function Queue(done: int, total: int): Table {
    map u | u in Below(total) ::
      Row("", External, true, false, if u < done then Some(Task(Completed, Some(u))) else None, 0)
  }

  lemma QueueMembers(done: int, total: int, u: Uuid)
    requires 0 <= done <= total
    ensures u in Pool(Queue(done, total)) <==> 0 <= u < total
    ensures u in Newcomers(Queue(done, total)) <==> done <= u < total
    ensures u in Counted(Queue(done, total)) ==> 0 <= u < total
    ensures QueueTime(Queue(done, total), u) == if 0 <= u < done then Some(u) else None
  {
    BelowIsAnInterval(total);
  }

  lemma QueueIsReady(done: int, total: int)
    requires 0 <= done <= total
    ensures Ready(Queue(done, total), total, Below(total))
    ensures |Newcomers(Queue(done, total))| == total - done
  {
    BelowIsAnInterval(total);
    BelowIsAnInterval(done);
    forall u {
      QueueMembers(done, total, u);
    }
    assert Below(total) == Newcomers(Queue(done, total)) + Below(done);
  }

  lemma ReadyCountsPoolOnly(r: Runs, now: int, p: set<Uuid>)
    requires forall k :: 0 <= k < |r.tables| ==> Ready(r.tables[k], now + k, p)
    ensures OnlyPoolCounts(r, p)
  {
  }

  lemma QueueIsFresh(done: int, total: int, r: Runs, latest: int)
    requires 0 <= total && r.tables != [] && r.tables[0] == Queue(done, total) && latest < STALE_AFTER
    requires forall k :: 0 <= k < |r.times| ==> 0 <= r.times[k] <= latest
    ensures FreshUntil(r, Below(total), latest)
  {
    BelowIsAnInterval(total);
  }

  /** For every number of old members and newcomers there are runs, each starting from the table the one
      before it left, that return everything if and only if the condition holds. With two runs a day it
      fails for four newcomers beside seven others, and holds for three. */
  lemma NewcomersCanCrowdOut(done: int, total: int, now: int, runs: int) returns (r: Runs)
    requires 0 <= done <= total <= now && runs > 0 && now + runs <= STALE_AFTER
    ensures Consecutive(r, runs, Below(total)) && |r.answers| == runs && r.tables[0] == Queue(done, total)
    ensures forall k :: 0 <= k < runs ==> r.times[k] == now + k
    ensures Below(total) <= Covered(r.answers, runs) <==> Enough(done, total - done, runs, runs)
    ensures !Enough(7, 4, 2, 2) && Enough(7, 3, 2, 2)
  {
    var p := Below(total);
    QueueIsReady(done, total);
    BelowIsAnInterval(total);
    r := RunsExist(Queue(done, total), now, runs, p, runs);
    ReadyCountsPoolOnly(r, now, p);
    QueueIsFresh(done, total, r, now + runs - 1);
    AllReturnedIffEnough(r, runs, p, now + runs - 1, runs);
  }
}
