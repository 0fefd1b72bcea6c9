/** Which repository configurations the periodic job snapshots (pkg/dao/repository_configs.go).
    A query without ORDER BY may answer in any order, and one with ORDER BY may break ties in any way,
    so the queries are predicates on their possible answers. */
module Scheduler {
  import opened Basics

  datatype Status = Pending | Running | Completed | Failed | Canceled

  datatype Task = Task(status: Status, queuedAt: Option<int>)

  /** A configuration joined with its repository and with the task of its last snapshot. */
  datatype Row = Row(url: string, origin: Origin, snapshot: bool, deleted: bool, lastTask: Option<Task>, failures: int)

  type Table = map<Uuid, Row>

  /** Time is counted in microseconds. */
  const MINUTE := 60_000_000
  const STALE_AFTER := 23 * 60 * MINUTE
  const RED_HAT_STALE_AFTER := 45 * MINUTE
  const FAILED_SNAPSHOT_LIMIT := 10

  datatype Filter = Filter(urls: Option<set<string>>, minimumInterval: Option<int>)

  predicate Has(row: Row, status: Status) {
    row.lastTask.Some? && row.lastTask.value.status == status
  }

  /** A missing task or queueing time compares as unknown, hence false. */
  predicate QueuedBy(row: Row, time: int) {
    row.lastTask.Some? && row.lastTask.value.queuedAt.Some? && row.lastTask.value.queuedAt.value <= time
  }

  predicate Matches(row: Row, urls: Option<set<string>>) {
    urls.None? || row.url in urls.value
  }

  function Snapshottable(t: Table, origins: set<Origin>, urls: Option<set<string>>): set<Uuid> {
    set u | u in t && !t[u].deleted && t[u].snapshot && t[u].origin in origins && Matches(t[u], urls)
  }

  predicate IsStale(row: Row, now: int) {
    (QueuedBy(row, now - STALE_AFTER) && Has(row, Completed)) || row.lastTask.None?
  }

  function Stale(t: Table, now: int, urls: Option<set<string>>): set<Uuid> {
    set u | u in Snapshottable(t, {External, Community}, urls) && IsStale(t[u], now)
  }

  /** The configurations the quota is computed from: all that have a last task which did not fail. */
  function Counted(t: Table): set<Uuid> {
    set u | u in t && !t[u].deleted && t[u].snapshot && t[u].lastTask.Some? && !Has(t[u], Failed)
  }

  function MinimumSnapshotCount(t: Table, runsPerDay: int): int
    requires runsPerDay > 0
  {
    |Counted(t)| / runsPerDay + 1
  }

  /** The candidates for topping up a run: fresh completed ones. The URL filter applies only through `Stale`. */
  function ExtraPool(t: Table, now: int, urls: Option<set<string>>): set<Uuid> {
    set u | u in Snapshottable(t, {External, Community}, None) && u !in Stale(t, now, urls) && Has(t[u], Completed)
  }

  function QueueTime(t: Table, u: Uuid): Option<int> {
    if u in t && t[u].lastTask.Some? then t[u].lastTask.value.queuedAt else None
  }

  /** Ascending queueing time, NULLS FIRST. */
  predicate NotLater(t: Table, a: Uuid, b: Uuid) {
    var x, y := QueueTime(t, a), QueueTime(t, b);
    x.None? || (y.Some? && x.value <= y.value)
  }

  /** `picks` is an answer to: the pool ordered by queueing time, limited to `count` rows. */
  ghost predicate OldestFirst(t: Table, pool: set<Uuid>, count: int, picks: seq<Uuid>) {
    && Distinct(picks)
    && Elements(picks) <= pool
    && |picks| == (if count < |pool| then count else |pool|)
    && (forall i, j :: 0 <= i < j < |picks| ==> NotLater(t, picks[i], picks[j]))
    && (forall p, u :: p in picks && u in pool && u !in picks ==> NotLater(t, p, u))
  }

  /** How many configurations a run must still be topped up with. */
  function Shortfall(t: Table, now: int, filter: Filter): int {
    if filter.minimumInterval.None? || filter.minimumInterval.value <= 0 then 0
    else
      var missing := MinimumSnapshotCount(t, filter.minimumInterval.value) - |Stale(t, now, filter.urls)|;
      if missing < 0 then 0 else missing
  }

  /** The answers of the query for due configurations that are not Red Hat's: first the stale ones,
      then, while the minimum is not met, the oldest fresh ones. */
  ghost predicate DueAnswer(t: Table, now: int, filter: Filter, answer: seq<Uuid>) {
    var n := |Stale(t, now, filter.urls)|;
    && n <= |answer|
    && IsListing(Stale(t, now, filter.urls), answer[..n])
    && OldestFirst(t, ExtraPool(t, now, filter.urls), Shortfall(t, now, filter), answer[n..])
  }

  /** One stale Red Hat configuration makes all of them due. */
  function DueRedHat(t: Table, now: int, urls: Option<set<string>>): set<Uuid> {
    var all := Snapshottable(t, {RedHat}, urls);
    if exists u :: u in all && (QueuedBy(t[u], now - RED_HAT_STALE_AFTER) || t[u].lastTask.None?) then all else {}
  }

  /** How the chained conditions of the query for failed configurations are read. With `Literal` the
      alternative stands beside the snapshot condition, which then does not restrict it; with `Intended`
      the snapshot condition restricts both. Everything proved holds for both readings. */
  datatype Grouping = Literal | Intended

  predicate RetriesAlways(row: Row) {
    Has(row, Failed) && row.origin in {RedHat, Community}
  }

  predicate RetriesWithinLimit(row: Row, now: int) {
    Has(row, Failed) && QueuedBy(row, now - STALE_AFTER) && row.failures < FAILED_SNAPSHOT_LIMIT
  }

  function FailedToRetry(g: Grouping, t: Table, now: int): set<Uuid> {
    set u | u in t && !t[u].deleted && (
      if g == Literal then (t[u].snapshot && RetriesAlways(t[u])) || RetriesWithinLimit(t[u], now)
      else t[u].snapshot && (RetriesAlways(t[u]) || RetriesWithinLimit(t[u], now)))
  }

  /** The answers of an unforced run: due, then due Red Hat, then failed configurations. */
  ghost predicate RunAnswer(g: Grouping, t: Table, now: int, filter: Filter, due: seq<Uuid>, redHat: seq<Uuid>,
      failed: seq<Uuid>) {
    && DueAnswer(t, now, filter, due)
    && IsListing(DueRedHat(t, now, filter.urls), redHat)
    && IsListing(FailedToRetry(g, t, now), failed)
  }

  lemma ConcatIsDistinct<T>(a: seq<T>, b: seq<T>)
    requires Distinct(a) && Distinct(b) && Elements(a) !! Elements(b)
    ensures Distinct(a + b)
  {
    assert forall i :: 0 <= i < |a| ==> a[i] in Elements(a);
    assert forall i :: 0 <= i < |b| ==> b[i] in Elements(b);
  }

  lemma DueAnswerIsDistinct(t: Table, now: int, filter: Filter, answer: seq<Uuid>)
    requires DueAnswer(t, now, filter, answer)
    ensures Distinct(answer)
    ensures forall u :: u in answer ==> u in Snapshottable(t, {External, Community}, None) && !Has(t[u], Failed)
    ensures forall u :: u in Stale(t, now, filter.urls) ==> u in answer
  {
    var n := |Stale(t, now, filter.urls)|;
    var stale, extra := answer[..n], answer[n..];
    assert answer == stale + extra;
    ConcatIsDistinct(stale, extra);
    forall u | u in answer
      ensures u in Elements(stale) || u in Elements(extra)
    {
    }
    assert forall u :: u in Elements(stale) ==> u in answer;
  }

  // ---------- the queries on the stored fields

  /** A configuration of one of the origins that takes snapshots and passes the URL filter. */
  predicate Takes(row: Row, origins: set<Origin>, urls: Option<set<string>>) {
    !row.deleted && row.snapshot && row.origin in origins && (urls.Some? ==> row.url in urls.value)
  }

  /** It was never snapshotted, or its last snapshot completed and was queued 23 hours ago or earlier. */
  predicate IsOld(row: Row, now: int) {
    match row.lastTask
    case None => true
    case Some(task) => task.status == Completed && task.queuedAt.Some? && task.queuedAt.value <= now - 82_800_000_000
  }

  /** Without a minimum the due list holds exactly the external and community configurations that are
      old; a minimum only adds to it. */
  lemma DueExactly(t: Table, now: int, filter: Filter, answer: seq<Uuid>, u: Uuid)
    requires DueAnswer(t, now, filter, answer) && u in t
    ensures Takes(t[u], {External, Community}, filter.urls) && IsOld(t[u], now) ==> u in answer
    ensures (filter.minimumInterval.Some? ==> filter.minimumInterval.value <= 0) ==>
              (u in answer <==> Takes(t[u], {External, Community}, filter.urls) && IsOld(t[u], now))
  {
    var n := |Stale(t, now, filter.urls)|;
    DueAnswerIsDistinct(t, now, filter, answer);
    assert u in answer[..n] <==> u in Elements(answer[..n]);
    assert answer == answer[..n] + answer[n..];
  }

  predicate MustTake(t: Table, now: int, filter: Filter, u: Uuid) {
    u in t && Takes(t[u], {External, Community}, filter.urls) && IsOld(t[u], now)
  }

  /** With a minimum, the list goes on with external and community configurations whose last snapshot
      completed, whatever their URL. */
  lemma ExtraExactly(t: Table, now: int, filter: Filter, answer: seq<Uuid>, i: int, j: int)
    requires DueAnswer(t, now, filter, answer) && 0 <= i < j < |answer|
    ensures MustTake(t, now, filter, answer[j]) ==> MustTake(t, now, filter, answer[i])
    ensures !MustTake(t, now, filter, answer[j]) ==> CouldTake(t, answer[j])
    ensures !MustTake(t, now, filter, answer[i]) ==>
              && CouldTake(t, answer[i]) && CouldTake(t, answer[j])
              && var x, y := t[answer[i]].lastTask.value.queuedAt, t[answer[j]].lastTask.value.queuedAt;
              x.None? || (y.Some? && x.value <= y.value)
  {
    var n := |Stale(t, now, filter.urls)|;
    ListedStaleFirst(t, now, filter, answer);
    if i >= n {
      assert answer[n..][i - n] == answer[i] && answer[n..][j - n] == answer[j];
      assert NotLater(t, answer[i], answer[j]);
    }
  }

  /** They are picked in the order they were queued, unknown times before all others. */
  lemma OldestExtraFirst(t: Table, now: int, filter: Filter, answer: seq<Uuid>, c: Uuid, u: Uuid)
    requires DueAnswer(t, now, filter, answer)
    requires c in answer && !MustTake(t, now, filter, c) && CouldTake(t, u) && u !in answer
    ensures CouldTake(t, c)
    ensures var x, y := t[c].lastTask.value.queuedAt, t[u].lastTask.value.queuedAt;
            x.None? || (y.Some? && x.value <= y.value)
  {
    var n := |Stale(t, now, filter.urls)|;
    ListedStaleFirst(t, now, filter, answer);
    assert answer == answer[..n] + answer[n..];
    assert c in answer[n..] && CouldTake(t, c);
    assert u in ExtraPool(t, now, filter.urls) && u !in answer[n..];
  }

  /** A completed external or community configuration. */
  predicate CouldTake(t: Table, u: Uuid) {
    && u in t && Takes(t[u], {External, Community}, None)
    && t[u].lastTask.Some? && t[u].lastTask.value.status == Completed
  }

  lemma ListedStaleFirst(t: Table, now: int, filter: Filter, answer: seq<Uuid>)
    requires DueAnswer(t, now, filter, answer)
    ensures var n := |Stale(t, now, filter.urls)|;
            && (forall i :: 0 <= i < n ==> MustTake(t, now, filter, answer[i]))
            && (forall i :: n <= i < |answer| ==> !MustTake(t, now, filter, answer[i]) && CouldTake(t, answer[i]))
            && (forall u :: MustTake(t, now, filter, u) ==> u in answer)
  {
    var n := |Stale(t, now, filter.urls)|;
    forall u
      ensures u in Stale(t, now, filter.urls) <==> MustTake(t, now, filter, u)
    {
    }
    forall i | 0 <= i < n
      ensures MustTake(t, now, filter, answer[i])
    {
      assert answer[..n][i] in Elements(answer[..n]);
    }
    forall i | n <= i < |answer|
      ensures !MustTake(t, now, filter, answer[i]) && CouldTake(t, answer[i])
    {
      assert answer[n..][i - n] in Elements(answer[n..]);
    }
    DueAnswerIsDistinct(t, now, filter, answer);
  }

  /** The minimum is the share of one run in all snapshotted configurations whose last task did not fail,
      rounded down, and one more. */
  lemma MinimumExactly(t: Table, runs: int)
    requires runs > 0
    ensures var counted := set u | u in t && !t[u].deleted && t[u].snapshot && t[u].lastTask.Some? &&
                                   t[u].lastTask.value.status != Failed;
            (MinimumSnapshotCount(t, runs) - 1) * runs <= |counted| < MinimumSnapshotCount(t, runs) * runs
  {
    var counted := set u | u in t && !t[u].deleted && t[u].snapshot && t[u].lastTask.Some? &&
                           t[u].lastTask.value.status != Failed;
    assert counted == Counted(t) by {
      forall u
        ensures u in counted <==> u in Counted(t)
      {
      }
    }
    var n := |counted|;
    assert n / runs * runs + n % runs == n && (n / runs + 1) * runs == n / runs * runs + runs;
  }

  /** A run with a minimum returns as many as must be taken, or tops up to the minimum as far as possible. */
  lemma RunSizeExactly(t: Table, now: int, urls: Option<set<string>>, runs: int, answer: seq<Uuid>)
    requires DueAnswer(t, now, Filter(urls, Some(runs)), answer) && runs > 0
    ensures (exists u :: u in answer && !MustTake(t, now, Filter(urls, Some(runs)), u)) ==>
              |answer| <= MinimumSnapshotCount(t, runs)
    ensures |answer| < MinimumSnapshotCount(t, runs) ==> forall u :: CouldTake(t, u) ==> u in answer
  {
    var filter := Filter(urls, Some(runs));
    var n := |Stale(t, now, urls)|;
    var extra := answer[n..];
    ListedStaleFirst(t, now, filter, answer);
    if |answer| < MinimumSnapshotCount(t, runs) {
      ElementsSize(extra);
      SubsetSize(Elements(extra), ExtraPool(t, now, urls));
      forall u | CouldTake(t, u)
        ensures u in answer
      {
        assert u in Stale(t, now, urls) || u in ExtraPool(t, now, urls);
        assert u in Elements(extra) ==> u in extra;
      }
    }
  }

  /** Red Hat's are due all together: exactly if one of them, as far as the URL filter goes, was never
      queued or was queued 45 minutes ago or earlier. */
  lemma RedHatDueExactly(t: Table, now: int, urls: Option<set<string>>, redHat: seq<Uuid>, u: Uuid)
    requires IsListing(DueRedHat(t, now, urls), redHat)
    ensures u in redHat <==>
              && u in t && Takes(t[u], {RedHat}, urls)
              && exists v :: v in t && Takes(t[v], {RedHat}, urls) && IsOldForRedHat(t[v], now)
  {
    assert u in redHat <==> u in Elements(redHat);
    forall v
      ensures v in Snapshottable(t, {RedHat}, urls) <==> v in t && Takes(t[v], {RedHat}, urls)
    {
    }
  }

  predicate IsOldForRedHat(row: Row, now: int) {
    match row.lastTask
    case None => true
    case Some(task) => task.queuedAt.Some? && task.queuedAt.value <= now - 2_700_000_000
  }

  /** Failed configurations are retried at once if they are Red Hat's or community ones, and otherwise 23
      hours after they were queued and while they have failed less than ten times. Read as intended, only
      those that take snapshots are; read literally, the latter kind is either way. */
  lemma FailedExactly(g: Grouping, t: Table, now: int, failed: seq<Uuid>, u: Uuid)
    requires IsListing(FailedToRetry(g, t, now), failed)
    ensures u in failed <==>
              && u in t && !t[u].deleted && t[u].lastTask.Some? && t[u].lastTask.value.status == Failed
              && var task := t[u].lastTask.value;
              var waited := task.queuedAt.Some? && task.queuedAt.value <= now - 82_800_000_000 && t[u].failures < 10;
              || (t[u].snapshot && t[u].origin in {RedHat, Community})
              || (waited && (t[u].snapshot || g == Literal))
  {
    assert u in failed <==> u in Elements(failed);
  }

  /** An unforced run names an external, community or upload configuration at most once. A Red Hat one
      is named at most twice, and twice exactly when its last snapshot failed while Red Hat is due. */
  lemma RunNamesEachAtMostOnce(g: Grouping, t: Table, now: int, filter: Filter, due: seq<Uuid>, redHat: seq<Uuid>,
      failed: seq<Uuid>, u: Uuid)
    requires RunAnswer(g, t, now, filter, due, redHat, failed) && u in t
    ensures t[u].origin != RedHat ==> multiset(due + redHat + failed)[u] <= 1
    ensures t[u].origin == RedHat ==> multiset(due + redHat + failed)[u] <= 2
    ensures t[u].origin == RedHat ==>
              (multiset(due + redHat + failed)[u] == 2 <==>
               u in DueRedHat(t, now, filter.urls) && u in FailedToRetry(g, t, now))
  {
    DueAnswerIsDistinct(t, now, filter, due);
    DistinctCount(due, u);
    DistinctCount(redHat, u);
    DistinctCount(failed, u);
    assert u in redHat <==> u in Elements(redHat);
    assert u in failed <==> u in Elements(failed);
  }

  /** A single stale snapshottable Red Hat configuration brings in every one the URL filter allows. */
  lemma OneStaleRedHatBringsAll(g: Grouping, t: Table, now: int, filter: Filter, due: seq<Uuid>, redHat: seq<Uuid>,
      failed: seq<Uuid>, v: Uuid)
    requires RunAnswer(g, t, now, filter, due, redHat, failed)
    requires v in Snapshottable(t, {RedHat}, filter.urls)
    requires QueuedBy(t[v], now - RED_HAT_STALE_AFTER) || t[v].lastTask.None?
    ensures forall u :: u in Snapshottable(t, {RedHat}, filter.urls) ==> u in due + redHat + failed
  {
    forall u | u in Snapshottable(t, {RedHat}, filter.urls)
      ensures u in redHat
    {
      assert u in Elements(redHat);
    }
  }

  /** The two readings differ exactly on failed configurations within the limit whose snapshots were switched off. */
  lemma GroupingsDiffer(t: Table, now: int)
    ensures FailedToRetry(Literal, t, now) - FailedToRetry(Intended, t, now) ==
            set u | u in t && !t[u].deleted && !t[u].snapshot && RetriesWithinLimit(t[u], now)
    ensures FailedToRetry(Intended, t, now) <= FailedToRetry(Literal, t, now)
  {
  }

  /** An oldest row of a pool. */
  lemma {:induction false} OldestOf(t: Table, pool: set<Uuid>) returns (m: Uuid)
    requires pool != {}
    ensures m in pool && forall u :: u in pool ==> NotLater(t, m, u)
    decreases pool
  {
    m := Member(pool);
    if pool != {m} {
      var k := OldestOf(t, pool - {m});
      assert forall u :: u in pool ==> u == m || u in pool - {m};
      if !NotLater(t, m, k) {
        m := k;
      }
    }
  }

  lemma OldestThenRest(t: Table, pool: set<Uuid>, count: int, m: Uuid, rest: seq<Uuid>)
    requires count > 0 && m in pool && (forall u :: u in pool ==> NotLater(t, m, u))
    requires OldestFirst(t, pool - {m}, count - 1, rest)
    ensures OldestFirst(t, pool, count, [m] + rest)
  {
    var picks := [m] + rest;
    assert Elements(picks) == {m} + Elements(rest);
    assert forall i :: 0 <= i < |rest| ==> rest[i] in Elements(rest);
    ConcatIsDistinct([m], rest);
    forall p, u | p in picks && u in pool && u !in picks
      ensures NotLater(t, p, u)
    {
      assert u in pool - {m} && u !in rest;
    }
  }

  lemma {:induction false} OldestFirstExists(t: Table, pool: set<Uuid>, count: int) returns (picks: seq<Uuid>)
    requires count >= 0
    ensures OldestFirst(t, pool, count, picks)
    decreases pool
  {
    picks := [];
    if pool != {} && count > 0 {
      var m := OldestOf(t, pool);
      var rest := OldestFirstExists(t, pool - {m}, count - 1);
      OldestThenRest(t, pool, count, m, rest);
      picks := [m] + rest;
    }
  }

  lemma DueAnswerFrom(t: Table, now: int, filter: Filter, stale: seq<Uuid>, extra: seq<Uuid>)
    requires IsListing(Stale(t, now, filter.urls), stale)
    requires OldestFirst(t, ExtraPool(t, now, filter.urls), Shortfall(t, now, filter), extra)
    ensures DueAnswer(t, now, filter, stale + extra)
  {
    ElementsSize(stale);
    assert (stale + extra)[..|stale|] == stale && (stale + extra)[|stale|..] == extra;
  }

  /** Every run has an answer, so what is proved of all answers is not proved of none. */
  lemma RunAnswerExists(g: Grouping, t: Table, now: int, filter: Filter)
    returns (due: seq<Uuid>, redHat: seq<Uuid>, failed: seq<Uuid>)
    ensures RunAnswer(g, t, now, filter, due, redHat, failed)
  {
    var stale := ListingExists(Stale(t, now, filter.urls));
    var extra := OldestFirstExists(t, ExtraPool(t, now, filter.urls), Shortfall(t, now, filter));
    due := stale + extra;
    DueAnswerFrom(t, now, filter, stale, extra);
    redHat := ListingExists(DueRedHat(t, now, filter.urls));
    failed := ListingExists(FailedToRetry(g, t, now));
  }
}
