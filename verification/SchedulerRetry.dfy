/** Retries: how often a failing snapshot is attempted again by unforced runs. */
module SchedulerRetry {
  import opened Basics
  import opened Scheduler

  /** The table, and for each configuration the tasks in flight that its row no longer refers to. */
  datatype World = World(table: Table, loose: multiset<Uuid>)

  /** What happens. A run enqueues a task for every configuration it returns, except those skipped for
      having an active task. A task in flight ends, and its handler has told the counter so or not: a
      handler that stops early, finds no configuration or is cut off counts nothing, and neither does
      one that was canceled, whose task may end as completed. A task may also be queued again instead of
      ended, at a new time if it is the row's, after its handler has told the counter or not. The
      reference to the last task is cleared, which leaves a task in flight loose. Or rows are edited by
      other operations, which touch neither the counter nor the reference of an existing row and create
      rows without either. Deletion is for good, and identifiers are not used again. */
  datatype Event =
    | Run(now: int, filter: Filter, due: seq<Uuid>, redHat: seq<Uuid>, failed: seq<Uuid>, skipped: set<Uuid>)
    | Ended(u: Uuid, outcome: Status, counted: bool)
    | LooseEnded(u: Uuid, outcome: Status, counted: bool)
    | QueuedAgain(u: Uuid, outcome: Status, counted: bool, time: Option<int>)
    | Cleared(u: Uuid)
    | Edited(table: Table)

  predicate InFlight(row: Row) {
    Has(row, Pending) || Has(row, Running)
  }

  predicate Final(outcome: Status) {
    outcome in {Completed, Failed, Canceled}
  }

  predicate Retriable(row: Row) {
    row.origin !in {RedHat, Community}
  }

  /** An edit may change anything about a row but what the scheduler keeps there. */
  predicate EditedRow(row: Row, row': Row) {
    && row'.failures == row.failures && row'.lastTask == row.lastTask && row'.origin == row.origin
    && (row.deleted ==> row'.deleted)
  }

  ghost predicate Happens(g: Grouping, w: World, e: Event) {
    match e
    case Run(now, filter, due, redHat, failed, _) => RunAnswer(g, w.table, now, filter, due, redHat, failed)
    case Ended(u, outcome, _) => u in w.table && InFlight(w.table[u]) && Final(outcome)
    case LooseEnded(u, outcome, _) => w.loose[u] > 0 && Final(outcome)
    case QueuedAgain(u, outcome, _, time) =>
      u in w.table && Final(outcome) && if time.Some? then InFlight(w.table[u]) else w.loose[u] > 0
    case Cleared(u) => u in w.table
    case Edited(table) =>
      && w.table.Keys <= table.Keys
      && forall u :: u in table ==>
                    if u in w.table then EditedRow(w.table[u], table[u])
                    else table[u].failures == 0 && table[u].lastTask.None?
  }

  /** Success resets the counter of a row that is not deleted; anything else that is counted increments it. */
  function Counter(row: Row, outcome: Status, counted: bool): int {
    if row.deleted || !counted then row.failures
    else if outcome == Completed then 0 else row.failures + 1
  }

  function CountedRow(row: Row, outcome: Status, counted: bool): Row {
    row.(failures := Counter(row, outcome, counted))
  }

  function EndedRow(row: Row, outcome: Status, counted: bool): Row {
    var task := if row.lastTask.Some? then row.lastTask.value else Task(outcome, None);
    CountedRow(row, outcome, counted).(lastTask := Some(task.(status := outcome)))
  }

  function Enqueued(t: Table, now: int, returned: seq<Uuid>, skipped: set<Uuid>): Table {
    map u | u in t ::
      if u in returned && u !in skipped then t[u].(lastTask := Some(Task(Pending, Some(now)))) else t[u]
  }

  function Apply(w: World, e: Event): World {
    match e
    case Run(now, _, due, redHat, failed, skipped) =>
      w.(table := Enqueued(w.table, now, due + redHat + failed, skipped))
    case Ended(u, outcome, counted) =>
      if u in w.table then w.(table := w.table[u := EndedRow(w.table[u], outcome, counted)]) else w
    case LooseEnded(u, outcome, counted) =>
      if u !in w.table then w else
      World(w.table[u := CountedRow(w.table[u], outcome, counted)], w.loose - multiset{u})
    case QueuedAgain(u, outcome, counted, time) =>
      if u !in w.table then w else
      var row := CountedRow(w.table[u], outcome, counted);
      w.(table := w.table[u := if time.Some? then row.(lastTask := Some(Task(Pending, time))) else row])
    case Cleared(u) =>
      if u !in w.table then w else
      World(w.table[u := w.table[u].(lastTask := None)],
            if InFlight(w.table[u]) then w.loose + multiset{u} else w.loose)
    case Edited(table) => w.(table := table)
  }

  function After(t: Table, events: seq<Event>): World
    decreases |events|
  {
    if events == [] then World(t, multiset{}) else Apply(After(t, events[..|events| - 1]), events[|events| - 1])
  }

  ghost predicate Trace(g: Grouping, t: Table, events: seq<Event>)
    decreases |events|
  {
    events == [] || (var front := events[..|events| - 1];
                     Trace(g, t, front) && Happens(g, After(t, front), events[|events| - 1]))
  }

  /** What each event does to the task of a row. */
  lemma TaskAfter(w: World, e: Event, u: Uuid)
    requires u in w.table && !e.Edited? && (e.Ended? && e.u == u ==> InFlight(w.table[u]))
    ensures var row, row' := w.table[u], Apply(w, e).table[u];
            match e
            case Run(now, _, due, redHat, failed, skipped) =>
              row' == if (u in due || u in redHat || u in failed) && u !in skipped
                      then row.(lastTask := Some(Task(Pending, Some(now)))) else row
            case Ended(v, outcome, _) =>
              row'.lastTask == if v == u then Some(Task(outcome, row.lastTask.value.queuedAt)) else row.lastTask
            case QueuedAgain(v, _, _, time) =>
              row'.lastTask == if v == u && time.Some? then Some(Task(Pending, time)) else row.lastTask
            case Cleared(v) => row' == if v == u then row.(lastTask := None) else row
            case LooseEnded(_, _, _) => row'.lastTask == row.lastTask
  {
  }

  /** Which ends and edits are admitted, and what an edit and a clearing do. */
  lemma EventsAdmitted(g: Grouping, w: World, e: Event)
    ensures e.Ended? && e.outcome in {Completed, Failed, Canceled} ==>
              (Happens(g, w, e) <==>
               && e.u in w.table && w.table[e.u].lastTask.Some?
               && w.table[e.u].lastTask.value.status in {Pending, Running})
    ensures e.LooseEnded? && e.outcome in {Completed, Failed, Canceled} ==> (Happens(g, w, e) <==> w.loose[e.u] > 0)
    ensures e.Cleared? ==> (Happens(g, w, e) <==> e.u in w.table)
    ensures e.Cleared? && Happens(g, w, e) ==>
              Apply(w, e).loose ==
              if w.table[e.u].lastTask.Some? && w.table[e.u].lastTask.value.status in {Pending, Running}
              then w.loose + multiset{e.u} else w.loose
    ensures e.Edited? ==> Apply(w, e) == World(e.table, w.loose)
    ensures e.Edited? && e.table.Keys == w.table.Keys &&
            (forall u :: u in w.table ==>
               && e.table[u].failures == w.table[u].failures && e.table[u].lastTask == w.table[u].lastTask
               && e.table[u].origin == w.table[u].origin && e.table[u].deleted == w.table[u].deleted) ==>
              Happens(g, w, e)
  {
  }

  /** What the counter should say after one more event: it starts anew with a success that was counted,
      and goes up by one with everything else that was. */
  function NextScore(score: int, e: Event, u: Uuid): int {
    if !(e.Ended? || e.LooseEnded? || e.QueuedAgain?) || e.u != u || !e.counted then score
    else if e.outcome == Completed then 0 else score + 1
  }

  function Score(initial: int, events: seq<Event>, u: Uuid): int
    decreases |events|
  {
    if events == [] then initial else NextScore(Score(initial, events[..|events| - 1], u), events[|events| - 1], u)
  }

  lemma CounterFollows(g: Grouping, w: World, e: Event, u: Uuid, score: int)
    requires Happens(g, w, e) && u in w.table && (!w.table[u].deleted ==> w.table[u].failures == score)
    ensures u in Apply(w, e).table
    ensures !Apply(w, e).table[u].deleted ==> Apply(w, e).table[u].failures == NextScore(score, e, u)
  {
  }

  /** And it does, for every row that was not deleted meanwhile. */
  lemma {:induction false} CounterIsExact(g: Grouping, t: Table, events: seq<Event>, u: Uuid)
    requires Trace(g, t, events) && u in t
    ensures u in After(t, events).table
    ensures !After(t, events).table[u].deleted ==> After(t, events).table[u].failures == Score(t[u].failures, events, u)
  {
    if events != [] {
      var front, e := events[..|events| - 1], events[|events| - 1];
      CounterIsExact(g, t, front, u);
      CounterFollows(g, After(t, front), e, u, Score(t[u].failures, front, u));
    }
  }

  /** What a history did to a configuration: the tasks that ended failed since its last success, the
      clearings of its task reference, the failed tasks that were not counted, and the times the counter
      was incremented for a task that was queued again. */
  datatype Tally = Tally(failures: nat, clearings: nat, misses: nat, repeats: nat)

  function Recorded(tally: Tally, e: Event, u: Uuid): Tally {
    match e
    case Cleared(v) => if v == u then tally.(clearings := tally.clearings + 1) else tally
    case QueuedAgain(v, outcome, counted, _) =>
      if v != u || !counted then tally
      else if outcome == Completed then tally.(failures := 0) else tally.(repeats := tally.repeats + 1)
    case Ended(v, outcome, counted) => if v == u then RecordedEnd(tally, outcome, counted) else tally
    case LooseEnded(v, outcome, counted) => if v == u then RecordedEnd(tally, outcome, counted) else tally
    case _ => tally
  }

  /** Only a counted success starts a new row of failures. */
  function RecordedEnd(tally: Tally, outcome: Status, counted: bool): Tally {
    match outcome
    case Completed => if counted then tally.(failures := 0) else tally
    case Failed => tally.(failures := tally.failures + 1, misses := tally.misses + if counted then 0 else 1)
    case _ => tally
  }

  function TallyOf(events: seq<Event>, u: Uuid): Tally
    decreases |events|
  {
    if events == [] then Tally(0, 0, 0, 0) else Recorded(TallyOf(events[..|events| - 1], u), events[|events| - 1], u)
  }

  /** How many events are of a kind. */
  function Many(events: seq<Event>, kind: Event -> bool): nat {
    |set i | 0 <= i < |events| && kind(events[i])|
  }

  lemma OneMore(events: seq<Event>, kind: Event -> bool)
    requires events != []
    ensures Many(events, kind) == Many(events[..|events| - 1], kind) + if kind(events[|events| - 1]) then 1 else 0
  {
    var last := |events| - 1;
    var all := set i | 0 <= i < |events| && kind(events[i]);
    var before := set i | 0 <= i < last && kind(events[..last][i]);
    assert all == before + if kind(events[last]) then {last} else {};
  }

  function ClearingOf(u: Uuid): Event -> bool {
    (e: Event) => e.Cleared? && e.u == u
  }

  function FailureOf(u: Uuid): Event -> bool {
    (e: Event) => (e.Ended? || e.LooseEnded?) && e.u == u && e.outcome == Failed
  }

  function MissOf(u: Uuid): Event -> bool {
    (e: Event) => (e.Ended? || e.LooseEnded?) && e.u == u && e.outcome == Failed && !e.counted
  }

  function RepeatOf(u: Uuid): Event -> bool {
    (e: Event) => e.QueuedAgain? && e.u == u && e.counted && e.outcome != Completed
  }

  function SuccessOf(u: Uuid): Event -> bool {
    (e: Event) => (e.Ended? || e.LooseEnded? || e.QueuedAgain?) && e.u == u && e.counted && e.outcome == Completed
  }

  /** The tally counts events. */
  lemma {:induction false} TallyExactly(events: seq<Event>, u: Uuid)
    ensures TallyOf(events, u).clearings == Many(events, ClearingOf(u))
    ensures TallyOf(events, u).misses == Many(events, MissOf(u))
    ensures TallyOf(events, u).repeats == Many(events, RepeatOf(u))
  {
    if events != [] {
      TallyExactly(events[..|events| - 1], u);
      OneMore(events, ClearingOf(u));
      OneMore(events, MissOf(u));
      OneMore(events, RepeatOf(u));
    }
  }

  lemma FailuresFollow(tally: Tally, e: Event, u: Uuid)
    ensures Recorded(tally, e, u).failures ==
            if SuccessOf(u)(e) then 0 else if FailureOf(u)(e) then tally.failures + 1 else tally.failures
  {
  }

  /** The failures in a row are the failed tasks since the last success that was counted. */
  lemma {:induction false} FailuresExactly(events: seq<Event>, u: Uuid) returns (start: int)
    ensures 0 <= start <= |events| && (start > 0 ==> SuccessOf(u)(events[start - 1]))
    ensures forall i :: start <= i < |events| ==> !SuccessOf(u)(events[i])
    ensures TallyOf(events, u).failures == Many(events[start..], FailureOf(u))
  {
    if events == [] {
      start := 0;
    } else {
      var last := |events| - 1;
      start := FailuresExactly(events[..last], u);
      FailuresFollow(TallyOf(events[..last], u), events[last], u);
      if SuccessOf(u)(events[last]) {
        start := |events|;
      } else {
        var tail := events[start..];
        OneMore(tail, FailureOf(u));
        assert tail[..|tail| - 1] == events[..last][start..] && tail[|tail| - 1] == events[last];
      }
    }
  }

  /** A row whose last task has neither failed nor been canceled may see one more failure. */
  function Outlook(row: Row): int {
    if Has(row, Failed) || Has(row, Canceled) then 0 else 1
  }

  /** Failures so far, those that loose tasks may add and the next attempt stay within the limit plus the
      clearings and what is allowed for otherwise. */
  predicate WithinBudget(w: World, u: Uuid, count: int, clearings: int, slack: int)
    requires u in w.table
  {
    w.loose[u] <= clearings && count + w.loose[u] + Outlook(w.table[u]) <= FAILED_SNAPSHOT_LIMIT + clearings + slack
  }

  /** The counter starts within the limit, and below it if an attempt may follow. */
  predicate StartsWithin(t: Table, u: Uuid) {
    u in t ==> t[u].failures + Outlook(t[u]) <= FAILED_SNAPSHOT_LIMIT
  }

  /** What a history keeps of a configuration: unless it is deleted, the counter misses no more of the
      failures in a row than were not counted; and both are within budget. */
  ghost predicate Kept(t: Table, w: World, u: Uuid, tally: Tally) {
    if u !in w.table then tally.failures == 0 && tally.clearings == 0 && w.loose[u] == 0 && u !in t
    else Retriable(w.table[u]) ==>
      && 0 <= w.table[u].failures
      && (!w.table[u].deleted ==> tally.failures <= w.table[u].failures + tally.misses)
      && WithinBudget(w, u, tally.failures, tally.clearings, tally.misses)
      && (StartsWithin(t, u) ==> WithinBudget(w, u, w.table[u].failures, tally.clearings, tally.repeats))
  }

  lemma DueIsCompletedOrNew(t: Table, now: int, filter: Filter, due: seq<Uuid>, u: Uuid)
    requires DueAnswer(t, now, filter, due) && u in due
    ensures u in t && (Has(t[u], Completed) || t[u].lastTask.None?)
  {
    var n := |Stale(t, now, filter.urls)|;
    if u in due[..n] {
      assert u in Elements(due[..n]);
    } else {
      assert u in due[n..];
      assert u in Elements(due[n..]);
    }
  }

  /** A run names a row that is not retried without limit only if an attempt is allowed for it. */
  lemma ReturnedMayBeAttempted(g: Grouping, w: World, e: Event, u: Uuid)
    requires e.Run? && Happens(g, w, e) && u in w.table && Retriable(w.table[u]) && u in e.due + e.redHat + e.failed
    ensures var row := w.table[u];
            && (Outlook(row) == 1 || (!row.deleted && row.failures < FAILED_SNAPSHOT_LIMIT))
            && !InFlight(row)
  {
    assert u !in Elements(e.redHat);
    if u in e.due {
      DueIsCompletedOrNew(w.table, e.now, e.filter, e.due, u);
    } else {
      assert u in Elements(e.failed);
    }
  }

  lemma RunKeeps(g: Grouping, t: Table, w: World, e: Event, u: Uuid, tally: Tally)
    requires e.Run? && Happens(g, w, e) && Kept(t, w, u, tally)
    ensures Kept(t, Apply(w, e), u, tally)
  {
    if u in w.table && Retriable(w.table[u]) && u in e.due + e.redHat + e.failed {
      ReturnedMayBeAttempted(g, w, e, u);
    }
  }

  lemma EndKeeps(g: Grouping, t: Table, w: World, e: Event, u: Uuid, tally: Tally)
    requires e.Ended? && Happens(g, w, e) && Kept(t, w, u, tally)
    ensures Kept(t, Apply(w, e), u, Recorded(tally, e, u))
  {
    if e.u == u {
      assert Outlook(w.table[u]) == 1;
    }
  }

  lemma LooseEndKeeps(g: Grouping, t: Table, w: World, e: Event, u: Uuid, tally: Tally)
    requires e.LooseEnded? && Happens(g, w, e) && Kept(t, w, u, tally)
    ensures Kept(t, Apply(w, e), u, Recorded(tally, e, u))
  {
    if e.u == u && u in w.table {
      assert Apply(w, e).loose[u] == w.loose[u] - 1;
      assert Outlook(Apply(w, e).table[u]) == Outlook(w.table[u]);
    }
  }

  lemma OtherEventKeeps(g: Grouping, t: Table, w: World, e: Event, u: Uuid, tally: Tally)
    requires (e.QueuedAgain? || e.Cleared? || e.Edited?) && Happens(g, w, e) && Kept(t, w, u, tally)
    ensures Kept(t, Apply(w, e), u, Recorded(tally, e, u))
  {
  }

  lemma {:induction false} KeptOverHistory(g: Grouping, t: Table, events: seq<Event>, u: Uuid)
    requires Trace(g, t, events) && forall v :: v in t ==> t[v].failures >= 0
    ensures Kept(t, After(t, events), u, TallyOf(events, u))
  {
    if events != [] {
      var front, e := events[..|events| - 1], events[|events| - 1];
      KeptOverHistory(g, t, front, u);
      match e
      case Run(_, _, _, _, _, _) => RunKeeps(g, t, After(t, front), e, u, TallyOf(front, u));
      case Ended(_, _, _) => EndKeeps(g, t, After(t, front), e, u, TallyOf(front, u));
      case LooseEnded(_, _, _) => LooseEndKeeps(g, t, After(t, front), e, u, TallyOf(front, u));
      case _ => OtherEventKeeps(g, t, After(t, front), e, u, TallyOf(front, u));
    }
  }

  /** Over every history, whatever is cleared or not counted meanwhile: the counter of a row that is not
      deleted falls short of the failures in a row by no more than were not counted; and one that starts
      within the limit, or below it if an attempt may follow, stays within it, as far as the reference is
      not cleared and tasks are not queued again. */
  lemma CounterCountsFailures(g: Grouping, t: Table, events: seq<Event>, u: Uuid)
    requires Trace(g, t, events) && forall v :: v in t ==> t[v].failures >= 0
    requires u in After(t, events).table && After(t, events).table[u].origin !in {RedHat, Community}
    ensures var row, tally := After(t, events).table[u], TallyOf(events, u);
            && (!row.deleted ==> tally.failures <= row.failures + tally.misses)
            && ((u in t ==>
                   t[u].failures < 10 || (t[u].failures == 10 && (Has(t[u], Failed) || Has(t[u], Canceled)))) ==>
                  row.failures <= 10 + tally.clearings + tally.repeats)
  {
    KeptOverHistory(g, t, events, u);
  }

  /** In every history of unforced runs, an external or upload configuration sees at most
      FAILED_SNAPSHOT_LIMIT failed tasks in a row, one more for each time the reference to its task was
      cleared, and one more for each failed task that was not counted, under either reading of the query. */
  lemma RetriesAreBounded(g: Grouping, t: Table, events: seq<Event>, u: Uuid)
    requires Trace(g, t, events) && forall v :: v in t ==> t[v].failures >= 0
    requires u in After(t, events).table && Retriable(After(t, events).table[u])
    ensures var tally := TallyOf(events, u);
            tally.failures <= FAILED_SNAPSHOT_LIMIT + tally.clearings + tally.misses
  {
    KeptOverHistory(g, t, events, u);
  }

  /** One external configuration whose last task failed at `time`, with a counter. */
  function FailedAt(time: int, failures: int): Table {
    map[0 := Row("", External, true, false, Some(Task(Failed, Some(time))), failures)]
  }

  lemma OnlyRetried(g: Grouping, time: int, failures: int)
    requires failures < FAILED_SNAPSHOT_LIMIT
    ensures RunAnswer(g, FailedAt(time, failures), time + STALE_AFTER, Filter(None, None), [], [], [0])
  {
    var t, now := FailedAt(time, failures), time + STALE_AFTER;
    assert Stale(t, now, None) == {} && ExtraPool(t, now, None) == {} && DueRedHat(t, now, None) == {};
    assert FailedToRetry(g, t, now) == {0} == Elements([0]);
    assert Elements<Uuid>([]) == {};
  }

  lemma OneMoreEvent(g: Grouping, t: Table, front: seq<Event>, e: Event, u: Uuid)
    requires Trace(g, t, front) && Happens(g, After(t, front), e)
    ensures Trace(g, t, front + [e]) && After(t, front + [e]) == Apply(After(t, front), e)
    ensures TallyOf(front + [e], u) == Recorded(TallyOf(front, u), e, u)
  {
    assert (front + [e])[..|front|] == front;
  }

  function Retry(time: int): Event {
    Run(time + STALE_AFTER, Filter(None, None), [], [], [0], {})
  }

  lemma RetryFails(w: World, time: int, failures: int, counted: bool)
    requires w.table == FailedAt(time, failures)
    ensures var mid := Apply(w, Retry(time));
            && 0 in mid.table && InFlight(mid.table[0])
            && Apply(mid, Ended(0, Failed, counted)).table ==
               FailedAt(time + STALE_AFTER, if counted then failures + 1 else failures)
  {
    var mid := Apply(w, Retry(time));
    assert 0 in [] + [] + [0];
    assert mid.table[0] == w.table[0].(lastTask := Some(Task(Pending, Some(time + STALE_AFTER))));
  }

  /** A history of failures in a row, so many counted and so many not, and nothing else. */
  ghost predicate FailsInARow(g: Grouping, events: seq<Event>, time: int, misses: nat, counted: nat) {
    && Trace(g, FailedAt(0, 0), events)
    && After(FailedAt(0, 0), events).table == FailedAt(time, counted)
    && TallyOf(events, 0) == Tally(misses + counted, 0, misses, 0)
  }

  lemma NothingFailedYet(g: Grouping)
    ensures FailsInARow(g, [], 0, 0, 0)
  {
  }

  /** A run retries the configuration, and its task fails again, counted or not. */
  lemma RetriedOnce(g: Grouping, front: seq<Event>, before: int, misses: nat, failures: nat, counted: bool)
    returns (events: seq<Event>, time: int)
    requires FailsInARow(g, front, before, misses, failures) && failures < FAILED_SNAPSHOT_LIMIT
    ensures counted ==> FailsInARow(g, events, time, misses, failures + 1)
    ensures !counted ==> FailsInARow(g, events, time, misses + 1, failures)
  {
    var t, end := FailedAt(0, 0), Ended(0, Failed, counted);
    OnlyRetried(g, before, failures);
    RetryFails(After(t, front), before, failures, counted);
    OneMoreEvent(g, t, front, Retry(before), 0);
    OneMoreEvent(g, t, front + [Retry(before)], end, 0);
    events, time := front + [Retry(before)] + [end], before + STALE_AFTER;
  }

  ghost predicate CanFail(g: Grouping, misses: nat, counted: nat) {
    exists events, time :: FailsInARow(g, events, time, misses, counted)
  }

  lemma CanFailAgain(g: Grouping, misses: nat, counted: nat)
    requires CanFail(g, misses, counted) && counted < FAILED_SNAPSHOT_LIMIT
    ensures CanFail(g, misses + 1, counted) && CanFail(g, misses, counted + 1)
  {
    var front, before :| FailsInARow(g, front, before, misses, counted);
    var missed, time := RetriedOnce(g, front, before, misses, counted, false);
    var failed, time' := RetriedOnce(g, front, before, misses, counted, true);
  }

  /** Counting up in either direction below a limit. */
  lemma {:induction false} Climb(p: (nat, nat) -> bool, limit: nat, a: nat, b: nat)
    requires p(0, 0) && limit > 0 && b <= limit
    requires forall x: nat, y: nat :: p(x, y) && y < limit ==> p(x + 1, y) && p(x, y + 1)
    ensures p(a, b)
    decreases a + b
  {
    if b > 0 {
      Climb(p, limit, a, b - 1);
      assert p(a, b - 1 + 1);
    } else if a > 0 {
      Climb(p, limit, a - 1, 0);
      assert p(a - 1 + 1, 0);
    }
  }

  /** The bound is reached, whatever the number of failures that are not counted; with no limit on those
      there is none on the failures in a row. */
  lemma BoundIsReached(g: Grouping, misses: nat, counted: nat)
    requires counted <= 10
    ensures exists events :: && Trace(g, FailedAt(0, 0), events)
                             && TallyOf(events, 0) == Tally(misses + counted, 0, misses, 0)
  {
    var p: (nat, nat) -> bool := (x: nat, y: nat) => CanFail(g, x, y);
    NothingFailedYet(g);
    forall x: nat, y: nat | p(x, y) && y < FAILED_SNAPSHOT_LIMIT
      ensures p(x + 1, y) && p(x, y + 1)
    {
      CanFailAgain(g, x, y);
    }
    Climb(p, FAILED_SNAPSHOT_LIMIT, misses, counted);
    assert CanFail(g, misses, counted);
    var events, time :| FailsInARow(g, events, time, misses, counted);
  }

  /** At the limit a failed configuration is in no answer, at any time, until its task reference is
      cleared: then it is due at once, whatever its counter says. */
  lemma ClearingTheReferenceRestartsRetries(g: Grouping, t: Table, now: int, filter: Filter, due: seq<Uuid>,
      redHat: seq<Uuid>, failed: seq<Uuid>, u: Uuid)
    requires RunAnswer(g, t, now, filter, due, redHat, failed) && filter.urls.None?
    requires u in Snapshottable(t, {External}, None) && t[u].failures >= FAILED_SNAPSHOT_LIMIT
    ensures Has(t[u], Failed) ==> u !in due + redHat + failed
    ensures t[u].lastTask.None? ==> u in due
  {
    DueAnswerIsDistinct(t, now, filter, due);
    assert u !in Elements(redHat);
    assert u in failed ==> u in Elements(failed);
  }

  /** A failed configuration with snapshots switched on is retried without limit if it is Red Hat's or
      community, and otherwise exactly while it is below the limit and a full interval has passed. */
  lemma WhenFailedIsRetried(g: Grouping, t: Table, now: int, filter: Filter, due: seq<Uuid>, redHat: seq<Uuid>,
      failed: seq<Uuid>, u: Uuid)
    requires RunAnswer(g, t, now, filter, due, redHat, failed)
    requires u in t && !t[u].deleted && t[u].snapshot && Has(t[u], Failed) && t[u].origin != RedHat
    ensures u in due + redHat + failed <==>
              || t[u].origin == Community
              || (QueuedBy(t[u], now - STALE_AFTER) && t[u].failures < FAILED_SNAPSHOT_LIMIT)
  {
    DueAnswerIsDistinct(t, now, filter, due);
    assert u !in Elements(redHat);
    assert u in failed <==> u in Elements(failed);
  }
}
