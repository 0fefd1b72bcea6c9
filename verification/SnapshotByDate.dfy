/** Selection of one snapshot per repository for a date (pkg/dao/snapshots.go). */
module SnapshotByDate {
  import opened Basics
  import opened Publishing
  import opened Visibility

  /** Snapshots are stamped with microseconds; the selection compares whole seconds. */
  const TICKS := 1_000_000
  const DAY := 86_400

  function Second(tick: int): int {
    tick / TICKS
  }

  function Candidates(db: Db, viewer: Org, rcs: set<Uuid>): (q: set<Uuid>)
    ensures q <= db.snapshots.Keys
  {
    set s | s in db.snapshots && Readable(db, viewer, s) && db.snapshots[s].config in rcs
  }

  function AtOrBefore(db: Db, viewer: Org, rcs: set<Uuid>, date: int): (q: set<Uuid>)
    ensures q <= db.snapshots.Keys
  {
    set s | s in Candidates(db, viewer, rcs) && Second(db.snapshots[s].createdAt) <= date
  }

  function After(db: Db, viewer: Org, rcs: set<Uuid>, date: int): (q: set<Uuid>)
    ensures q <= db.snapshots.Keys
  {
    set s | s in Candidates(db, viewer, rcs) && Second(db.snapshots[s].createdAt) > date
  }

  datatype Direction = NewestFirst | OldestFirst

  predicate Precedes(db: Db, a: Uuid, b: Uuid, dir: Direction)
    requires a in db.snapshots && b in db.snapshots
  {
    if dir == NewestFirst then db.snapshots[a].createdAt >= db.snapshots[b].createdAt
    else db.snapshots[a].createdAt <= db.snapshots[b].createdAt
  }

  ghost predicate OnePerConfig(db: Db, picks: set<Uuid>)
    requires picks <= db.snapshots.Keys
  {
    forall a, b :: a in picks && b in picks && db.snapshots[a].config == db.snapshots[b].config ==> a == b
  }

  lemma OnePerConfigGrows(db: Db, rest: set<Uuid>, first: Uuid)
    requires rest <= db.snapshots.Keys && first in db.snapshots && OnePerConfig(db, rest)
    requires forall a :: a in rest ==> db.snapshots[a].config != db.snapshots[first].config
    ensures OnePerConfig(db, rest + {first})
  {
  }

  /** Some pick of the same configuration precedes `s` or equals it. */
  ghost predicate Represented(db: Db, picks: set<Uuid>, s: Uuid, dir: Direction)
    requires s in db.snapshots && picks <= db.snapshots.Keys
  {
    exists p :: p in picks && db.snapshots[p].config == db.snapshots[s].config && Precedes(db, p, s, dir)
  }

  /** `picks` is an answer to a DISTINCT ON query over `q`: one row per configuration, first in the
      given direction, with ties broken in any way. */
  ghost predicate DistinctOn(db: Db, q: set<Uuid>, dir: Direction, picks: set<Uuid>)
    requires q <= db.snapshots.Keys
  {
    && picks <= q
    && OnePerConfig(db, picks)
    && (forall s {:trigger Represented(db, picks, s, dir)} :: s in q ==> Represented(db, picks, s, dir))
  }

  /** The three queries: the newest before, the oldest after, and the oldest of the union. */
  ghost predicate Selection(db: Db, viewer: Org, rcs: set<Uuid>, date: int, before: set<Uuid>, after: set<Uuid>,
      chosen: set<Uuid>) {
    && DistinctOn(db, AtOrBefore(db, viewer, rcs, date), NewestFirst, before)
    && DistinctOn(db, After(db, viewer, rcs, date), OldestFirst, after)
    && DistinctOn(db, before + after, OldestFirst, chosen)
  }

  /** The plain rule for one configuration: the newest readable snapshot at or before the date if there
      is one, otherwise the oldest readable one. */
  ghost predicate IsChoice(db: Db, viewer: Org, rc: Uuid, date: int, s: Uuid) {
    && s in Candidates(db, viewer, {rc})
    && if AtOrBefore(db, viewer, {rc}, date) != {} then
         && s in AtOrBefore(db, viewer, {rc}, date)
         && forall x :: x in AtOrBefore(db, viewer, {rc}, date) ==>
             db.snapshots[x].createdAt <= db.snapshots[s].createdAt
       else
         forall x :: x in Candidates(db, viewer, {rc}) ==> db.snapshots[s].createdAt <= db.snapshots[x].createdAt
  }

  /** A readable snapshot at or before the date is no newer than the chosen one, which is then such a one too. */
  lemma ChosenWhenSomethingIsBefore(db: Db, viewer: Org, rcs: set<Uuid>, date: int, before: set<Uuid>,
      after: set<Uuid>, chosen: set<Uuid>, s: Uuid, x: Uuid)
    requires Selection(db, viewer, rcs, date, before, after, chosen) && s in chosen
    requires x in AtOrBefore(db, viewer, rcs, date) && db.snapshots[x].config == db.snapshots[s].config
    ensures s in before && db.snapshots[x].createdAt <= db.snapshots[s].createdAt
  {
    assert Represented(db, before, x, NewestFirst);
    var p :| p in before && db.snapshots[p].config == db.snapshots[x].config && Precedes(db, p, x, NewestFirst);
    assert p in before + after;
    assert Represented(db, chosen, p, OldestFirst);
    var c :| c in chosen && db.snapshots[c].config == db.snapshots[p].config && Precedes(db, c, p, OldestFirst);
    assert c == s;
    assert s in before || s in After(db, viewer, rcs, date);
  }

  /** The chosen snapshot is no newer than any one after the date. */
  lemma ChosenIsNoNewerThanAfter(db: Db, viewer: Org, rcs: set<Uuid>, date: int, before: set<Uuid>, after: set<Uuid>,
      chosen: set<Uuid>, s: Uuid, x: Uuid)
    requires Selection(db, viewer, rcs, date, before, after, chosen) && s in chosen
    requires x in After(db, viewer, rcs, date) && db.snapshots[x].config == db.snapshots[s].config
    ensures db.snapshots[s].createdAt <= db.snapshots[x].createdAt
  {
    assert Represented(db, after, x, OldestFirst);
    var p :| p in after && db.snapshots[p].config == db.snapshots[x].config && Precedes(db, p, x, OldestFirst);
    assert p in before + after;
    assert Represented(db, chosen, p, OldestFirst);
    var c :| c in chosen && db.snapshots[c].config == db.snapshots[p].config && Precedes(db, c, p, OldestFirst);
    assert c == s;
  }

  /** Every chosen snapshot follows the plain rule. */
  lemma ChosenFollowsRule(db: Db, viewer: Org, rcs: set<Uuid>, date: int, before: set<Uuid>, after: set<Uuid>,
      chosen: set<Uuid>, s: Uuid)
    requires Selection(db, viewer, rcs, date, before, after, chosen) && s in chosen
    ensures db.snapshots[s].config in rcs && IsChoice(db, viewer, db.snapshots[s].config, date, s)
  {
    var rc := db.snapshots[s].config;
    assert s in Candidates(db, viewer, rcs);
    var earlier := AtOrBefore(db, viewer, {rc}, date);
    forall x | x in earlier
      ensures s in before && db.snapshots[x].createdAt <= db.snapshots[s].createdAt
    {
      assert x in AtOrBefore(db, viewer, rcs, date);
      ChosenWhenSomethingIsBefore(db, viewer, rcs, date, before, after, chosen, s, x);
    }
    if earlier == {} {
      forall x | x in Candidates(db, viewer, {rc})
        ensures db.snapshots[s].createdAt <= db.snapshots[x].createdAt
      {
        assert x !in earlier;
        assert x in After(db, viewer, rcs, date);
        ChosenIsNoNewerThanAfter(db, viewer, rcs, date, before, after, chosen, s, x);
      }
    } else {
      var x := Member(earlier);
      assert s in AtOrBefore(db, viewer, rcs, date);
    }
  }

  /** Exactly one snapshot is chosen for a requested configuration with anything readable, none for others. */
  lemma OneChoicePerConfiguration(db: Db, viewer: Org, rcs: set<Uuid>, date: int, before: set<Uuid>, after: set<Uuid>,
      chosen: set<Uuid>, rc: Uuid)
    requires Selection(db, viewer, rcs, date, before, after, chosen) && rc in rcs
    ensures (exists s :: s in chosen && db.snapshots[s].config == rc) <==> Candidates(db, viewer, {rc}) != {}
    ensures forall a, b :: a in chosen && b in chosen && db.snapshots[a].config == db.snapshots[b].config ==> a == b
  {
    if Candidates(db, viewer, {rc}) != {} {
      var x := Member(Candidates(db, viewer, {rc}));
      if x in AtOrBefore(db, viewer, rcs, date) {
        assert Represented(db, before, x, NewestFirst);
        var p :| p in before && db.snapshots[p].config == rc && Precedes(db, p, x, NewestFirst);
        assert p in before + after && Represented(db, chosen, p, OldestFirst);
      } else {
        assert x in After(db, viewer, rcs, date);
        assert Represented(db, after, x, OldestFirst);
        var p :| p in after && db.snapshots[p].config == rc && Precedes(db, p, x, OldestFirst);
        assert p in before + after && Represented(db, chosen, p, OldestFirst);
      }
    }
    if s :| s in chosen && db.snapshots[s].config == rc {
      ChosenFollowsRule(db, viewer, rcs, date, before, after, chosen, s);
    }
  }

  lemma {:induction false} FirstExists(db: Db, q: set<Uuid>, dir: Direction) returns (m: Uuid)
    requires q != {} && q <= db.snapshots.Keys
    ensures m in q && forall x :: x in q ==> Precedes(db, m, x, dir)
    decreases q
  {
    m := Member(q);
    if q != {m} {
      var k := FirstExists(db, q - {m}, dir);
      assert forall x :: x in q ==> x == m || x in q - {m};
      if !Precedes(db, m, k, dir) {
        m := k;
      }
    }
  }

  function OfConfig(db: Db, q: set<Uuid>, rc: Uuid): set<Uuid> {
    set s | s in q && s in db.snapshots && db.snapshots[s].config == rc
  }

  lemma RepresentedGrows(db: Db, rest: set<Uuid>, picks: set<Uuid>, s: Uuid, dir: Direction)
    requires s in db.snapshots && rest <= picks <= db.snapshots.Keys && Represented(db, rest, s, dir)
    ensures Represented(db, picks, s, dir)
  {
    var p :| p in rest && db.snapshots[p].config == db.snapshots[s].config && Precedes(db, p, s, dir);
    assert p in picks;
  }

  lemma DistinctOnExtends(db: Db, q: set<Uuid>, rc: Uuid, dir: Direction, rest: set<Uuid>, first: Uuid)
    requires q <= db.snapshots.Keys && DistinctOn(db, q - OfConfig(db, q, rc), dir, rest)
    requires first in OfConfig(db, q, rc) && forall x :: x in OfConfig(db, q, rc) ==> Precedes(db, first, x, dir)
    ensures DistinctOn(db, q, dir, rest + {first})
  {
    var picks, group := rest + {first}, OfConfig(db, q, rc);
    assert picks <= q;
    forall s | s in q
      ensures Represented(db, picks, s, dir)
    {
      if s in group {
        assert first in picks && db.snapshots[first].config == db.snapshots[s].config && Precedes(db, first, s, dir);
      } else {
        assert s in q - group;
        assert Represented(db, rest, s, dir);
        RepresentedGrows(db, rest, picks, s, dir);
      }
    }
    assert forall a :: a in rest ==> a in q - group;
    OnePerConfigGrows(db, rest, first);
  }

  lemma {:induction false} DistinctOnExists(db: Db, q: set<Uuid>, dir: Direction) returns (picks: set<Uuid>)
    requires q <= db.snapshots.Keys
    ensures DistinctOn(db, q, dir, picks)
    decreases q
  {
    picks := {};
    if q != {} {
      var x := Member(q);
      var rc := db.snapshots[x].config;
      assert x in OfConfig(db, q, rc);
      var first := FirstExists(db, OfConfig(db, q, rc), dir);
      var rest := DistinctOnExists(db, q - OfConfig(db, q, rc), dir);
      DistinctOnExtends(db, q, rc, dir, rest, first);
      picks := rest + {first};
    }
  }

  /** The queries always have an answer. */
  lemma SelectionExists(db: Db, viewer: Org, rcs: set<Uuid>, date: int)
    returns (before: set<Uuid>, after: set<Uuid>, chosen: set<Uuid>)
    ensures Selection(db, viewer, rcs, date, before, after, chosen)
  {
    before := DistinctOnExists(db, AtOrBefore(db, viewer, rcs, date), NewestFirst);
    after := DistinctOnExists(db, After(db, viewer, rcs, date), OldestFirst);
    chosen := DistinctOnExists(db, before + after, OldestFirst);
  }

  /** What a viewer gets by date from a partner that is neither itself nor shared is live and published. */
  lemma ForeignChoiceIsPublished(db: Db, viewer: Org, rc: Uuid, date: int, s: Uuid)
    requires Inv(db) && rc in db.configs && db.configs[rc].org !in ReadableOrgs(viewer)
    requires IsChoice(db, viewer, rc, date, s)
    ensures s in PublishedOf(db, rc)
  {
    VisibilityAgreement(db, viewer, rc, s);
  }

  /** A later date never selects an earlier snapshot. */
  lemma ChoiceIsMonotone(db: Db, viewer: Org, rc: Uuid, d1: int, d2: int, s1: Uuid, s2: Uuid)
    requires d1 <= d2 && IsChoice(db, viewer, rc, d1, s1) && IsChoice(db, viewer, rc, d2, s2)
    ensures db.snapshots[s1].createdAt <= db.snapshots[s2].createdAt
  {
    if AtOrBefore(db, viewer, {rc}, d1) != {} {
      assert s1 in AtOrBefore(db, viewer, {rc}, d2);
    } else {
      assert s2 in Candidates(db, viewer, {rc});
    }
  }

  /** The plain rule on the stored rows: `s` is readable and, of what was created up to the end of the
      second `date`, the newest; or nothing was, and it is the oldest. */
  lemma ChoiceExactly(db: Db, viewer: Org, rc: Uuid, date: int, s: Uuid)
    ensures IsChoice(db, viewer, rc, date, s) <==>
              && IsCandidate(db, viewer, rc, s)
              && (|| (&& InTime(db, s, date)
                      && forall x :: IsCandidate(db, viewer, rc, x) && InTime(db, x, date) ==>
                                       db.snapshots[x].createdAt <= db.snapshots[s].createdAt)
                  || forall x :: IsCandidate(db, viewer, rc, x) ==>
                                   !InTime(db, x, date) && db.snapshots[s].createdAt <= db.snapshots[x].createdAt)
  {
    forall x
      ensures x in Candidates(db, viewer, {rc}) <==> IsCandidate(db, viewer, rc, x)
      ensures x in AtOrBefore(db, viewer, {rc}, date) <==> IsCandidate(db, viewer, rc, x) && InTime(db, x, date)
    {
    }
  }

  predicate IsCandidate(db: Db, viewer: Org, rc: Uuid, s: Uuid) {
    s in db.snapshots && db.snapshots[s].config == rc && Readable(db, viewer, s)
  }

  predicate InTime(db: Db, s: Uuid, date: int)
    requires s in db.snapshots
  {
    db.snapshots[s].createdAt < (date + 1) * 1_000_000
  }

  // ---------- the "is after" mark

  /** A request's date: the seconds its clock shows, and its zone's offset from UTC in seconds. */
  datatype RequestDate = RequestDate(local: int, offset: int)

  /** The instant used by the selection. */
  function Instant(d: RequestDate): int {
    d.local - d.offset
  }

  /** Midnight after the shown day, but taken as a UTC time. */
  function NextMidnight(d: RequestDate): int {
    (d.local / DAY + 1) * DAY
  }

  predicate IsAfter(db: Db, d: RequestDate, s: Uuid)
    requires s in db.snapshots
  {
    db.snapshots[s].createdAt > NextMidnight(d) * TICKS
  }

  /** The midnight that ends the shown day, on whole days of 86400 seconds. */
  lemma MidnightExactly(d: RequestDate)
    ensures NextMidnight(d) % 86_400 == 0 && d.local < NextMidnight(d) <= d.local + 86_400
  {
    assert (d.local / DAY + 1) * DAY == d.local / DAY * DAY + DAY;
  }

  /** When the instant lies before that midnight, a choice marked as after means that nothing readable
      exists at or before the date. */
  lemma IsAfterMeansNothingBefore(db: Db, viewer: Org, rc: Uuid, d: RequestDate, s: Uuid)
    requires Instant(d) < NextMidnight(d) && IsChoice(db, viewer, rc, Instant(d), s) && IsAfter(db, d, s)
    ensures AtOrBefore(db, viewer, {rc}, Instant(d)) == {}
  {
    assert Second(db.snapshots[s].createdAt) >= NextMidnight(d);
  }

  /** That covers every date given in UTC or in a zone east of it. */
  lemma EasternDatesAreSafe(d: RequestDate)
    requires d.offset >= 0
    ensures Instant(d) < NextMidnight(d)
  {
  }

  /** West of UTC it holds as well unless the clock is within the offset of midnight. For exactly the
      remaining dates a snapshot right after the compared midnight is chosen as one at or before the
      date, and still marked as after it. */
  lemma IsAfterMisleadsOtherwise(d: RequestDate, org: Org) returns (db: Db)
    requires Instant(d) >= NextMidnight(d)
    ensures Inv(db) && 2 in db.snapshots
    ensures IsChoice(db, org, 0, Instant(d), 2) && IsAfter(db, d, 2)
    ensures AtOrBefore(db, org, {0}, Instant(d)) == {2}
  {
    var createdAt := NextMidnight(d) * TICKS + 1;
    assert Second(createdAt) == NextMidnight(d);
    db := Db(map[0 := Config(org, false, 1, false, Some(2))], map[1 := Repository(Upload, false)],
             map[2 := Snapshot(0, createdAt, false, false)]);
    assert Readable(db, org, 2);
  }

  // ---------- the response

  datatype ForDate = ForDate(config: Uuid, snapshot: Option<Uuid>, isAfter: bool)

  /** The configurations of a request that the viewer may ask about. */
  function Askable(db: Db, viewer: Org, rcs: set<Uuid>): set<Uuid> {
    set rc | rc in rcs && LiveConfig(db, rc) &&
        (db.configs[rc].org in ReadableOrgs(viewer) || ForeignPartnerVisible(db, viewer, rc))
  }

  /** A configuration that is not deleted and is one's own, shared, or of a partner that publishes. */
  ghost predicate MayAskAbout(db: Db, viewer: Org, rc: Uuid) {
    && rc in db.configs && !db.configs[rc].deleted
    && (|| db.configs[rc].org in {viewer, RedHatOrg, CommunityOrg}
        || (db.configs[rc].partner && Publishes(db, rc)))
  }

  method IndexOf(db: Db, snaps: seq<Uuid>, rc: Uuid) returns (index: int)
    requires forall i :: 0 <= i < |snaps| ==> snaps[i] in db.snapshots
    ensures -1 <= index < |snaps|
    ensures index == -1 ==> forall i :: 0 <= i < |snaps| ==> db.snapshots[snaps[i]].config != rc
    ensures index != -1 ==> db.snapshots[snaps[index]].config == rc
  {
    for i := 0 to |snaps|
      invariant forall j :: 0 <= j < i ==> db.snapshots[snaps[j]].config != rc
    {
      if db.snapshots[snaps[i]].config == rc {
        return i;
      }
    }
    return -1;
  }

  /** One entry per requested configuration, in order; the request is refused unless it names distinct
      configurations the viewer may ask about. `snaps` is any order in which the selection is returned. */
  method FetchByDate(db: Db, viewer: Org, rcs: seq<Uuid>, d: RequestDate, snaps: seq<Uuid>,
                     ghost before: set<Uuid>, ghost after: set<Uuid>)
    returns (response: Result<seq<ForDate>, Error>)
    requires Selection(db, viewer, Elements(rcs), Instant(d), before, after, Elements(snaps))
    ensures response.Ok? <==>
              Distinct(rcs) && forall i :: 0 <= i < |rcs| ==> MayAskAbout(db, viewer, rcs[i])
    ensures response.Ok? ==> |response.value| == |rcs|
    ensures response.Ok? ==>
              forall i :: 0 <= i < |rcs| ==>
                var entry := response.value[i];
                && entry.config == rcs[i]
                && (entry.snapshot.None? ==> !entry.isAfter && forall s :: !IsCandidate(db, viewer, rcs[i], s))
                && (entry.snapshot.Some? ==>
                      && IsChoice(db, viewer, rcs[i], Instant(d), entry.snapshot.value)
                      && entry.snapshot.value in db.snapshots
                      && entry.isAfter == IsAfter(db, d, entry.snapshot.value))
  {
    var asked := Askable(db, viewer, Elements(rcs));
    forall i | 0 <= i < |rcs|
      ensures rcs[i] in asked <==> MayAskAbout(db, viewer, rcs[i])
    {
      PublishesExactly(db, rcs[i]);
    }
    ElementsSize(rcs);
    SubsetSize(asked, Elements(rcs));
    if |asked| != |rcs| {
      assert !(Distinct(rcs) && forall i :: 0 <= i < |rcs| ==> rcs[i] in asked) by {
        if forall i :: 0 <= i < |rcs| ==> rcs[i] in asked {
          assert asked == Elements(rcs);
        }
      }
      return Err(NotFound);
    }
    assert forall i :: 0 <= i < |rcs| ==> rcs[i] in Elements(rcs);
    assert Elements(snaps) <= db.snapshots.Keys;
    assert forall i :: 0 <= i < |snaps| ==> snaps[i] in Elements(snaps);
    var list: seq<ForDate> := [];
    for i := 0 to |rcs|
      invariant |list| == i
      invariant forall j :: 0 <= j < i ==> Answers(db, viewer, rcs[j], d, list[j])
    {
      var index := IndexOf(db, snaps, rcs[i]);
      OneChoicePerConfiguration(db, viewer, Elements(rcs), Instant(d), before, after, Elements(snaps), rcs[i]);
      if index != -1 {
        ChosenFollowsRule(db, viewer, Elements(rcs), Instant(d), before, after, Elements(snaps), snaps[index]);
        list := list + [ForDate(rcs[i], Some(snaps[index]), IsAfter(db, d, snaps[index]))];
      } else {
        list := list + [ForDate(rcs[i], None, false)];
      }
    }
    forall i | 0 <= i < |rcs| {
      AnswerOnRows(db, viewer, rcs[i], d, list[i]);
    }
    return Ok(list);
  }

  lemma AnswerOnRows(db: Db, viewer: Org, rc: Uuid, d: RequestDate, entry: ForDate)
    requires Answers(db, viewer, rc, d, entry)
    ensures entry.config == rc
    ensures entry.snapshot.None? ==> !entry.isAfter && forall s :: !IsCandidate(db, viewer, rc, s)
    ensures entry.snapshot.Some? ==>
              && IsChoice(db, viewer, rc, Instant(d), entry.snapshot.value)
              && entry.snapshot.value in db.snapshots
              && entry.isAfter == IsAfter(db, d, entry.snapshot.value)
  {
    assert forall s :: IsCandidate(db, viewer, rc, s) ==> s in Candidates(db, viewer, {rc});
  }

  /** An entry names its configuration, matches by the plain rule if anything is readable, and is marked
      as after only together with a match. */
  ghost predicate Answers(db: Db, viewer: Org, rc: Uuid, d: RequestDate, entry: ForDate) {
    && entry.config == rc
    && (entry.snapshot.None? <==> Candidates(db, viewer, {rc}) == {})
    && (entry.snapshot.Some? ==> IsChoice(db, viewer, rc, Instant(d), entry.snapshot.value))
    && (entry.isAfter <==>
          entry.snapshot.Some? && entry.snapshot.value in db.snapshots && IsAfter(db, d, entry.snapshot.value))
  }
}
