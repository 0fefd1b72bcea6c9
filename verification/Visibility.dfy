/** Who sees which snapshot: the independently written visibility queries and the masking of partner
    repositories in listings (pkg/dao/partner_visibility.go, snapshots.go, repository_configs.go). */
module Visibility {
  import opened Basics
  import opened Publishing

  /** Whose snapshots a viewer reads without further conditions. */
  function ReadableOrgs(viewer: Org): set<Org> {
    {viewer, RedHatOrg, CommunityOrg}
  }

  predicate IsForeignPartnerView(config: Config, viewer: Org) {
    config.partner && config.org != viewer
  }

  predicate ForeignPartnerVisible(db: Db, viewer: Org, rc: Uuid) {
    rc in db.configs && db.configs[rc].partner && db.configs[rc].org != viewer && PublishedOf(db, rc) != {}
  }

  /** The filter shared by snapshot listings, searches and selection by date. */
  predicate Readable(db: Db, viewer: Org, s: Uuid) {
    && LiveSnapshot(db, s)
    && db.snapshots[s].config in db.configs
    && var config := db.configs[db.snapshots[s].config];
    config.org in ReadableOrgs(viewer) || (config.partner && config.org != viewer && db.snapshots[s].published)
  }

  function List(db: Db, viewer: Org, rc: Uuid): Result<set<Uuid>, Error> {
    if LiveConfig(db, rc) && (db.configs[rc].org in ReadableOrgs(viewer) || ForeignPartnerVisible(db, viewer, rc))
    then Ok(set s | s in db.snapshots && Readable(db, viewer, s) && db.snapshots[s].config == rc)
    else Err(NotFound)
  }

  /** A single snapshot. A deleted configuration is not loaded with it, so nothing is then refused. */
  function Fetch(db: Db, viewer: Org, s: Uuid): Result<Snapshot, Error> {
    if !LiveSnapshot(db, s) then Err(NotFound)
    else
      var row := db.snapshots[s];
      if LiveConfig(db, row.config) && IsForeignPartnerView(db.configs[row.config], viewer) && !row.published
      then Err(NotFound)
      else Ok(row)
  }

  /** Newest first, then by identifier. */
  predicate Before(db: Db, a: Uuid, b: Uuid)
    requires a in db.snapshots && b in db.snapshots
  {
    || db.snapshots[a].createdAt > db.snapshots[b].createdAt
    || (db.snapshots[a].createdAt == db.snapshots[b].createdAt && a <= b)
  }

  lemma {:induction false} NewestExists(db: Db, q: set<Uuid>)
    requires q != {} && q <= db.snapshots.Keys
    ensures exists m :: m in q && forall x :: x in q ==> Before(db, m, x)
    decreases q
  {
    var x := Member(q);
    if q != {x} {
      NewestExists(db, q - {x});
      var m :| m in q - {x} && forall y :: y in q - {x} ==> Before(db, m, y);
      assert forall y :: y in q ==> y == x || y in q - {x};
      var newest := if Before(db, x, m) then x else m;
      assert newest in q && forall y :: y in q ==> Before(db, newest, y);
    }
  }

  function Newest(db: Db, q: set<Uuid>): (r: Option<Uuid>)
    requires q <= db.snapshots.Keys
    ensures r.None? <==> q == {}
    ensures r.Some? ==> r.value in q && forall x :: x in q ==> Before(db, r.value, x)
  {
    if q == {} then None else NewestExists(db, q);
                              var m :| m in q && forall x :: x in q ==> Before(db, m, x);
                              Some(m)
  }

  /** The snapshot behind a repository's "latest" distribution. */
  function LatestForDistribution(db: Db, rc: Uuid): Option<Uuid> {
    if !LiveConfig(db, rc) then None
    else if db.configs[rc].partner then Newest(db, PublishedOf(db, rc))
    else Newest(db, LiveOf(db, rc))
  }

  function LiveOf(db: Db, rc: Uuid): set<Uuid> {
    set s | s in db.snapshots && LiveSnapshot(db, s) && db.snapshots[s].config == rc
  }

  // ---------- listings of configurations

  /** A configuration as a listing shows it. Its last snapshot is loaded only if it is not deleted. */
  datatype Row = Row(config: Uuid, org: Org, account: string, origin: Origin, lastSnapshot: Option<Uuid>)

  function Loaded(db: Db, rc: Uuid, account: string): Row
    requires rc in db.configs && db.configs[rc].repository in db.repositories
  {
    var config := db.configs[rc];
    Row(rc, config.org, account, db.repositories[config.repository].origin,
        if config.lastSnapshot.Some? && LiveSnapshot(db, config.lastSnapshot.value) then config.lastSnapshot else None)
  }

  /** What a viewer is shown of a row: partner repositories of others look like community ones. */
  function Masked(db: Db, viewer: Org, row: Row): Row {
    if row.config !in db.configs || !IsForeignPartnerView(db.configs[row.config], viewer) then row
    else
      var last :=
        if row.lastSnapshot.Some? && row.lastSnapshot.value in db.snapshots &&
            db.snapshots[row.lastSnapshot.value].published
        then row.lastSnapshot
        else Newest(db, PublishedOf(db, row.config));
      Row(row.config, CommunityOrg, "", Community, last)
  }

  /** The masking loop edits the rows in place; nothing of the owner shows through the mask. */
  method ApplyPartnerResponseOverrides(db: Db, viewer: Org, rows: array<Row>)
    modifies rows
    ensures forall i :: 0 <= i < rows.Length ==> rows[i] == Masked(db, viewer, old(rows[i]))
    ensures forall i :: 0 <= i < rows.Length && rows[i].config in db.configs &&
                        IsForeignPartnerView(db.configs[rows[i].config], viewer) ==>
                          rows[i] == Row(old(rows[i]).config, CommunityOrg, "", Community, rows[i].lastSnapshot)
  {
    for i := 0 to rows.Length
      invariant forall j :: 0 <= j < i ==> rows[j] == Masked(db, viewer, old(rows[j]))
      invariant forall j :: i <= j < rows.Length ==> rows[j] == old(rows[j])
    {
      if rows[i].config !in db.configs || !IsForeignPartnerView(db.configs[rows[i].config], viewer) {
        continue;
      }
      rows[i] := rows[i].(origin := Community, org := CommunityOrg, account := "");
      if rows[i].lastSnapshot.Some? && rows[i].lastSnapshot.value in db.snapshots &&
          db.snapshots[rows[i].lastSnapshot.value].published {
        continue;
      }
      rows[i] := rows[i].(lastSnapshot := Newest(db, PublishedOf(db, rows[i].config)));
    }
  }

  // ---------- what everybody else sees

  /** A live published snapshot of the configuration exists. */
  ghost predicate Publishes(db: Db, rc: Uuid) {
    exists s :: s in db.snapshots && !db.snapshots[s].deleted && db.snapshots[s].published &&
                db.snapshots[s].config == rc
  }

  lemma PublishesExactly(db: Db, rc: Uuid)
    ensures Publishes(db, rc) <==> PublishedOf(db, rc) != {}
  {
    if Publishes(db, rc) {
      var s :| s in db.snapshots && !db.snapshots[s].deleted && db.snapshots[s].published &&
               db.snapshots[s].config == rc;
      assert s in PublishedOf(db, rc);
    } else if PublishedOf(db, rc) != {} {
      var s := Member(PublishedOf(db, rc));
      assert false;
    }
  }

  /** The owner of a configuration, and everybody for Red Hat's and the community's, reads every live
      snapshot of it, published or not; anybody else reads the published ones of partners and no others. */
  lemma ReadableExactly(db: Db, viewer: Org, s: Uuid)
    requires s in db.snapshots && db.snapshots[s].config in db.configs
    ensures var row, config := db.snapshots[s], db.configs[db.snapshots[s].config];
            Readable(db, viewer, s) <==>
              && !row.deleted
              && (|| config.org == viewer || config.org == RedHatOrg || config.org == CommunityOrg
                  || (config.partner && row.published))
  {
  }

  /** Listing needs a configuration that is not deleted and, unless it is one's own or shared, is a
      partner that publishes something; it then gives all that is readable. */
  lemma ListExactly(db: Db, viewer: Org, rc: Uuid)
    ensures List(db, viewer, rc).Ok? <==>
              && rc in db.configs && !db.configs[rc].deleted
              && var config := db.configs[rc];
              || config.org == viewer || config.org == RedHatOrg || config.org == CommunityOrg
              || (config.partner && Publishes(db, rc))
    ensures List(db, viewer, rc).Ok? ==>
              forall s :: s in List(db, viewer, rc).value <==>
                && s in db.snapshots && db.snapshots[s].config == rc && !db.snapshots[s].deleted
                && (|| db.configs[rc].org in {viewer, RedHatOrg, CommunityOrg}
                    || (db.configs[rc].partner && db.snapshots[s].published))
  {
    PublishesExactly(db, rc);
  }

  /** Fetching a live snapshot is refused to nobody but foreign viewers of what a live partner has not
      published. */
  lemma FetchExactly(db: Db, viewer: Org, s: Uuid)
    ensures Fetch(db, viewer, s).Ok? <==>
              && s in db.snapshots && !db.snapshots[s].deleted
              && var rc := db.snapshots[s].config;
              !(&& rc in db.configs && !db.configs[rc].deleted && db.configs[rc].partner && db.configs[rc].org != viewer
                && !db.snapshots[s].published)
    ensures Fetch(db, viewer, s).Ok? ==> Fetch(db, viewer, s).value == db.snapshots[s]
  {
  }

  /** A listed row shows what is stored, its last snapshot only while that is live; only a partner's row
      is changed for others, and none for its owner. */
  lemma OwnRowIsShownAsStored(db: Db, viewer: Org, rc: Uuid, account: string)
    requires References(db) && rc in db.configs && (db.configs[rc].org == viewer || !db.configs[rc].partner)
    ensures var config := db.configs[rc];
            var last := config.lastSnapshot;
            Masked(db, viewer, Loaded(db, rc, account)) ==
            Row(rc, config.org, account, db.repositories[config.repository].origin,
                if last.Some? && last.value in db.snapshots && !db.snapshots[last.value].deleted then last else None)
  {
  }

  /** The "latest" distribution of a live configuration serves a newest live snapshot, of partners a
      newest published one, and nothing only if there is none. */
  lemma LatestExactly(db: Db, rc: Uuid)
    ensures LatestForDistribution(db, rc).Some? ==>
              var m := LatestForDistribution(db, rc).value;
              && Serves(db, rc, m)
              && forall x :: Serves(db, rc, x) ==> db.snapshots[x].createdAt <= db.snapshots[m].createdAt
    ensures LatestForDistribution(db, rc).None? <==> forall x :: !Serves(db, rc, x)
  {
    if rc in db.configs && !db.configs[rc].deleted {
      var q := if db.configs[rc].partner then PublishedOf(db, rc) else LiveOf(db, rc);
      assert LatestForDistribution(db, rc) == Newest(db, q);
      forall x
        ensures x in q <==> Serves(db, rc, x)
      {
      }
      if q != {} {
        var x := Member(q);
      }
    }
  }

  predicate Serves(db: Db, rc: Uuid, s: Uuid) {
    && rc in db.configs && !db.configs[rc].deleted
    && s in db.snapshots && !db.snapshots[s].deleted && db.snapshots[s].config == rc
    && (db.configs[rc].partner ==> db.snapshots[s].published)
  }

  // ---------- agreement

  /** For a configuration that is neither the viewer's nor shared, every way of reading snapshots gives
      exactly the live published ones; the publishing invariant rules out all others. Only fetching
      gives more, once the configuration is deleted. */
  lemma VisibilityAgreement(db: Db, viewer: Org, rc: Uuid, s: Uuid)
    requires Inv(db) && rc in db.configs && db.configs[rc].org !in ReadableOrgs(viewer)
    requires s in db.snapshots && db.snapshots[s].config == rc
    ensures Readable(db, viewer, s) <==> s in PublishedOf(db, rc)
    ensures List(db, viewer, rc).Ok? <==> LiveConfig(db, rc) && PublishedOf(db, rc) != {}
    ensures List(db, viewer, rc).Ok? ==> List(db, viewer, rc).value == PublishedOf(db, rc)
    ensures db.configs[rc].partner ==>
              (Fetch(db, viewer, s).Ok? <==>
               s in PublishedOf(db, rc) || (LiveSnapshot(db, s) && !LiveConfig(db, rc)))
  {
    if PublishedOf(db, rc) != {} {
      var p := Member(PublishedOf(db, rc));
      assert PublishedByPartner(db, p);
    }
    forall x | x in db.snapshots && db.snapshots[x].config == rc
      ensures Readable(db, viewer, x) <==> x in PublishedOf(db, rc)
    {
      assert LiveSnapshot(db, x) ==> PublishedByPartner(db, x);
    }
  }

  ghost predicate AllPublished(db: Db, rc: Uuid) {
    forall s :: LiveSnapshot(db, s) && db.snapshots[s].config == rc ==> db.snapshots[s].published
  }

  ghost predicate FetchGivesOnlyPublished(db: Db, viewer: Org, rc: Uuid) {
    forall s :: s in db.snapshots && db.snapshots[s].config == rc && Fetch(db, viewer, s).Ok? ==>
        s in PublishedOf(db, rc)
  }

  ghost predicate ReadingGivesOnlyPublished(db: Db, viewer: Org, rc: Uuid) {
    forall s :: s in db.snapshots && db.snapshots[s].config == rc && Readable(db, viewer, s) ==>
        s in PublishedOf(db, rc)
  }

  /** Exactly when a foreign viewer obtains nothing of a partner but its live published snapshots:
      fetching needs a configuration that is not deleted, and the shared filter one that does not
      belong to a shared organisation, unless there is nothing unpublished to obtain. */
  lemma ForeignersGetOnlyPublishedExactly(db: Db, viewer: Org, rc: Uuid)
    requires rc in db.configs && IsForeignPartnerView(db.configs[rc], viewer)
    ensures FetchGivesOnlyPublished(db, viewer, rc) <==> LiveConfig(db, rc) || AllPublished(db, rc)
    ensures ReadingGivesOnlyPublished(db, viewer, rc) <==>
              db.configs[rc].org !in {RedHatOrg, CommunityOrg} || AllPublished(db, rc)
  {
    if !AllPublished(db, rc) {
      var s :| LiveSnapshot(db, s) && db.snapshots[s].config == rc && !db.snapshots[s].published;
      assert s !in PublishedOf(db, rc);
      assert Fetch(db, viewer, s).Ok? <==> !LiveConfig(db, rc);
    }
  }

  /** Listing and fetching agree on a foreign partner's snapshots exactly when it keeps nothing
      unpublished, or is either tenant and live, so that both refuse, or shared and deleted, so that
      neither does. */
  lemma ListAndFetchAgreeExactly(db: Db, viewer: Org, rc: Uuid)
    requires rc in db.configs && IsForeignPartnerView(db.configs[rc], viewer)
    ensures (forall s :: s in db.snapshots && db.snapshots[s].config == rc ==>
                           (Readable(db, viewer, s) <==> Fetch(db, viewer, s).Ok?))
            <==> (db.configs[rc].org in {RedHatOrg, CommunityOrg} <==> !LiveConfig(db, rc)) || AllPublished(db, rc)
  {
    if !AllPublished(db, rc) {
      var s :| LiveSnapshot(db, s) && db.snapshots[s].config == rc && !db.snapshots[s].published;
      assert Fetch(db, viewer, s).Ok? <==> !LiveConfig(db, rc);
      assert Readable(db, viewer, s) <==> db.configs[rc].org in {RedHatOrg, CommunityOrg};
    }
  }

  /** A run that ends in such a state: a partner takes a snapshot, never publishes it and deletes the
      configuration. From then on anybody can fetch the snapshot. */
  lemma DeletingAPartnerRevealsItsSnapshots(owner: Org, viewer: Org)
    requires owner != viewer
    ensures var db := Db(map[0 := Config(owner, true, 1, false, None)], map[1 := Repository(Upload, false)], map[]);
            var taken := Run(db, [OpCreate(2, 0, 7)]);
            var deleted := Run(db, [OpCreate(2, 0, 7), OpDeleteConfig(owner, 0)]);
            && Inv(db) && Inv(deleted)
            && Fetch(taken, viewer, 2).Err?
            && Fetch(deleted, viewer, 2) == Ok(Snapshot(0, 7, false, false))
  {
    var db := Db(map[0 := Config(owner, true, 1, false, None)], map[1 := Repository(Upload, false)], map[]);
    var ops := [OpCreate(2, 0, 7), OpDeleteConfig(owner, 0)];
    assert ops[..1] == [ops[0]] && ops[..1][..0] == [];
    assert Run(db, ops[..1]) == Do(db, ops[0]);
    assert Run(db, ops) == Do(Do(db, ops[0]), ops[1]);
    RunKeepsInv(db, ops);
    assert Do(db, ops[0]).snapshots == map[2 := Snapshot(0, 7, false, false)];
  }

  // ---------- the last snapshot

  /** The last snapshot of a configuration as far as it is loaded, and published. */
  predicate LastIsPublished(db: Db, rc: Uuid)
    requires rc in db.configs
  {
    var last := db.configs[rc].lastSnapshot;
    last.Some? && LiveSnapshot(db, last.value) && db.snapshots[last.value].published
  }

  /** The last snapshot shown to a foreign viewer is live and published, and missing only if nothing
      is; it is one of the configuration's own exactly unless another's was recorded. */
  lemma ShownLastSnapshotIsPublished(db: Db, viewer: Org, rc: Uuid, account: string)
    requires References(db) && rc in db.configs && IsForeignPartnerView(db.configs[rc], viewer)
    ensures var shown := Masked(db, viewer, Loaded(db, rc, account)).lastSnapshot;
            && (shown.Some? ==> LiveSnapshot(db, shown.value) && db.snapshots[shown.value].published)
            && (shown.None? ==> PublishedOf(db, rc) == {})
            && ((shown.Some? ==> shown.value in PublishedOf(db, rc)) <==>
                (LastIsPublished(db, rc) ==> db.snapshots[db.configs[rc].lastSnapshot.value].config == rc))
  {
  }

  /** A foreign viewer is shown the very snapshot the "latest" distribution serves exactly when the
      recorded last snapshot, if it is live and published, is the configuration's newest such one. */
  lemma ShownLastSnapshotIsDistributed(db: Db, viewer: Org, rc: Uuid, account: string)
    requires References(db) && LiveConfig(db, rc) && IsForeignPartnerView(db.configs[rc], viewer)
    ensures Masked(db, viewer, Loaded(db, rc, account)).lastSnapshot == LatestForDistribution(db, rc)
            <==> (LastIsPublished(db, rc) ==>
                    && db.configs[rc].lastSnapshot.value in PublishedOf(db, rc)
                    && forall x :: x in PublishedOf(db, rc) ==> Before(db, db.configs[rc].lastSnapshot.value, x))
  {
    if LastIsPublished(db, rc) && db.configs[rc].lastSnapshot.value in PublishedOf(db, rc) {
      var newest := Newest(db, PublishedOf(db, rc));
      assert Before(db, newest.value, db.configs[rc].lastSnapshot.value);
    }
  }

  /** Which snapshots "newest" ranges over: the live ones, or all that are stored. */
  datatype Scope = LiveOnes | StoredOnes

  predicate InScope(db: Db, scope: Scope, s: Uuid) {
    s in db.snapshots && (scope == LiveOnes ==> !db.snapshots[s].deleted)
  }

  /** `s` belongs to the configuration, and nothing of it is newer. */
  ghost predicate IsNewestOf(db: Db, scope: Scope, rc: Uuid, s: Uuid) {
    && s in db.snapshots && db.snapshots[s].config == rc
    && forall x :: InScope(db, scope, x) && db.snapshots[x].config == rc ==> Before(db, s, x)
  }

  /** Recorded last snapshots exist, and are the newest of their configurations if they are in scope. */
  ghost predicate LastsAreNewest(db: Db, scope: Scope) {
    forall rc :: rc in db.configs && db.configs[rc].lastSnapshot.Some? ==>
                   var last := db.configs[rc].lastSnapshot.value;
                   last in db.snapshots && (InScope(db, scope, last) ==> IsNewestOf(db, scope, rc, last))
  }

  /** What must be known before an operation: a created snapshot is the newest, so is one recorded as the
      last, and one that comes back to life is neither newer than a recorded one nor an outdated last. */
  ghost predicate Orderly(db: Db, scope: Scope, op: Op) {
    match op
    case OpCreate(s, rc, createdAt) =>
      s !in db.snapshots && rc in db.configs ==>
        forall x :: InScope(db, scope, x) && db.snapshots[x].config == rc ==>
                      createdAt > db.snapshots[x].createdAt || (createdAt == db.snapshots[x].createdAt && s <= x)
    case OpUpdateLastSnapshot(org, rc, s) =>
      rc in db.configs && db.configs[rc].org == org && InScope(db, scope, s) ==> IsNewestOf(db, scope, rc, s)
    case OpClearDeletedAt(s) =>
      s in db.snapshots && !InScope(db, scope, s) ==>
        forall rc :: rc in db.configs && db.configs[rc].lastSnapshot.Some? ==>
          var last := db.configs[rc].lastSnapshot.value;
          && (last == s ==> IsNewestOf(db, scope, rc, s))
          && (InScope(db, scope, last) && db.snapshots[s].config == rc ==> Before(db, last, s))
    case _ => true
  }

  lemma CreateKeepsLastsExactly(db: Db, scope: Scope, op: Op)
    requires op.OpCreate? && LastsAreNewest(db, scope)
    ensures LastsAreNewest(Do(db, op), scope) <==> Orderly(db, scope, op)
  {
    var db' := Do(db, op);
    if op.s !in db.snapshots && op.rc in db.configs {
      assert forall x :: x in db.snapshots ==> (InScope(db', scope, x) <==> InScope(db, scope, x));
      assert InScope(db', scope, op.s) && db'.configs[op.rc].lastSnapshot == Some(op.s);
    }
  }

  lemma RecordingKeepsLastsExactly(db: Db, scope: Scope, op: Op)
    requires op.OpUpdateLastSnapshot? && LastsAreNewest(db, scope)
    ensures LastsAreNewest(Do(db, op), scope) <==> Orderly(db, scope, op)
  {
    var db' := Do(db, op);
    assert forall x :: InScope(db', scope, x) <==> InScope(db, scope, x);
    if op.rc in db.configs && db.configs[op.rc].org == op.org && InScope(db, scope, op.s) {
      assert db'.configs[op.rc].lastSnapshot == Some(op.s);
    }
  }

  lemma RestoringKeepsLastsExactly(db: Db, scope: Scope, op: Op)
    requires op.OpClearDeletedAt? && LastsAreNewest(db, scope)
    ensures LastsAreNewest(Do(db, op), scope) <==> Orderly(db, scope, op)
  {
    var db' := Do(db, op);
    if op.s in db.snapshots {
      assert forall x :: InScope(db', scope, x) <==> InScope(db, scope, x) || x == op.s;
    }
  }

  /** The other operations bring no snapshot into scope and record none. */
  lemma OthersKeepLasts(db: Db, scope: Scope, op: Op)
    requires !op.OpCreate? && !op.OpUpdateLastSnapshot? && !op.OpClearDeletedAt? && LastsAreNewest(db, scope)
    ensures LastsAreNewest(Do(db, op), scope)
  {
    var db' := Do(db, op);
    assert forall x :: x in db'.snapshots ==>
                         && x in db.snapshots && db'.snapshots[x].config == db.snapshots[x].config
                         && db'.snapshots[x].createdAt == db.snapshots[x].createdAt
                         && (db.snapshots[x].deleted ==> db'.snapshots[x].deleted);
    forall rc | rc in db'.configs && db'.configs[rc].lastSnapshot.Some?
      ensures rc in db.configs && db'.configs[rc].lastSnapshot == db.configs[rc].lastSnapshot
      ensures db'.configs[rc].lastSnapshot.value in db'.snapshots
    {
    }
  }

  /** The exact effect of every operation: recorded last snapshots stay the newest if and only if the
      operation is orderly. With deleted snapshots counted in, restoration always is. */
  lemma DoKeepsLastsExactly(db: Db, scope: Scope, op: Op)
    requires LastsAreNewest(db, scope)
    ensures LastsAreNewest(Do(db, op), scope) <==> Orderly(db, scope, op)
    ensures scope == StoredOnes && op.OpClearDeletedAt? ==> Orderly(db, scope, op)
  {
    match op
    case OpCreate(_, _, _) => CreateKeepsLastsExactly(db, scope, op);
    case OpUpdateLastSnapshot(_, _, _) => RecordingKeepsLastsExactly(db, scope, op);
    case OpClearDeletedAt(_) => RestoringKeepsLastsExactly(db, scope, op);
    case _ => OthersKeepLasts(db, scope, op);
  }

  ghost predicate OrderlyRun(db: Db, scope: Scope, ops: seq<Op>) {
    ops == [] || (var front := ops[..|ops| - 1];
                  OrderlyRun(db, scope, front) && Orderly(Run(db, front), scope, ops[|ops| - 1]))
  }

  lemma {:induction false} RunKeepsLasts(db: Db, scope: Scope, ops: seq<Op>)
    requires LastsAreNewest(db, scope) && OrderlyRun(db, scope, ops)
    ensures LastsAreNewest(Run(db, ops), scope)
  {
    if ops != [] {
      RunKeepsLasts(db, scope, ops[..|ops| - 1]);
      DoKeepsLastsExactly(Run(db, ops[..|ops| - 1]), scope, ops[|ops| - 1]);
    }
  }

  lemma NewestStoredIsNewestLive(db: Db, scope: Scope)
    requires LastsAreNewest(db, scope)
    ensures LastsAreNewest(db, LiveOnes)
  {
  }

  /** After every orderly run, in either sense, each foreign viewer is shown the snapshot that the
      "latest" distribution of a partner serves. */
  lemma RunsShowTheDistributed(db: Db, scope: Scope, ops: seq<Op>, viewer: Org, rc: Uuid, account: string)
    requires References(db) && LastsAreNewest(db, scope) && OrderlyRun(db, scope, ops)
    requires LiveConfig(Run(db, ops), rc) && IsForeignPartnerView(Run(db, ops).configs[rc], viewer)
    ensures References(Run(db, ops))
    ensures Masked(Run(db, ops), viewer, Loaded(Run(db, ops), rc, account)).lastSnapshot ==
            LatestForDistribution(Run(db, ops), rc)
  {
    RunKeepsReferences(db, ops);
    RunKeepsLasts(db, scope, ops);
    NewestStoredIsNewestLive(Run(db, ops), scope);
    ShownLastSnapshotIsDistributed(Run(db, ops), viewer, rc, account);
  }

  /** A run that is not orderly: the newest snapshot is deleted, the one before it is recorded as the
      last, and the newest is restored. Viewers are then shown the older one. */
  lemma RestoringCanOutdateTheLast(owner: Org, viewer: Org, account: string)
    requires owner != viewer
    ensures var db := Db(map[0 := Config(owner, true, 1, false, Some(3))], map[1 := Repository(Upload, true)],
                         map[2 := Snapshot(0, 7, true, false), 3 := Snapshot(0, 8, true, false)]);
            var ops := [OpSoftDelete(3), OpUpdateLastSnapshot(owner, 0, 2), OpClearDeletedAt(3)];
            && Inv(db) && LastsAreNewest(db, StoredOnes) && OrderlyRun(db, LiveOnes, ops[..2])
            && References(Run(db, ops)) && 0 in Run(db, ops).configs
            && LatestForDistribution(Run(db, ops), 0) == Some(3)
            && Masked(Run(db, ops), viewer, Loaded(Run(db, ops), 0, account)).lastSnapshot == Some(2)
  {
    var db := Db(map[0 := Config(owner, true, 1, false, Some(3))], map[1 := Repository(Upload, true)],
                 map[2 := Snapshot(0, 7, true, false), 3 := Snapshot(0, 8, true, false)]);
    var ops := [OpSoftDelete(3), OpUpdateLastSnapshot(owner, 0, 2), OpClearDeletedAt(3)];
    RunOfThree(db, LiveOnes, ops);
    OutdatedRun(db, owner);
    RunKeepsReferences(db, ops);
    OutdatedLastIsShown(Run(db, ops), owner, viewer, account);
  }

  lemma RunOfThree(db: Db, scope: Scope, ops: seq<Op>)
    requires |ops| == 3
    ensures Run(db, ops[..1]) == Do(db, ops[0])
    ensures Run(db, ops[..2]) == Do(Do(db, ops[0]), ops[1])
    ensures Run(db, ops) == Do(Do(Do(db, ops[0]), ops[1]), ops[2])
    ensures OrderlyRun(db, scope, ops[..2]) <==>
              Orderly(db, scope, ops[0]) && Orderly(Do(db, ops[0]), scope, ops[1])
  {
    assert ops[..2][..1] == ops[..1] && ops[..1][..0] == [];
    assert OrderlyRun(db, scope, ops[..1]) <==> Orderly(db, scope, ops[0]);
  }

  lemma OutdatedRun(db: Db, owner: Org)
    requires db.configs == map[0 := Config(owner, true, 1, false, Some(3))]
    requires db.snapshots == map[2 := Snapshot(0, 7, true, false), 3 := Snapshot(0, 8, true, false)]
    ensures var deleted := Do(db, OpSoftDelete(3));
            var recorded := Do(deleted, OpUpdateLastSnapshot(owner, 0, 2));
            && Orderly(deleted, LiveOnes, OpUpdateLastSnapshot(owner, 0, 2))
            && Do(recorded, OpClearDeletedAt(3)) ==
               db.(configs := map[0 := Config(owner, true, 1, false, Some(2))])
  {
    var deleted := Do(db, OpSoftDelete(3));
    assert deleted.snapshots == map[2 := Snapshot(0, 7, true, false), 3 := Snapshot(0, 8, true, true)];
  }

  lemma OutdatedLastIsShown(db: Db, owner: Org, viewer: Org, account: string)
    requires References(db) && owner != viewer
    requires db.configs == map[0 := Config(owner, true, 1, false, Some(2))]
    requires db.snapshots == map[2 := Snapshot(0, 7, true, false), 3 := Snapshot(0, 8, true, false)]
    ensures LatestForDistribution(db, 0) == Some(3)
    ensures Masked(db, viewer, Loaded(db, 0, account)).lastSnapshot == Some(2)
  {
    assert 3 in PublishedOf(db, 0);
    assert !Before(db, 2, 3);
  }

  // ---------- filtering by origin

  function ListedOrgs(viewer: Org): set<Org> {
    {viewer, RedHatOrg, CommunityOrg, LightwellOrg, LightwellDemoOrg}
  }

  predicate Listed(db: Db, viewer: Org, rc: Uuid) {
    LiveConfig(db, rc) && (db.configs[rc].org in ListedOrgs(viewer) || ForeignPartnerVisible(db, viewer, rc))
  }

  /** Everybody lists their own configurations, those of the reserved organisations, and partners that
      publish something. */
  lemma ListedExactly(db: Db, viewer: Org, rc: Uuid)
    ensures Listed(db, viewer, rc) <==>
              && rc in db.configs && !db.configs[rc].deleted
              && (|| db.configs[rc].org in {viewer, RedHatOrg, CommunityOrg, LightwellOrg, LightwellDemoOrg}
                  || (db.configs[rc].partner && Publishes(db, rc)))
  {
    PublishesExactly(db, rc);
  }

  /** The origin filter as the query states it: on the stored origin, with a case for foreign partners. */
  predicate PassesFilter(db: Db, viewer: Org, row: Row, origins: set<Origin>) {
    || (row.origin in origins && !ForeignPartnerVisible(db, viewer, row.config))
    || (Community in origins && ForeignPartnerVisible(db, viewer, row.config))
  }

  function FilterStored(db: Db, viewer: Org, rows: seq<Row>, origins: set<Origin>): seq<Row> {
    if rows == [] then []
    else (if PassesFilter(db, viewer, rows[0], origins) then [rows[0]] else []) +
         FilterStored(db, viewer, rows[1..], origins)
  }

  function MaskAllRows(db: Db, viewer: Org, rows: seq<Row>): seq<Row> {
    if rows == [] then [] else [Masked(db, viewer, rows[0])] + MaskAllRows(db, viewer, rows[1..])
  }

  function FilterShown(rows: seq<Row>, origins: set<Origin>): seq<Row> {
    if rows == [] then [] else (if rows[0].origin in origins then [rows[0]] else []) + FilterShown(rows[1..], origins)
  }

  /** A row is shown as community although the filter does not treat it as a visible foreign partner. */
  predicate Misfiled(db: Db, viewer: Org, row: Row) {
    && row.config in db.configs
    && IsForeignPartnerView(db.configs[row.config], viewer)
    && PublishedOf(db, row.config) == {}
    && row.origin != Community
  }

  lemma {:induction false} MaskAfterFilter(db: Db, viewer: Org, rows: seq<Row>, origins: set<Origin>)
    requires forall i :: 0 <= i < |rows| ==> !Misfiled(db, viewer, rows[i])
    ensures MaskAllRows(db, viewer, FilterStored(db, viewer, rows, origins)) ==
              FilterShown(MaskAllRows(db, viewer, rows), origins)
  {
    if rows != [] {
      MaskAfterFilter(db, viewer, rows[1..], origins);
      var row, rest := rows[0], FilterStored(db, viewer, rows[1..], origins);
      assert PassesFilter(db, viewer, row, origins) <==> Masked(db, viewer, row).origin in origins;
      if PassesFilter(db, viewer, row, origins) {
        assert ([row] + rest)[1..] == rest;
      } else {
        assert [] + rest == rest;
      }
      var masked := MaskAllRows(db, viewer, rows[1..]);
      assert ([Masked(db, viewer, row)] + masked)[1..] == masked;
    }
  }

  lemma {:induction false} FilterSizes(db: Db, viewer: Org, rows: seq<Row>, k: int)
    requires 0 <= k < |rows| && Misfiled(db, viewer, rows[k])
    ensures |FilterStored(db, viewer, rows, {Community})| < |FilterShown(MaskAllRows(db, viewer, rows), {Community})|
    decreases |rows|
  {
    var masked := MaskAllRows(db, viewer, rows[1..]);
    assert ([Masked(db, viewer, rows[0])] + masked)[1..] == masked;
    if k > 0 {
      FilterSizes(db, viewer, rows[1..], k - 1);
    } else {
      FilterNeverShowsMore(db, viewer, rows[1..]);
    }
  }

  lemma {:induction false} FilterNeverShowsMore(db: Db, viewer: Org, rows: seq<Row>)
    ensures |FilterStored(db, viewer, rows, {Community})| <= |FilterShown(MaskAllRows(db, viewer, rows), {Community})|
  {
    if rows != [] {
      FilterNeverShowsMore(db, viewer, rows[1..]);
      var masked := MaskAllRows(db, viewer, rows[1..]);
      assert ([Masked(db, viewer, rows[0])] + masked)[1..] == masked;
    }
  }

  lemma {:induction false} MaskKeepsLength(db: Db, viewer: Org, rows: seq<Row>)
    ensures |MaskAllRows(db, viewer, rows)| == |rows|
  {
    if rows != [] {
      MaskKeepsLength(db, viewer, rows[1..]);
    }
  }

  /** Filtering by stored origin and then masking is filtering what is displayed, for every list of
      origins, exactly when no row is misfiled. */
  lemma FilterAndMaskCommuteExactly(db: Db, viewer: Org, rows: seq<Row>)
    ensures (forall origins :: MaskAllRows(db, viewer, FilterStored(db, viewer, rows, origins)) ==
                               FilterShown(MaskAllRows(db, viewer, rows), origins))
            <==> forall i :: 0 <= i < |rows| ==> !Misfiled(db, viewer, rows[i])
  {
    if forall i :: 0 <= i < |rows| ==> !Misfiled(db, viewer, rows[i]) {
      forall origins {
        MaskAfterFilter(db, viewer, rows, origins);
      }
    } else {
      var k :| 0 <= k < |rows| && Misfiled(db, viewer, rows[k]);
      FilterSizes(db, viewer, rows, k);
      MaskKeepsLength(db, viewer, FilterStored(db, viewer, rows, {Community}));
      assert MaskAllRows(db, viewer, FilterStored(db, viewer, rows, {Community})) !=
          FilterShown(MaskAllRows(db, viewer, rows), {Community});
    }
  }

  /** No listed row is misfiled as long as partners are not shared organisations. */
  lemma ListedRowsAreNotMisfiled(db: Db, viewer: Org, rc: Uuid, account: string)
    requires Inv(db) && Listed(db, viewer, rc)
    requires db.configs[rc].partner ==> db.configs[rc].org.Tenant?
    ensures !Misfiled(db, viewer, Loaded(db, rc, account))
  {
  }
}
