/** Snapshots and their publication by partner repositories: the stored rows, the operations on them
    as functions of the database, and what every run of those operations keeps. */
module Publishing {
  import opened Basics
  import opened BulkDelete

  datatype Config = Config(org: Org, partner: bool, repository: Uuid, deleted: bool, lastSnapshot: Option<Uuid>)

  datatype Repository = Repository(origin: Origin, public: bool)

  datatype Snapshot = Snapshot(config: Uuid, createdAt: int, published: bool, deleted: bool)

  datatype Db = Db(configs: map<Uuid, Config>, repositories: map<Uuid, Repository>, snapshots: map<Uuid, Snapshot>)

  datatype Error = NotFound | Forbidden | BadValidation

  predicate LiveConfig(db: Db, rc: Uuid) {
    rc in db.configs && !db.configs[rc].deleted
  }

  predicate LiveSnapshot(db: Db, s: Uuid) {
    s in db.snapshots && !db.snapshots[s].deleted
  }

  /** The published, non-deleted snapshots of a configuration. */
  function PublishedOf(db: Db, rc: Uuid): set<Uuid> {
    set s | s in db.snapshots && LiveSnapshot(db, s) && db.snapshots[s].published && db.snapshots[s].config == rc
  }

  /** Foreign keys. */
  ghost predicate References(db: Db) {
    && (forall s :: s in db.snapshots ==> db.snapshots[s].config in db.configs)
    && (forall rc :: rc in db.configs ==> db.configs[rc].repository in db.repositories)
  }

  ghost predicate PartnersAreUploads(db: Db) {
    forall rc :: rc in db.configs && db.configs[rc].partner ==>
                   && db.configs[rc].repository in db.repositories
                   && db.repositories[db.configs[rc].repository].origin == Upload
  }

  /** Snapshot `s` is published by a partner, if it is published at all. */
  predicate PublishedByPartner(db: Db, s: Uuid)
    requires s in db.snapshots
  {
    db.snapshots[s].published ==> db.snapshots[s].config in db.configs && db.configs[db.snapshots[s].config].partner
  }

  /** The publishing invariant: what is live and published belongs to a partner, and partners are uploads. */
  ghost predicate Inv(db: Db) {
    References(db) && PartnersAreUploads(db) && forall s :: LiveSnapshot(db, s) ==> PublishedByPartner(db, s)
  }

  /** The same for deleted snapshots too. */
  ghost predicate StrongInv(db: Db) {
    References(db) && PartnersAreUploads(db) && forall s :: s in db.snapshots ==> PublishedByPartner(db, s)
  }

  /** The invariant on the rows: keys are stored, partners have upload repositories, and what is live and
      published belongs to a partner. */
  lemma InvExactly(db: Db)
    ensures Inv(db) <==>
              && (forall s :: s in db.snapshots ==> db.snapshots[s].config in db.configs)
              && (forall rc :: rc in db.configs ==> db.configs[rc].repository in db.repositories)
              && (forall rc :: rc in db.configs && db.configs[rc].partner ==>
                    db.repositories[db.configs[rc].repository].origin == Upload)
              && (forall s :: s in db.snapshots && !db.snapshots[s].deleted && db.snapshots[s].published ==>
                    db.configs[db.snapshots[s].config].partner)
  {
    if Inv(db) {
      forall s | s in db.snapshots && !db.snapshots[s].deleted && db.snapshots[s].published
        ensures db.configs[db.snapshots[s].config].partner
      {
        assert LiveSnapshot(db, s);
      }
    }
  }

  // ---------- the operations

  /** A new snapshot is unpublished and becomes the configuration's last one. */
  function Create(db: Db, s: Uuid, rc: Uuid, createdAt: int): Result<Db, Error> {
    if s in db.snapshots || rc !in db.configs then Err(BadValidation)
    else Ok(db.(snapshots := db.snapshots[s := Snapshot(rc, createdAt, false, false)],
                configs := db.configs[rc := db.configs[rc].(lastSnapshot := Some(s))]))
  }

  function SetPartner(db: Db, rc: Uuid, partner: bool): Result<Db, Error> {
    if !LiveConfig(db, rc) then Err(NotFound)
    else if db.configs[rc].repository !in db.repositories then Err(BadValidation)
    else if db.repositories[db.configs[rc].repository].origin != Upload then Err(BadValidation)
    else if !partner && PublishedOf(db, rc) != {} then Err(BadValidation)
    else Ok(db.(configs := db.configs[rc := db.configs[rc].(partner := partner)]))
  }

  /** The permission checks of publishing. A deleted configuration is not loaded with the snapshot and
      therefore belongs to nobody. */
  function MayPublish(db: Db, org: Org, rc: Uuid, s: Uuid): Option<Error> {
    if !LiveSnapshot(db, s) || db.snapshots[s].config != rc then Some(NotFound)
    else if !LiveConfig(db, rc) || db.configs[rc].org != org then Some(Forbidden)
    else if !db.configs[rc].partner then Some(BadValidation)
    else None
  }

  function WithPublic(db: Db, r: Uuid, public: bool): Db {
    if r !in db.repositories then db
    else db.(repositories := db.repositories[r := db.repositories[r].(public := public)])
  }

  function Publish(db: Db, org: Org, published: bool, rc: Uuid, s: Uuid): Result<Db, Error> {
    var refusal := MayPublish(db, org, rc, s);
    if refusal.Some? then Err(refusal.value)
    else
      var marked := db.(snapshots := db.snapshots[s := db.snapshots[s].(published := published)]);
      Ok(WithPublic(marked, db.configs[rc].repository, PublishedOf(marked, rc) != {}))
  }

  function WithDeletedAt(db: Db, s: Uuid, deleted: bool): Result<Db, Error> {
    if s !in db.snapshots then Err(NotFound)
    else Ok(db.(snapshots := db.snapshots[s := db.snapshots[s].(deleted := deleted)]))
  }

  function SoftDelete(db: Db, s: Uuid): Result<Db, Error> {
    WithDeletedAt(db, s, true)
  }

  function ClearDeletedAt(db: Db, s: Uuid): Result<Db, Error> {
    WithDeletedAt(db, s, false)
  }

  /** The row goes, and references to it as a last snapshot are set to NULL. */
  function HardDelete(db: Db, s: Uuid): Result<Db, Error> {
    if s !in db.snapshots then Err(NotFound)
    else Ok(db.(snapshots := db.snapshots - {s},
                configs := map rc | rc in db.configs ::
                  if db.configs[rc].lastSnapshot == Some(s) then db.configs[rc].(lastSnapshot := None)
                  else db.configs[rc]))
  }

  function MarkSnapshot(): Snapshot -> Snapshot {
    (row: Snapshot) => row.(deleted := true)
  }

  function LiveSnapshots(db: Db): set<Uuid> {
    set s | s in db.snapshots && LiveSnapshot(db, s)
  }

  function BulkSoftDelete(db: Db, ids: set<Uuid>): Result<Db, Error> {
    if ids <= LiveSnapshots(db) then Ok(db.(snapshots := MarkAll(db.snapshots, ids, MarkSnapshot()))) else Err(NotFound)
  }

  /** Deleting a configuration of the organisation marks its row; its snapshots stay as they are. */
  function DeleteConfig(db: Db, org: Org, rc: Uuid): Result<Db, Error> {
    if rc !in db.configs || db.configs[rc].org != org then Err(NotFound)
    else Ok(db.(configs := db.configs[rc := db.configs[rc].(deleted := true)]))
  }

  /** Removing the row itself is refused by the foreign key while snapshots refer to it. */
  function PurgeConfig(db: Db, org: Org, rc: Uuid): Result<Db, Error> {
    if rc !in db.configs || db.configs[rc].org != org then Err(NotFound)
    else if exists s :: s in db.snapshots && db.snapshots[s].config == rc then Err(BadValidation)
    else Ok(db.(configs := db.configs - {rc}))
  }

  /** Any stored snapshot can be recorded as a configuration's last one, whether the configuration is
      deleted or not; without such a configuration nothing happens. */
  function UpdateLastSnapshot(db: Db, org: Org, rc: Uuid, s: Uuid): Result<Db, Error> {
    if rc !in db.configs || db.configs[rc].org != org then Ok(db)
    else if s !in db.snapshots then Err(BadValidation)
    else Ok(db.(configs := db.configs[rc := db.configs[rc].(lastSnapshot := Some(s))]))
  }

  // ---------- runs

  datatype Op =
    | OpCreate(s: Uuid, rc: Uuid, createdAt: int)
    | OpSetPartner(rc: Uuid, partner: bool)
    | OpPublish(org: Org, published: bool, rc: Uuid, s: Uuid)
    | OpSoftDelete(s: Uuid)
    | OpHardDelete(s: Uuid)
    | OpBulkDelete(ids: set<Uuid>)
    | OpClearDeletedAt(s: Uuid)
    | OpDeleteConfig(org: Org, rc: Uuid)
    | OpPurgeConfig(org: Org, rc: Uuid)
    | OpUpdateLastSnapshot(org: Org, rc: Uuid, s: Uuid)

  function Attempt(db: Db, op: Op): Result<Db, Error> {
    match op
    case OpCreate(s, rc, createdAt) => Create(db, s, rc, createdAt)
    case OpSetPartner(rc, partner) => SetPartner(db, rc, partner)
    case OpPublish(org, published, rc, s) => Publish(db, org, published, rc, s)
    case OpSoftDelete(s) => SoftDelete(db, s)
    case OpHardDelete(s) => HardDelete(db, s)
    case OpBulkDelete(ids) => BulkSoftDelete(db, ids)
    case OpClearDeletedAt(s) => ClearDeletedAt(db, s)
    case OpDeleteConfig(org, rc) => DeleteConfig(db, org, rc)
    case OpPurgeConfig(org, rc) => PurgeConfig(db, org, rc)
    case OpUpdateLastSnapshot(org, rc, s) => UpdateLastSnapshot(db, org, rc, s)
  }

  /** A refused operation changes nothing. */
  function Do(db: Db, op: Op): Db {
    var r := Attempt(db, op);
    if r.Ok? then r.value else db
  }

  function Run(db: Db, ops: seq<Op>): Db {
    if ops == [] then db else Do(Run(db, ops[..|ops| - 1]), ops[|ops| - 1])
  }

  lemma DoKeepsReferences(db: Db, op: Op)
    requires References(db)
    ensures References(Do(db, op))
  {
    var db' := Do(db, op);
    assert db.repositories.Keys == db'.repositories.Keys;
  }

  /** No operation breaks a foreign key. */
  lemma {:induction false} RunKeepsReferences(db: Db, ops: seq<Op>)
    requires References(db)
    ensures References(Run(db, ops))
  {
    if ops != [] {
      RunKeepsReferences(db, ops[..|ops| - 1]);
      DoKeepsReferences(Run(db, ops[..|ops| - 1]), ops[|ops| - 1]);
    }
  }

  lemma SetPartnerKeepsInv(db: Db, rc: Uuid, partner: bool)
    requires Inv(db) && SetPartner(db, rc, partner).Ok?
    ensures Inv(SetPartner(db, rc, partner).value)
  {
    var db' := SetPartner(db, rc, partner).value;
    forall s | LiveSnapshot(db', s)
      ensures PublishedByPartner(db', s)
    {
      assert LiveSnapshot(db, s);
      assert db.snapshots[s].published && db.snapshots[s].config == rc ==> s in PublishedOf(db, rc);
    }
  }

  lemma PublishKeepsInv(db: Db, org: Org, published: bool, rc: Uuid, s: Uuid)
    requires Inv(db) && Publish(db, org, published, rc, s).Ok?
    ensures Inv(Publish(db, org, published, rc, s).value)
  {
    var db' := Publish(db, org, published, rc, s).value;
    assert forall x :: LiveSnapshot(db', x) ==> LiveSnapshot(db, x);
    assert forall r :: r in db.repositories ==> db'.repositories[r].origin == db.repositories[r].origin;
  }

  /** Every operation but restoration keeps the invariant. */
  lemma DoKeepsInv(db: Db, op: Op)
    requires Inv(db) && !op.OpClearDeletedAt?
    ensures Inv(Do(db, op))
  {
    if Attempt(db, op).Ok? {
      var db' := Do(db, op);
      match op
      case OpSetPartner(rc, partner) => SetPartnerKeepsInv(db, rc, partner);
      case OpPublish(org, published, rc, s) => PublishKeepsInv(db, org, published, rc, s);
      case OpCreate(s, rc, _) =>
        assert forall x :: LiveSnapshot(db', x) && x != s ==> LiveSnapshot(db, x);
      case OpSoftDelete(_) =>
        assert forall x :: LiveSnapshot(db', x) ==> LiveSnapshot(db, x);
      case OpHardDelete(_) =>
        assert forall x :: LiveSnapshot(db', x) ==> LiveSnapshot(db, x);
      case OpBulkDelete(_) =>
        assert forall x :: LiveSnapshot(db', x) ==> LiveSnapshot(db, x);
      case OpDeleteConfig(_, _) =>
        assert forall x :: LiveSnapshot(db', x) ==> LiveSnapshot(db, x);
      case OpPurgeConfig(_, _) =>
        assert forall x :: LiveSnapshot(db', x) ==> LiveSnapshot(db, x);
      case OpUpdateLastSnapshot(_, _, _) =>
        assert forall x :: LiveSnapshot(db', x) ==> LiveSnapshot(db, x);
    }
  }

  /** Over every run without restorations, what is live and published belongs to a partner. */
  lemma {:induction false} RunKeepsInv(db: Db, ops: seq<Op>)
    requires Inv(db) && forall i :: 0 <= i < |ops| ==> !ops[i].OpClearDeletedAt?
    ensures Inv(Run(db, ops))
  {
    if ops != [] {
      RunKeepsInv(db, ops[..|ops| - 1]);
      DoKeepsInv(Run(db, ops[..|ops| - 1]), ops[|ops| - 1]);
    }
  }

  /** Restoring a snapshot keeps the invariant exactly when it was not published, or its configuration
      is still a partner: the check that guards unmarking a partner does not see deleted snapshots. */
  lemma RestoringKeepsInvExactly(db: Db, s: Uuid)
    requires Inv(db) && s in db.snapshots
    ensures Inv(Do(db, OpClearDeletedAt(s))) <==>
              !db.snapshots[s].published || db.configs[db.snapshots[s].config].partner
  {
    var db' := Do(db, OpClearDeletedAt(s));
    assert LiveSnapshot(db', s);
    assert forall x :: LiveSnapshot(db', x) && x != s ==> LiveSnapshot(db, x);
  }

  /** A run that breaks the invariant: publish, delete, unmark the partner, restore. */
  lemma RestoringCanBreakInv(org: Org)
    ensures var db := Db(map[0 := Config(org, true, 1, false, None)], map[1 := Repository(Upload, false)], map[]);
            && Inv(db)
            && !Inv(Run(db, [OpCreate(2, 0, 7), OpPublish(org, true, 0, 2), OpSoftDelete(2), OpSetPartner(0, false),
                             OpClearDeletedAt(2)]))
  {
    var db := Db(map[0 := Config(org, true, 1, false, None)], map[1 := Repository(Upload, false)], map[]);
    var ops := [OpCreate(2, 0, 7), OpPublish(org, true, 0, 2), OpSoftDelete(2), OpSetPartner(0, false),
                OpClearDeletedAt(2)];
    var db1 := Do(db, ops[0]);
    var db2 := Do(db1, ops[1]);
    var db3 := Do(db2, ops[2]);
    var db4 := Do(db3, ops[3]);
    var db5 := Do(db4, ops[4]);
    RunOfFive(db, ops);
    assert db3.snapshots[2] == Snapshot(0, 7, true, true);
    assert PublishedOf(db3, 0) == {};
    assert !db4.configs[0].partner;
    assert LiveSnapshot(db5, 2) && !PublishedByPartner(db5, 2);
  }

  lemma RunOfFive(db: Db, ops: seq<Op>)
    requires |ops| == 5
    ensures Run(db, ops) == Do(Do(Do(Do(Do(db, ops[0]), ops[1]), ops[2]), ops[3]), ops[4])
  {
    assert ops[..4][..3] == ops[..3];
    assert ops[..3][..2] == ops[..2];
    assert ops[..2][..1] == ops[..1];
    assert ops[..1][..0] == [];
    assert Run(db, ops[..1]) == Do(db, ops[0]);
    assert Run(db, ops[..2]) == Do(Run(db, ops[..1]), ops[1]);
    assert Run(db, ops[..3]) == Do(Run(db, ops[..2]), ops[2]);
    assert Run(db, ops[..4]) == Do(Run(db, ops[..3]), ops[3]);
  }

  lemma PublishKeepsStrongInv(db: Db, org: Org, published: bool, rc: Uuid, s: Uuid)
    requires StrongInv(db) && Publish(db, org, published, rc, s).Ok?
    ensures StrongInv(Publish(db, org, published, rc, s).value)
  {
    var db' := Publish(db, org, published, rc, s).value;
    assert db'.configs == db.configs && db'.repositories.Keys == db.repositories.Keys;
    assert forall r :: r in db.repositories ==> db'.repositories[r].origin == db.repositories[r].origin;
    assert forall x :: x in db'.snapshots && x != s ==> db'.snapshots[x] == db.snapshots[x];
  }

  /** While no partner is unmarked, restoration is harmless as well. */
  lemma DoKeepsStrongInv(db: Db, op: Op)
    requires StrongInv(db) && !(op.OpSetPartner? && !op.partner)
    ensures StrongInv(Do(db, op))
  {
    if Attempt(db, op).Ok? {
      var db' := Do(db, op);
      match op
      case OpPublish(org, published, rc, s) => PublishKeepsStrongInv(db, org, published, rc, s);
      case OpCreate(s, rc, _) => assert db'.repositories == db.repositories;
      case OpSetPartner(rc, _) => assert db'.snapshots == db.snapshots;
      case OpHardDelete(s) => assert forall x :: x in db'.snapshots ==> db'.snapshots[x] == db.snapshots[x];
      case OpSoftDelete(s) => assert db'.configs == db.configs;
      case OpBulkDelete(ids) => assert db'.configs == db.configs;
      case OpClearDeletedAt(s) => assert db'.configs == db.configs;
      case OpDeleteConfig(_, _) => assert db'.snapshots == db.snapshots;
      case OpPurgeConfig(_, _) => assert db'.snapshots == db.snapshots;
      case OpUpdateLastSnapshot(_, _, _) => assert db'.snapshots == db.snapshots;
    }
  }

  lemma {:induction false} RunKeepsStrongInv(db: Db, ops: seq<Op>)
    requires StrongInv(db) && forall i :: 0 <= i < |ops| ==> !(ops[i].OpSetPartner? && !ops[i].partner)
    ensures StrongInv(Run(db, ops)) && Inv(Run(db, ops))
  {
    if ops != [] {
      RunKeepsStrongInv(db, ops[..|ops| - 1]);
      DoKeepsStrongInv(Run(db, ops[..|ops| - 1]), ops[|ops| - 1]);
    }
  }

  // ---------- the public flag

  /** The repository's public flag says whether the configuration has a live published snapshot. */
  ghost predicate FlagAccurate(db: Db, rc: Uuid) {
    && rc in db.configs && db.configs[rc].repository in db.repositories
    && (db.repositories[db.configs[rc].repository].public <==> PublishedOf(db, rc) != {})
  }

  lemma PublishMakesFlagAccurate(db: Db, org: Org, published: bool, rc: Uuid, s: Uuid)
    requires Inv(db) && Publish(db, org, published, rc, s).Ok?
    ensures FlagAccurate(Publish(db, org, published, rc, s).value, rc)
    ensures s in PublishedOf(Publish(db, org, published, rc, s).value, rc) <==> published
  {
    var marked := db.(snapshots := db.snapshots[s := db.snapshots[s].(published := published)]);
    assert PublishedOf(Publish(db, org, published, rc, s).value, rc) == PublishedOf(marked, rc);
  }

  /** Deletion does not refresh the flag: it goes stale exactly when the last published snapshot goes. */
  lemma SoftDeleteKeepsFlagExactly(db: Db, rc: Uuid, s: Uuid)
    requires Inv(db) && FlagAccurate(db, rc) && s in db.snapshots
    ensures FlagAccurate(Do(db, OpSoftDelete(s)), rc) <==> PublishedOf(db, rc) != {s}
  {
    assert PublishedOf(Do(db, OpSoftDelete(s)), rc) == PublishedOf(db, rc) - {s};
  }
}
