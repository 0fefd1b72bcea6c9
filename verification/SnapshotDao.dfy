/** The snapshot DAO over mutable tables, with the operations of the configuration DAO that bear on
    snapshots; each method is proved to be the corresponding function of the database
    (pkg/dao/snapshots.go, pkg/dao/repository_configs.go). */
module SnapshotDao {
  import opened Basics
  import opened BulkDelete
  import P = Publishing
  import V = Visibility

  /** Some live snapshot of the configuration is published. */
  ghost predicate Publishes(snapshots: map<Uuid, P.Snapshot>, rc: Uuid) {
    exists s :: s in snapshots && !snapshots[s].deleted && snapshots[s].published && snapshots[s].config == rc
  }

  class Dao {
    var configs: map<Uuid, P.Config>
    var repositories: map<Uuid, P.Repository>
    var snapshots: map<Uuid, P.Snapshot>

    constructor ()
      ensures P.Inv(Db())
    {
      configs, repositories, snapshots := map[], map[], map[];
    }

    function Db(): P.Db
      reads this
    {
      P.Db(configs, repositories, snapshots)
    }

    method Create(s: Uuid, rc: Uuid, createdAt: int) returns (error: Option<P.Error>)
      modifies this
      ensures Db() == P.Do(old(Db()), P.OpCreate(s, rc, createdAt))
      ensures error.None? <==> s !in old(snapshots) && rc in old(configs)
      ensures error.None? ==>
                && snapshots == old(snapshots)[s := P.Snapshot(rc, createdAt, false, false)]
                && configs == old(configs)[rc := old(configs)[rc].(lastSnapshot := Some(s))]
      ensures error.Some? ==> snapshots == old(snapshots) && configs == old(configs)
      ensures repositories == old(repositories)
      ensures old(P.Inv(Db())) ==> P.Inv(Db())
    {
      ghost var before := Db();
      if s in snapshots || rc !in configs {
        return Some(P.BadValidation);
      }
      snapshots := snapshots[s := P.Snapshot(rc, createdAt, false, false)];
      configs := configs[rc := configs[rc].(lastSnapshot := Some(s))];
      if P.Inv(before) {
        P.DoKeepsInv(before, P.OpCreate(s, rc, createdAt));
      }
      return None;
    }

    method SetPartnerRepo(rc: Uuid, partner: bool) returns (error: Option<P.Error>)
      modifies this
      ensures Db() == P.Do(old(Db()), P.OpSetPartner(rc, partner))
      ensures error == Some(P.NotFound) <==> rc !in old(configs) || old(configs)[rc].deleted
      ensures error == Some(P.BadValidation) <==>
                && rc in old(configs) && !old(configs)[rc].deleted
                && (|| old(configs)[rc].repository !in old(repositories)
                    || old(repositories)[old(configs)[rc].repository].origin != Upload
                    || (!partner && Publishes(old(snapshots), rc)))
      ensures error in {None, Some(P.NotFound), Some(P.BadValidation)}
      ensures configs == if error.None? then old(configs)[rc := old(configs)[rc].(partner := partner)] else old(configs)
      ensures snapshots == old(snapshots) && repositories == old(repositories)
      ensures old(P.Inv(Db())) ==> P.Inv(Db())
    {
      ghost var before := Db();
      if rc !in configs || configs[rc].deleted {
        return Some(P.NotFound);
      }
      var row := configs[rc];
      if row.repository !in repositories || repositories[row.repository].origin != Upload {
        return Some(P.BadValidation);
      }
      if !partner {
        var hasPublished := HasPublishedSnapshot(rc);
        if hasPublished {
          return Some(P.BadValidation);
        }
      }
      configs := configs[rc := row.(partner := partner)];
      if P.Inv(before) {
        P.DoKeepsInv(before, P.OpSetPartner(rc, partner));
      }
      return None;
    }

    method HasPublishedSnapshot(rc: Uuid) returns (has: bool)
      ensures has <==> Publishes(snapshots, rc)
      ensures has <==> P.PublishedOf(Db(), rc) != {}
    {
      var published := P.PublishedOf(Db(), rc);
      has := |published| > 0;
      assert forall s :: P.LiveSnapshot(Db(), s) && snapshots[s].published && snapshots[s].config == rc ==>
          s in published;
      if has {
        var s := Member(published);
      }
    }

    /** The checks made before anything is written, in order. */
    method CheckPublish(org: Org, rc: Uuid, s: Uuid) returns (error: Option<P.Error>)
      ensures error == P.MayPublish(Db(), org, rc, s)
      ensures error == Some(P.NotFound) <==> s !in snapshots || snapshots[s].deleted || snapshots[s].config != rc
      ensures error == Some(P.Forbidden) <==>
                && s in snapshots && !snapshots[s].deleted && snapshots[s].config == rc
                && (rc !in configs || configs[rc].deleted || configs[rc].org != org)
      ensures error == Some(P.BadValidation) <==>
                && s in snapshots && !snapshots[s].deleted && snapshots[s].config == rc
                && rc in configs && !configs[rc].deleted && configs[rc].org == org && !configs[rc].partner
      ensures error.None? <==>
                && s in snapshots && !snapshots[s].deleted && snapshots[s].config == rc
                && rc in configs && !configs[rc].deleted && configs[rc].org == org && configs[rc].partner
    {
      if s !in snapshots || snapshots[s].deleted || snapshots[s].config != rc {
        return Some(P.NotFound);
      }
      if rc !in configs || configs[rc].deleted || configs[rc].org != org {
        return Some(P.Forbidden);
      }
      return if configs[rc].partner then None else Some(P.BadValidation);
    }

    /** Publishing or unpublishing also refreshes the repository's public flag. */
    method UpdatePublishedStatus(org: Org, published: bool, rc: Uuid, s: Uuid) returns (error: Option<P.Error>)
      modifies this
      ensures Db() == P.Do(old(Db()), P.OpPublish(org, published, rc, s))
      ensures error == Some(P.NotFound) <==>
                s !in old(snapshots) || old(snapshots)[s].deleted || old(snapshots)[s].config != rc
      ensures error == Some(P.Forbidden) <==>
                && s in old(snapshots) && !old(snapshots)[s].deleted && old(snapshots)[s].config == rc
                && (rc !in old(configs) || old(configs)[rc].deleted || old(configs)[rc].org != org)
      ensures error == Some(P.BadValidation) <==>
                && s in old(snapshots) && !old(snapshots)[s].deleted && old(snapshots)[s].config == rc
                && rc in old(configs) && !old(configs)[rc].deleted && old(configs)[rc].org == org
                && !old(configs)[rc].partner
      ensures error.None? <==>
                && s in old(snapshots) && !old(snapshots)[s].deleted && old(snapshots)[s].config == rc
                && rc in old(configs) && !old(configs)[rc].deleted && old(configs)[rc].org == org
                && old(configs)[rc].partner
      ensures snapshots ==
              if error.None? then old(snapshots)[s := old(snapshots)[s].(published := published)] else old(snapshots)
      ensures configs == old(configs)
      ensures repositories ==
              if error.None? && old(configs)[rc].repository in old(repositories)
              then var r := old(configs)[rc].repository;
                   old(repositories)[r := old(repositories)[r].(public := Publishes(snapshots, rc))]
              else old(repositories)
      ensures old(P.Inv(Db())) ==> P.Inv(Db()) && (error.None? ==> P.FlagAccurate(Db(), rc))
    {
      ghost var before := Db();
      error := CheckPublish(org, rc, s);
      if error.Some? {
        return;
      }
      snapshots := snapshots[s := snapshots[s].(published := published)];
      var r := configs[rc].repository;
      if r in repositories {
        var public := HasPublishedSnapshot(rc);
        repositories := repositories[r := repositories[r].(public := public)];
      }
      assert Db() == P.Publish(before, org, published, rc, s).value;
      if P.Inv(before) {
        P.PublishKeepsInv(before, org, published, rc, s);
        P.PublishMakesFlagAccurate(before, org, published, rc, s);
      }
      return None;
    }

    method SoftDelete(s: Uuid) returns (error: Option<P.Error>)
      modifies `snapshots
      ensures Db() == P.Do(old(Db()), P.OpSoftDelete(s))
      ensures error.None? <==> s in old(snapshots)
      ensures snapshots ==
              if s in old(snapshots) then old(snapshots)[s := old(snapshots)[s].(deleted := true)] else old(snapshots)
      ensures old(P.Inv(Db())) ==> P.Inv(Db())
    {
      ghost var before := Db();
      if s !in snapshots {
        return Some(P.NotFound);
      }
      if !snapshots[s].deleted {
        snapshots := snapshots[s := snapshots[s].(deleted := true)];
      }
      assert snapshots == before.snapshots[s := before.snapshots[s].(deleted := true)];
      if P.Inv(before) {
        P.DoKeepsInv(before, P.OpSoftDelete(s));
      }
      return None;
    }

    method Delete(s: Uuid) returns (error: Option<P.Error>)
      modifies this
      ensures Db() == P.Do(old(Db()), P.OpHardDelete(s))
      ensures error.None? <==> s in old(snapshots)
      ensures error.Some? ==> configs == old(configs)
      ensures snapshots == old(snapshots) - {s} && repositories == old(repositories)
      ensures configs.Keys == old(configs).Keys
      ensures error.None? ==>
                forall rc :: rc in configs ==>
                  configs[rc] == old(configs)[rc].(lastSnapshot :=
                    if old(configs)[rc].lastSnapshot == Some(s) then None else old(configs)[rc].lastSnapshot)
      ensures old(P.Inv(Db())) ==> P.Inv(Db())
    {
      ghost var before := Db();
      if s !in snapshots {
        return Some(P.NotFound);
      }
      snapshots := snapshots - {s};
      configs := map rc | rc in configs ::
        if configs[rc].lastSnapshot == Some(s) then configs[rc].(lastSnapshot := None) else configs[rc];
      if P.Inv(before) {
        P.DoKeepsInv(before, P.OpHardDelete(s));
      }
      return None;
    }

    method BulkDelete(ids: seq<Uuid>) returns (errors: seq<Option<LookupError>>)
      modifies `snapshots
      ensures Db() == P.Do(old(Db()), P.OpBulkDelete(Elements(ids)))
      ensures errors == [] <==>
                forall i :: 0 <= i < |ids| ==> ids[i] in old(snapshots) && !old(snapshots)[ids[i]].deleted
      ensures errors == [] ==>
                && snapshots.Keys == old(snapshots).Keys
                && forall s :: s in snapshots ==>
                    snapshots[s] == old(snapshots)[s].(deleted := old(snapshots)[s].deleted || s in ids)
      ensures errors != [] ==> snapshots == old(snapshots) && |errors| == |ids|
      ensures errors != [] ==>
                forall i :: 0 <= i < |ids| ==>
                  errors[i] == if ids[i] in old(snapshots) && !old(snapshots)[ids[i]].deleted then None
                               else Some(NoSuchRow(ids[i]))
      ensures old(P.Inv(Db())) ==> P.Inv(Db())
    {
      ghost var before := Db();
      var visible := P.LiveSnapshots(Db());
      snapshots, errors := MarkListed(snapshots, ids, visible, P.MarkSnapshot());
      assert forall i :: 0 <= i < |ids| ==> ids[i] in Elements(ids);
      assert errors == [] <==> Elements(ids) <= visible;
      if P.Inv(before) {
        P.DoKeepsInv(before, P.OpBulkDelete(Elements(ids)));
      }
    }

    /** Restoration alone may break the publishing invariant, and says when. */
    method ClearDeletedAt(s: Uuid) returns (error: Option<P.Error>)
      modifies `snapshots
      ensures Db() == P.Do(old(Db()), P.OpClearDeletedAt(s))
      ensures error.None? <==> s in old(snapshots)
      ensures snapshots ==
              if s in old(snapshots) then old(snapshots)[s := old(snapshots)[s].(deleted := false)] else old(snapshots)
      ensures old(P.Inv(Db())) && s in old(snapshots) ==>
                (P.Inv(Db()) <==> !old(snapshots[s].published) || old(configs[snapshots[s].config].partner))
    {
      ghost var before := Db();
      if s !in snapshots {
        return Some(P.NotFound);
      }
      snapshots := snapshots[s := snapshots[s].(deleted := false)];
      if P.Inv(before) {
        P.RestoringKeepsInvExactly(before, s);
      }
      return None;
    }

    method SoftDeleteConfiguration(org: Org, rc: Uuid) returns (error: Option<P.Error>)
      modifies `configs
      ensures Db() == P.Do(old(Db()), P.OpDeleteConfig(org, rc))
      ensures error.None? <==> rc in old(configs) && old(configs)[rc].org == org
      ensures configs ==
              if error.None? then old(configs)[rc := old(configs)[rc].(deleted := true)] else old(configs)
      ensures old(P.Inv(Db())) ==> P.Inv(Db())
    {
      ghost var before := Db();
      if rc !in configs || configs[rc].org != org {
        return Some(P.NotFound);
      }
      if !configs[rc].deleted {
        configs := configs[rc := configs[rc].(deleted := true)];
      }
      assert configs == before.configs[rc := before.configs[rc].(deleted := true)];
      if P.Inv(before) {
        P.DoKeepsInv(before, P.OpDeleteConfig(org, rc));
      }
      return None;
    }

    method DeleteConfiguration(org: Org, rc: Uuid) returns (error: Option<P.Error>)
      modifies `configs
      ensures Db() == P.Do(old(Db()), P.OpPurgeConfig(org, rc))
      ensures error.None? <==>
                && rc in old(configs) && old(configs)[rc].org == org
                && forall s :: s in old(snapshots) ==> old(snapshots)[s].config != rc
      ensures configs == if error.None? then old(configs) - {rc} else old(configs)
      ensures old(P.Inv(Db())) ==> P.Inv(Db())
    {
      ghost var before := Db();
      if rc !in configs || configs[rc].org != org {
        return Some(P.NotFound);
      }
      if exists s :: s in snapshots && snapshots[s].config == rc {
        return Some(P.BadValidation);
      }
      configs := configs - {rc};
      if P.Inv(before) {
        P.DoKeepsInv(before, P.OpPurgeConfig(org, rc));
      }
      return None;
    }

    method UpdateLastSnapshot(org: Org, rc: Uuid, s: Uuid) returns (error: Option<P.Error>)
      modifies `configs
      ensures Db() == P.Do(old(Db()), P.OpUpdateLastSnapshot(org, rc, s))
      ensures error.Some? <==> rc in old(configs) && old(configs)[rc].org == org && s !in old(snapshots)
      ensures configs ==
              if rc in old(configs) && old(configs)[rc].org == org && s in old(snapshots)
              then old(configs)[rc := old(configs)[rc].(lastSnapshot := Some(s))] else old(configs)
      ensures old(P.Inv(Db())) ==> P.Inv(Db())
      ensures forall scope :: old(V.LastsAreNewest(Db(), scope)) ==>
                (V.LastsAreNewest(Db(), scope) <==> old(V.Orderly(Db(), scope, P.OpUpdateLastSnapshot(org, rc, s))))
    {
      ghost var before := Db();
      ghost var op := P.OpUpdateLastSnapshot(org, rc, s);
      error := None;
      if rc in configs && configs[rc].org == org {
        if s !in snapshots {
          error := Some(P.BadValidation);
        } else {
          configs := configs[rc := configs[rc].(lastSnapshot := Some(s))];
        }
      }
      forall scope | V.LastsAreNewest(before, scope) {
        V.DoKeepsLastsExactly(before, scope, op);
      }
      if P.Inv(before) {
        P.DoKeepsInv(before, op);
      }
    }
  }
}
