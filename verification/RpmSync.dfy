/** Synchronising a repository's packages with what its metadata lists (pkg/dao/rpms.go). */
module RpmSync {
  import opened Associations
  import opened Basics

  /** A package as listed and as stored: a row of the package table holds the same fields. */
  datatype Package = Package(
    name: string, arch: string, version: string, release: string, epoch: int, summary: string, checksum: string)

  /** Packages, and the association table: which repository has which of them. */
  datatype Store = Store(repositories: set<Uuid>, rpms: map<Uuid, Package>, links: Links, next: Uuid)

  datatype Error = NoSuchRepository | InvalidPackage

  /** What a row must satisfy to be inserted. */
  predicate Acceptable(p: Package) {
    p.name != "" && p.arch != "" && p.version != "" && p.epoch >= 0 && p.summary != "" && p.checksum != ""
  }

  function Checksums(pkgs: seq<Package>): set<string> {
    set p | p in pkgs :: p.checksum
  }

  function RowsWith(rpms: map<Uuid, Package>, checksums: set<string>): set<Uuid> {
    set u | u in rpms && rpms[u].checksum in checksums
  }

  ghost predicate UniqueChecksums(rpms: map<Uuid, Package>) {
    forall a, b :: a in rpms && b in rpms && rpms[a].checksum == rpms[b].checksum ==> a == b
  }

  ghost predicate Valid(s: Store) {
    && UniqueChecksums(s.rpms)
    && (forall u :: u in s.rpms ==> u < s.next)
    && (forall r, u :: r in s.links && u in s.links[r] ==> u in s.rpms)
  }

  /** The checksums of a repository's packages. */
  function Content(s: Store, repo: Uuid): set<string> {
    set u | u in Linked(s.links, repo) && u in s.rpms :: s.rpms[u].checksum
  }

  /** `rpms'` is `rpms` plus a row for each listed package whose checksum was missing. */
  ghost predicate Inserted(rpms: map<Uuid, Package>, rpms': map<Uuid, Package>, pkgs: seq<Package>) {
    && (forall u :: u in rpms ==> u in rpms' && rpms'[u] == rpms[u])
    && (forall u :: u in rpms' && u !in rpms ==> rpms'[u] in pkgs && RowsWith(rpms, {rpms'[u].checksum}) == {})
    && (forall c :: c in Checksums(pkgs) ==> RowsWith(rpms', {c}) != {})
  }

  /** A successful synchronisation, stated on the tables before and after it. */
  ghost predicate Synced(s: Store, s': Store, repo: Uuid, pkgs: seq<Package>, count: int) {
    && Valid(s')
    && s'.repositories == s.repositories
    && Inserted(s.rpms, s'.rpms, pkgs)
    && s'.links == s.links[repo := RowsWith(s'.rpms, Checksums(pkgs))]
    && count == |Linked(s'.links, repo) - Linked(s.links, repo)|
  }

  /** Cleanup removes exactly the packages no repository has. */
  ghost predicate Cleaned(s: Store, s': Store) {
    && s'.repositories == s.repositories && s'.links == s.links && s'.next == s.next
    && s'.rpms == map u | u in s.rpms && Used(s.links, u) :: s.rpms[u]
  }

  // ---------- what it means for contents

  lemma OwnContentIsListed(s: Store, s': Store, repo: Uuid, pkgs: seq<Package>, count: int)
    requires Synced(s, s', repo, pkgs, count)
    ensures Content(s', repo) == Checksums(pkgs)
  {
    var wanted := RowsWith(s'.rpms, Checksums(pkgs));
    assert Linked(s'.links, repo) == wanted;
    forall c | c in Checksums(pkgs)
      ensures c in Content(s', repo)
    {
      var u := Member(RowsWith(s'.rpms, {c}));
      assert u in wanted;
    }
  }

  /** After a synchronisation the repository has exactly the listed packages, and no other repository
      has gained or lost any. */
  lemma SyncIsExact(s: Store, s': Store, repo: Uuid, pkgs: seq<Package>, count: int, r: Uuid)
    requires Valid(s) && Synced(s, s', repo, pkgs, count)
    ensures Content(s', r) == if r == repo then Checksums(pkgs) else Content(s, r)
  {
    if r == repo {
      OwnContentIsListed(s, s', repo, pkgs, count);
    } else {
      OtherContentIsKept(s, s', r);
    }
  }

  lemma OtherContentIsKept(s: Store, s': Store, r: Uuid)
    requires Linked(s'.links, r) == Linked(s.links, r) && forall u :: u in Linked(s.links, r) ==> u in s.rpms
    requires forall u :: u in s.rpms ==> u in s'.rpms && s'.rpms[u] == s.rpms[u]
    ensures Content(s', r) == Content(s, r)
  {
  }

  lemma {:induction false} ImageSize(rpms: map<Uuid, Package>, us: set<Uuid>)
    requires UniqueChecksums(rpms) && us <= rpms.Keys
    ensures |us| == |set u | u in us :: rpms[u].checksum|
    decreases us
  {
    if us != {} {
      var x := Member(us);
      var rest := us - {x};
      ImageSize(rpms, rest);
      assert (set u | u in us :: rpms[u].checksum) == (set u | u in rest :: rpms[u].checksum) + {rpms[x].checksum};
    }
  }

  /** The returned count is the number of listed packages the repository did not have: it depends on
      neither the identifiers nor the way the lookups were cut into batches. */
  lemma CountIsNewContent(s: Store, s': Store, repo: Uuid, pkgs: seq<Package>, count: int)
    requires Valid(s) && Synced(s, s', repo, pkgs, count)
    ensures count == |Checksums(pkgs) - Content(s, repo)|
  {
    var added := Linked(s'.links, repo) - Linked(s.links, repo);
    ImageSize(s'.rpms, added);
    NewContent(s, s', repo, pkgs, added);
  }

  lemma NewContent(s: Store, s': Store, repo: Uuid, pkgs: seq<Package>, added: set<Uuid>)
    requires Valid(s) && Valid(s') && Inserted(s.rpms, s'.rpms, pkgs)
    requires added == RowsWith(s'.rpms, Checksums(pkgs)) - Linked(s.links, repo)
    ensures (set u | u in added :: s'.rpms[u].checksum) == Checksums(pkgs) - Content(s, repo)
  {
    assert forall u :: u in Linked(s.links, repo) ==> u in s.rpms && s'.rpms[u] == s.rpms[u];
    forall c | c in Checksums(pkgs) - Content(s, repo)
      ensures exists u :: u in added && s'.rpms[u].checksum == c
    {
      var u := Member(RowsWith(s'.rpms, {c}));
      assert u in RowsWith(s'.rpms, Checksums(pkgs));
    }
  }

  // ---------- histories

  datatype Event = Sync(repo: Uuid, pkgs: seq<Package>) | Cleanup

  ghost predicate Step(s: Store, e: Event, s': Store) {
    match e
    case Sync(repo, pkgs) => exists count :: Synced(s, s', repo, pkgs, count)
    case Cleanup => Cleaned(s, s')
  }

  ghost predicate History(stores: seq<Store>, events: seq<Event>) {
    |stores| == |events| + 1 && forall k :: 0 <= k < |events| ==> Step(stores[k], events[k], stores[k + 1])
  }

  /** What a repository should have after some events: what it was last synchronised with. */
  function Expected(initial: set<string>, events: seq<Event>, repo: Uuid): set<string>
    decreases |events|
  {
    if events == [] then initial
    else
      var e := events[|events| - 1];
      if e.Sync? && e.repo == repo then Checksums(e.pkgs) else Expected(initial, events[..|events| - 1], repo)
  }

  lemma CleanupKeepsContent(s: Store, s': Store, r: Uuid)
    requires Valid(s) && Cleaned(s, s')
    ensures Valid(s') && Content(s', r) == Content(s, r)
    ensures forall u :: u in s'.rpms <==> u in s.rpms && exists r :: r in s.links && u in s.links[r]
  {
    assert forall u :: u in Linked(s.links, r) ==> u in s.rpms && u in s'.rpms;
  }

  /** Over any history of synchronisations and cleanups, links always lead to stored packages and every
      repository has exactly what it was last synchronised with. */
  lemma {:induction false} ContentIsLastSynced(stores: seq<Store>, events: seq<Event>, repo: Uuid)
    requires History(stores, events) && Valid(stores[0])
    ensures Valid(stores[|events|])
    ensures Content(stores[|events|], repo) == Expected(Content(stores[0], repo), events, repo)
    decreases |events|
  {
    if events != [] {
      var n := |events| - 1;
      ContentIsLastSynced(stores[..n + 1], events[..n], repo);
      var s, s', e := stores[n], stores[n + 1], events[n];
      assert Step(s, e, s');
      match e
      case Sync(r, pkgs) =>
        var count :| Synced(s, s', r, pkgs, count);
        SyncIsExact(s, s', r, pkgs, count, repo);
      case Cleanup =>
        CleanupKeepsContent(s, s', repo);
    }
  }
}
