/** The synchronisation loops over mutable tables (pkg/dao/rpms.go). */
module RpmDao {
  import opened Basics
  import opened Associations
  import opened RpmSync

  /** Rows with the given checksums, looked up in batches of at most `limit`. A checksum that occurs in
      two batches brings its row twice. */
  method BatchedLookup(rpms: map<Uuid, Package>, checksums: seq<string>, limit: int) returns (uuids: seq<Uuid>)
    requires limit >= 1
    ensures Elements(uuids) == RowsWith(rpms, Elements(checksums))
  {
    uuids := [];
    var i := 0;
    assert Elements(checksums[..0]) == {};
    while i < |checksums|
      invariant 0 <= i
      invariant Elements(uuids) == RowsWith(rpms, Elements(checksums[..if i < |checksums| then i else |checksums|]))
      decreases |checksums| - i
    {
      var final := i + limit;
      if final > |checksums| - 1 {
        final := |checksums|;
      }
      var batch := Query(RowsWith(rpms, Elements(checksums[i..final])));
      assert Elements(uuids + batch) == Elements(uuids) + Elements(batch);
      assert checksums[..final] == checksums[..i] + checksums[i..final];
      assert Elements(checksums[..final]) == Elements(checksums[..i]) + Elements(checksums[i..final]);
      uuids := uuids + batch;
      i := i + limit;
    }
    assert checksums[..|checksums|] == checksums;
  }

  /** The packages whose checksum is not excluded, in order. */
  function Excluding(pkgs: seq<Package>, checksums: set<string>): seq<Package> {
    if pkgs == [] then []
    else
      var front, last := Excluding(pkgs[..|pkgs| - 1], checksums), pkgs[|pkgs| - 1];
      if last.checksum in checksums then front else front + [last]
  }

  method FilteredConvert(pkgs: seq<Package>, exclude: seq<string>) returns (rows: seq<Package>)
    ensures rows == Excluding(pkgs, Elements(exclude))
  {
    rows := [];
    for i := 0 to |pkgs|
      invariant rows == Excluding(pkgs[..i], Elements(exclude))
    {
      assert pkgs[..i + 1][..i] == pkgs[..i];
      if pkgs[i].checksum !in exclude {
        rows := rows + [pkgs[i]];
      }
    }
    assert pkgs[..|pkgs|] == pkgs;
  }

  lemma {:induction false} ExcludingMembers(pkgs: seq<Package>, checksums: set<string>)
    ensures forall p :: p in Excluding(pkgs, checksums) <==> p in pkgs && p.checksum !in checksums
  {
    if pkgs != [] {
      var front, last := pkgs[..|pkgs| - 1], pkgs[|pkgs| - 1];
      assert pkgs == front + [last];
      ExcludingMembers(front, checksums);
    }
  }

  /** Inserting rows with ON CONFLICT (checksum) DO NOTHING: a row whose checksum is taken is skipped. */
  method InsertMissing(rpms: map<Uuid, Package>, next: Uuid, rows: seq<Package>)
    returns (rpms': map<Uuid, Package>, next': Uuid)
    requires UniqueChecksums(rpms) && forall u :: u in rpms ==> u < next
    ensures UniqueChecksums(rpms') && next <= next' && forall u :: u in rpms' ==> u < next'
    ensures Inserted(rpms, rpms', rows)
  {
    rpms', next' := rpms, next;
    assert Checksums(rows[..0]) == {};
    for i := 0 to |rows|
      invariant UniqueChecksums(rpms') && next <= next' && forall u :: u in rpms' ==> u < next'
      invariant Inserted(rpms, rpms', rows[..i])
    {
      var row := rows[i];
      assert rows[..i + 1] == rows[..i] + [row];
      if forall u :: u in rpms' ==> rpms'[u].checksum != row.checksum {
        AddingKeepsInserted(rpms, rpms', rows[..i], row, next');
        rpms', next' := rpms'[next' := row], next' + 1;
      } else {
        SkippingKeepsInserted(rpms, rpms', rows[..i], row);
      }
    }
    assert rows[..|rows|] == rows;
  }

  lemma ChecksumsOfAppend(rows: seq<Package>, row: Package)
    ensures Checksums(rows + [row]) == Checksums(rows) + {row.checksum}
  {
    assert row in rows + [row];
    assert forall p :: p in rows ==> p in rows + [row];
  }

  lemma AddingKeepsInserted(rpms: map<Uuid, Package>, rpms': map<Uuid, Package>, rows: seq<Package>, row: Package,
      next: Uuid)
    requires Inserted(rpms, rpms', rows) && UniqueChecksums(rpms') && forall u :: u in rpms' ==> u < next
    requires forall u :: u in rpms' ==> rpms'[u].checksum != row.checksum
    ensures Inserted(rpms, rpms'[next := row], rows + [row]) && UniqueChecksums(rpms'[next := row])
  {
    var after := rpms'[next := row];
    ChecksumsOfAppend(rows, row);
    forall c | c in Checksums(rows + [row])
      ensures RowsWith(after, {c}) != {}
    {
      if c == row.checksum {
        assert next in RowsWith(after, {c});
      } else {
        var u := Member(RowsWith(rpms', {c}));
        assert u in RowsWith(after, {c});
      }
    }
    assert forall u :: u in rpms ==> rpms[u].checksum != row.checksum;
    assert RowsWith(rpms, {row.checksum}) == {};
  }

  lemma SkippingKeepsInserted(rpms: map<Uuid, Package>, rpms': map<Uuid, Package>, rows: seq<Package>, row: Package)
    requires Inserted(rpms, rpms', rows) && exists u :: u in rpms' && rpms'[u].checksum == row.checksum
    ensures Inserted(rpms, rpms', rows + [row])
  {
    ChecksumsOfAppend(rows, row);
    var u :| u in rpms' && rpms'[u].checksum == row.checksum;
    assert u in RowsWith(rpms', {row.checksum});
  }

  lemma FilteredInsertIsInsert(rpms: map<Uuid, Package>, rpms': map<Uuid, Package>, pkgs: seq<Package>,
      existing: set<string>)
    requires Inserted(rpms, rpms', Excluding(pkgs, existing))
    requires forall c :: c in existing <==> c in Checksums(pkgs) && RowsWith(rpms, {c}) != {}
    ensures Inserted(rpms, rpms', pkgs)
  {
    ExcludingMembers(pkgs, existing);
    forall c | c in Checksums(pkgs)
      ensures RowsWith(rpms', {c}) != {}
    {
      if c in existing {
        var u := Member(RowsWith(rpms, {c}));
        assert u in RowsWith(rpms', {c});
      } else {
        assert c in Checksums(Excluding(pkgs, existing));
      }
    }
  }

  class Dao {
    var repositories: set<Uuid>
    var rpms: map<Uuid, Package>
    var links: Links
    var next: Uuid

    constructor (repositories: set<Uuid>)
      ensures Valid(Tables()) && Tables() == Store(repositories, map[], map[], 0)
    {
      this.repositories, rpms, links, next := repositories, map[], map[], 0;
    }

    function Tables(): Store
      reads this
    {
      Store(repositories, rpms, links, next)
    }

    /** Stores the listed packages that are not stored yet, or refuses them all. */
    method StoreMissing(pkgs: seq<Package>, checksums: seq<string>, limit: int) returns (ok: bool)
      requires Valid(Tables()) && limit >= 1 && Elements(checksums) == Checksums(pkgs)
      modifies `rpms, `next
      ensures ok <==> forall p :: p in pkgs && !ChecksumIsStored(old(rpms), p.checksum) ==> Acceptable(p)
      ensures ok ==> Inserted(old(rpms), rpms, pkgs) && UniqueChecksums(rpms) && forall u :: u in rpms ==> u < next
      ensures !ok ==> rpms == old(rpms) && next == old(next)
    {
      var stored := BatchedLookup(rpms, checksums, limit);
      var existing := Pluck(rpms, stored, pkgs);
      var rows := FilteredConvert(pkgs, existing);
      ExcludingMembers(pkgs, Elements(existing));
      NotStoredExactly(rpms);
      if exists p :: p in rows && !Acceptable(p) {
        return false;
      }
      var rpms', next' := InsertMissing(rpms, next, rows);
      FilteredInsertIsInsert(rpms, rpms', pkgs, Elements(existing));
      rpms, next := rpms', next';
      return true;
    }

    /** Looks up what is stored, inserts the rest, drops the associations that are no longer listed and
        adds the missing ones. The outcome does not depend on `limit`. */
    method InsertForRepository(repo: Uuid, pkgs: seq<Package>, limit: int) returns (result: Result<int, Error>)
      requires Valid(Tables()) && limit >= 1
      modifies this
      ensures result.Ok? ==> Synced(old(Tables()), Tables(), repo, pkgs, result.value)
      ensures result.Ok? ==> result.value == |Checksums(pkgs) - Content(old(Tables()), repo)|
      ensures result.Err? ==> Tables() == old(Tables())
      ensures result == Err(NoSuchRepository) <==> repo !in old(repositories)
      ensures result == Err(InvalidPackage) <==>
                && repo in old(repositories)
                && exists p :: && p in pkgs && !ChecksumIsStored(old(rpms), p.checksum)
                               && (p.name == "" || p.arch == "" || p.version == "" || p.epoch < 0 || p.summary == "" ||
                                   p.checksum == "")
      ensures repositories == old(repositories)
      ensures forall u :: u in old(rpms) ==> u in rpms && rpms[u] == old(rpms)[u]
      ensures forall u :: u in rpms && u !in old(rpms) ==>
                rpms[u] in pkgs && !ChecksumIsStored(old(rpms), rpms[u].checksum)
      ensures forall u, v :: u in rpms && v in rpms && rpms[u].checksum == rpms[v].checksum ==> u == v
      ensures result.Ok? ==>
                forall u :: u in Linked(links, repo) <==>
                  u in rpms && exists p :: p in pkgs && p.checksum == rpms[u].checksum
      ensures result.Ok? ==> forall p :: p in pkgs ==> ChecksumIsStored(rpms, p.checksum)
      ensures forall r :: r != repo ==> Linked(links, r) == Linked(old(links), r)
    {
      ghost var before := Tables();
      if repo !in repositories {
        return Err(NoSuchRepository);
      }
      var checksums := ChecksumList(pkgs);
      var ok := StoreMissing(pkgs, checksums, limit);
      if !ok {
        return Err(InvalidPackage);
      }
      var wanted := BatchedLookup(rpms, checksums, limit);
      var count;
      links, count := Relink(links, repo, wanted);
      SyncedWhenAssociated(before, Tables(), repo, pkgs, count);
      SyncedOnRows(before, Tables(), repo, pkgs, count);
      CountIsNewContent(before, Tables(), repo, pkgs, count);
      return Ok(count);
    }

    method OrphanCleanup()
      modifies `rpms
      ensures Cleaned(old(Tables()), Tables())
      ensures forall u :: u in rpms <==> u in old(rpms) && exists r :: r in links && u in links[r]
      ensures forall u :: u in rpms ==> rpms[u] == old(rpms)[u]
    {
      var dangling := set u | u in rpms && !Used(links, u);
      if dangling != {} {
        rpms := map u | u in rpms && u !in dangling :: rpms[u];
      }
      forall u | u in old(rpms)
        ensures u in rpms <==> Used(links, u)
      {
        assert !Used(links, u) ==> u in dangling;
      }
    }
  }

  ghost predicate ChecksumIsStored(rpms: map<Uuid, Package>, checksum: string) {
    exists u :: u in rpms && rpms[u].checksum == checksum
  }

  lemma NotStoredExactly(rpms: map<Uuid, Package>)
    ensures forall c :: RowsWith(rpms, {c}) == {} <==> !ChecksumIsStored(rpms, c)
  {
    forall c
      ensures RowsWith(rpms, {c}) == {} <==> !ChecksumIsStored(rpms, c)
    {
      if ChecksumIsStored(rpms, c) {
        var u :| u in rpms && rpms[u].checksum == c;
        assert u in RowsWith(rpms, {c});
      } else if RowsWith(rpms, {c}) != {} {
        var u := Member(RowsWith(rpms, {c}));
      }
    }
  }

  /** Stored rows stay as they are, new ones are listed and have new checksums, and checksums are unique. */
  ghost predicate RowsAreKept(rpms: map<Uuid, Package>, rpms': map<Uuid, Package>, pkgs: seq<Package>) {
    && (forall u :: u in rpms ==> u in rpms' && rpms'[u] == rpms[u])
    && (forall u :: u in rpms' && u !in rpms ==> rpms'[u] in pkgs && !ChecksumIsStored(rpms, rpms'[u].checksum))
    && (forall u, v :: u in rpms' && v in rpms' && rpms'[u].checksum == rpms'[v].checksum ==> u == v)
  }

  /** The repository's associations are precisely the stored rows with listed checksums, and every listed
      package has one. */
  ghost predicate HasExactly(rpms: map<Uuid, Package>, links: Links, repo: Uuid, pkgs: seq<Package>) {
    && (forall u :: u in Linked(links, repo) <==> u in rpms && exists p :: p in pkgs && p.checksum == rpms[u].checksum)
    && (forall p :: p in pkgs ==> ChecksumIsStored(rpms, p.checksum))
  }

  lemma SyncedOnRows(s: Store, s': Store, repo: Uuid, pkgs: seq<Package>, count: int)
    requires Synced(s, s', repo, pkgs, count)
    ensures RowsAreKept(s.rpms, s'.rpms, pkgs) && HasExactly(s'.rpms, s'.links, repo, pkgs)
    ensures forall r :: r != repo ==> Linked(s'.links, r) == Linked(s.links, r)
  {
    NotStoredExactly(s.rpms);
    NotStoredExactly(s'.rpms);
    forall p | p in pkgs
      ensures ChecksumIsStored(s'.rpms, p.checksum)
    {
      assert p.checksum in Checksums(pkgs);
    }
  }

  lemma SyncedWhenAssociated(s: Store, s': Store, repo: Uuid, pkgs: seq<Package>, count: int)
    requires Valid(s) && s'.repositories == s.repositories && Inserted(s.rpms, s'.rpms, pkgs)
    requires UniqueChecksums(s'.rpms) && forall u :: u in s'.rpms ==> u < s'.next
    requires s'.links == s.links[repo := RowsWith(s'.rpms, Checksums(pkgs))]
    requires count == |Linked(s'.links, repo) - Linked(s.links, repo)|
    ensures Synced(s, s', repo, pkgs, count)
  {
    forall r, u | r in s'.links && u in s'.links[r]
      ensures u in s'.rpms
    {
      if r != repo {
        assert r in s.links && u in s.links[r];
      }
    }
  }

  /** The checksums of the rows found. */
  method Pluck(rpms: map<Uuid, Package>, stored: seq<Uuid>, ghost pkgs: seq<Package>) returns (existing: seq<string>)
    requires Elements(stored) == RowsWith(rpms, Checksums(pkgs))
    ensures forall c :: c in Elements(existing) <==> c in Checksums(pkgs) && RowsWith(rpms, {c}) != {}
  {
    assert forall i :: 0 <= i < |stored| ==> stored[i] in Elements(stored);
    existing := seq(|stored|, i requires 0 <= i < |stored| => rpms[stored[i]].checksum);
    ExistingChecksums(rpms, stored, existing, pkgs);
  }

  method ChecksumList(pkgs: seq<Package>) returns (checksums: seq<string>)
    ensures Elements(checksums) == Checksums(pkgs)
  {
    checksums := [];
    assert Checksums(pkgs[..0]) == {};
    for i := 0 to |pkgs|
      invariant Elements(checksums) == Checksums(pkgs[..i])
    {
      ChecksumsOfAppend(pkgs[..i], pkgs[i]);
      assert pkgs[..i + 1] == pkgs[..i] + [pkgs[i]];
      assert Elements(checksums + [pkgs[i].checksum]) == Elements(checksums) + {pkgs[i].checksum};
      checksums := checksums + [pkgs[i].checksum];
    }
    assert pkgs[..|pkgs|] == pkgs;
  }

  lemma ExistingChecksums(rpms: map<Uuid, Package>, stored: seq<Uuid>, existing: seq<string>, pkgs: seq<Package>)
    requires Elements(stored) == RowsWith(rpms, Checksums(pkgs)) && |existing| == |stored|
    requires forall i :: 0 <= i < |stored| ==> stored[i] in rpms && existing[i] == rpms[stored[i]].checksum
    ensures forall c :: c in Elements(existing) <==> c in Checksums(pkgs) && RowsWith(rpms, {c}) != {}
  {
    forall c | c in Elements(existing)
      ensures c in Checksums(pkgs) && RowsWith(rpms, {c}) != {}
    {
      var i :| 0 <= i < |existing| && existing[i] == c;
      assert stored[i] in Elements(stored) && stored[i] in RowsWith(rpms, {c});
    }
    forall c | c in Checksums(pkgs) && RowsWith(rpms, {c}) != {}
      ensures c in Elements(existing)
    {
      var u := Member(RowsWith(rpms, {c}));
      assert u in Elements(stored);
      var i :| 0 <= i < |stored| && stored[i] == u;
      assert existing[i] == c;
    }
  }
}
