/** Synchronising a repository's environments (pkg/dao/environments.go). Ids and names are looked up
    independently of each other, so a stored row may be matched by two different listed environments. */
module EnvironmentSync {
  import opened Associations
  import opened Basics

  datatype Environment = Environment(id: string, name: string, description: string)

  /** What identifies an environment. */
  datatype Key = Key(id: string, name: string)

  datatype Store = Store(repositories: set<Uuid>, rows: map<Uuid, Environment>, links: Links, next: Uuid)

  datatype Error = NoSuchRepository | InvalidEnvironment

  function KeyOf(e: Environment): Key {
    Key(e.id, e.name)
  }

  function Listed(envs: seq<Environment>): set<Key> {
    set e | e in envs :: KeyOf(e)
  }

  function Ids(envs: seq<Environment>): set<string> {
    set e | e in envs :: e.id
  }

  function Names(envs: seq<Environment>): set<string> {
    set e | e in envs :: e.name
  }

  /** The lookup: any listed id together with any listed name. */
  function Matching(rows: map<Uuid, Environment>, envs: seq<Environment>): set<Uuid> {
    set u | u in rows && rows[u].id in Ids(envs) && rows[u].name in Names(envs)
  }

  function KeysAt(rows: map<Uuid, Environment>, us: set<Uuid>): set<Key> {
    set u | u in us && u in rows :: KeyOf(rows[u])
  }

  function ExistingIds(rows: map<Uuid, Environment>, envs: seq<Environment>): set<string> {
    set u | u in Matching(rows, envs) :: rows[u].id
  }

  /** The listed environments whose id no matching row has: these are inserted. */
  function Missing(envs: seq<Environment>, existing: set<string>): seq<Environment> {
    if envs == [] then []
    else
      var front, last := Missing(envs[..|envs| - 1], existing), envs[|envs| - 1];
      if last.id in existing then front else front + [last]
  }

  /** `rows'` is `rows` plus one row for each of `added`. */
  ghost predicate Grown(rows: map<Uuid, Environment>, rows': map<Uuid, Environment>, added: seq<Environment>) {
    && (forall u :: u in rows ==> u in rows' && rows'[u] == rows[u])
    && (forall u :: u in rows' && u !in rows ==> rows'[u] in added)
    && (forall e :: e in added ==> exists u :: u in rows' && u !in rows && rows'[u] == e)
  }

  /** A successful synchronisation, on the tables before and after it. */
  ghost predicate Synced(s: Store, s': Store, repo: Uuid, envs: seq<Environment>, count: int) {
    && s'.repositories == s.repositories
    && Grown(s.rows, s'.rows, Missing(envs, ExistingIds(s.rows, envs)))
    && s'.links == s.links[repo := Matching(s'.rows, envs)]
    && count == |Linked(s'.links, repo) - Linked(s.links, repo)|
  }

  /** The environments a repository has. */
  function Content(s: Store, repo: Uuid): set<Key> {
    set u | u in Linked(s.links, repo) && u in s.rows :: Key(s.rows[u].id, s.rows[u].name)
  }

  ghost predicate IsStored(rows: map<Uuid, Environment>, k: Key) {
    exists u :: u in rows && rows[u].id == k.id && rows[u].name == k.name
  }

  ghost predicate IsListed(envs: seq<Environment>, k: Key) {
    exists e :: e in envs && e.id == k.id && e.name == k.name
  }

  /** Some listed environment has the id, and some listed one, perhaps another, the name. */
  ghost predicate PartsAreListed(envs: seq<Environment>, k: Key) {
    (exists a :: a in envs && a.id == k.id) && (exists b :: b in envs && b.name == k.name)
  }

  /** Some stored row has the id together with a listed name. */
  ghost predicate IdIsTaken(rows: map<Uuid, Environment>, envs: seq<Environment>, id: string) {
    exists u, b :: u in rows && b in envs && rows[u].id == id && rows[u].name == b.name
  }

  /** What a caller can check beforehand: each stored row that joins a listed id to a listed name is
      itself listed, and a listed environment is stored whenever its id is stored with a listed name. */
  ghost predicate Unambiguous(rows: map<Uuid, Environment>, envs: seq<Environment>) {
    && (forall k :: IsStored(rows, k) && PartsAreListed(envs, k) ==> IsListed(envs, k))
    && (forall k :: IsListed(envs, k) && IdIsTaken(rows, envs, k.id) ==> IsStored(rows, k))
  }

  /** The lookup on the stored fields. */
  lemma LookupExactly(rows: map<Uuid, Environment>, envs: seq<Environment>, k: Key)
    ensures k in KeysAt(rows, Matching(rows, envs)) <==> IsStored(rows, k) && PartsAreListed(envs, k)
    ensures k in Listed(envs) <==> IsListed(envs, k)
    ensures k in Listed(envs) ==> (k.id in ExistingIds(rows, envs) <==> IdIsTaken(rows, envs, k.id))
  {
    if IsStored(rows, k) && PartsAreListed(envs, k) {
      var u :| u in rows && rows[u].id == k.id && rows[u].name == k.name;
      assert u in Matching(rows, envs) && KeyOf(rows[u]) == k;
    }
    if k in Listed(envs) && IdIsTaken(rows, envs, k.id) {
      var u, b :| u in rows && b in envs && rows[u].id == k.id && rows[u].name == b.name;
      assert u in Matching(rows, envs);
    }
  }

  lemma {:induction false} MissingMembers(envs: seq<Environment>, existing: set<string>)
    ensures forall e :: e in Missing(envs, existing) <==> e in envs && e.id !in existing
  {
    if envs != [] {
      var front, last := envs[..|envs| - 1], envs[|envs| - 1];
      assert envs == front + [last];
      MissingMembers(front, existing);
    }
  }

  lemma LinkedKeys(s: Store, s': Store, repo: Uuid, envs: seq<Environment>, count: int, k: Key)
    requires Synced(s, s', repo, envs, count)
    ensures k in Content(s', repo) <==>
              k in KeysAt(s.rows, Matching(s.rows, envs)) || (k in Listed(envs) && k.id !in ExistingIds(s.rows, envs))
  {
    var existing := ExistingIds(s.rows, envs);
    MissingMembers(envs, existing);
    if k in Content(s', repo) {
      var u :| u in Matching(s'.rows, envs) && KeyOf(s'.rows[u]) == k;
      assert u in s.rows ==> u in Matching(s.rows, envs);
    }
    if k in KeysAt(s.rows, Matching(s.rows, envs)) {
      var u :| u in Matching(s.rows, envs) && KeyOf(s.rows[u]) == k;
      assert u in Matching(s'.rows, envs);
    }
    if k in Listed(envs) && k.id !in existing {
      var e :| e in envs && KeyOf(e) == k;
      var u :| u in s'.rows && u !in s.rows && s'.rows[u] == e;
      assert u in Matching(s'.rows, envs);
    }
  }

  /** What the repository has afterwards: the stored environments whose id and name are listed, if not
      together, and the listed ones whose id is not stored with a listed name. */
  lemma KeysAfterSync(s: Store, s': Store, repo: Uuid, envs: seq<Environment>, count: int, k: Key)
    requires Synced(s, s', repo, envs, count)
    ensures k in Content(s', repo) <==>
              || (IsStored(s.rows, k) && PartsAreListed(envs, k))
              || (IsListed(envs, k) && !IdIsTaken(s.rows, envs, k.id))
  {
    LinkedKeys(s, s', repo, envs, count, k);
    LookupExactly(s.rows, envs, k);
  }

  /** The repository has exactly the listed environments afterwards if and only if the lookup was
      unambiguous. */
  lemma SyncIsExactIffUnambiguous(s: Store, s': Store, repo: Uuid, envs: seq<Environment>, count: int)
    requires Synced(s, s', repo, envs, count)
    ensures Content(s', repo) == Listed(envs) <==> Unambiguous(s.rows, envs)
  {
    forall k
      ensures k in Listed(envs) <==> IsListed(envs, k)
      ensures k in Content(s', repo) <==>
                || (IsStored(s.rows, k) && PartsAreListed(envs, k))
                || (IsListed(envs, k) && !IdIsTaken(s.rows, envs, k.id))
    {
      KeysAfterSync(s, s', repo, envs, count, k);
      LookupExactly(s.rows, envs, k);
    }
    ListedPartsAreListed(envs);
  }

  lemma ListedPartsAreListed(envs: seq<Environment>)
    ensures forall k :: IsListed(envs, k) ==> PartsAreListed(envs, k)
  {
  }

  /** With distinct listed ids it is enough that no stored row joins a listed id to another's listed name. */
  lemma DistinctIdsSuffice(rows: map<Uuid, Environment>, envs: seq<Environment>)
    requires forall a, b :: a in envs && b in envs && a.id == b.id ==> a == b
    requires forall k :: IsStored(rows, k) && PartsAreListed(envs, k) ==> IsListed(envs, k)
    ensures Unambiguous(rows, envs)
  {
    forall k | IsListed(envs, k) && IdIsTaken(rows, envs, k.id)
      ensures IsStored(rows, k)
    {
      var u, b :| u in rows && b in envs && rows[u].id == k.id && rows[u].name == b.name;
      var stored := Key(k.id, b.name);
      assert IsStored(rows, stored) && PartsAreListed(envs, stored);
    }
  }

  /** No other repository's environments change. */
  lemma OthersKeepTheirs(s: Store, s': Store, repo: Uuid, envs: seq<Environment>, count: int, r: Uuid)
    requires Synced(s, s', repo, envs, count) && r != repo && forall u :: u in Linked(s.links, r) ==> u in s.rows
    ensures Content(s', r) == Content(s, r)
  {
    assert Linked(s'.links, r) == Linked(s.links, r);
  }

  /** Two listed environments that share an id: once one is stored, the other is never added. */
  lemma SharedIdLosesAnEnvironment(s: Store, s': Store, repo: Uuid, envs: seq<Environment>, count: int, a: Environment,
      b: Environment)
    requires Synced(s, s', repo, envs, count)
    requires a in envs && b in envs && a.id == b.id && IsStored(s.rows, KeyOf(a)) && !IsStored(s.rows, KeyOf(b))
    ensures KeyOf(b) in Listed(envs) && KeyOf(b) !in Content(s', repo)
  {
    KeysAfterSync(s, s', repo, envs, count, KeyOf(b));
  }

  class Dao {
    var repositories: set<Uuid>
    var rows: map<Uuid, Environment>
    var links: Links
    var next: Uuid

    ghost predicate Valid()
      reads this
    {
      forall u :: u in rows ==> u < next
    }

    constructor (repositories: set<Uuid>)
      ensures Valid() && Tables() == Store(repositories, map[], map[], 0)
    {
      this.repositories, rows, links, next := repositories, map[], map[], 0;
    }

    function Tables(): Store
      reads this
    {
      Store(repositories, rows, links, next)
    }

    /** Stores the listed environments whose id was not found, or refuses them all. */
    method StoreMissing(envs: seq<Environment>) returns (ok: bool)
      requires Valid()
      modifies `rows, `next
      ensures Valid()
      ensures ok <==> forall e :: e in envs && !IdIsTaken(old(rows), envs, e.id) ==> e.id != "" && e.name != ""
      ensures ok ==> Grown(old(rows), rows, Missing(envs, ExistingIds(old(rows), envs)))
      ensures !ok ==> rows == old(rows) && next == old(next)
    {
      var existing := ExistingIds(rows, envs);
      var added := FilteredConvert(envs, existing);
      MissingMembers(envs, existing);
      forall e | e in envs
        ensures e.id in existing <==> IdIsTaken(rows, envs, e.id)
      {
        LookupExactly(rows, envs, KeyOf(e));
      }
      if exists e :: e in added && (e.id == "" || e.name == "") {
        return false;
      }
      rows, next := InsertRows(rows, next, added);
      return true;
    }

    /** Stores what is missing and associates what is found, or changes nothing. */
    method Sync(repo: Uuid, envs: seq<Environment>) returns (result: Result<int, Error>)
      requires Valid()
      modifies this
      ensures Valid()
      ensures result.Ok? ==> Synced(old(Tables()), Tables(), repo, envs, result.value)
      ensures result.Err? ==> Tables() == old(Tables())
      ensures result.Ok? <==>
                && repo in old(repositories)
                && forall e :: e in envs && !IdIsTaken(old(rows), envs, e.id) ==> e.id != "" && e.name != ""
      ensures result == Err(NoSuchRepository) <==> repo !in old(repositories)
      ensures result == Err(InvalidEnvironment) <==> repo in old(repositories) && result.Err?
    {
      if repo !in repositories {
        return Err(NoSuchRepository);
      }
      var ok := StoreMissing(envs);
      if !ok {
        return Err(InvalidEnvironment);
      }
      var uuids := Query(Matching(rows, envs));
      var count;
      links, count := Relink(links, repo, uuids);
      return Ok(count);
    }

    method InsertForRepository(repo: Uuid, envs: seq<Environment>) returns (result: Result<int, Error>)
      requires Valid()
      modifies this
      ensures Valid()
      ensures result.Ok? ==> Synced(old(Tables()), Tables(), repo, envs, result.value)
      ensures result.Err? ==> Tables() == old(Tables())
      ensures result.Ok? ==>
                forall k :: k in Content(Tables(), repo) <==>
                  || (IsStored(old(rows), k) && PartsAreListed(envs, k))
                  || (IsListed(envs, k) && !IdIsTaken(old(rows), envs, k.id))
      ensures result.Ok? <==>
                && repo in old(repositories)
                && forall e :: e in envs && !IdIsTaken(old(rows), envs, e.id) ==> e.id != "" && e.name != ""
      ensures result == Err(NoSuchRepository) <==> repo !in old(repositories)
      ensures repositories == old(repositories)
      ensures result.Ok? ==> result.value == |Linked(links, repo) - Linked(old(links), repo)|
      ensures forall r :: r != repo ==> Linked(links, r) == Linked(old(links), r)
      ensures result == Err(InvalidEnvironment) <==>
                && repo in old(repositories)
                && exists e :: e in envs && !IdIsTaken(old(rows), envs, e.id) && (e.id == "" || e.name == "")
    {
      ghost var before := Tables();
      result := Sync(repo, envs);
      if result.Ok? {
        forall k {
          KeysAfterSync(before, Tables(), repo, envs, result.value, k);
        }
      }
    }

    method OrphanCleanup()
      modifies `rows
      ensures forall u :: u in rows <==> u in old(rows) && exists r :: r in links && u in links[r]
      ensures forall u :: u in rows ==> rows[u] == old(rows)[u]
    {
      var dangling := set u | u in rows && !Used(links, u);
      if dangling != {} {
        rows := map u | u in rows && u !in dangling :: rows[u];
      }
      forall u | u in old(rows)
        ensures u in rows <==> Used(links, u)
      {
        assert !Used(links, u) ==> u in dangling;
      }
    }
  }

  /** Synchronising a single environment into empty tables stores just that. */
  lemma FirstIsStored(s: Store, s': Store, repo: Uuid, e: Environment, count: int)
    requires Synced(s, s', repo, [e], count) && s.rows == map[]
    ensures s'.rows != map[] && forall u :: u in s'.rows ==> s'.rows[u] == e
  {
    MissingMembers([e], ExistingIds(s.rows, [e]));
    assert e in Missing([e], ExistingIds(s.rows, [e]));
  }

  /** What is then associated with a list of two that matches it: the stored one, and those with another id. */
  lemma SecondSync(s: Store, s': Store, repo: Uuid, e: Environment, a: Environment, b: Environment, count: int)
    requires Synced(s, s', repo, [a, b], count)
    requires s.rows != map[] && forall u :: u in s.rows ==> s.rows[u] == e
    requires e.id == a.id && e.name in {a.name, b.name}
    ensures forall k :: k in Content(s', repo) <==> k == KeyOf(e) || (k == KeyOf(b) && b.id != a.id)
  {
    assert a in [a, b] && b in [a, b];
    var u := Member(s.rows.Keys);
    forall k
      ensures k in Content(s', repo) <==> k == KeyOf(e) || (k == KeyOf(b) && b.id != a.id)
    {
      KeysAfterSync(s, s', repo, [a, b], count, k);
      assert s.rows[u] == e;
    }
  }

  lemma ListedPair(a: Environment, b: Environment)
    ensures Listed([a, b]) == {KeyOf(a), KeyOf(b)}
  {
    assert a in [a, b] && b in [a, b];
  }

  /** Empty tables, and one environment synchronised. */
  method SyncOne(repo: Uuid, e: Environment) returns (dao: Dao)
    requires e.id != "" && e.name != ""
    ensures fresh(dao) && dao.Valid() && dao.repositories == {repo}
    ensures dao.rows != map[] && forall u :: u in dao.rows ==> dao.rows[u] == e
  {
    dao := new Dao({repo});
    ghost var s0 := dao.Tables();
    assert forall x :: x in [e] ==> x == e;
    var first := dao.InsertForRepository(repo, [e]);
    FirstIsStored(s0, dao.Tables(), repo, e, first.value);
  }

  /** Two synchronisations with empty tables to begin with: first `e` alone, then a list of two. */
  method SyncTwice(repo: Uuid, e: Environment, a: Environment, b: Environment) returns (s: Store)
    requires a.id != "" && b.id != "" && a.name != "" && b.name != "" && e.id == a.id && e.name in {a.name, b.name}
    ensures forall k :: k in Content(s, repo) <==> k == KeyOf(e) || (k == KeyOf(b) && b.id != a.id)
  {
    var dao := SyncOne(repo, e);
    ghost var s1 := dao.Tables();
    assert forall x :: x in [a, b] ==> x == a || x == b;
    var second := dao.InsertForRepository(repo, [a, b]);
    s := dao.Tables();
    SecondSync(s1, s, repo, e, a, b, second.value);
  }

  /** A run that loses a listed environment: its id is stored under another listed name. */
  method LoseAnEnvironment(repo: Uuid, a: Environment, b: Environment) returns (s: Store)
    requires a.id == b.id && a.name != b.name && a.id != "" && a.name != "" && b.name != ""
    ensures KeyOf(b) in Listed([a, b]) && KeyOf(b) !in Content(s, repo)
  {
    s := SyncTwice(repo, a, a, b);
    ListedPair(a, b);
  }

  /** A run that keeps an environment that is not listed: it joins the id of one that is to the name of
      another. */
  method KeepAnUnlistedOne(repo: Uuid, a: Environment, b: Environment) returns (s: Store)
    requires a.id != b.id && a.name != b.name && a.id != "" && b.id != "" && a.name != "" && b.name != ""
    ensures Key(a.id, b.name) in Content(s, repo) && Key(a.id, b.name) !in Listed([a, b])
    ensures KeyOf(a) !in Content(s, repo)
  {
    s := SyncTwice(repo, Environment(a.id, b.name, ""), a, b);
    ListedPair(a, b);
  }

  method FilteredConvert(envs: seq<Environment>, excluded: set<string>) returns (added: seq<Environment>)
    ensures added == Missing(envs, excluded)
  {
    added := [];
    for i := 0 to |envs|
      invariant added == Missing(envs[..i], excluded)
    {
      assert envs[..i + 1][..i] == envs[..i];
      if envs[i].id !in excluded {
        added := added + [envs[i]];
      }
    }
    assert envs[..|envs|] == envs;
  }

  /** Plain insertion: the table has no unique key besides its identifier. */
  method InsertRows(rows: map<Uuid, Environment>, next: Uuid, added: seq<Environment>)
    returns (rows': map<Uuid, Environment>, next': Uuid)
    requires forall u :: u in rows ==> u < next
    ensures Grown(rows, rows', added)
    ensures next' == next + |added| && forall u :: u in rows' ==> u < next'
  {
    rows', next' := rows, next;
    for i := 0 to |added|
      invariant next' == next + i && forall u :: u in rows' ==> u < next'
      invariant Grown(rows, rows', added[..i])
    {
      GrownByOne(rows, rows', added[..i], added[i], next');
      assert added[..i + 1] == added[..i] + [added[i]];
      rows', next' := rows'[next' := added[i]], next' + 1;
    }
    assert added[..|added|] == added;
  }

  lemma GrownByOne(rows: map<Uuid, Environment>, rows': map<Uuid, Environment>, added: seq<Environment>,
      e: Environment, next: Uuid)
    requires Grown(rows, rows', added) && next !in rows' && next !in rows
    ensures Grown(rows, rows'[next := e], added + [e])
  {
    var after := rows'[next := e];
    forall x | x in added + [e]
      ensures exists u :: u in after && u !in rows && after[u] == x
    {
      if x in added {
        var u :| u in rows' && u !in rows && rows'[u] == x;
        assert after[u] == x;
      } else {
        assert after[next] == x;
      }
    }
  }
}
