/** Synchronising a repository's package groups (pkg/dao/package_groups.go). A group is looked up by a
    hash of its id, name and package names written one after the other. The hash function is a parameter,
    taken to be injective; the hashed text does not say where the id ends. */
module PackageGroupSync {
  import opened Associations
  import opened Basics

  /** What identifies a package group. */
  datatype Key = Key(id: string, name: string, packages: seq<string>)

  datatype Group = Group(key: Key, description: string)

  datatype Store = Store(repositories: set<Uuid>, rows: map<Uuid, Group>, links: Links, next: Uuid)

  datatype Error = NoSuchRepository | InvalidGroup

  /** A list of hashes as it is printed: in brackets, separated by blanks. */
  function Joined(packages: seq<string>): string {
    if packages == [] then ""
    else if |packages| == 1 then packages[0]
    else packages[0] + " " + Joined(packages[1..])
  }

  /** The text that is hashed. */
  function Text(k: Key): string {
    k.id + k.name + "[" + Joined(k.packages) + "]"
  }

  type Hash = Key -> string

  /** Hashing the text, without collisions. */
  ghost predicate HashesText(h: Hash) {
    forall a, b :: h(a) == h(b) <==> Text(a) == Text(b)
  }

  // ---------- when two groups share a hash

  /** A separator that occurs in neither word tells where both end. */
  lemma SameWord(c: char, w: string, r: string, v: string, q: string)
    requires w + r == v + q && c !in w && c !in v
    requires (r == "" || r[0] == c) && (q == "" || q[0] == c)
    ensures w == v && r == q
  {
    var t := w + r;
    assert r != "" ==> t[|w|] == c;
    assert q != "" ==> t[|v|] == c;
    assert |w| == |v|;
    assert w == t[..|w|] == v && r == t[|w|..] == q;
  }

  /** A package name: not blank, and without a blank in it. */
  predicate Plain(p: string) {
    p != "" && ' ' !in p
  }

  ghost predicate AllPlain(packages: seq<string>) {
    forall i :: 0 <= i < |packages| ==> Plain(packages[i])
  }

  /** The printed list after its first entry. */
  function RestOf(packages: seq<string>): string {
    if |packages| <= 1 then "" else " " + Joined(packages[1..])
  }

  lemma {:induction false} FirstAndRest(packages: seq<string>)
    requires packages != []
    ensures Joined(packages) == packages[0] + RestOf(packages)
    ensures |packages| == 1 <==> RestOf(packages) == ""
    ensures |packages| > 1 ==> RestOf(packages)[0] == ' ' && RestOf(packages)[1..] == Joined(packages[1..])
  {
    if |packages| == 1 {
      assert packages[0] + "" == packages[0];
    } else {
      var rest := Joined(packages[1..]);
      assert packages[0] + " " + rest == packages[0] + (" " + rest);
      assert (" " + rest)[1..] == rest;
    }
  }

  lemma {:induction false} SameHead(a: seq<string>, b: seq<string>)
    requires a != [] && b != [] && AllPlain(a) && AllPlain(b) && Joined(a) == Joined(b)
    ensures a[0] == b[0] && (|a| == 1 <==> |b| == 1)
    ensures |a| > 1 ==> Joined(a[1..]) == Joined(b[1..])
  {
    FirstAndRest(a);
    FirstAndRest(b);
    assert Plain(a[0]) && Plain(b[0]);
    SameWord(' ', a[0], RestOf(a), b[0], RestOf(b));
  }

  lemma {:induction false} SomethingIsPrinted(a: seq<string>)
    requires a != [] && AllPlain(a)
    ensures Joined(a) != ""
  {
    FirstAndRest(a);
    assert Plain(a[0]);
  }

  lemma {:induction false} JoinedIsInjective(a: seq<string>, b: seq<string>)
    requires AllPlain(a) && AllPlain(b) && Joined(a) == Joined(b)
    ensures a == b
    decreases |a|
  {
    if a != [] {
      SomethingIsPrinted(a);
    }
    if b != [] {
      SomethingIsPrinted(b);
    }
    if a != [] && b != [] {
      SameHead(a, b);
      if |a| > 1 {
        JoinedIsInjective(a[1..], b[1..]);
      }
      assert a == [a[0]] + a[1..] && b == [b[0]] + b[1..];
    }
  }

  /** Package names are plain, and neither id nor name contains a bracket. */
  ghost predicate Ordinary(k: Key) {
    '[' !in k.id && '[' !in k.name && AllPlain(k.packages)
  }

  /** The same packages, and the same reading of id and name written together. */
  predicate SameReading(a: Key, b: Key) {
    a.id + a.name == b.id + b.name && a.packages == b.packages
  }

  /** Ordinary groups share a hash exactly if they read the same. */
  lemma HashesAgreeExactly(h: Hash, a: Key, b: Key)
    requires HashesText(h) && Ordinary(a) && Ordinary(b)
    ensures h(a) == h(b) <==> SameReading(a, b)
  {
    if Text(a) == Text(b) {
      var ra, rb := "[" + Joined(a.packages) + "]", "[" + Joined(b.packages) + "]";
      assert Text(a) == (a.id + a.name) + ra && Text(b) == (b.id + b.name) + rb;
      SameWord('[', a.id + a.name, ra, b.id + b.name, rb);
      assert ra[1..|ra| - 1] == Joined(a.packages) && rb[1..|rb| - 1] == Joined(b.packages);
      JoinedIsInjective(a.packages, b.packages);
    }
  }

  // ---------- one synchronisation

  function Listed(groups: seq<Group>): set<Key> {
    set g | g in groups :: g.key
  }

  function Hashes(h: Hash, keys: set<Key>): set<string> {
    set k | k in keys :: h(k)
  }

  /** The lookup by hash. */
  function Matching(h: Hash, rows: map<Uuid, Group>, hashes: set<string>): set<Uuid> {
    set u | u in rows && h(rows[u].key) in hashes
  }

  function KeysAt(rows: map<Uuid, Group>, us: set<Uuid>): set<Key> {
    set u | u in us && u in rows :: rows[u].key
  }

  /** The stored groups that share a hash with a listed one. */
  function Found(h: Hash, rows: map<Uuid, Group>, groups: seq<Group>): set<Key> {
    KeysAt(rows, Matching(h, rows, Hashes(h, Listed(groups))))
  }

  /** The listed groups whose hash is not among the given ones, in order. */
  function Missing(h: Hash, groups: seq<Group>, hashes: set<string>): seq<Group> {
    if groups == [] then []
    else
      var front, last := Missing(h, groups[..|groups| - 1], hashes), groups[|groups| - 1];
      if h(last.key) in hashes then front else front + [last]
  }

  /** `rows'` is `rows` plus one row for each of `added`; the hash is no unique key of the table. */
  ghost predicate Grown(rows: map<Uuid, Group>, rows': map<Uuid, Group>, added: seq<Group>) {
    && (forall u :: u in rows ==> u in rows' && rows'[u] == rows[u])
    && (forall u :: u in rows' && u !in rows ==> rows'[u] in added)
    && (forall g :: g in added ==> exists u :: u in rows' && u !in rows && rows'[u] == g)
  }

  /** A successful synchronisation, on the tables before and after it. */
  ghost predicate Synced(h: Hash, s: Store, s': Store, repo: Uuid, groups: seq<Group>, count: int) {
    && s'.repositories == s.repositories
    && Grown(s.rows, s'.rows, Missing(h, groups, Hashes(h, Found(h, s.rows, groups))))
    && s'.links == s.links[repo := Matching(h, s'.rows, Hashes(h, Listed(groups)))]
    && count == |Linked(s'.links, repo) - Linked(s.links, repo)|
  }

  /** The groups a repository has. */
  function Content(s: Store, repo: Uuid): set<Key> {
    set u | u in Linked(s.links, repo) && u in s.rows :: s.rows[u].key
  }

  lemma {:induction false} MissingMembers(h: Hash, groups: seq<Group>, hashes: set<string>)
    ensures forall g :: g in Missing(h, groups, hashes) <==> g in groups && h(g.key) !in hashes
  {
    if groups != [] {
      var front, last := groups[..|groups| - 1], groups[|groups| - 1];
      assert groups == front + [last];
      MissingMembers(h, front, hashes);
    }
  }

  /** What is associated: the stored groups that share a hash with a listed one, and the listed groups
      that share a hash with no stored one. */
  lemma ContentAfter(h: Hash, s: Store, s': Store, repo: Uuid, groups: seq<Group>, count: int, k: Key)
    requires Synced(h, s, s', repo, groups, count)
    ensures k in Content(s', repo) <==>
              k in Found(h, s.rows, groups) || (k in Listed(groups) && h(k) !in Hashes(h, Found(h, s.rows, groups)))
  {
    var hashes, found := Hashes(h, Listed(groups)), Found(h, s.rows, groups);
    MissingMembers(h, groups, Hashes(h, found));
    if k in Content(s', repo) {
      var u :| u in Matching(h, s'.rows, hashes) && s'.rows[u].key == k;
      assert u in s.rows ==> u in Matching(h, s.rows, hashes);
    }
    if k in found {
      var u :| u in Matching(h, s.rows, hashes) && s.rows[u].key == k;
      assert u in Matching(h, s'.rows, hashes);
    }
    if k in Listed(groups) && h(k) !in Hashes(h, found) {
      var g :| g in groups && g.key == k;
      var u :| u in s'.rows && u !in s.rows && s'.rows[u] == g;
      assert h(k) in hashes && u in Matching(h, s'.rows, hashes);
    }
  }

  /** No other repository's groups change. */
  lemma OthersKeepTheirs(h: Hash, s: Store, s': Store, repo: Uuid, groups: seq<Group>, count: int, r: Uuid)
    requires Synced(h, s, s', repo, groups, count) && r != repo
    requires forall u :: u in Linked(s.links, r) ==> u in s.rows
    ensures Content(s', r) == Content(s, r)
  {
    assert Linked(s'.links, r) == Linked(s.links, r);
  }

  function Stored(rows: map<Uuid, Group>): set<Key> {
    set u | u in rows :: rows[u].key
  }

  lemma FoundExactly(h: Hash, rows: map<Uuid, Group>, groups: seq<Group>, f: Key)
    ensures f in Found(h, rows, groups) <==> f in Stored(rows) && h(f) in Hashes(h, Listed(groups))
  {
    if f in Stored(rows) && h(f) in Hashes(h, Listed(groups)) {
      var u :| u in rows.Keys && rows[u].key == f;
      assert u in Matching(h, rows, Hashes(h, Listed(groups)));
    }
  }

  /** Whenever a stored and a listed group share a hash, both are listed and both are stored. */
  ghost predicate HashesTellApart(h: Hash, stored: set<Key>, listed: set<Key>) {
    forall f, k :: f in stored && k in listed && h(f) == h(k) ==> f in listed && k in stored
  }

  /** The same as sets: what is found, and what is listed with a hash that is not found. */
  lemma ExactSets(h: Hash, stored: set<Key>, listed: set<Key>, found: set<Key>, content: set<Key>)
    requires forall f :: f in found <==> f in stored && h(f) in Hashes(h, listed)
    requires forall k :: k in content <==> k in found || (k in listed && h(k) !in Hashes(h, found))
    ensures content == listed <==> HashesTellApart(h, stored, listed)
  {
    if HashesTellApart(h, stored, listed) {
      forall f | f in found
        ensures f in listed
      {
        var k :| k in listed && h(k) == h(f);
      }
      forall k | k in listed && h(k) in Hashes(h, found)
        ensures k in found
      {
        var f :| f in found && h(f) == h(k);
      }
    } else {
      var f, k :| f in stored && k in listed && h(f) == h(k) && !(f in listed && k in stored);
      assert h(k) in Hashes(h, listed) && f in found && h(k) in Hashes(h, found);
    }
  }

  /** The repository has exactly the listed groups afterwards if and only if hashes told the stored and
      the listed groups apart. */
  lemma SyncIsExactIff(h: Hash, s: Store, s': Store, repo: Uuid, groups: seq<Group>, count: int)
    requires Synced(h, s, s', repo, groups, count)
    ensures Content(s', repo) == Listed(groups) <==> HashesTellApart(h, Stored(s.rows), Listed(groups))
  {
    var found, listed := Found(h, s.rows, groups), Listed(groups);
    forall k
      ensures k in Content(s', repo) <==> k in found || (k in listed && h(k) !in Hashes(h, found))
      ensures k in found <==> k in Stored(s.rows) && h(k) in Hashes(h, listed)
    {
      ContentAfter(h, s, s', repo, groups, count, k);
      FoundExactly(h, s.rows, groups, k);
    }
    ExactSets(h, Stored(s.rows), listed, found, Content(s', repo));
  }

  /** What a caller can check: whenever a stored and a listed group read the same, both are listed and
      both are stored. */
  ghost predicate ReadingsTellApart(stored: set<Key>, listed: set<Key>) {
    forall f, k :: f in stored && k in listed && SameReading(f, k) ==> f in listed && k in stored
  }

  /** For ordinary groups, the repository has exactly the listed ones afterwards if and only if their
      readings told them apart. */
  lemma OrdinarySyncIsExactIff(h: Hash, s: Store, s': Store, repo: Uuid, groups: seq<Group>, count: int)
    requires HashesText(h) && Synced(h, s, s', repo, groups, count)
    requires forall f :: f in Stored(s.rows) || f in Listed(groups) ==> Ordinary(f)
    ensures Content(s', repo) == Listed(groups) <==> ReadingsTellApart(Stored(s.rows), Listed(groups))
  {
    SyncIsExactIff(h, s, s', repo, groups, count);
    ReadingsForHashes(h, Stored(s.rows), Listed(groups));
  }

  lemma ReadingsForHashes(h: Hash, stored: set<Key>, listed: set<Key>)
    requires HashesText(h) && forall f :: f in stored || f in listed ==> Ordinary(f)
    ensures HashesTellApart(h, stored, listed) <==> ReadingsTellApart(stored, listed)
  {
    forall f, k | f in stored && k in listed
      ensures h(f) == h(k) <==> SameReading(f, k)
    {
      HashesAgreeExactly(h, f, k);
    }
  }

  // ---------- the DAO

  class Dao {
    const hash: Hash
    var repositories: set<Uuid>
    var rows: map<Uuid, Group>
    var links: Links
    var next: Uuid

    ghost predicate Valid()
      reads this
    {
      forall u :: u in rows ==> u < next
    }

    constructor (hash: Hash, repositories: set<Uuid>)
      ensures Valid() && this.hash == hash && Tables() == Store(repositories, map[], map[], 0)
    {
      this.hash := hash;
      this.repositories, rows, links, next := repositories, map[], map[], 0;
    }

    function Tables(): Store
      reads this
    {
      Store(repositories, rows, links, next)
    }

    /** Stores the listed groups whose hash was not found, or refuses them all. */
    method StoreMissing(groups: seq<Group>) returns (ok: bool)
      requires Valid()
      modifies `rows, `next
      ensures Valid()
      ensures ok <==>
                forall g :: g in groups && !HashIsStored(hash, old(rows), g.key) ==> g.key.id != "" && g.key.name != ""
      ensures ok ==> Grown(old(rows), rows, Missing(hash, groups, Hashes(hash, Found(hash, old(rows), groups))))
      ensures !ok ==> rows == old(rows) && next == old(next)
    {
      var existing := Hashes(hash, Found(hash, rows, groups));
      var added := FilteredConvertPackageGroups(hash, groups, existing);
      MissingMembers(hash, groups, existing);
      forall g | g in groups
        ensures hash(g.key) in existing <==> HashIsStored(hash, rows, g.key)
      {
        TakenExactly(hash, rows, groups, g.key);
      }
      if exists g :: g in added && (g.key.id == "" || g.key.name == "") {
        return false;
      }
      rows, next := InsertRows(rows, next, added);
      return true;
    }

    /** Stores what is missing and associates what is found, or changes nothing. */
    method Sync(repo: Uuid, groups: seq<Group>) returns (result: Result<int, Error>)
      requires Valid()
      modifies this
      ensures Valid()
      ensures result.Ok? <==>
                && repo in old(repositories)
                && forall g :: g in groups && !HashIsStored(hash, old(rows), g.key) ==>
                                 g.key.id != "" && g.key.name != ""
      ensures result.Ok? ==> Synced(hash, old(Tables()), Tables(), repo, groups, result.value)
      ensures result.Err? ==> Tables() == old(Tables())
      ensures result == Err(NoSuchRepository) <==> repo !in old(repositories)
    {
      if repo !in repositories {
        return Err(NoSuchRepository);
      }
      var ok := StoreMissing(groups);
      if !ok {
        return Err(InvalidGroup);
      }
      var uuids := Query(Matching(hash, rows, Hashes(hash, Listed(groups))));
      var count;
      links, count := Relink(links, repo, uuids);
      return Ok(count);
    }

    method InsertForRepository(repo: Uuid, groups: seq<Group>) returns (result: Result<int, Error>)
      requires Valid()
      modifies this
      ensures Valid()
      ensures result.Ok? <==>
                && repo in old(repositories)
                && forall g :: g in groups && !HashIsStored(hash, old(rows), g.key) ==>
                                 g.key.id != "" && g.key.name != ""
      ensures result.Ok? ==>
                forall k :: k in Content(Tables(), repo) <==>
                  || (k in Stored(old(rows)) && HashIsListed(hash, groups, k))
                  || (k in Listed(groups) && !HashIsStored(hash, old(rows), k))
      ensures result.Ok? ==> Synced(hash, old(Tables()), Tables(), repo, groups, result.value)
      ensures result.Err? ==> Tables() == old(Tables())
      ensures result == Err(NoSuchRepository) <==> repo !in old(repositories)
      ensures repositories == old(repositories)
      ensures result.Ok? ==> result.value == |Linked(links, repo) - Linked(old(links), repo)|
      ensures forall r :: r != repo ==> Linked(links, r) == Linked(old(links), r)
    {
      ghost var before := Tables();
      result := Sync(repo, groups);
      if result.Ok? {
        forall k {
          ContentOnRows(hash, before, Tables(), repo, groups, result.value, k);
        }
      }
    }
  }

  /** Some stored group has the hash of this one. */
  ghost predicate HashIsStored(h: Hash, rows: map<Uuid, Group>, k: Key) {
    exists u :: u in rows && h(rows[u].key) == h(k)
  }

  /** Some listed group has the hash of this one. */
  ghost predicate HashIsListed(h: Hash, groups: seq<Group>, k: Key) {
    exists g :: g in groups && h(g.key) == h(k)
  }

  /** The lookup on the stored rows. */
  lemma TakenExactly(h: Hash, rows: map<Uuid, Group>, groups: seq<Group>, k: Key)
    ensures k in Found(h, rows, groups) <==> k in Stored(rows) && HashIsListed(h, groups, k)
    ensures k in Listed(groups) ==> (h(k) in Hashes(h, Found(h, rows, groups)) <==> HashIsStored(h, rows, k))
  {
    FoundExactly(h, rows, groups, k);
    if k in Listed(groups) && HashIsStored(h, rows, k) {
      var u :| u in rows && h(rows[u].key) == h(k);
      FoundExactly(h, rows, groups, rows[u].key);
    }
    if HashIsListed(h, groups, k) {
      var g :| g in groups && h(g.key) == h(k);
      assert g.key in Listed(groups);
    }
  }

  lemma ContentOnRows(h: Hash, s: Store, s': Store, repo: Uuid, groups: seq<Group>, count: int, k: Key)
    requires Synced(h, s, s', repo, groups, count)
    ensures k in Content(s', repo) <==>
              || (k in Stored(s.rows) && HashIsListed(h, groups, k))
              || (k in Listed(groups) && !HashIsStored(h, s.rows, k))
  {
    ContentAfter(h, s, s', repo, groups, count, k);
    TakenExactly(h, s.rows, groups, k);
  }

  method FilteredConvertPackageGroups(h: Hash, groups: seq<Group>, excluded: set<string>) returns (added: seq<Group>)
    ensures added == Missing(h, groups, excluded)
  {
    added := [];
    for i := 0 to |groups|
      invariant added == Missing(h, groups[..i], excluded)
    {
      assert groups[..i + 1][..i] == groups[..i];
      if h(groups[i].key) !in excluded {
        added := added + [groups[i]];
      }
    }
    assert groups[..|groups|] == groups;
  }

  method InsertRows(rows: map<Uuid, Group>, next: Uuid, added: seq<Group>)
    returns (rows': map<Uuid, Group>, next': Uuid)
    requires forall u :: u in rows ==> u < next
    ensures Grown(rows, rows', added)
    ensures next' == next + |added| && forall u :: u in rows' ==> u < next'
  {
    rows', next' := rows, next;
    for i := 0 to |added|
      invariant next' == next + i && forall u :: u in rows' ==> u < next'
      invariant Grown(rows, rows', added[..i])
    {
      GrownByOne(rows, rows', added[..i], added[i], next');
      assert added[..i + 1] == added[..i] + [added[i]];
      rows', next' := rows'[next' := added[i]], next' + 1;
    }
    assert added[..|added|] == added;
  }

  lemma GrownByOne(rows: map<Uuid, Group>, rows': map<Uuid, Group>, added: seq<Group>, g: Group, next: Uuid)
    requires Grown(rows, rows', added) && next !in rows' && next !in rows
    ensures Grown(rows, rows'[next := g], added + [g])
  {
    var after := rows'[next := g];
    forall x | x in added + [g]
      ensures exists u :: u in after && u !in rows && after[u] == x
    {
      if x in added {
        var u :| u in rows' && u !in rows && rows'[u] == x;
        assert after[u] == x;
      } else {
        assert after[next] == x;
      }
    }
  }

  /** Empty tables, and one group synchronised. */
  method SyncOne(h: Hash, repo: Uuid, g: Group) returns (dao: Dao)
    requires g.key.id != "" && g.key.name != ""
    ensures fresh(dao) && dao.Valid() && dao.repositories == {repo} && dao.hash == h
    ensures dao.rows != map[] && forall u :: u in dao.rows ==> dao.rows[u] == g
  {
    dao := new Dao(h, {repo});
    ghost var s0 := dao.Tables();
    assert forall x :: x in [g] ==> x == g;
    var first := dao.InsertForRepository(repo, [g]);
    StoredAlone(h, s0, dao.Tables(), repo, g, first.value);
  }

  /** A run that ends with another group than the listed one: both share a hash. */
  method MistakeOneGroupForAnother(h: Hash, repo: Uuid, a: Group, b: Group) returns (s: Store)
    requires a.key.id != "" && a.key.name != "" && h(a.key) == h(b.key)
    ensures forall k :: k in Content(s, repo) <==> k == a.key
    ensures Listed([b]) == {b.key}
  {
    var dao := SyncOne(h, repo, a);
    FoundAlone(h, dao.rows, a, b);
    assert forall x :: x in [b] ==> x == b;
    var second := dao.InsertForRepository(repo, [b]);
    s := dao.Tables();
  }

  lemma StoredAlone(h: Hash, s: Store, s': Store, repo: Uuid, g: Group, count: int)
    requires Synced(h, s, s', repo, [g], count) && s.rows == map[]
    ensures s'.rows != map[] && forall u :: u in s'.rows ==> s'.rows[u] == g
  {
    MissingMembers(h, [g], Hashes(h, Found(h, s.rows, [g])));
    assert g in Missing(h, [g], Hashes(h, Found(h, s.rows, [g])));
  }

  lemma FoundAlone(h: Hash, rows: map<Uuid, Group>, a: Group, b: Group)
    requires rows != map[] && (forall u :: u in rows ==> rows[u] == a) && h(a.key) == h(b.key)
    ensures Listed([b]) == {b.key} && Stored(rows) == {a.key}
    ensures HashIsStored(h, rows, b.key) && HashIsListed(h, [b], a.key)
  {
    assert b in [b];
    var u := Member(rows.Keys);
    assert rows[u].key in Stored(rows);
  }

  /** Such groups exist: "ab" called "c" and "a" called "bc". */
  lemma ShiftedGroupsShareAHash(h: Hash, packages: seq<string>)
    requires HashesText(h)
    ensures h(Key("ab", "c", packages)) == h(Key("a", "bc", packages))
  {
    assert "ab" + "c" == "a" + "bc";
    assert Text(Key("ab", "c", packages)) == Text(Key("a", "bc", packages));
  }
}
