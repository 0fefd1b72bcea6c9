/** Repositories and repository configurations as stored rows, with the validations and unique
    indexes that guard their insertion. */
module ConfigStore {
  import opened Basics
  import opened Urls

  /** A URL of "" stands for NULL: upload repositories have none. */
  datatype Repository = Repository(url: string, origin: Origin)

  datatype Configuration = Configuration(
    name: string, org: Org, account: string, repository: Uuid, snapshot: bool, deleted: bool)

  datatype Store = Store(repositories: map<Uuid, Repository>, configurations: map<Uuid, Configuration>, next: Uuid)

  datatype Error = NotPermitted | BadValidation | AlreadyExists | NotFound

  predicate Live(s: Store, c: Uuid) {
    c in s.configurations && !s.configurations[c].deleted
  }

  /** Two configurations of one organisation may not share a name or a repository. */
  predicate Clash(a: Configuration, b: Configuration) {
    a.org == b.org && (a.name == b.name || a.repository == b.repository)
  }

  ghost predicate References(s: Store) {
    && (forall r :: r in s.repositories ==> r < s.next)
    && (forall c :: c in s.configurations ==> c < s.next)
    && (forall c :: c in s.configurations ==> s.configurations[c].repository in s.repositories)
  }

  /** (url, origin) is a unique key; several rows may have no URL. */
  ghost predicate RepositoryKeys(repositories: map<Uuid, Repository>) {
    forall a, b :: a in repositories && b in repositories && a != b && repositories[a].url != "" ==>
                     repositories[a] != repositories[b]
  }

  /** (name, organisation) and (repository, organisation) are unique keys of the live rows. */
  ghost predicate ConfigurationKeys(s: Store) {
    forall a, b :: Live(s, a) && Live(s, b) && a != b ==> !Clash(s.configurations[a], s.configurations[b])
  }

  /** Referential integrity, the freshness of `next` and the unique indexes of the schema. */
  ghost predicate Valid(s: Store) {
    References(s) && RepositoryKeys(s.repositories) && ConfigurationKeys(s)
  }

  /** Stored URLs are clean. */
  ghost predicate CleanUrls(rules: UrlRules, repositories: map<Uuid, Repository>) {
    forall r :: r in repositories ==> rules.cleanup(repositories[r].url) == repositories[r].url
  }

  /** Every row of `s` is still there, unchanged, in `s'`. */
  ghost predicate Extends(s: Store, s': Store) {
    && (forall r :: r in s.repositories ==> r in s'.repositories && s'.repositories[r] == s.repositories[r])
    && (forall c :: c in s.configurations ==> c in s'.configurations && s'.configurations[c] == s.configurations[c])
  }

  lemma ExtendsIsTransitive(a: Store, b: Store, c: Store)
    requires Extends(a, b) && Extends(b, c)
    ensures Extends(a, c)
  {
  }

  lemma {:induction false} LeastExists(q: set<Uuid>)
    requires q != {}
    ensures exists m :: m in q && forall x :: x in q ==> m <= x
  {
    var x := Member(q);
    if q != {x} {
      LeastExists(q - {x});
      var m :| m in q - {x} && forall y :: y in q - {x} ==> m <= y;
      var least := if x < m then x else m;
      assert forall y :: y in q ==> y == x || y in q - {x};
      assert least in q && forall y :: y in q ==> least <= y;
    }
  }

  /** The first row of a query, which is ordered by primary key. */
  function First(q: set<Uuid>): (r: Option<Uuid>)
    ensures r.None? <==> q == {}
    ensures r.Some? ==> r.value in q && forall x :: x in q ==> r.value <= x
  {
    if q == {} then None else LeastExists(q);
                              var m :| m in q && forall x :: x in q ==> m <= x;
                              Some(m)
  }

  /** Repositories stored under a cleaned URL, whatever their origin. */
  function RepositoriesAt(s: Store, url: string): set<Uuid> {
    set r | r in s.repositories && url != "" && s.repositories[r].url == url
  }

  /** Live configurations of the given organisations for a cleaned URL. */
  function ConfigurationsAt(s: Store, url: string, orgs: set<Org>): set<Uuid> {
    set c | c in s.configurations && Live(s, c) && s.configurations[c].org in orgs &&
            s.configurations[c].repository in RepositoriesAt(s, url)
  }

  function ConfigurationsNamed(s: Store, name: Option<string>, org: Org): set<Uuid> {
    set c | c in s.configurations && Live(s, c) && Some(s.configurations[c].name) == name &&
        s.configurations[c].org == org
  }

  predicate AcceptableUrl(rules: UrlRules, url: string, origin: Origin) {
    if origin == Upload || origin == Lightwell then url == "" else url != "" && rules.acceptable(url)
  }

  function InsertRepository(rules: UrlRules, s: Store, url: string, origin: Origin): Result<(Store, Uuid), Error> {
    var row := Repository(rules.cleanup(url), origin);
    if !AcceptableUrl(rules, url, origin) then Err(BadValidation)
    else if exists r :: r in RepositoriesAt(s, row.url) && s.repositories[r].origin == origin then Err(AlreadyExists)
    else Ok((s.(repositories := s.repositories[s.next := row], next := s.next + 1), s.next))
  }

  function InsertConfiguration(s: Store, row: Configuration): Result<(Store, Uuid), Error> {
    if row.name == "" || row.org == Tenant("") then Err(BadValidation)
    else if exists c :: c in s.configurations && Live(s, c) && Clash(s.configurations[c], row) then Err(AlreadyExists)
    else Ok((s.(configurations := s.configurations[s.next := row], next := s.next + 1), s.next))
  }

  function WithRepository(s: Store, row: Repository): Store {
    s.(repositories := s.repositories[s.next := row], next := s.next + 1)
  }

  function WithConfiguration(s: Store, row: Configuration): Store {
    s.(configurations := s.configurations[s.next := row], next := s.next + 1)
  }

  lemma RepositoryAdded(s: Store, row: Repository)
    requires Valid(s)
    requires forall r :: r in s.repositories && row.url != "" ==> s.repositories[r] != row
    ensures Valid(WithRepository(s, row)) && Extends(s, WithRepository(s, row))
  {
    var s' := WithRepository(s, row);
    assert References(s');
    assert RepositoryKeys(s'.repositories);
    assert forall c :: Live(s', c) ==> Live(s, c);
  }

  lemma ConfigurationAdded(s: Store, row: Configuration)
    requires Valid(s) && row.repository in s.repositories
    requires forall c :: Live(s, c) ==> !Clash(s.configurations[c], row) && !Clash(row, s.configurations[c])
    ensures Valid(WithConfiguration(s, row)) && Extends(s, WithConfiguration(s, row))
  {
    var s' := WithConfiguration(s, row);
    assert References(s');
    assert forall a :: Live(s', a) && a != s.next ==> Live(s, a) && s'.configurations[a] == s.configurations[a];
    assert ConfigurationKeys(s');
  }

  lemma RepositoryInserted(rules: UrlRules, s: Store, url: string, origin: Origin)
    requires Valid(s) && InsertRepository(rules, s, url, origin).Ok?
    ensures var (s', r) := InsertRepository(rules, s, url, origin).value;
            && Valid(s') && Extends(s, s')
            && r !in s.repositories && s' == WithRepository(s, Repository(rules.cleanup(url), origin))
  {
    var row := Repository(rules.cleanup(url), origin);
    forall r | r in s.repositories && row.url != ""
      ensures s.repositories[r] != row
    {
      assert s.repositories[r] == row ==> r in RepositoriesAt(s, row.url);
    }
    RepositoryAdded(s, row);
  }
}
