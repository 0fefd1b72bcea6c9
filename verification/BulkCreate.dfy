/** Bulk creation of repository configurations (pkg/dao/repository_configs.go). */
module BulkCreate {
  import opened Basics
  import opened Urls
  import opened ConfigStore
  import opened Savepoints

  /** The origin text of a request: one of the stored origins, the empty string, or anything else. */
  datatype RequestedOrigin = Named(origin: Origin) | Blank | Unknown

  datatype Request = Request(
    org: Org, account: string, name: Option<string>, url: Option<string>,
    origin: Option<RequestedOrigin>, snapshot: Option<bool>)

  const EPEL_URLS: set<string> := {
    "https://dl.fedoraproject.org/pub/epel/10/Everything/x86_64/",
    "https://dl.fedoraproject.org/pub/epel/9/Everything/x86_64/",
    "https://dl.fedoraproject.org/pub/epel/8/Everything/x86_64/"
  }

  function OriginOf(q: Request): RequestedOrigin {
    if q.origin.Some? then q.origin.value else Named(External)
  }

  /** A blank origin falls back to the column default. */
  function StoredOrigin(origin: RequestedOrigin): Origin {
    if origin.Named? then origin.origin else External
  }

  predicate IsCreatableOrigin(origin: RequestedOrigin) {
    origin in {Named(External), Named(Upload), Blank}
  }

  predicate RejectsCustomEpel(rules: UrlRules, origin: RequestedOrigin, url: Option<string>) {
    origin == Named(Community) || (url.Some? && rules.cleanup(url.value) in EPEL_URLS)
  }

  function UrlOf(q: Request): string {
    if q.url.Some? then q.url.value else ""
  }

  function NameOf(q: Request): string {
    if q.name.Some? then q.name.value else ""
  }

  /** The configuration row a request asks for, once its repository is known. */
  function RowFor(q: Request, repository: Uuid): Configuration {
    Configuration(NameOf(q), q.org, q.account, repository, q.snapshot == Some(true), false)
  }

  /** Repositories with the cleaned URL and the origin as requested; without a URL none is looked up,
      and a blank origin matches no row. */
  function RepositoriesFor(rules: UrlRules, s: Store, q: Request): set<Uuid> {
    if UrlOf(q) == "" then {} else
    set r | r in RepositoriesAt(s, rules.cleanup(UrlOf(q))) && Named(s.repositories[r].origin) == OriginOf(q)
  }

  /** The checks made before anything is written, in order. */
  function Refusal(rules: UrlRules, q: Request): Option<Error> {
    if q.org == RedHatOrg || q.org == CommunityOrg then Some(NotPermitted)
    else if RejectsCustomEpel(rules, OriginOf(q), q.url) then Some(BadValidation)
    else if !IsCreatableOrigin(OriginOf(q)) then Some(BadValidation)
    else if OriginOf(q) == Named(Upload) && q.snapshot != Some(true) then Some(BadValidation)
    else None
  }

  function CreateOne(rules: UrlRules, tx: Store, q: Request): Result<(Store, Uuid), Error> {
    if Refusal(rules, q).Some? then
      Err(Refusal(rules, q).value)
    else
      match First(RepositoriesFor(rules, tx, q))
      case Some(r) => InsertConfiguration(tx, RowFor(q, r))
      case None =>
        match InsertRepository(rules, tx, UrlOf(q), StoredOrigin(OriginOf(q)))
        case Err(e) => Err(e)
        case Ok((tx', r)) => InsertConfiguration(tx', RowFor(q, r))
  }

  function CreateStep(rules: UrlRules): Step<Store, Request, Uuid, Error> {
    (tx: Store, q: Request) => CreateOne(rules, tx, q)
  }

  /** The repository row of an accepted request. */
  function RepositoryFor(rules: UrlRules, q: Request): Repository {
    Repository(rules.cleanup(UrlOf(q)), if q.origin == Some(Named(Upload)) then Upload else External)
  }

  /** Configuration `c` says what `q` asked for, on a repository with its cleaned URL and origin. */
  ghost predicate Answers(rules: UrlRules, after: Store, q: Request, c: Uuid) {
    && c in after.configurations
    && var row := after.configurations[c];
    && row == RowFor(q, row.repository)
    && row.repository in after.repositories
    && after.repositories[row.repository] == RepositoryFor(rules, q)
  }

  /** The rows of `before` are untouched and the configurations `cs` are the only new ones. */
  ghost predicate AddsOnly(before: Store, after: Store, cs: seq<Uuid>) {
    && Extends(before, after)
    && Distinct(cs)
    && (forall i :: 0 <= i < |cs| ==> cs[i] !in before.configurations)
    && after.configurations.Keys == before.configurations.Keys + Elements(cs)
  }

  /** Every new repository serves one of the new configurations. */
  ghost predicate NoSpareRepository(before: Store, after: Store, cs: seq<Uuid>) {
    forall r :: r in after.repositories && r !in before.repositories ==>
                  exists c :: c in cs && c in after.configurations && after.configurations[c].repository == r
  }

  /** `after` is `before` plus one configuration per request and the repositories those need. */
  ghost predicate AddsExactly(rules: UrlRules, before: Store, after: Store, qs: seq<Request>, cs: seq<Uuid>) {
    && |cs| == |qs|
    && AddsOnly(before, after, cs)
    && NoSpareRepository(before, after, cs)
    && forall i :: 0 <= i < |qs| ==> Answers(rules, after, qs[i], cs[i])
  }

  /** One request's configuration, on a repository that was there or has just been added. */
  lemma ConfigurationAnswers(rules: UrlRules, tx: Store, mid: Store, q: Request, r: Uuid)
    requires Valid(mid) && Extends(tx, mid) && mid.configurations == tx.configurations
    requires r in mid.repositories && mid.repositories.Keys == tx.repositories.Keys + {r}
    requires mid.repositories[r] == RepositoryFor(rules, q)
    requires InsertConfiguration(mid, RowFor(q, r)).Ok?
    ensures var (tx', c) := InsertConfiguration(mid, RowFor(q, r)).value;
            Valid(tx') && AddsExactly(rules, tx, tx', [q], [c])
  {
    var (tx', c) := InsertConfiguration(mid, RowFor(q, r)).value;
    ConfigurationAdded(mid, RowFor(q, r));
    assert tx' == WithConfiguration(mid, RowFor(q, r));
    assert Elements([c]) == {c};
    assert c in [c];
  }

  lemma CreateOneAdds(rules: UrlRules, tx: Store, q: Request)
    requires Valid(tx) && CreateOne(rules, tx, q).Ok?
    ensures var (tx', c) := CreateOne(rules, tx, q).value;
            Valid(tx') && AddsExactly(rules, tx, tx', [q], [c])
  {
    match First(RepositoriesFor(rules, tx, q))
    case Some(r) =>
      ConfigurationAnswers(rules, tx, tx, q, r);
    case None =>
      var (mid, r) := InsertRepository(rules, tx, UrlOf(q), StoredOrigin(OriginOf(q))).value;
      RepositoryInserted(rules, tx, UrlOf(q), StoredOrigin(OriginOf(q)));
      ConfigurationAnswers(rules, tx, mid, q, r);
  }

  /** No live configuration of the organisation has the name. */
  ghost predicate NameIsFree(s: Store, org: Org, name: string) {
    forall c :: c in s.configurations && !s.configurations[c].deleted && s.configurations[c].org == org ==>
                  s.configurations[c].name != name
  }

  /** Some live configuration of the organisation uses the repository. */
  ghost predicate IsUsedBy(s: Store, org: Org, r: Uuid) {
    exists c :: c in s.configurations && !s.configurations[c].deleted && s.configurations[c].org == org &&
                s.configurations[c].repository == r
  }

  /** The repository a request can share: same cleaned URL, same origin. */
  ghost predicate Shares(rules: UrlRules, s: Store, q: Request, r: Uuid) {
    && r in s.repositories && q.url.Some? && q.url.value != ""
    && s.repositories[r].url == rules.cleanup(q.url.value) && s.repositories[r].url != ""
    && s.repositories[r].origin == if q.origin == Some(Named(Upload)) then Upload else External
  }

  /** A repository can be stored for the request: uploads have no URL, others need an acceptable one that
      is not stored yet with that origin. */
  ghost predicate NeedsOwn(rules: UrlRules, s: Store, q: Request) {
    && (forall r :: !Shares(rules, s, q, r))
    && if q.origin == Some(Named(Upload)) then q.url in {None, Some("")}
       else q.url.Some? && q.url.value != "" && rules.acceptable(q.url.value)
  }

  /** Which requests are accepted, on the fields of the request and the stored rows. A blank origin stands
      for external ones, but does not find the repository it could share. */
  ghost predicate Creatable(rules: UrlRules, s: Store, q: Request) {
    && q.org !in {RedHatOrg, CommunityOrg, Tenant("")}
    && q.name.Some? && q.name.value != "" && NameIsFree(s, q.org, q.name.value)
    && q.origin in {None, Some(Named(External)), Some(Blank), Some(Named(Upload))}
    && (q.origin == Some(Named(Upload)) ==> q.snapshot == Some(true))
    && (q.url.Some? ==> rules.cleanup(q.url.value) !in EPEL_URLS)
    && (|| NeedsOwn(rules, s, q)
        || (q.origin != Some(Blank) && exists r :: Shares(rules, s, q, r) && !IsUsedBy(s, q.org, r)))
  }

  lemma InsertableExactly(s: Store, row: Configuration)
    ensures InsertConfiguration(s, row).Ok? <==>
              && row.name != "" && row.org != Tenant("")
              && NameIsFree(s, row.org, row.name) && !IsUsedBy(s, row.org, row.repository)
  {
  }

  lemma StorableExactly(rules: UrlRules, s: Store, url: string, origin: Origin)
    requires rules.cleanup("") == ""
    ensures InsertRepository(rules, s, url, origin).Ok? <==>
              && (if origin in {Upload, Lightwell} then url == "" else url != "" && rules.acceptable(url))
              && forall r :: r in s.repositories && s.repositories[r].url == rules.cleanup(url) != "" ==>
                               s.repositories[r].origin != origin
  {
  }

  /** A request is accepted exactly if it is creatable. */
  lemma CreateOneAcceptsExactly(rules: UrlRules, s: Store, q: Request)
    requires Valid(s) && rules.cleanup("") == ""
    ensures CreateOne(rules, s, q).Ok? <==> Creatable(rules, s, q)
  {
    if Refusal(rules, q).None? {
      SharedIsFound(rules, s, q);
      match First(RepositoriesFor(rules, s, q))
      case Some(r) =>
        InsertableExactly(s, RowFor(q, r));
        assert Shares(rules, s, q, r) && !NeedsOwn(rules, s, q);
        if Creatable(rules, s, q) {
          var x :| Shares(rules, s, q, x) && !IsUsedBy(s, q.org, x);
          assert x == r;
        }
      case None =>
        OwnIsStored(rules, s, q);
    }
  }

  /** Reserved organisations are refused as such, and every other check of the request itself as invalid. */
  lemma CreateOneRefuses(rules: UrlRules, s: Store, q: Request)
    ensures CreateOne(rules, s, q) == Err(NotPermitted) <==> q.org in {RedHatOrg, CommunityOrg}
    ensures q.org !in {RedHatOrg, CommunityOrg} &&
            (|| q.origin !in {None, Some(Named(External)), Some(Blank), Some(Named(Upload))}
             || (q.url.Some? && rules.cleanup(q.url.value) in EPEL_URLS)
             || (q.origin == Some(Named(Upload)) && q.snapshot != Some(true))) ==>
              CreateOne(rules, s, q) == Err(BadValidation)
    ensures CreateOne(rules, s, q) != Err(NotFound)
  {
  }

  /** The lookup finds the one repository the request can share, unless its origin is blank. */
  lemma SharedIsFound(rules: UrlRules, s: Store, q: Request)
    requires Valid(s) && Refusal(rules, q).None?
    ensures match First(RepositoriesFor(rules, s, q))
            case Some(r) => q.origin != Some(Blank) && forall x :: Shares(rules, s, q, x) <==> x == r
            case None => q.origin == Some(Blank) || forall x :: !Shares(rules, s, q, x)
  {
    forall x
      ensures x in RepositoriesFor(rules, s, q) <==> q.origin != Some(Blank) && Shares(rules, s, q, x)
    {
    }
  }

  lemma OwnIsStored(rules: UrlRules, s: Store, q: Request)
    requires Valid(s) && rules.cleanup("") == "" && Refusal(rules, q).None?
    requires First(RepositoriesFor(rules, s, q)).None?
    ensures CreateOne(rules, s, q).Ok? <==>
              NeedsOwn(rules, s, q) && NameOf(q) != "" && q.org != Tenant("") && NameIsFree(s, q.org, NameOf(q))
  {
    var origin := StoredOrigin(OriginOf(q));
    StorableExactly(rules, s, UrlOf(q), origin);
    forall r
      ensures Shares(rules, s, q, r) <==>
                && r in s.repositories && s.repositories[r].url == rules.cleanup(UrlOf(q)) != ""
                && s.repositories[r].origin == origin
    {
    }
    assert (exists r :: Shares(rules, s, q, r)) ==> InsertRepository(rules, s, UrlOf(q), origin).Err?;
    if InsertRepository(rules, s, UrlOf(q), origin).Ok? {
      var (mid, r) := InsertRepository(rules, s, UrlOf(q), origin).value;
      InsertableExactly(mid, RowFor(q, r));
      assert !IsUsedBy(mid, q.org, r);
    }
  }

  /** The row that was asked for, and what creation never makes: rows of the Red Hat or the community
      organisation, community, Red Hat or EPEL repositories, or uploads that are not snapshotted. The
      Lightwell organisations are let through. */
  lemma CreatedRowIsCustom(rules: UrlRules, tx: Store, q: Request)
    requires Valid(tx) && CreateOne(rules, tx, q).Ok?
    ensures var (tx', c) := CreateOne(rules, tx, q).value;
            && c in tx'.configurations && tx'.configurations[c].repository in tx'.repositories
            && var row, repository := tx'.configurations[c], tx'.repositories[tx'.configurations[c].repository];
            && Some(row.name) == q.name && row.org == q.org && row.account == q.account
            && row.snapshot == (q.snapshot == Some(true)) && !row.deleted
            && repository.url == rules.cleanup(if q.url.Some? then q.url.value else "")
            && (repository.origin == Upload <==> q.origin == Some(Named(Upload)))
            && row.org !in {RedHatOrg, CommunityOrg}
            && repository.origin in {External, Upload}
            && (q.url.Some? ==> repository.url !in EPEL_URLS)
            && (repository.origin == Upload ==> row.snapshot)
  {
    CreateOneAdds(rules, tx, q);
    var (tx', c) := CreateOne(rules, tx, q).value;
    assert Answers(rules, tx', [q][0], [c][0]);
  }

  lemma AddsOnlyComposes(a: Store, b: Store, c: Store, cs: seq<Uuid>, id: Uuid)
    requires AddsOnly(a, b, cs) && AddsOnly(b, c, [id])
    ensures AddsOnly(a, c, cs + [id])
  {
    assert Elements(cs + [id]) == Elements(cs) + Elements([id]);
    assert [id][0] !in b.configurations;
    assert forall i :: 0 <= i < |cs| ==> cs[i] in Elements(cs);
  }

  lemma NoSpareComposes(a: Store, b: Store, c: Store, cs: seq<Uuid>, id: Uuid)
    requires NoSpareRepository(a, b, cs) && NoSpareRepository(b, c, [id]) && Extends(b, c)
    ensures NoSpareRepository(a, c, cs + [id])
  {
    forall r | r in c.repositories && r !in a.repositories
      ensures exists x :: x in cs + [id] && x in c.configurations && c.configurations[x].repository == r
    {
      if r in b.repositories {
        var x :| x in cs && x in b.configurations && b.configurations[x].repository == r;
        assert x in cs + [id];
      } else {
        assert id in cs + [id];
      }
    }
  }

  lemma AddsExactlyComposes(rules: UrlRules, a: Store, b: Store, c: Store, qs: seq<Request>, cs: seq<Uuid>, q: Request,
      id: Uuid)
    requires AddsExactly(rules, a, b, qs, cs) && AddsExactly(rules, b, c, [q], [id])
    ensures AddsExactly(rules, a, c, qs + [q], cs + [id])
  {
    AddsOnlyComposes(a, b, c, cs, id);
    NoSpareComposes(a, b, c, cs, id);
    var all, ids := qs + [q], cs + [id];
    assert Answers(rules, c, [q][0], [id][0]);
    forall i | 0 <= i < |all|
      ensures Answers(rules, c, all[i], ids[i])
    {
      if i < |qs| {
        assert Answers(rules, b, qs[i], cs[i]);
      }
    }
  }

  lemma OneMoreIsAdded(rules: UrlRules, before: Store, mid: Store, qs: seq<Request>, cs: seq<Uuid>, q: Request)
    requires Valid(mid) && AddsExactly(rules, before, mid, qs, cs) && CreateOne(rules, mid, q).Ok?
    ensures var (after, c) := CreateOne(rules, mid, q).value;
            AddedSoFar(rules, before, after, qs + [q], cs + [c])
  {
    CreateOneAdds(rules, mid, q);
    var (after, c) := CreateOne(rules, mid, q).value;
    AddsExactlyComposes(rules, before, mid, after, qs, cs, q, c);
  }

  /** A sequence of creations that all succeed adds exactly the requested rows. */
  lemma CreationsAddExactly(rules: UrlRules, before: Store, qs: seq<Request>)
    requires Valid(before) && Sequentially(before, qs, CreateStep(rules)).Ok?
    ensures var (after, cs) := Sequentially(before, qs, CreateStep(rules)).value;
            Valid(after) && AddsExactly(rules, before, after, qs, cs)
  {
    var inv := (s: Store, done: seq<Request>, cs: seq<Uuid>) => AddedSoFar(rules, before, s, done, cs);
    var step := CreateStep(rules);
    forall s, done, cs, q | inv(s, done, cs) && step(s, q).Ok?
      ensures inv(step(s, q).value.0, done + [q], cs + [step(s, q).value.1])
    {
      OneMoreIsAdded(rules, before, s, done, cs, q);
    }
    NothingAddedYet(rules, before);
    SequentialInvariant(before, qs, step, inv);
    var (after, cs) := Sequentially(before, qs, step).value;
    assert inv(after, qs, cs);
  }

  lemma NothingAddedYet(rules: UrlRules, before: Store)
    requires Valid(before)
    ensures AddedSoFar(rules, before, before, [], [])
  {
  }

  ghost predicate AddedSoFar(rules: UrlRules, before: Store, s: Store, qs: seq<Request>, cs: seq<Uuid>) {
    Valid(s) && AddsExactly(rules, before, s, qs, cs)
  }

  /** The request at `i` is creatable in the state that the earlier ones left. */
  ghost predicate CreatableAt(rules: UrlRules, before: Store, qs: seq<Request>, i: int)
    requires 0 <= i < |qs|
  {
    var r := Sequentially(before, qs[..i], CreateStep(rules));
    r.Ok? && Creatable(rules, r.value.0, qs[i])
  }

  ghost predicate AllCreatable(rules: UrlRules, before: Store, qs: seq<Request>) {
    forall i :: 0 <= i < |qs| ==> CreatableAt(rules, before, qs, i)
  }

  lemma SucceedsIffCreatable(rules: UrlRules, before: Store, qs: seq<Request>, i: int)
    requires Valid(before) && rules.cleanup("") == "" && 0 <= i < |qs|
    ensures Succeeds(before, qs, CreateStep(rules), i) <==> CreatableAt(rules, before, qs, i)
  {
    var r := Sequentially(before, qs[..i], CreateStep(rules));
    if r.Ok? {
      CreationsAddExactly(rules, before, qs[..i]);
      CreateOneAcceptsExactly(rules, r.value.0, qs[i]);
    }
  }

  /** A list is accepted exactly if each request is creatable in turn. */
  lemma CreationsAcceptedExactly(rules: UrlRules, before: Store, qs: seq<Request>)
    requires Valid(before) && rules.cleanup("") == ""
    ensures Sequentially(before, qs, CreateStep(rules)).Ok? <==> AllCreatable(rules, before, qs)
  {
    SequentialOkExactly(before, qs, CreateStep(rules));
    forall i | 0 <= i < |qs|
      ensures Succeeds(before, qs, CreateStep(rules), i) <==> CreatableAt(rules, before, qs, i)
    {
      SucceedsIffCreatable(rules, before, qs, i);
    }
  }
}
