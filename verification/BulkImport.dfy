/** Bulk export and import of repository configurations (pkg/dao/repository_configs.go). */
module BulkImport {
  import opened Basics
  import opened Urls
  import opened ConfigStore
  import opened Savepoints
  import opened BulkCreate

  /** Community repositories, and custom ones that point at EPEL, are answered by the shared configuration. */
  predicate AnsweredByCommunity(rules: UrlRules, q: Request) {
    && q.url.Some?
    && (|| OriginOf(q) == Named(Community)
        || (OriginOf(q) == Named(External) && rules.cleanup(q.url.value) in EPEL_URLS))
  }

  function SharedWith(org: Org): set<Org> {
    {org, CommunityOrg, RedHatOrg}
  }

  /** The existing configurations that would answer a request instead of a new one. */
  function Existing(rules: UrlRules, s: Store, q: Request): set<Uuid> {
    var url := rules.cleanup(UrlOf(q));
    if AnsweredByCommunity(rules, q) then ConfigurationsAt(s, url, {CommunityOrg})
    else if OriginOf(q) == Named(Upload) then ConfigurationsNamed(s, q.name, q.org)
    else ConfigurationsAt(s, url, SharedWith(q.org))
  }

  function ImportOne(rules: UrlRules, tx: Store, q: Request): Result<(Store, Uuid), Error> {
    if AnsweredByCommunity(rules, q) then
      match First(Existing(rules, tx, q))
      case Some(c) => Ok((tx, c))
      case None => Err(if OriginOf(q) == Named(Community) then BadValidation else NotFound)
    else if !IsCreatableOrigin(OriginOf(q)) then
      Err(BadValidation)
    else
      match First(Existing(rules, tx, q))
      case Some(c) => Ok((tx, c))
      case None => if OriginOf(q) == Named(Upload) then ImportUpload(rules, tx, q) else ImportExternal(rules, tx, q)
  }

  /** Upload repositories are always snapshotted. */
  function ImportUpload(rules: UrlRules, tx: Store, q: Request): Result<(Store, Uuid), Error> {
    match InsertRepository(rules, tx, UrlOf(q), Upload)
    case Err(e) => Err(e)
    case Ok((tx', r)) => InsertConfiguration(tx', RowFor(q, r).(snapshot := true))
  }

  /** Unlike creation, import reuses any repository with the URL, whatever its origin. */
  function ImportExternal(rules: UrlRules, tx: Store, q: Request): Result<(Store, Uuid), Error> {
    match First(RepositoriesAt(tx, rules.cleanup(UrlOf(q))))
    case Some(r) => InsertConfiguration(tx, RowFor(q, r))
    case None =>
      match InsertRepository(rules, tx, UrlOf(q), StoredOrigin(OriginOf(q)))
      case Err(e) => Err(e)
      case Ok((tx', r)) => InsertConfiguration(tx', RowFor(q, r))
  }

  function ImportStep(rules: UrlRules): Step<Store, Request, Uuid, Error> {
    (tx: Store, q: Request) => ImportOne(rules, tx, q)
  }

  /** The request is answered by a row that is already there. */
  ghost predicate Present(rules: UrlRules, s: Store, q: Request) {
    && Existing(rules, s, q) != {}
    && (AnsweredByCommunity(rules, q) || IsCreatableOrigin(OriginOf(q)))
  }

  lemma PresentChangesNothing(rules: UrlRules, s: Store, q: Request)
    requires Present(rules, s, q)
    ensures ImportOne(rules, s, q).Ok? && ImportOne(rules, s, q).value.0 == s
  {
  }

  lemma PresentIsKept(rules: UrlRules, s: Store, s': Store, q: Request)
    requires Present(rules, s, q) && Extends(s, s')
    ensures Present(rules, s', q)
  {
    var c := Member(Existing(rules, s, q));
    assert c in Existing(rules, s', q);
  }

  /** Whether an imported row can be found again: a URL made of slashes only is stored as none at all. */
  predicate Findable(rules: UrlRules, q: Request) {
    AnsweredByCommunity(rules, q) || OriginOf(q) == Named(Upload) || rules.cleanup(UrlOf(q)) != ""
  }

  /** The name is taken and the row that took it cannot be found by URL. */
  ghost predicate Blocked(rules: UrlRules, s: Store, q: Request) {
    && !Findable(rules, q)
    && exists c :: Live(s, c) && s.configurations[c].name == NameOf(q) && s.configurations[c].org == q.org
  }

  lemma BlockedFails(rules: UrlRules, s: Store, q: Request)
    requires Valid(s) && Blocked(rules, s, q)
    ensures ImportOne(rules, s, q).Err?
  {
    var c :| Live(s, c) && s.configurations[c].name == NameOf(q) && s.configurations[c].org == q.org;
    if IsCreatableOrigin(OriginOf(q)) && InsertRepository(rules, s, UrlOf(q), StoredOrigin(OriginOf(q))).Ok? {
      var (mid, r) := InsertRepository(rules, s, UrlOf(q), StoredOrigin(OriginOf(q))).value;
      assert Live(mid, c) && Clash(mid.configurations[c], RowFor(q, r));
    }
  }

  /** What a successful import of `q` leaves behind: a row that answers it, or one that blocks it. */
  ghost predicate Imported(rules: UrlRules, s: Store, q: Request) {
    if Findable(rules, q) then Present(rules, s, q) else Blocked(rules, s, q)
  }

  lemma ImportedIsKept(rules: UrlRules, s: Store, s': Store, q: Request)
    requires Imported(rules, s, q) && Extends(s, s')
    ensures Imported(rules, s', q)
  {
    if Findable(rules, q) {
      PresentIsKept(rules, s, s', q);
    } else {
      var c :| Live(s, c) && s.configurations[c].name == NameOf(q) && s.configurations[c].org == q.org;
      assert Live(s', c);
    }
  }

  lemma InsertedIsImported(rules: UrlRules, tx: Store, mid: Store, q: Request, r: Uuid, row: Configuration)
    requires Valid(mid) && Extends(tx, mid) && r in mid.repositories
    requires row in {RowFor(q, r), RowFor(q, r).(snapshot := true)} && InsertConfiguration(mid, row).Ok?
    requires !AnsweredByCommunity(rules, q) && IsCreatableOrigin(OriginOf(q))
    requires mid.repositories[r].url == rules.cleanup(UrlOf(q))
    ensures var (tx', c) := InsertConfiguration(mid, row).value;
            Valid(tx') && Extends(tx, tx') && Imported(rules, tx', q)
  {
    var (tx', c) := InsertConfiguration(mid, row).value;
    ConfigurationAdded(mid, row);
    assert tx' == WithConfiguration(mid, row);
    assert Live(tx', c) && tx'.configurations[c] == row;
    assert Findable(rules, q) ==> c in Existing(rules, tx', q);
  }

  lemma ImportOneImports(rules: UrlRules, tx: Store, q: Request)
    requires Valid(tx) && ImportOne(rules, tx, q).Ok?
    ensures var (tx', c) := ImportOne(rules, tx, q).value;
            Valid(tx') && Extends(tx, tx') && Imported(rules, tx', q)
  {
    if First(Existing(rules, tx, q)).None? {
      var repository := First(RepositoriesAt(tx, rules.cleanup(UrlOf(q))));
      if OriginOf(q) != Named(Upload) && repository.Some? {
        InsertedIsImported(rules, tx, tx, q, repository.value, RowFor(q, repository.value));
      } else {
        var origin := StoredOrigin(OriginOf(q));
        RepositoryInserted(rules, tx, UrlOf(q), origin);
        var (mid, r) := InsertRepository(rules, tx, UrlOf(q), origin).value;
        var snapshot := if origin == Upload then true else RowFor(q, r).snapshot;
        InsertedIsImported(rules, tx, mid, q, r, RowFor(q, r).(snapshot := snapshot));
      }
    }
  }

  /** Importing one request answers it with an existing configuration, and then changes nothing, or
      finds none and adds one: the row asked for, always snapshotted if it is an upload, on a repository
      with the cleaned URL, which may be new as well. */
  lemma ImportOneAddsAtMostOne(rules: UrlRules, tx: Store, q: Request)
    requires Valid(tx) && ImportOne(rules, tx, q).Ok?
    ensures var (tx', c) := ImportOne(rules, tx, q).value;
            if Existing(rules, tx, q) != {} then tx' == tx && c in Existing(rules, tx, q)
            else
              && c !in tx.configurations && c in tx'.configurations
              && tx'.configurations == tx.configurations[c := tx'.configurations[c]]
              && var row := tx'.configurations[c];
              && row == Configuration(NameOf(q), q.org, q.account, row.repository,
                                      q.snapshot == Some(true) || q.origin == Some(Named(Upload)), false)
              && row.repository in tx'.repositories && tx'.repositories[row.repository].url == rules.cleanup(UrlOf(q))
              && (forall r :: r in tx.repositories ==>
                    r in tx'.repositories && tx'.repositories[r] == tx.repositories[r])
              && (forall r :: r in tx'.repositories && r !in tx.repositories ==> r == row.repository)
              && (q.origin == Some(Named(Upload)) ==> row.repository !in tx.repositories)
              && (row.repository !in tx.repositories ==>
                    tx'.repositories[row.repository].origin ==
                    if q.origin == Some(Named(Upload)) then Upload else External)
  {
    if First(Existing(rules, tx, q)).None? {
      var (tx', c) := ImportOne(rules, tx, q).value;
      assert tx'.configurations == tx.configurations[c := tx'.configurations[c]];
    }
  }

  /** A live configuration at a cleaned URL. */
  ghost predicate IsAt(s: Store, c: Uuid, url: string) {
    && c in s.configurations && !s.configurations[c].deleted
    && s.configurations[c].repository in s.repositories
    && s.repositories[s.configurations[c].repository].url == url != ""
  }

  /** A configuration of this name can be added. */
  ghost predicate CanBeAdded(s: Store, q: Request) {
    q.org != Tenant("") && q.name.Some? && q.name.value != "" && NameIsFree(s, q.org, q.name.value)
  }

  /** The community answers for its own repositories and for EPEL. */
  predicate IsForCommunity(rules: UrlRules, q: Request) {
    && q.url.Some?
    && (|| q.origin == Some(Named(Community))
        || (q.origin in {None, Some(Named(External))} && rules.cleanup(q.url.value) in EPEL_URLS))
  }

  /** The existing configurations that answer a request. */
  ghost predicate AnsweredBy(rules: UrlRules, s: Store, q: Request, c: Uuid) {
    var url := rules.cleanup(if q.url.Some? then q.url.value else "");
    if IsForCommunity(rules, q) then IsAt(s, c, url) && s.configurations[c].org == CommunityOrg
    else if q.origin == Some(Named(Upload)) then
      && c in s.configurations && !s.configurations[c].deleted
      && q.name == Some(s.configurations[c].name) && s.configurations[c].org == q.org
    else IsAt(s, c, url) && s.configurations[c].org in {q.org, CommunityOrg, RedHatOrg}
  }

  /** Which requests are accepted, on the fields of the request and the stored rows: those that are
      answered, and those that can be added, uploads without a URL and others with one that is stored
      already or acceptable. */
  ghost predicate Importable(rules: UrlRules, s: Store, q: Request) {
    || (IsForCommunity(rules, q) && exists c :: AnsweredBy(rules, s, q, c))
    || (&& !IsForCommunity(rules, q)
        && q.origin in {None, Some(Named(External)), Some(Blank), Some(Named(Upload))}
        && (|| (exists c :: AnsweredBy(rules, s, q, c))
            || (CanBeAdded(s, q) && HasPlace(rules, s, q))))
  }

  ghost predicate HasPlace(rules: UrlRules, s: Store, q: Request) {
    if q.origin == Some(Named(Upload)) then q.url in {None, Some("")}
    else
      || (q.url.Some? && q.url.value != "" && rules.acceptable(q.url.value))
      || (q.url.Some? && exists r :: r in s.repositories && s.repositories[r].url == rules.cleanup(q.url.value) != "")
  }

  lemma AnswersExactly(rules: UrlRules, s: Store, q: Request, c: Uuid)
    requires Valid(s)
    ensures c in Existing(rules, s, q) <==> AnsweredBy(rules, s, q, c)
  {
  }

  /** A request is accepted exactly if it is importable. */
  lemma ImportOneAcceptsExactly(rules: UrlRules, s: Store, q: Request)
    requires Valid(s) && rules.cleanup("") == ""
    ensures ImportOne(rules, s, q).Ok? <==> Importable(rules, s, q)
  {
    forall c {
      AnswersExactly(rules, s, q, c);
    }
    if First(Existing(rules, s, q)).None? && !AnsweredByCommunity(rules, q) && IsCreatableOrigin(OriginOf(q)) {
      if q.origin == Some(Named(Upload)) {
        UploadAddedExactly(rules, s, q);
      } else {
        ExternalAddedExactly(rules, s, q);
      }
    }
  }

  /** What the community does not have is invalid if it was asked for as such, and otherwise not found;
      nothing else is not found, and no organisation is refused. */
  lemma ImportOneRefuses(rules: UrlRules, s: Store, q: Request)
    requires Valid(s)
    ensures ImportOne(rules, s, q) == Err(NotFound) <==>
              && q.origin != Some(Named(Community)) && IsForCommunity(rules, q)
              && forall c :: !AnsweredBy(rules, s, q, c)
    ensures q.origin == Some(Named(Community)) && ImportOne(rules, s, q).Err? ==>
              ImportOne(rules, s, q) == Err(BadValidation)
    ensures ImportOne(rules, s, q) != Err(NotPermitted)
  {
    forall c {
      AnswersExactly(rules, s, q, c);
    }
  }

  lemma UploadAddedExactly(rules: UrlRules, s: Store, q: Request)
    requires Valid(s) && rules.cleanup("") == "" && q.origin == Some(Named(Upload))
    ensures ImportUpload(rules, s, q).Ok? <==> CanBeAdded(s, q) && q.url in {None, Some("")}
  {
    StorableExactly(rules, s, UrlOf(q), Upload);
    if InsertRepository(rules, s, UrlOf(q), Upload).Ok? {
      var (mid, r) := InsertRepository(rules, s, UrlOf(q), Upload).value;
      InsertableExactly(mid, RowFor(q, r).(snapshot := true));
      assert !IsUsedBy(mid, q.org, r);
    }
  }

  /** A repository at the URL that is shared is not used by the organisation, or its configuration would
      have answered. */
  lemma ExternalAddedExactly(rules: UrlRules, s: Store, q: Request)
    requires Valid(s) && rules.cleanup("") == "" && Existing(rules, s, q) == {}
    requires !AnsweredByCommunity(rules, q) && IsCreatableOrigin(OriginOf(q)) && OriginOf(q) != Named(Upload)
    ensures ImportExternal(rules, s, q).Ok? <==> CanBeAdded(s, q) && HasPlace(rules, s, q)
  {
    var url := rules.cleanup(UrlOf(q));
    match First(RepositoriesAt(s, url))
    case Some(r) =>
      InsertableExactly(s, RowFor(q, r));
      forall c | c in s.configurations && !s.configurations[c].deleted && s.configurations[c].org == q.org
        ensures s.configurations[c].repository != r
      {
        assert c !in Existing(rules, s, q);
      }
    case None =>
      forall r | r in s.repositories && url != ""
        ensures s.repositories[r].url != url
      {
        assert r !in RepositoriesAt(s, url);
      }
      StorableExactly(rules, s, UrlOf(q), StoredOrigin(OriginOf(q)));
      if InsertRepository(rules, s, UrlOf(q), StoredOrigin(OriginOf(q))).Ok? {
        var (mid, r) := InsertRepository(rules, s, UrlOf(q), StoredOrigin(OriginOf(q))).value;
        InsertableExactly(mid, RowFor(q, r));
        assert !IsUsedBy(mid, q.org, r);
      }
  }

  ghost predicate AllImported(rules: UrlRules, s: Store, qs: seq<Request>) {
    forall i :: 0 <= i < |qs| ==> Imported(rules, s, qs[i])
  }

  lemma AllImportedIsKept(rules: UrlRules, s: Store, s': Store, qs: seq<Request>, q: Request)
    requires AllImported(rules, s, qs) && Extends(s, s') && Imported(rules, s', q)
    ensures AllImported(rules, s', qs + [q])
  {
    forall i | 0 <= i < |qs|
      ensures Imported(rules, s', qs[i])
    {
      ImportedIsKept(rules, s, s', qs[i]);
    }
  }

  lemma OneMoreIsKept(rules: UrlRules, before: Store, mid: Store, qs: seq<Request>, q: Request)
    requires Valid(mid) && Extends(before, mid) && AllImported(rules, mid, qs) && ImportOne(rules, mid, q).Ok?
    ensures var after := ImportOne(rules, mid, q).value.0;
            Valid(after) && Extends(before, after) && AllImported(rules, after, qs + [q])
  {
    ImportOneImports(rules, mid, q);
    var after := ImportOne(rules, mid, q).value.0;
    AllImportedIsKept(rules, mid, after, qs, q);
    ExtendsIsTransitive(before, mid, after);
  }

  ghost predicate KeptSoFar(rules: UrlRules, before: Store, s: Store, qs: seq<Request>) {
    Valid(s) && Extends(before, s) && AllImported(rules, s, qs)
  }

  lemma ImportsAreKept(rules: UrlRules, before: Store, qs: seq<Request>)
    requires Valid(before) && Sequentially(before, qs, ImportStep(rules)).Ok?
    ensures var after := Sequentially(before, qs, ImportStep(rules)).value.0;
            Valid(after) && Extends(before, after) && AllImported(rules, after, qs)
  {
    var inv := (s: Store, done: seq<Request>, cs: seq<Uuid>) => KeptSoFar(rules, before, s, done);
    var step := ImportStep(rules);
    forall s, done, cs, q | inv(s, done, cs) && step(s, q).Ok?
      ensures inv(step(s, q).value.0, done + [q], cs + [step(s, q).value.1])
    {
      OneMoreIsKept(rules, before, s, done, q);
    }
    SequentialInvariant(before, qs, step, inv);
    assert KeptSoFar(rules, before, Sequentially(before, qs, step).value.0, qs);
  }

  /** The request at `i` is importable in the state that the earlier ones left. */
  ghost predicate ImportableAt(rules: UrlRules, before: Store, qs: seq<Request>, i: int)
    requires 0 <= i < |qs|
  {
    var r := Sequentially(before, qs[..i], ImportStep(rules));
    r.Ok? && Importable(rules, r.value.0, qs[i])
  }

  ghost predicate AllImportable(rules: UrlRules, before: Store, qs: seq<Request>) {
    forall i :: 0 <= i < |qs| ==> ImportableAt(rules, before, qs, i)
  }

  lemma SucceedsIffImportable(rules: UrlRules, before: Store, qs: seq<Request>, i: int)
    requires Valid(before) && rules.cleanup("") == "" && 0 <= i < |qs|
    ensures Succeeds(before, qs, ImportStep(rules), i) <==> ImportableAt(rules, before, qs, i)
  {
    var r := Sequentially(before, qs[..i], ImportStep(rules));
    if r.Ok? {
      ImportsAreKept(rules, before, qs[..i]);
      ImportOneAcceptsExactly(rules, r.value.0, qs[i]);
    }
  }

  /** A list is accepted exactly if each request is importable in turn. */
  lemma ImportsAcceptedExactly(rules: UrlRules, before: Store, qs: seq<Request>)
    requires Valid(before) && rules.cleanup("") == ""
    ensures Sequentially(before, qs, ImportStep(rules)).Ok? <==> AllImportable(rules, before, qs)
  {
    SequentialOkExactly(before, qs, ImportStep(rules));
    forall i | 0 <= i < |qs|
      ensures Succeeds(before, qs, ImportStep(rules), i) <==> ImportableAt(rules, before, qs, i)
    {
      SucceedsIffImportable(rules, before, qs, i);
    }
  }

  /** Requests that are all settled change nothing, and go through exactly when all can be found. */
  lemma SettledRequestsChangeNothing(rules: UrlRules, s: Store, qs: seq<Request>)
    requires Valid(s) && AllImported(rules, s, qs)
    ensures var r := Sequentially(s, qs, ImportStep(rules));
            && (r.Ok? ==> r.value.0 == s)
            && (r.Ok? <==> forall i :: 0 <= i < |qs| ==> Findable(rules, qs[i]))
  {
    var step := ImportStep(rules);
    forall i | 0 <= i < |qs|
      ensures step(s, qs[i]).Ok? <==> Findable(rules, qs[i])
      ensures step(s, qs[i]).Ok? ==> step(s, qs[i]).value.0 == s
    {
      if Findable(rules, qs[i]) {
        PresentChangesNothing(rules, s, qs[i]);
      } else {
        BlockedFails(rules, s, qs[i]);
      }
    }
    StationaryItems(s, qs, step);
  }

  /** Repeating a successful import changes nothing; it is accepted again exactly when every imported
      row can be found again, and otherwise refused as a whole. */
  lemma ImportIsIdempotent(rules: UrlRules, before: Store, qs: seq<Request>)
    requires Valid(before) && Sequentially(before, qs, ImportStep(rules)).Ok?
    ensures var after := Sequentially(before, qs, ImportStep(rules)).value.0;
            var again := Sequentially(after, qs, ImportStep(rules));
            && (again.Ok? ==> again.value.0 == after)
            && (again.Ok? <==> forall i :: 0 <= i < |qs| ==> Findable(rules, qs[i]))
  {
    ImportsAreKept(rules, before, qs);
    SettledRequestsChangeNothing(rules, Sequentially(before, qs, ImportStep(rules)).value.0, qs);
  }

  /** Such URLs exist: a lone slash cleans to nothing. Importing one into an empty store creates the
      configuration, and importing it again is refused because the name is taken. */
  lemma NamelessUrlIsRefusedAgain(rules: UrlRules, q: Request)
    requires !Findable(rules, q) && IsCreatableOrigin(OriginOf(q)) && rules.acceptable(UrlOf(q)) && UrlOf(q) != ""
    requires NameOf(q) != "" && q.org != Tenant("")
    ensures var s := Store(map[], map[], 0);
            var first := ImportOne(rules, s, q);
            first.Ok? && ImportOne(rules, first.value.0, q).Err?
  {
    var s := Store(map[], map[], 0);
    assert Existing(rules, s, q) == {};
    assert RepositoriesAt(s, "") == {};
    ImportOneImports(rules, s, q);
    BlockedFails(rules, ImportOne(rules, s, q).value.0, q);
  }

  /** The rows an organisation may export: its own and the shared ones. */
  function Exportable(s: Store, org: Org, cs: set<Uuid>): set<Uuid> {
    set c | c in cs && Live(s, c) && s.configurations[c].org in SharedWith(org)
  }

  /** An export is refused unless every identifier names a distinct exportable row. */
  predicate ExportAccepted(s: Store, org: Org, cs: seq<Uuid>) {
    |Exportable(s, org, Elements(cs))| == |cs|
  }

  lemma ExportAcceptedExactly(s: Store, org: Org, cs: seq<Uuid>)
    ensures ExportAccepted(s, org, cs) <==>
              && Distinct(cs)
              && forall i :: 0 <= i < |cs| ==> Live(s, cs[i]) && s.configurations[cs[i]].org in SharedWith(org)
  {
    var all := Elements(cs);
    SubsetSize(Exportable(s, org, all), all);
    ElementsSize(cs);
    if ExportAccepted(s, org, cs) {
      assert forall i :: 0 <= i < |cs| ==> cs[i] in all;
    } else if forall i :: 0 <= i < |cs| ==> Live(s, cs[i]) && s.configurations[cs[i]].org in SharedWith(org) {
      assert Exportable(s, org, all) == all;
    }
  }

  /** The import request made of an exported row; all its fields are filled in. */
  function RequestFrom(s: Store, c: Uuid, org: Org, account: string): Request
    requires c in s.configurations && s.configurations[c].repository in s.repositories
  {
    var row := s.configurations[c];
    var repository := s.repositories[row.repository];
    Request(org, account, Some(row.name), Some(repository.url), Some(Named(repository.origin)), Some(row.snapshot))
  }

  /** Shared organisations hold no upload repositories: creation refuses them. */
  ghost predicate NoSharedUploads(s: Store) {
    forall c | c in s.configurations && s.configurations[c].repository in s.repositories ::
      s.configurations[c].org in {CommunityOrg, RedHatOrg} ==>
          s.repositories[s.configurations[c].repository].origin != Upload
  }

  /** What export relies on: stored URLs are clean, and shared organisations hold no uploads. */
  ghost predicate Tidy(rules: UrlRules, s: Store) {
    Valid(s) && CleanUrls(rules, s.repositories) && NoSharedUploads(s)
  }

  lemma RepositoryKeepsTidy(rules: UrlRules, s: Store, url: string, origin: Origin)
    requires WellBehaved(rules) && Tidy(rules, s) && InsertRepository(rules, s, url, origin).Ok?
    ensures Tidy(rules, InsertRepository(rules, s, url, origin).value.0)
  {
    RepositoryInserted(rules, s, url, origin);
  }

  lemma ConfigurationKeepsTidy(rules: UrlRules, s: Store, row: Configuration)
    requires Tidy(rules, s) && row.repository in s.repositories && !row.deleted && InsertConfiguration(s, row).Ok?
    requires row.org !in {CommunityOrg, RedHatOrg}
    ensures Tidy(rules, InsertConfiguration(s, row).value.0)
  {
    ConfigurationAdded(s, row);
    assert InsertConfiguration(s, row).value.0 == WithConfiguration(s, row);
  }

  /** Creation keeps the store tidy for any request. */
  lemma CreateOneKeepsTidy(rules: UrlRules, s: Store, q: Request)
    requires WellBehaved(rules) && Tidy(rules, s) && CreateOne(rules, s, q).Ok?
    ensures Tidy(rules, CreateOne(rules, s, q).value.0)
  {
    match First(RepositoriesFor(rules, s, q))
    case Some(r) =>
      ConfigurationKeepsTidy(rules, s, RowFor(q, r));
    case None =>
      var (mid, r) := InsertRepository(rules, s, UrlOf(q), StoredOrigin(OriginOf(q))).value;
      RepositoryKeepsTidy(rules, s, UrlOf(q), StoredOrigin(OriginOf(q)));
      ConfigurationKeepsTidy(rules, mid, RowFor(q, r));
  }

  /** Import keeps the store tidy for any request of an organisation that is not shared. */
  lemma ImportOneKeepsTidy(rules: UrlRules, s: Store, q: Request)
    requires WellBehaved(rules) && Tidy(rules, s) && ImportOne(rules, s, q).Ok? && q.org !in {CommunityOrg, RedHatOrg}
    ensures Tidy(rules, ImportOne(rules, s, q).value.0)
  {
    if First(Existing(rules, s, q)).None? {
      var repository := First(RepositoriesAt(s, rules.cleanup(UrlOf(q))));
      if OriginOf(q) != Named(Upload) && repository.Some? {
        ConfigurationKeepsTidy(rules, s, RowFor(q, repository.value));
      } else {
        var origin := StoredOrigin(OriginOf(q));
        RepositoryKeepsTidy(rules, s, UrlOf(q), origin);
        var (mid, r) := InsertRepository(rules, s, UrlOf(q), origin).value;
        var snapshot := if origin == Upload then true else RowFor(q, r).snapshot;
        ConfigurationKeepsTidy(rules, mid, RowFor(q, r).(snapshot := snapshot));
      }
    }
  }

  lemma {:induction false} CreationsKeepTidy(rules: UrlRules, s: Store, qs: seq<Request>)
    requires WellBehaved(rules) && Tidy(rules, s) && Sequentially(s, qs, CreateStep(rules)).Ok?
    ensures Tidy(rules, Sequentially(s, qs, CreateStep(rules)).value.0)
  {
    if qs != [] {
      CreationsKeepTidy(rules, s, qs[..|qs| - 1]);
      CreateOneKeepsTidy(rules, Sequentially(s, qs[..|qs| - 1], CreateStep(rules)).value.0, qs[|qs| - 1]);
    }
  }

  lemma {:induction false} ImportsKeepTidy(rules: UrlRules, s: Store, qs: seq<Request>)
    requires WellBehaved(rules) && Tidy(rules, s) && Sequentially(s, qs, ImportStep(rules)).Ok?
    requires forall i :: 0 <= i < |qs| ==> qs[i].org !in {CommunityOrg, RedHatOrg}
    ensures Tidy(rules, Sequentially(s, qs, ImportStep(rules)).value.0)
  {
    if qs != [] {
      ImportsKeepTidy(rules, s, qs[..|qs| - 1]);
      ImportOneKeepsTidy(rules, Sequentially(s, qs[..|qs| - 1], ImportStep(rules)).value.0, qs[|qs| - 1]);
    }
  }

  /** Whether an exported row is taken back: uploads always, others if they have a URL, and what the
      community answers for if it does. Red Hat's and Lightwell's never are. */
  predicate Reimportable(s: Store, c: Uuid)
    requires c in s.configurations && s.configurations[c].repository in s.repositories
  {
    var repository := s.repositories[s.configurations[c].repository];
    match repository.origin
    case Upload => true
    case External =>
      if repository.url in EPEL_URLS then ConfigurationsAt(s, repository.url, {CommunityOrg}) != {}
      else repository.url != ""
    case Community => ConfigurationsAt(s, repository.url, {CommunityOrg}) != {}
    case _ => false
  }

  /** Importing an exported row into the organisation it was exported for never changes the store, and
      is accepted exactly for the rows that can be taken back. */
  lemma ReimportOneChangesNothing(rules: UrlRules, s: Store, c: Uuid, org: Org, account: string)
    requires Tidy(rules, s)
    requires Live(s, c) && s.configurations[c].org in SharedWith(org)
    ensures var r := ImportOne(rules, s, RequestFrom(s, c, org, account));
            && (r.Ok? ==> r.value.0 == s)
            && (r.Ok? <==> Reimportable(s, c))
  {
    var q := RequestFrom(s, c, org, account);
    var row := s.configurations[c];
    var repository := s.repositories[row.repository];
    assert rules.cleanup(repository.url) == repository.url;
    if !AnsweredByCommunity(rules, q) && IsCreatableOrigin(OriginOf(q)) {
      if repository.origin == Upload || repository.url != "" {
        assert repository.origin != Upload ==> row.repository in RepositoriesAt(s, repository.url);
        assert c in Existing(rules, s, q);
        PresentChangesNothing(rules, s, q);
      } else {
        assert Existing(rules, s, q) == {} && RepositoriesAt(s, "") == {};
      }
    }
  }

  /** The requests an importer makes of exported rows, in the order they were exported. */
  function RequestsFrom(s: Store, cs: seq<Uuid>, org: Org, account: string): seq<Request>
    requires forall i :: 0 <= i < |cs| ==>
              cs[i] in s.configurations && s.configurations[cs[i]].repository in s.repositories
  {
    seq(|cs|, i requires 0 <= i < |cs| => RequestFrom(s, cs[i], org, account))
  }

  lemma ReimportChangesNothing(rules: UrlRules, s: Store, cs: seq<Uuid>, org: Org, account: string)
    requires Tidy(rules, s)
    requires forall i :: 0 <= i < |cs| ==> Live(s, cs[i]) && s.configurations[cs[i]].org in SharedWith(org)
    ensures var r := Sequentially(s, RequestsFrom(s, cs, org, account), ImportStep(rules));
            && (r.Ok? ==> r.value.0 == s)
            && (r.Ok? <==> forall i :: 0 <= i < |cs| ==> Reimportable(s, cs[i]))
  {
    var qs, step := RequestsFrom(s, cs, org, account), ImportStep(rules);
    forall i | 0 <= i < |cs|
      ensures step(s, qs[i]).Ok? <==> Reimportable(s, cs[i])
      ensures step(s, qs[i]).Ok? ==> step(s, qs[i]).value.0 == s
    {
      ReimportOneChangesNothing(rules, s, cs[i], org, account);
    }
    StationaryItems(s, qs, step);
  }

  /** Export followed by import into the same organisation leaves every table as it was, whatever the
      order of the exported rows, and is accepted exactly if every row can be taken back. */
  lemma ExportThenImportChangesNothing(rules: UrlRules, s: Store, cs: seq<Uuid>, exported: seq<Uuid>, org: Org,
      account: string)
    requires Tidy(rules, s) && ExportAccepted(s, org, cs) && IsListing(Elements(cs), exported)
    ensures forall i :: 0 <= i < |exported| ==>
              Live(s, exported[i]) && s.configurations[exported[i]].org in SharedWith(org)
    ensures var r := Sequentially(s, RequestsFrom(s, exported, org, account), ImportStep(rules));
            && (r.Ok? ==> r.value.0 == s)
            && (r.Ok? <==> forall i :: 0 <= i < |exported| ==> Reimportable(s, exported[i]))
  {
    ExportAcceptedExactly(s, org, cs);
    forall i | 0 <= i < |exported|
      ensures Live(s, exported[i]) && s.configurations[exported[i]].org in SharedWith(org)
    {
      assert exported[i] in Elements(exported);
    }
    ReimportChangesNothing(rules, s, exported, org, account);
  }
}
