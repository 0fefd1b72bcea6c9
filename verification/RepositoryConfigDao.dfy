/** The repository configuration DAO: one database, and the bulk operations that change it. */
module RepositoryConfigDao {
  import opened Basics
  import opened Urls
  import opened ConfigStore
  import opened Savepoints
  import opened BulkCreate
  import opened BulkDelete
  import opened BulkImport

  function MarkDeleted(): Configuration -> Configuration {
    (row: Configuration) => row.(deleted := true)
  }

  /** The live configurations of an organisation in the committed state. */
  function OwnedBy(s: Store, org: Org): set<Uuid> {
    set c | c in s.configurations && Live(s, c) && s.configurations[c].org == org
  }

  /** A live configuration of the organisation. */
  predicate Owns(s: Store, org: Org, c: Uuid) {
    c in s.configurations && !s.configurations[c].deleted && s.configurations[c].org == org
  }

  /** What it means on the stored rows that exactly the requested rows were added. */
  lemma AddedOnFields(rules: UrlRules, s: Store, s': Store, qs: seq<Request>, cs: seq<Uuid>)
    requires AddsExactly(rules, s, s', qs, cs)
    ensures && (forall c :: c in s'.configurations <==> c in s.configurations || c in cs)
            && (forall c :: c in cs ==> c !in s.configurations)
    ensures forall i :: 0 <= i < |qs| ==>
              && cs[i] in s'.configurations
              && var row, q := s'.configurations[cs[i]], qs[i];
              && row.repository in s'.repositories
              && row == Configuration(NameOf(q), q.org, q.account, row.repository, q.snapshot == Some(true), false)
              && s'.repositories[row.repository] ==
                 Repository(rules.cleanup(UrlOf(q)), if q.origin == Some(Named(Upload)) then Upload else External)
  {
    assert forall c :: c in s'.configurations <==> c in s'.configurations.Keys;
    assert forall i :: 0 <= i < |qs| ==> Answers(rules, s', qs[i], cs[i]);
  }

  class Dao {
    /** How URLs are cleaned and validated; the constructor installs the program's own rules. */
    const rules: UrlRules
    var db: Store

    constructor (parses: string -> bool, db: Store)
      ensures this.db == db && rules == ProgramRules(parses) && WellBehaved(rules)
    {
      ProgramRulesAreWellBehaved(parses);
      this.db := db;
      rules := ProgramRules(parses);
    }

    /** The caller sends notifications for the first request's organisation, so the list is not empty. */
    method BulkCreate(qs: seq<Request>) returns (responses: seq<Uuid>, errors: seq<Option<Error>>)
      requires Valid(db) && qs != []
      modifies this
      ensures Valid(db)
      ensures errors == [] <==> Sequentially(old(db), qs, CreateStep(rules)).Ok?
      ensures rules.cleanup("") == "" ==> (errors == [] <==> AllCreatable(rules, old(db), qs))
      ensures errors == [] ==> AddsExactly(rules, old(db), db, qs, responses)
      ensures errors == [] ==>
                && |responses| == |qs| && Distinct(responses)
                && (forall c :: c in db.configurations <==> c in old(db).configurations || c in responses)
                && (forall c :: c in responses ==> c !in old(db).configurations)
                && (forall c :: c in old(db).configurations ==> db.configurations[c] == old(db).configurations[c])
                && (forall r :: r in old(db).repositories ==>
                      r in db.repositories && db.repositories[r] == old(db).repositories[r])
                && (forall r :: r in db.repositories && r !in old(db).repositories ==>
                      exists c :: c in responses && db.configurations[c].repository == r)
      ensures errors == [] ==>
                forall i :: 0 <= i < |qs| ==>
                  && responses[i] in db.configurations
                  && var row, q := db.configurations[responses[i]], qs[i];
                  && row.repository in db.repositories
                  && row == Configuration(NameOf(q), q.org, q.account, row.repository, q.snapshot == Some(true), false)
                  && db.repositories[row.repository] ==
                     Repository(rules.cleanup(UrlOf(q)), if q.origin == Some(Named(Upload)) then Upload else External)
      ensures errors != [] ==> db == old(db) && responses == [] && |errors| == |qs|
      ensures errors != [] ==> exists i :: 0 <= i < |errors| && errors[i].Some?
      ensures errors != [] ==>
                forall i :: 0 <= i < |qs| ==> errors[i] == ErrorOfLast(old(db), qs[..i + 1], CreateStep(rules))
      ensures old(WellBehaved(rules) && Tidy(rules, db)) ==> Tidy(rules, db)
    {
      var after;
      after, responses, errors := RunBulk(db, qs, CreateStep(rules));
      if rules.cleanup("") == "" {
        CreationsAcceptedExactly(rules, db, qs);
      }
      if errors == [] {
        if WellBehaved(rules) && Tidy(rules, db) {
          CreationsKeepTidy(rules, db, qs);
        }
        CreationsAddExactly(rules, db, qs);
        AddedOnFields(rules, db, after, qs, responses);
      }
      db := after;
    }

    method BulkImport(qs: seq<Request>) returns (responses: seq<Uuid>, errors: seq<Option<Error>>)
      requires Valid(db)
      modifies this
      ensures Valid(db) && Extends(old(db), db)
      ensures errors == [] <==> Sequentially(old(db), qs, ImportStep(rules)).Ok?
      ensures rules.cleanup("") == "" ==> (errors == [] <==> AllImportable(rules, old(db), qs))
      ensures errors == [] ==> |responses| == |qs| && AllImported(rules, db, qs)
      ensures errors == [] ==> (db, responses) == Sequentially(old(db), qs, ImportStep(rules)).value
      ensures errors != [] ==> db == old(db) && responses == [] && |errors| == |qs|
      ensures errors != [] ==> exists i :: 0 <= i < |errors| && errors[i].Some?
      ensures old(WellBehaved(rules) && Tidy(rules, db)) &&
              (forall q :: q in qs ==> q.org !in {CommunityOrg, RedHatOrg}) ==>
                Tidy(rules, db)
    {
      var after;
      after, responses, errors := RunBulk(db, qs, ImportStep(rules));
      if rules.cleanup("") == "" {
        ImportsAcceptedExactly(rules, db, qs);
      }
      if errors == [] {
        if WellBehaved(rules) && Tidy(rules, db) && forall q :: q in qs ==> q.org !in {CommunityOrg, RedHatOrg} {
          ImportsKeepTidy(rules, db, qs);
        }
        ImportsAreKept(rules, db, qs);
      }
      db := after;
    }

    method BulkDelete(org: Org, cs: seq<Uuid>) returns (errors: seq<Option<LookupError>>)
      requires Valid(db)
      modifies this
      ensures Valid(db)
      ensures errors == [] <==> forall i :: 0 <= i < |cs| ==> Owns(old(db), org, cs[i])
      ensures db.repositories == old(db).repositories && db.next == old(db).next
      ensures errors == [] ==>
                && db.configurations.Keys == old(db).configurations.Keys
                && forall c :: c in db.configurations ==>
                    var row := old(db).configurations[c];
                    db.configurations[c] == row.(deleted := row.deleted || c in cs)
      ensures errors != [] ==> db == old(db) && |errors| == |cs|
      ensures errors != [] ==>
                forall i :: 0 <= i < |cs| ==>
                  errors[i] == if Owns(old(db), org, cs[i]) then None else Some(NoSuchRow(cs[i]))
    {
      var table;
      table, errors := MarkListed(db.configurations, cs, OwnedBy(db, org), MarkDeleted());
      db := db.(configurations := table);
    }
  }
}
