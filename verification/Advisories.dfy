/** Advisories of a repository and the ledger of notifications sent for them
    (pkg/dao/lightwell_advisory.go). */
module Advisories {
  import opened Basics

  const BATCH := 100

  /** The unique key of both tables. */
  datatype Key = Key(repo: Uuid, advisory: string, package: string)

  datatype Input = Input(advisory: string, package: string, severity: string, details: string, checksum: string)

  /** A stored advisory: the repository's name at the time and the fields of the input. */
  datatype Advisory = Advisory(repoName: string, input: Input)

  datatype Store = Store(advisories: map<Key, Advisory>, notified: set<Key>)

  datatype Error = BadValidation | AffectedTwice

  function KeyOf(repo: Uuid, a: Input): Key {
    Key(repo, a.advisory, a.package)
  }

  predicate Acceptable(repoName: string, a: Input) {
    repoName != "" && a.advisory != "" && a.checksum != ""
  }

  function KeysOf(repo: Uuid, inputs: seq<Input>): set<Key> {
    set a | a in inputs :: KeyOf(repo, a)
  }

  /** The inputs stored one after the other, a later one replacing an earlier one with its key. */
  function Upserted(table: map<Key, Advisory>, repo: Uuid, repoName: string, inputs: seq<Input>): map<Key, Advisory> {
    if inputs == [] then table
    else
      var last := inputs[|inputs| - 1];
      Upserted(table, repo, repoName, inputs[..|inputs| - 1])[KeyOf(repo, last) := Advisory(repoName, last)]
  }

  /** One statement may not touch a row twice, so a key may recur only in another batch. */
  ghost predicate NoClashInBatch(repo: Uuid, inputs: seq<Input>) {
    forall i, j :: 0 <= i < j < |inputs| && i / BATCH == j / BATCH ==> KeyOf(repo, inputs[i]) != KeyOf(repo, inputs[j])
  }

  ghost predicate Storable(repo: Uuid, repoName: string, inputs: seq<Input>) {
    (forall i :: 0 <= i < |inputs| ==> Acceptable(repoName, inputs[i])) && NoClashInBatch(repo, inputs)
  }

  /** The advisories of the repository that are not in the list go. */
  function Kept(table: map<Key, Advisory>, repo: Uuid, keys: set<Key>): map<Key, Advisory> {
    map k | k in table && (k.repo != repo || k in keys) :: table[k]
  }

  /** A whole synchronisation: an empty list changes nothing. */
  function Synced(s: Store, repo: Uuid, repoName: string, inputs: seq<Input>): Store {
    if inputs == [] then s
    else s.(advisories := Kept(Upserted(s.advisories, repo, repoName, inputs), repo, KeysOf(repo, inputs)))
  }

  function Unnotified(s: Store, repo: Uuid): set<Key> {
    set k | k in s.advisories && k.repo == repo && k !in s.notified
  }

  function Marked(s: Store, keys: set<Key>): Store {
    s.(notified := s.notified + keys)
  }

  // ---------- one synchronisation

  lemma {:induction false} UpsertedKeys(table: map<Key, Advisory>, repo: Uuid, repoName: string, inputs: seq<Input>)
    ensures Upserted(table, repo, repoName, inputs).Keys == table.Keys + KeysOf(repo, inputs)
    ensures forall k :: k in table && k !in KeysOf(repo, inputs) ==>
              Upserted(table, repo, repoName, inputs)[k] == table[k]
  {
    if inputs != [] {
      var front, last := inputs[..|inputs| - 1], inputs[|inputs| - 1];
      UpsertedKeys(table, repo, repoName, front);
      assert inputs == front + [last];
      assert KeysOf(repo, inputs) == KeysOf(repo, front) + {KeyOf(repo, last)};
    }
  }

  /** The last input with a key is what is stored under it. */
  lemma {:induction false} LastInputWins(table: map<Key, Advisory>, repo: Uuid, repoName: string, inputs: seq<Input>,
      i: int)
    requires 0 <= i < |inputs| && forall j :: i < j < |inputs| ==> KeyOf(repo, inputs[j]) != KeyOf(repo, inputs[i])
    ensures KeyOf(repo, inputs[i]) in Upserted(table, repo, repoName, inputs)
    ensures Upserted(table, repo, repoName, inputs)[KeyOf(repo, inputs[i])] == Advisory(repoName, inputs[i])
  {
    if i < |inputs| - 1 {
      LastInputWins(table, repo, repoName, inputs[..|inputs| - 1], i);
    }
  }

  /** A synchronisation leaves the repository with exactly the given keys and touches neither other
      repositories nor the ledger; an empty one leaves everything. */
  lemma SyncIsExact(s: Store, repo: Uuid, repoName: string, inputs: seq<Input>)
    ensures inputs == [] ==> Synced(s, repo, repoName, inputs) == s
    ensures inputs != [] ==>
            var s' := Synced(s, repo, repoName, inputs);
            && (forall k: Key :: k.repo == repo ==> (k in s'.advisories <==> IsGiven(inputs, k)))
            && (forall k: Key :: k.repo != repo ==> (k in s'.advisories <==> k in s.advisories))
            && (forall k: Key :: k.repo != repo && k in s.advisories ==> s'.advisories[k] == s.advisories[k])
            && s'.notified == s.notified
  {
    UpsertedKeys(s.advisories, repo, repoName, inputs);
    var up := Upserted(s.advisories, repo, repoName, inputs);
    assert forall k :: k in up <==> k in up.Keys;
    assert forall k :: k in KeysOf(repo, inputs) ==> k.repo == repo;
    assert forall k: Key :: k.repo == repo ==> (k in KeysOf(repo, inputs) <==> IsGiven(inputs, k));
  }

  /** Some input has the advisory and the package of the key. */
  ghost predicate IsGiven(inputs: seq<Input>, k: Key) {
    exists a :: a in inputs && a.advisory == k.advisory && a.package == k.package
  }

  lemma SyncStoresLastInput(s: Store, repo: Uuid, repoName: string, inputs: seq<Input>, i: int)
    requires 0 <= i < |inputs| && forall j :: i < j < |inputs| ==> KeyOf(repo, inputs[j]) != KeyOf(repo, inputs[i])
    ensures KeyOf(repo, inputs[i]) in Synced(s, repo, repoName, inputs).advisories
    ensures Synced(s, repo, repoName, inputs).advisories[KeyOf(repo, inputs[i])] == Advisory(repoName, inputs[i])
  {
    LastInputWins(s.advisories, repo, repoName, inputs, i);
    assert inputs[i] in inputs;
  }

  // ---------- runs

  /** A synchronisation; listing what is unnotified and sending a notification for each key listed;
      or marking keys, which the program does after sending. */
  datatype Event = Sync(repo: Uuid, repoName: string, inputs: seq<Input>) | Send(repo: Uuid) | Mark(keys: set<Key>)

  function Apply(s: Store, e: Event): Store {
    match e
    case Sync(repo, repoName, inputs) => Synced(s, repo, repoName, inputs)
    case Send(_) => s
    case Mark(keys) => Marked(s, keys)
  }

  function Run(s: Store, events: seq<Event>): Store {
    if events == [] then s else Apply(Run(s, events[..|events| - 1]), events[|events| - 1])
  }

  /** The store before an event of a run. */
  function Before(s: Store, events: seq<Event>, i: int): Store
    requires 0 <= i <= |events|
  {
    Run(s, events[..i])
  }

  predicate SentAt(s: Store, events: seq<Event>, k: Key, i: int)
    requires 0 <= i < |events|
  {
    events[i].Send? && k in Unnotified(Before(s, events, i), events[i].repo)
  }

  predicate MarkedAt(events: seq<Event>, k: Key, i: int)
    requires 0 <= i < |events|
  {
    events[i].Mark? && k in events[i].keys
  }

  /** How often a notification is sent for a key in a run. */
  function Sent(s: Store, events: seq<Event>, k: Key): nat {
    if events == [] then 0
    else Sent(s, events[..|events| - 1], k) + if SentAt(s, events, k, |events| - 1) then 1 else 0
  }

  ghost predicate MarkedWithin(events: seq<Event>, k: Key, from: int, to: int)
    requires 0 <= from && to <= |events|
  {
    exists m :: from <= m < to && MarkedAt(events, k, m)
  }

  /** A key enters the ledger exactly by being marked and never leaves it, whatever is removed and
      synchronised again. */
  lemma {:induction false} LedgerIsWhatWasMarked(s: Store, events: seq<Event>, k: Key, i: int, j: int)
    requires 0 <= i <= j <= |events|
    ensures k in Before(s, events, j).notified <==> k in Before(s, events, i).notified || MarkedWithin(events, k, i, j)
    decreases j
  {
    if i < j {
      LedgerIsWhatWasMarked(s, events, k, i, j - 1);
      assert events[..j][..j - 1] == events[..j - 1];
      assert Before(s, events, j) == Apply(Before(s, events, j - 1), events[j - 1]);
      assert MarkedWithin(events, k, i, j) <==> MarkedWithin(events, k, i, j - 1) || MarkedAt(events, k, j - 1);
    }
  }

  /** Once marked, a key is never listed as unnotified again. */
  lemma MarkedIsNeverListed(s: Store, events: seq<Event>, k: Key, m: int, j: int)
    requires 0 <= m < j <= |events| && MarkedAt(events, k, m)
    ensures forall repo :: k !in Unnotified(Before(s, events, j), repo)
  {
    LedgerIsWhatWasMarked(s, events, k, 0, j);
  }

  lemma SentInPrefix(s: Store, events: seq<Event>, k: Key, n: int, i: int)
    requires 0 <= i < n <= |events|
    ensures SentAt(s, events[..n], k, i) == SentAt(s, events, k, i)
  {
    assert events[..n][..i] == events[..i];
  }

  lemma {:induction false} SentOnce(s: Store, events: seq<Event>, k: Key) returns (i: int)
    requires Sent(s, events, k) >= 1
    ensures 0 <= i < |events| && SentAt(s, events, k, i)
  {
    i := |events| - 1;
    if !SentAt(s, events, k, i) {
      var last := i;
      i := SentOnce(s, events[..last], k);
      SentInPrefix(s, events, k, last, i);
    }
  }

  lemma {:induction false} SentTwice(s: Store, events: seq<Event>, k: Key) returns (i: int, j: int)
    requires Sent(s, events, k) >= 2
    ensures 0 <= i < j < |events| && SentAt(s, events, k, i) && SentAt(s, events, k, j)
  {
    j := |events| - 1;
    var last := j;
    if SentAt(s, events, k, last) {
      i := SentOnce(s, events[..last], k);
    } else {
      i, j := SentTwice(s, events[..last], k);
      SentInPrefix(s, events, k, last, j);
    }
    SentInPrefix(s, events, k, last, i);
  }

  lemma {:induction false} SentAtLeast(s: Store, events: seq<Event>, k: Key, i: int, j: int)
    requires 0 <= i <= j < |events| && SentAt(s, events, k, i) && SentAt(s, events, k, j)
    ensures Sent(s, events, k) >= if i < j then 2 else 1
  {
    var last := |events| - 1;
    if j < last {
      SentInPrefix(s, events, k, last, i);
      SentInPrefix(s, events, k, last, j);
      SentAtLeast(s, events[..last], k, i, j);
    } else if i < last {
      SentInPrefix(s, events, k, last, i);
      SentAtLeast(s, events[..last], k, i, i);
    }
  }

  /** The event lists the key's repository while the key is stored, notified or not. */
  predicate ListsKey(s: Store, events: seq<Event>, k: Key, j: int)
    requires 0 <= j < |events|
  {
    events[j].Send? && events[j].repo == k.repo && k in Before(s, events, j).advisories
  }

  /** The order that is asked for: between sending for a key and listing its repository once more, with
      the key still or again stored, the key is marked. */
  ghost predicate MarkedInBetween(s: Store, events: seq<Event>, k: Key) {
    forall i, j :: 0 <= i < j < |events| && SentAt(s, events, k, i) && ListsKey(s, events, k, j) ==>
                     MarkedWithin(events, k, i + 1, j)
  }

  /** Sent for once, a key is sent for again exactly where it is listed unmarked. */
  lemma SentAgain(s: Store, events: seq<Event>, k: Key, i: int, j: int)
    requires 0 <= i < j < |events| && SentAt(s, events, k, i)
    ensures SentAt(s, events, k, j) <==> ListsKey(s, events, k, j) && !MarkedWithin(events, k, i + 1, j)
  {
    assert events[..i + 1][..i] == events[..i];
    assert Before(s, events, i + 1) == Before(s, events, i);
    LedgerIsWhatWasMarked(s, events, k, i + 1, j);
  }

  /** Over every run, a notification is sent at most once for a key exactly if the order is kept, and
      never for one that was marked before. */
  lemma NotifiedAtMostOnce(s: Store, events: seq<Event>, k: Key)
    ensures Sent(s, events, k) <= 1 <==> MarkedInBetween(s, events, k)
    ensures k in s.notified ==> Sent(s, events, k) == 0
  {
    if !MarkedInBetween(s, events, k) {
      var i, j :| 0 <= i < j < |events| && SentAt(s, events, k, i) && ListsKey(s, events, k, j) &&
                  !MarkedWithin(events, k, i + 1, j);
      SentAgain(s, events, k, i, j);
      SentAtLeast(s, events, k, i, j);
    }
    if Sent(s, events, k) >= 2 {
      var i, j := SentTwice(s, events, k);
      SentAgain(s, events, k, i, j);
    }
    if Sent(s, events, k) >= 1 {
      var i := SentOnce(s, events, k);
      LedgerIsWhatWasMarked(s, events, k, 0, i);
      assert Before(s, events, 0) == s;
    }
  }

  /** What the program does, sending and then marking all that was listed, keeps the order. */
  ghost predicate MarksAfterSending(s: Store, events: seq<Event>) {
    forall i :: 0 <= i < |events| - 1 && events[i].Send? ==>
                  && events[i + 1].Mark?
                  && Unnotified(Before(s, events, i), events[i].repo) <= events[i + 1].keys
  }

  lemma MarkingAtOnceSuffices(s: Store, events: seq<Event>, k: Key)
    requires MarksAfterSending(s, events)
    ensures Sent(s, events, k) <= 1
  {
    forall i, j | 0 <= i < j < |events| && SentAt(s, events, k, i) && ListsKey(s, events, k, j)
      ensures MarkedWithin(events, k, i + 1, j)
    {
      assert MarkedAt(events, k, i + 1);
    }
    NotifiedAtMostOnce(s, events, k);
  }

  // ---------- the DAO

  class Dao {
    var advisories: map<Key, Advisory>
    var notified: set<Key>

    constructor ()
      ensures Tables() == Store(map[], {})
    {
      advisories, notified := map[], {};
    }

    function Tables(): Store
      reads this
    {
      Store(advisories, notified)
    }

    /** Upserts in batches within one transaction, then deletes what is not listed. */
    method SyncForRepository(repo: Uuid, repoName: string, inputs: seq<Input>) returns (error: Option<Error>)
      modifies `advisories
      ensures error.None? <==>
                && (forall i :: 0 <= i < |inputs| ==>
                      repoName != "" && inputs[i].advisory != "" && inputs[i].checksum != "")
                && (forall i, j :: 0 <= i < j < |inputs| && i / 100 == j / 100 ==>
                      inputs[i].advisory != inputs[j].advisory || inputs[i].package != inputs[j].package)
      ensures Tables() == if error.None? then Synced(old(Tables()), repo, repoName, inputs) else old(Tables())
    {
      if inputs == [] {
        return None;
      }
      var table := advisories;
      var i := 0;
      while i < |inputs|
        invariant 0 <= i <= |inputs| && (i % BATCH == 0 || i == |inputs|)
        invariant advisories == old(advisories)
        invariant table == Upserted(advisories, repo, repoName, inputs[..i])
        invariant Storable(repo, repoName, inputs[..i])
      {
        var final := if i + BATCH < |inputs| then i + BATCH else |inputs|;
        error := CheckBatch(repo, repoName, inputs, i, final);
        if error.Some? {
          return;
        }
        table := UpsertBatch(advisories, table, repo, repoName, inputs, i, final);
        i := final;
      }
      assert inputs[..|inputs|] == inputs;
      advisories := Kept(table, repo, KeysOf(repo, inputs));
      return None;
    }

    method ListUnnotifiedAdvisories(repo: Uuid) returns (keys: set<Key>)
      ensures forall k :: k in keys <==> k in advisories && k.repo == repo && k !in notified
    {
      keys := Unnotified(Tables(), repo);
    }

    method MarkAsNotified(keys: seq<Key>) returns (error: Option<Error>)
      modifies `notified
      ensures error.None? <==> forall i :: 0 <= i < |keys| ==> keys[i].advisory != ""
      ensures Tables() == if error.None? then Marked(old(Tables()), Elements(keys)) else old(Tables())
    {
      if exists i :: 0 <= i < |keys| && keys[i].advisory == "" {
        return Some(BadValidation);
      }
      var ledger := notified;
      for i := 0 to |keys|
        invariant notified == old(notified)
        invariant ledger == notified + Elements(keys[..i])
      {
        ElementsOfPrefix(keys, i);
        ledger := ledger + {keys[i]};
      }
      assert keys[..|keys|] == keys;
      notified := ledger;
      return None;
    }
  }

  /** A statement is refused for an invalid row, or for touching a row twice. */
  method CheckBatch(repo: Uuid, repoName: string, inputs: seq<Input>, i: int, final: int) returns (error: Option<Error>)
    requires 0 <= i < final <= |inputs| && i % BATCH == 0 && final <= i + BATCH && Storable(repo, repoName, inputs[..i])
    ensures error.None? ==> Storable(repo, repoName, inputs[..final])
    ensures error.Some? ==> !Storable(repo, repoName, inputs)
  {
    if exists j :: i <= j < final && !Acceptable(repoName, inputs[j]) {
      UnacceptableInput(repo, repoName, inputs, i, final);
      return Some(BadValidation);
    }
    if exists j, k :: i <= j < k < final && KeyOf(repo, inputs[j]) == KeyOf(repo, inputs[k]) {
      ClashingBatch(repo, repoName, inputs, i, final);
      return Some(AffectedTwice);
    }
    StorableBatch(repo, repoName, inputs, i, final);
    return None;
  }

  /** One INSERT .. ON CONFLICT DO UPDATE statement over inputs[i..final]. */
  method UpsertBatch(ghost before: map<Key, Advisory>, table: map<Key, Advisory>, repo: Uuid, repoName: string,
      inputs: seq<Input>, i: int, final: int)
    returns (table': map<Key, Advisory>)
    requires 0 <= i <= final <= |inputs| && table == Upserted(before, repo, repoName, inputs[..i])
    ensures table' == Upserted(before, repo, repoName, inputs[..final])
  {
    table' := table;
    for j := i to final
      invariant table' == Upserted(before, repo, repoName, inputs[..j])
    {
      assert inputs[..j + 1][..j] == inputs[..j];
      table' := table'[KeyOf(repo, inputs[j]) := Advisory(repoName, inputs[j])];
    }
  }

  lemma StorableBatch(repo: Uuid, repoName: string, inputs: seq<Input>, i: int, final: int)
    requires 0 <= i < final <= |inputs| && i % BATCH == 0 && final <= i + BATCH && Storable(repo, repoName, inputs[..i])
    requires forall j :: i <= j < final ==> Acceptable(repoName, inputs[j])
    requires forall j, k :: i <= j < k < final ==> KeyOf(repo, inputs[j]) != KeyOf(repo, inputs[k])
    ensures Storable(repo, repoName, inputs[..final])
  {
    forall j, k | 0 <= j < k < final && j / BATCH == k / BATCH
      ensures KeyOf(repo, inputs[j]) != KeyOf(repo, inputs[k])
    {
      if k < i {
        assert inputs[..i][j] == inputs[j] && inputs[..i][k] == inputs[k];
      } else {
        assert j >= i;
      }
    }
    forall j | 0 <= j < i
      ensures Acceptable(repoName, inputs[j])
    {
      assert inputs[..i][j] == inputs[j];
    }
  }

  lemma UnacceptableInput(repo: Uuid, repoName: string, inputs: seq<Input>, i: int, final: int)
    requires 0 <= i <= final <= |inputs| && exists j :: i <= j < final && !Acceptable(repoName, inputs[j])
    ensures !Storable(repo, repoName, inputs)
  {
  }

  lemma ClashingBatch(repo: Uuid, repoName: string, inputs: seq<Input>, i: int, final: int)
    requires 0 <= i < final <= |inputs| && i % BATCH == 0 && final <= i + BATCH
    requires exists j, k :: i <= j < k < final && KeyOf(repo, inputs[j]) == KeyOf(repo, inputs[k])
    ensures !NoClashInBatch(repo, inputs)
  {
    var j, k :| i <= j < k < final && KeyOf(repo, inputs[j]) == KeyOf(repo, inputs[k]);
    assert j / BATCH == i / BATCH == k / BATCH;
  }
}
