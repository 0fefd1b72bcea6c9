/** Synchronising a repository's module streams (pkg/dao/module_streams.go). Streams are identified by a
    hash of their fields, which is never blank. */
module ModuleStreamSync {
  import opened Associations
  import opened Basics

  /** The table of streams, by its unique hash. */
  datatype Store = Store(repositories: set<Uuid>, streams: map<string, Uuid>, links: Links, next: Uuid)

  datatype Error = NoSuchRepository | BlankAssociation

  ghost predicate Valid(s: Store) {
    && (forall h :: h in s.streams ==> h != "" && s.streams[h] < s.next)
    && (forall g, h :: g in s.streams && h in s.streams && s.streams[g] == s.streams[h] ==> g == h)
  }

  /** Identifiers of the streams with the given hashes. */
  function Rows(streams: map<string, Uuid>, hashes: set<string>): set<Uuid> {
    set h | h in hashes && h in streams :: streams[h]
  }

  /** The hashes of the streams a repository has. */
  function Content(s: Store, repo: Uuid): set<string> {
    set h | h in s.streams && s.streams[h] in Linked(s.links, repo)
  }

  /** Every listed hash has a row, and rows there were are unchanged. */
  ghost predicate Inserted(streams: map<string, Uuid>, streams': map<string, Uuid>, hashes: seq<string>, next: Uuid) {
    && streams'.Keys == streams.Keys + Elements(hashes)
    && (forall h :: h in streams ==> streams'[h] == streams[h])
    && (forall h :: h in streams' && h !in streams ==> next <= streams'[h])
  }

  function WithStream(s: Store, h: string): Store {
    s.(streams := s.streams[h := s.next], next := s.next + 1)
  }

  lemma StreamAdded(before: map<string, Uuid>, s: Store, hashes: seq<string>, h: string, next: Uuid)
    requires Valid(s) && Inserted(before, s.streams, hashes, next) && next <= s.next && h != "" && h !in s.streams
    ensures Valid(WithStream(s, h)) && Inserted(before, WithStream(s, h).streams, hashes + [h], next)
  {
    assert Elements(hashes + [h]) == Elements(hashes) + {h};
  }

  /** Inserting with ON CONFLICT (hash_value) DO NOTHING. */
  method InsertMissing(s: Store, hashes: seq<string>) returns (s': Store)
    requires Valid(s) && "" !in hashes
    ensures Valid(s') && s'.repositories == s.repositories && s'.links == s.links && s.next <= s'.next
    ensures Inserted(s.streams, s'.streams, hashes, s.next)
  {
    s' := s;
    for i := 0 to |hashes|
      invariant Valid(s') && s'.repositories == s.repositories && s'.links == s.links && s.next <= s'.next
      invariant Inserted(s.streams, s'.streams, hashes[..i], s.next)
    {
      ElementsOfPrefix(hashes, i);
      if hashes[i] !in s'.streams {
        StreamAdded(s.streams, s', hashes[..i], hashes[i], s.next);
        assert hashes[..i + 1] == hashes[..i] + [hashes[i]];
        s' := WithStream(s', hashes[i]);
      }
    }
    assert hashes[..|hashes|] == hashes;
  }

  lemma {:induction false} RowsSize(s: Store, hashes: set<string>)
    requires Valid(s) && hashes <= s.streams.Keys
    ensures |Rows(s.streams, hashes)| == |hashes|
    decreases hashes
  {
    if hashes != {} {
      var h := Member(hashes);
      RowsSize(s, hashes - {h});
      assert Rows(s.streams, hashes) == Rows(s.streams, hashes - {h}) + {s.streams[h]};
    }
  }

  /** First the associations outside `found` are deleted, with NOT IN, which over an empty list is
      unknown for every row and then deletes nothing; then, if all goes well, those in `found` are added. */
  function Pruned(links: Links, repo: Uuid, found: set<Uuid>): Links {
    if found == {} then links else links[repo := Linked(links, repo) * found]
  }

  function LinksAfter(links: Links, repo: Uuid, found: set<Uuid>, ok: bool): Links {
    if found != {} && ok then links[repo := found] else Pruned(links, repo, found)
  }

  /** The associations to insert: one slot per listed stream, filled from the front. */
  method Slots(uuids: seq<Uuid>, size: int) returns (slots: seq<Option<Uuid>>)
    requires |uuids| <= size
    ensures |slots| == size
    ensures forall i :: 0 <= i < size ==> slots[i] == if i < |uuids| then Some(uuids[i]) else None
  {
    var buffer := new Option<Uuid>[size](_ => None);
    for i := 0 to |uuids|
      invariant forall j :: 0 <= j < size ==> buffer[j] == if j < i then Some(uuids[j]) else None
    {
      buffer[i] := Some(uuids[i]);
    }
    slots := buffer[..];
  }

  /** The lookup list starts with as many blank entries as there are streams; no stored hash is blank. */
  method LookUp(s: Store, hashes: seq<string>) returns (found: set<Uuid>)
    requires Valid(s)
    ensures found == Rows(s.streams, Elements(hashes))
  {
    var lookup := seq(|hashes|, _ => "");
    assert forall h :: h in lookup ==> h == "";
    lookup := lookup + hashes;
    found := Rows(s.streams, Elements(lookup));
    assert forall h :: h in s.streams ==> (h in lookup <==> h in hashes);
  }

  /** The tables after the repository has been found, by whether the insertion of associations went through. */
  ghost predicate Attempted(s: Store, s': Store, repo: Uuid, hashes: seq<string>, ok: bool) {
    && Valid(s')
    && s'.repositories == s.repositories
    && Inserted(s.streams, s'.streams, hashes, s.next)
    && s'.links == LinksAfter(s.links, repo, Rows(s'.streams, Elements(hashes)), ok)
  }

  class Dao {
    var tables: Store

    constructor (repositories: set<Uuid>)
      ensures tables == Store(repositories, map[], map[], 0) && Valid(tables)
    {
      tables := Store(repositories, map[], map[], 0);
    }

    /** A slot left blank makes the whole insertion of associations fail, after the unneeded ones have
        been deleted. Slots are left blank exactly when a hash is listed twice. */
    method InsertForRepository(repo: Uuid, hashes: seq<string>) returns (result: Result<int, Error>)
      requires Valid(tables) && "" !in hashes
      modifies this
      ensures result == Err(NoSuchRepository) <==> repo !in old(tables).repositories
      ensures result == Err(NoSuchRepository) ==> tables == old(tables)
      ensures repo in old(tables).repositories ==> Attempted(old(tables), tables, repo, hashes, Distinct(hashes))
      ensures repo in old(tables).repositories ==> (result == Ok(|hashes|) <==> Distinct(hashes))
      ensures repo in old(tables).repositories ==> (result == Err(BlankAssociation) <==> !Distinct(hashes))
    {
      if repo !in tables.repositories {
        return Err(NoSuchRepository);
      }
      var s := InsertMissing(tables, hashes);
      var found := LookUp(s, hashes);
      var uuids := Query(found);
      DistinctIffAllFound(s, hashes, uuids);
      var links, ok := LinkFound(s.links, repo, uuids, |hashes|);
      tables := s.(links := links);
      return if ok then Ok(|hashes|) else Err(BlankAssociation);
    }
  }

  /** Deletes the associations that are not found, fills the slots and inserts them unless one is blank. */
  method LinkFound(links: Links, repo: Uuid, uuids: seq<Uuid>, size: int) returns (links': Links, ok: bool)
    requires |uuids| <= size
    ensures ok <==> |uuids| == size
    ensures links' == LinksAfter(links, repo, Elements(uuids), ok)
  {
    var found := Elements(uuids);
    links' := Pruned(links, repo, found);
    var slots := Slots(uuids, size);
    assert |uuids| < size ==> slots[|uuids|].None?;
    if exists i :: 0 <= i < |slots| && slots[i].None? {
      return links', false;
    }
    var linked, count := Associate(Linked(links', repo), uuids);
    if found != {} {
      MeetThenJoin(Linked(links, repo), found);
      UpdateTwice(links, repo, Linked(links', repo), linked);
      links' := links'[repo := linked];
    }
    return links', true;
  }

  lemma DistinctIffAllFound(s: Store, hashes: seq<string>, uuids: seq<Uuid>)
    requires Valid(s) && Elements(hashes) <= s.streams.Keys && IsListing(Rows(s.streams, Elements(hashes)), uuids)
    ensures |uuids| <= |hashes|
    ensures |uuids| == |hashes| <==> Distinct(hashes)
  {
    RowsSize(s, Elements(hashes));
    ElementsSize(uuids);
    ElementsSize(hashes);
  }

  lemma RowsIdentifyHashes(s: Store, hashes: set<string>, h: string)
    requires Valid(s) && h in s.streams
    ensures s.streams[h] in Rows(s.streams, hashes) <==> h in hashes
  {
  }

  lemma FoundIsEmpty(s: Store, hashes: seq<string>)
    requires Elements(hashes) <= s.streams.Keys
    ensures Rows(s.streams, Elements(hashes)) == {} <==> hashes == []
  {
    if hashes != [] {
      assert hashes[0] in Elements(hashes) && s.streams[hashes[0]] in Rows(s.streams, Elements(hashes));
    }
  }

  /** What the repository has afterwards, for every outcome. */
  lemma ContentAfter(s: Store, s': Store, repo: Uuid, hashes: seq<string>, ok: bool, h: string)
    requires Valid(s) && Attempted(s, s', repo, hashes, ok)
    requires forall u :: u in Linked(s.links, repo) ==> u < s.next
    ensures h in Content(s', repo) <==>
              if hashes == [] then h in Content(s, repo)
              else if ok then h in hashes
              else h in Content(s, repo) && h in hashes
  {
    FoundIsEmpty(s', hashes);
    if h in s'.streams {
      RowsIdentifyHashes(s', Elements(hashes), h);
    }
  }

  /** No other repository's streams change, whatever the outcome. */
  lemma OthersKeepTheirs(s: Store, s': Store, repo: Uuid, hashes: seq<string>, ok: bool, r: Uuid)
    requires Valid(s) && Attempted(s, s', repo, hashes, ok) && r != repo
    requires forall u :: u in Linked(s.links, r) ==> u < s.next
    ensures Content(s', r) == Content(s, r)
  {
    assert Linked(s'.links, r) == Linked(s.links, r);
  }

  /** A list of streams ends up as the repository's content exactly when it is not empty and names no
      hash twice, or the repository happened to have all of it (nothing, for the empty list) already. */
  lemma SyncIsExactIff(s: Store, s': Store, repo: Uuid, hashes: seq<string>)
    requires Valid(s) && Attempted(s, s', repo, hashes, Distinct(hashes))
    requires forall u :: u in Linked(s.links, repo) ==> u < s.next
    ensures Content(s', repo) == Elements(hashes) <==>
              if hashes == [] then Content(s, repo) == {}
              else Distinct(hashes) || Elements(hashes) <= Content(s, repo)
  {
    forall h
      ensures h in Content(s', repo) <==>
                if hashes == [] then h in Content(s, repo)
                else if Distinct(hashes) then h in hashes
                else h in Content(s, repo) && h in hashes
    {
      ContentAfter(s, s', repo, hashes, Distinct(hashes), h);
    }
  }

  /** Two runs that do not end with what was listed: an empty list leaves what there was, and a stream
      listed twice is not associated while what there was is removed. */
  method TwoInexactRuns(repo: Uuid, known: string, listed: string) returns (kept: Store, lost: Store)
    requires known != "" && listed != "" && known != listed
    ensures Content(kept, repo) == {known} && Content(lost, repo) == {}
  {
    kept := SyncTwice(repo, known, []);
    var twice := [listed, listed];
    assert twice[0] == twice[1];
    lost := SyncTwice(repo, known, twice);
  }

  /** Synchronises a single stream into empty tables, and then a list that is empty or names one twice. */
  method SyncTwice(repo: Uuid, known: string, hashes: seq<string>) returns (s: Store)
    requires known != "" && "" !in hashes && known !in hashes && (hashes == [] || !Distinct(hashes))
    ensures Content(s, repo) == if hashes == [] then {known} else {}
  {
    var dao := new Dao({repo});
    ghost var s0 := dao.tables;
    var first := dao.InsertForRepository(repo, [known]);
    ghost var s1 := dao.tables;
    var second := dao.InsertForRepository(repo, hashes);
    s := dao.tables;
    ContentOfTwo(s0, s1, s, repo, known, hashes);
  }

  lemma ContentOfTwo(s0: Store, s1: Store, s: Store, repo: Uuid, known: string, hashes: seq<string>)
    requires Valid(s0) && Valid(s1) && s0.links == map[] && known !in hashes
    requires Attempted(s0, s1, repo, [known], true) && Attempted(s1, s, repo, hashes, Distinct(hashes))
    requires hashes == [] || !Distinct(hashes)
    ensures Content(s, repo) == if hashes == [] then {known} else {}
  {
    FoundIsEmpty(s1, [known]);
    var found := Rows(s1.streams, Elements([known]));
    assert Linked(s1.links, repo) == found && forall u :: u in found ==> u < s1.next;
    forall h
      ensures h in Content(s, repo) <==> h == known && hashes == []
    {
      ContentAfter(s0, s1, repo, [known], true, h);
      ContentAfter(s1, s, repo, hashes, Distinct(hashes), h);
    }
  }
}
