/** The association tables between repositories and their content, and the code that brings one
    repository's associations in line with a list (shared by the content DAOs). */
module Associations {
  import opened Basics

  /** Which repository has which content rows; (repository, row) is the primary key. */
  type Links = map<Uuid, set<Uuid>>

  function Linked(links: Links, repo: Uuid): set<Uuid> {
    if repo in links then links[repo] else {}
  }

  /** Some repository has the row. */
  predicate Used(links: Links, u: Uuid) {
    exists r :: r in links && u in links[r]
  }

  /** A query answers in some order. */
  method Query<T(==)>(q: set<T>) returns (rows: seq<T>)
    ensures IsListing(q, rows)
  {
    rows := [];
    var rest := q;
    while rest != {}
      invariant rest <= q && Elements(rows) == q - rest && Distinct(rows)
      decreases rest
    {
      var u :| u in rest;
      assert u !in Elements(rows);
      assert Elements(rows + [u]) == Elements(rows) + {u};
      rows := rows + [u];
      rest := rest - {u};
    }
  }

  /** The entries of `a` that are not in `b`, in order. */
  function Without<T(==)>(a: seq<T>, b: set<T>): seq<T> {
    if a == [] then []
    else
      var front, last := Without(a[..|a| - 1], b), a[|a| - 1];
      if last in b then front else front + [last]
  }

  method Difference<T(==)>(a: seq<T>, b: seq<T>) returns (diff: seq<T>)
    ensures diff == Without(a, Elements(b))
  {
    var seen: set<T> := {};
    for i := 0 to |b|
      invariant seen == Elements(b[..i])
    {
      seen := seen + {b[i]};
    }
    assert b[..|b|] == b;
    diff := [];
    for i := 0 to |a|
      invariant diff == Without(a[..i], Elements(b))
    {
      assert a[..i + 1][..i] == a[..i];
      if a[i] !in seen {
        diff := diff + [a[i]];
      }
    }
    assert a[..|a|] == a;
  }

  lemma {:induction false} WithoutMembers<T>(a: seq<T>, b: set<T>)
    ensures Elements(Without(a, b)) == Elements(a) - b
  {
    if a != [] {
      var front, last := a[..|a| - 1], a[|a| - 1];
      assert a == front + [last];
      WithoutMembers(front, b);
      assert Elements(Without(front, b) + [last]) == Elements(Without(front, b)) + {last};
    }
  }

  /** Adding associations with ON CONFLICT DO NOTHING; the count is of those that were not there. */
  method Associate<T(==)>(linked: set<T>, uuids: seq<T>) returns (linked': set<T>, count: int)
    ensures linked' == linked + Elements(uuids)
    ensures count == |linked' - linked|
  {
    linked', count := linked, 0;
    ghost var added: set<T> := {};
    for i := 0 to |uuids|
      invariant linked' == linked + Elements(uuids[..i])
      invariant linked' == linked + added && added !! linked && count == |added|
    {
      ElementsOfPrefix(uuids, i);
      if uuids[i] !in linked' {
        linked', count := linked' + {uuids[i]}, count + 1;
        added := added + {uuids[i]};
      }
    }
    assert uuids[..|uuids|] == uuids;
    assert linked' - linked == added;
  }

  lemma MeetThenJoin<T>(a: set<T>, b: set<T>)
    ensures a * b + b == b
  {
  }

  lemma UpdateTwice<K, V>(m: map<K, V>, k: K, v: V, w: V)
    ensures m[k := v][k := w] == m[k := w]
  {
  }

  lemma MeetThenMinus<T>(a: set<T>, b: set<T>)
    ensures a - b * a == a - b
  {
  }

  /** Keeps, of the repository's associations, those in the list. */
  method DeleteUnneeded(links: Links, repo: Uuid, uuids: seq<Uuid>) returns (links': Links)
    ensures links' == links[repo := Linked(links, repo) * Elements(uuids)]
  {
    var linked := Linked(links, repo);
    var existing := Query(linked);
    var unneeded := Difference(existing, uuids);
    WithoutMembers(existing, Elements(uuids));
    links' := links[repo := linked - Elements(unneeded)];
    assert linked - Elements(unneeded) == linked * Elements(uuids);
  }

  /** Makes the listed rows the repository's associations and counts the new ones. */
  method Relink(links: Links, repo: Uuid, uuids: seq<Uuid>) returns (links': Links, count: int)
    ensures links' == links[repo := Elements(uuids)]
    ensures count == |Elements(uuids) - Linked(links, repo)|
  {
    var pruned := DeleteUnneeded(links, repo, uuids);
    var kept := Linked(pruned, repo);
    var linked;
    linked, count := Associate(kept, uuids);
    MeetThenJoin(Linked(links, repo), Elements(uuids));
    MeetThenMinus(Elements(uuids), Linked(links, repo));
    UpdateTwice(links, repo, kept, linked);
    links' := pruned[repo := linked];
  }
}
