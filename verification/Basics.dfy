/** Vocabulary shared by every module: optional values, outcomes, row identifiers and a few
    facts about finite sets and duplicate-free lists. */
module Basics {

  datatype Option<+T> = None | Some(value: T)

  datatype Result<+T, +E> = Ok(value: T) | Err(error: E)

  /** Row identifiers. Fresh ones come from an unbounded supply. */
  type Uuid = int

  /** Where a repository's content comes from. */
  datatype Origin = External | RedHat | Upload | Community | Lightwell

  /** The shared organisations have reserved identifiers; every other one is a tenant. */
  datatype Org = RedHatOrg | CommunityOrg | LightwellOrg | LightwellDemoOrg | Tenant(id: string)

  function Elements<T>(s: seq<T>): set<T> {
    set x | x in s
  }

  ghost predicate Distinct<T>(s: seq<T>) {
    forall i, j :: 0 <= i < j < |s| ==> s[i] != s[j]
  }

  /** `s` is one of the orders in which a query without ORDER BY may return the rows `q`. */
  ghost predicate IsListing<T>(q: set<T>, s: seq<T>) {
    Distinct(s) && Elements(s) == q
  }

  lemma ElementsOfPrefix<T>(s: seq<T>, i: int)
    requires 0 <= i < |s|
    ensures Elements(s[..i + 1]) == Elements(s[..i]) + {s[i]}
  {
    assert s[..i + 1] == s[..i] + [s[i]];
  }

  lemma {:induction false} ElementsSize<T>(s: seq<T>)
    ensures |Elements(s)| <= |s|
    ensures |Elements(s)| == |s| <==> Distinct(s)
  {
    if s != [] {
      var front, x := s[..|s| - 1], s[|s| - 1];
      ElementsSize(front);
      assert Elements(s) == Elements(front) + {x};
      if x in front {
        var i :| 0 <= i < |front| && front[i] == x;
        assert s[i] == s[|s| - 1];
      }
    }
  }

  lemma {:induction false} DistinctCount<T>(s: seq<T>, x: T)
    requires Distinct(s)
    ensures multiset(s)[x] == if x in s then 1 else 0
  {
    if s != [] {
      assert s == [s[0]] + s[1..];
      DistinctCount(s[1..], x);
    }
  }

  lemma {:induction false} SubsetSize<T>(a: set<T>, b: set<T>)
    requires a <= b
    ensures |a| <= |b|
    ensures |a| == |b| ==> a == b
  {
    assert b == a + (b - a);
  }

  lemma Member<T>(q: set<T>) returns (x: T)
    requires q != {}
    ensures x in q
  {
    x :| x in q;
  }

  lemma MemberOutside<T>(a: set<T>, b: set<T>) returns (x: T)
    requires !(a <= b)
    ensures x in a && x !in b
  {
    x :| x in a && x !in b;
  }

  /** Every finite set has a listing. */
  lemma {:induction false} ListingExists<T>(q: set<T>) returns (s: seq<T>)
    ensures IsListing(q, s)
    decreases q
  {
    if q == {} {
      s := [];
    } else {
      var x :| x in q;
      var rest := ListingExists(q - {x});
      s := [x] + rest;
      assert Elements(s) == {x} + Elements(rest);
    }
  }
}
