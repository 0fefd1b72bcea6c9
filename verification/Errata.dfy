/** Collecting a template's errata identifiers page by page (pkg/dao/rpms.go). */
module Errata {
  import opened Basics

  /** Code-unit order on strings. */
  predicate Leq(a: string, b: string) {
    a == [] || (b != [] && (a[0] < b[0] || (a[0] == b[0] && Leq(a[1..], b[1..]))))
  }

  predicate Less(a: string, b: string) {
    Leq(a, b) && a != b
  }

  lemma {:induction false} LeqIsTotal(a: string, b: string)
    ensures Leq(a, b) || Leq(b, a)
    ensures Leq(a, b) && Leq(b, a) ==> a == b
  {
    if a != [] && b != [] {
      LeqIsTotal(a[1..], b[1..]);
      assert a == [a[0]] + a[1..] && b == [b[0]] + b[1..];
    }
  }

  lemma {:induction false} LeqIsTransitive(a: string, b: string, c: string)
    requires Leq(a, b) && Leq(b, c)
    ensures Leq(a, c)
  {
    if a != [] {
      if a[0] == b[0] == c[0] {
        LeqIsTransitive(a[1..], b[1..], c[1..]);
      }
    }
  }

  lemma LessIsTransitive(a: string, b: string, c: string)
    requires Less(a, b) && Less(b, c)
    ensures Less(a, c)
  {
    LeqIsTransitive(a, b, c);
    LeqIsTotal(a, b);
  }

  /** The order is the one by code units: a text comes before its extensions, and otherwise the first
      difference decides. */
  lemma {:induction false} LeqExactly(a: string, b: string)
    ensures Leq(a, b) <==> a <= b || exists i :: FirstDifference(a, b, i) && a[i] < b[i]
  {
    if a != [] && b != [] && a[0] == b[0] {
      var a', b' := a[1..], b[1..];
      LeqExactly(a', b');
      assert a <= b <==> a' <= b';
      forall i
        ensures FirstDifference(a', b', i) <==> FirstDifference(a, b, i + 1)
      {
        DifferenceMoves(a, b, i);
      }
      if exists i :: FirstDifference(a, b, i) && a[i] < b[i] {
        var i :| FirstDifference(a, b, i) && a[i] < b[i];
        assert FirstDifference(a', b', i - 1);
      }
    } else if a != [] && b != [] {
      assert FirstDifference(a, b, 0);
      assert forall i :: FirstDifference(a, b, i) ==> i == 0;
    }
  }

  lemma DifferenceMoves(a: string, b: string, i: int)
    requires a != [] && b != [] && a[0] == b[0]
    ensures FirstDifference(a[1..], b[1..], i) <==> FirstDifference(a, b, i + 1)
  {
    if 0 <= i < |a| - 1 && i < |b| - 1 {
      assert a[..i + 1] == [a[0]] + a[1..][..i] && b[..i + 1] == [b[0]] + b[1..][..i];
      assert a[..i + 1] == b[..i + 1] ==> a[1..][..i] == a[..i + 1][1..] == b[..i + 1][1..] == b[1..][..i];
    }
  }

  predicate FirstDifference(a: string, b: string, i: int) {
    0 <= i < |a| && i < |b| && a[..i] == b[..i] && a[i] != b[i]
  }

  ghost predicate StrictlySorted(s: seq<string>) {
    forall i, j :: 0 <= i < j < |s| ==> Less(s[i], s[j])
  }

  function InsertSorted(x: string, s: seq<string>): seq<string> {
    if s == [] || Leq(x, s[0]) then [x] + s else [s[0]] + InsertSorted(x, s[1..])
  }

  function Sorted(s: seq<string>): seq<string> {
    if s == [] then [] else InsertSorted(s[|s| - 1], Sorted(s[..|s| - 1]))
  }

  lemma {:induction false} InsertKeepsSorted(x: string, s: seq<string>)
    requires StrictlySorted(s) && x !in s
    ensures StrictlySorted(InsertSorted(x, s))
    ensures Elements(InsertSorted(x, s)) == Elements(s) + {x}
  {
    if s == [] || Leq(x, s[0]) {
      forall j | 0 <= j < |s|
        ensures Less(x, s[j])
      {
        if j > 0 {
          LessIsTransitive(x, s[0], s[j]);
        }
      }
      assert Elements([x] + s) == {x} + Elements(s);
    } else {
      LeqIsTotal(x, s[0]);
      InsertKeepsSorted(x, s[1..]);
      var rest := InsertSorted(x, s[1..]);
      forall j | 0 <= j < |rest|
        ensures Less(s[0], rest[j])
      {
        assert rest[j] in Elements(rest);
      }
      assert s == [s[0]] + s[1..];
      assert Elements(s) == {s[0]} + Elements(s[1..]);
      assert Elements([s[0]] + rest) == {s[0]} + Elements(rest);
    }
  }

  lemma {:induction false} SortingDistinct(s: seq<string>)
    requires Distinct(s)
    ensures StrictlySorted(Sorted(s)) && Elements(Sorted(s)) == Elements(s)
  {
    if s != [] {
      var front, last := s[..|s| - 1], s[|s| - 1];
      SortingDistinct(front);
      assert last !in Elements(Sorted(front));
      InsertKeepsSorted(last, Sorted(front));
      assert Elements(s) == Elements(front) + {last};
    }
  }

  /** A strictly sorted list is determined by its elements. */
  lemma {:induction false} SortedListsAreUnique(a: seq<string>, b: seq<string>)
    requires StrictlySorted(a) && StrictlySorted(b) && Elements(a) == Elements(b)
    ensures a == b
  {
    assert a != [] ==> a[0] in Elements(a);
    assert b != [] ==> b[0] in Elements(b);
    if a != [] {
      var i :| 0 <= i < |b| && b[i] == a[0];
      var j :| 0 <= j < |a| && a[j] == b[0];
      LeqIsTotal(a[0], b[0]);
      assert a[0] == b[0];
      TailElements(a);
      TailElements(b);
      SortedListsAreUnique(a[1..], b[1..]);
      assert a == [a[0]] + a[1..] && b == [b[0]] + b[1..];
    }
  }

  lemma TailElements(s: seq<string>)
    requires s != [] && StrictlySorted(s)
    ensures Elements(s[1..]) == Elements(s) - {s[0]} && StrictlySorted(s[1..])
  {
    assert forall i :: 1 <= i < |s| ==> s[i] != s[0] && s[1..][i - 1] == s[i];
  }

  /** One page of the underlying list, and its total size. */
  function Page(list: seq<string>, offset: int, limit: int): seq<string>
    requires 0 <= offset && 1 <= limit
  {
    if offset >= |list| then []
    else if offset + limit <= |list| then list[offset..offset + limit]
    else list[offset..]
  }

  /** All identifiers of the underlying list, once each and in order. By the uniqueness of sorted lists
      the result is the same for every page limit. */
  method FetchTemplateErrataIds(list: seq<string>, limit: int) returns (ids: seq<string>)
    requires limit >= 1
    ensures StrictlySorted(ids)
    ensures Elements(ids) == Elements(list)
  {
    var offset := 0;
    var seen: set<string> := {};
    ids := [];
    while true
      invariant 0 <= offset <= |list|
      invariant Distinct(ids) && Elements(ids) == seen == Elements(list[..offset])
      decreases |list| - offset
    {
      var page := Page(list, offset, limit);
      ids, seen := CollectPage(ids, seen, page);
      assert list[..offset + |page|] == list[..offset] + page;
      assert Elements(list[..offset + |page|]) == Elements(list[..offset]) + Elements(page);
      offset := offset + |page|;
      if offset >= |list| || |page| == 0 {
        break;
      }
    }
    assert list[..|list|] == list;
    SortingDistinct(ids);
    ids := Sorted(ids);
  }

  /** Appends the identifiers of a page that were not seen before. */
  method CollectPage(ids: seq<string>, seen: set<string>, page: seq<string>)
    returns (ids': seq<string>, seen': set<string>)
    requires Distinct(ids) && Elements(ids) == seen
    ensures Distinct(ids') && Elements(ids') == seen' == seen + Elements(page)
    ensures ids <= ids'
  {
    ids', seen' := ids, seen;
    for i := 0 to |page|
      invariant Distinct(ids') && Elements(ids') == seen' == seen + Elements(page[..i]) && ids <= ids'
    {
      ElementsOfPrefix(page, i);
      if page[i] !in seen' {
        assert page[i] !in Elements(ids');
        assert Elements(ids' + [page[i]]) == Elements(ids') + {page[i]};
        ids', seen' := ids' + [page[i]], seen' + {page[i]};
      }
    }
    assert page[..|page|] == page;
  }
}
