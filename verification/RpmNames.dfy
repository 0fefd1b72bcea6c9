/** The name part of a package's name-version-release text (pkg/dao/module_streams.go). */
module RpmNames {

  const DASH := '-'

  /** The pieces between dashes; there is one more than there are dashes. */
  function Split(s: string): (parts: seq<string>)
    ensures parts != []
  {
    if s == [] then [""]
    else
      var rest := Split(s[1..]);
      if s[0] == DASH then [""] + rest else [[s[0]] + rest[0]] + rest[1..]
  }

  function Join(parts: seq<string>): string {
    if parts == [] then ""
    else if |parts| == 1 then parts[0]
    else parts[0] + [DASH] + Join(parts[1..])
  }

  function ExtractRpmName(nvrea: string): string {
    var parts := Split(nvrea);
    if |parts| < 3 then nvrea else Join(parts[..|parts| - 2])
  }

  lemma {:induction false} SplitWithoutDash(s: string)
    requires DASH !in s
    ensures Split(s) == [s]
  {
    if s != [] {
      SplitWithoutDash(s[1..]);
      assert s == [s[0]] + s[1..];
    }
  }

  /** How a first character changes the pieces. */
  function Prepended(c: char, parts: seq<string>): seq<string>
    requires parts != []
  {
    if c == DASH then [""] + parts else [[c] + parts[0]] + parts[1..]
  }

  lemma SplitOfCons(c: char, s: string)
    ensures Split([c] + s) == Prepended(c, Split(s))
  {
    assert ([c] + s)[1..] == s;
  }

  lemma PrependedToConcat(c: char, a: seq<string>, b: seq<string>)
    requires a != []
    ensures Prepended(c, a + b) == Prepended(c, a) + b
  {
    assert (a + b)[1..] == a[1..] + b;
  }

  lemma {:induction false} SplitAtDash(a: string, b: string)
    ensures Split(a + [DASH] + b) == Split(a) + Split(b)
  {
    if a == [] {
      assert a + [DASH] + b == [DASH] + b;
      SplitOfCons(DASH, b);
    } else {
      var tail := a[1..];
      assert a == [a[0]] + tail;
      assert a + [DASH] + b == [a[0]] + (tail + [DASH] + b);
      SplitAtDash(tail, b);
      SplitOfCons(a[0], tail + [DASH] + b);
      SplitOfCons(a[0], tail);
      PrependedToConcat(a[0], Split(tail), Split(b));
    }
  }

  lemma JoinOfPrepended(c: char, parts: seq<string>)
    requires parts != []
    ensures Join(Prepended(c, parts)) == [c] + Join(parts)
  {
    var all := Prepended(c, parts);
    if c == DASH {
      assert all[1..] == parts;
    } else if |parts| > 1 {
      assert all[1..] == parts[1..];
      assert all[0] + [DASH] + Join(parts[1..]) == [c] + (parts[0] + [DASH] + Join(parts[1..]));
    }
  }

  lemma {:induction false} JoinUndoesSplit(s: string)
    ensures Join(Split(s)) == s
  {
    if s != [] {
      JoinUndoesSplit(s[1..]);
      assert s == [s[0]] + s[1..];
      SplitOfCons(s[0], s[1..]);
      JoinOfPrepended(s[0], Split(s[1..]));
    }
  }

  lemma {:induction false} PiecesHaveNoDash(s: string)
    ensures forall i :: 0 <= i < |Split(s)| ==> DASH !in Split(s)[i]
  {
    if s != [] {
      PiecesHaveNoDash(s[1..]);
    }
  }

  /** Extraction inverts appending a version and a release that contain no dash, for any name at all. */
  lemma ExtractInvertsBuild(name: string, version: string, release: string)
    requires '-' !in version && '-' !in release
    ensures ExtractRpmName(name + ['-'] + version + ['-'] + release) == name
  {
    var s := name + [DASH] + version + [DASH] + release;
    SplitWithoutDash(version);
    SplitWithoutDash(release);
    SplitAtDash(name + [DASH] + version, release);
    SplitAtDash(name, version);
    assert Split(s) == Split(name) + [version] + [release];
    assert Split(s)[..|Split(s)| - 2] == Split(name);
    JoinUndoesSplit(name);
  }

  lemma {:induction false} OneMoreThanDashes(s: string)
    ensures |Split(s)| == multiset(s)[DASH] + 1
  {
    if s != [] {
      OneMoreThanDashes(s[1..]);
      assert s == [s[0]] + s[1..];
    }
  }

  lemma {:induction false} JoinOfAppend(parts: seq<string>, last: string)
    requires parts != []
    ensures Join(parts + [last]) == Join(parts) + [DASH] + last
  {
    if |parts| > 1 {
      JoinOfAppend(parts[1..], last);
      assert (parts + [last])[1..] == parts[1..] + [last];
    } else {
      assert (parts + [last])[1..] == [last];
    }
  }

  lemma SplitsOff(s: string) returns (version: string, release: string)
    requires |Split(s)| >= 3
    ensures DASH !in version && DASH !in release && s == ExtractRpmName(s) + [DASH] + version + [DASH] + release
  {
    var parts := Split(s);
    var n := |parts|;
    version, release := parts[n - 2], parts[n - 1];
    PiecesHaveNoDash(s);
    JoinUndoesSplit(s);
    JoinOfAppend(parts[..n - 2], version);
    JoinOfAppend(parts[..n - 1], release);
    assert parts[..n - 2] + [version] == parts[..n - 1];
    assert parts[..n - 1] + [release] == parts;
  }

  /** And every text is either left alone, having fewer than two dashes, or is the extracted name with
      a dash-free version and release after it. */
  lemma ExtractSplitsOffVersionAndRelease(s: string) returns (version: string, release: string)
    ensures multiset(s)['-'] < 2 ==> ExtractRpmName(s) == s
    ensures multiset(s)['-'] >= 2 ==>
              '-' !in version && '-' !in release && s == ExtractRpmName(s) + ['-'] + version + ['-'] + release
  {
    version, release := "", "";
    OneMoreThanDashes(s);
    if |Split(s)| >= 3 {
      version, release := SplitsOff(s);
    }
  }
}
