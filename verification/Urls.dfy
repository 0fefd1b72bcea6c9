/** URL clean-up as done before a repository row is stored or looked up (pkg/models/repository.go). */
module Urls {

  /** White space as the Go standard library's `unicode.IsSpace` defines it. */
  predicate IsSpace(c: char) {
    var n := c as int;
    || 0x09 <= n <= 0x0d || n == 0x20 || n == 0x85 || n == 0xa0 || n == 0x1680
    || 0x2000 <= n <= 0x200a || n == 0x2028 || n == 0x2029 || n == 0x202f || n == 0x205f || n == 0x3000
  }

  /** The twenty-five characters one by one. */
  lemma SpacesExactly(c: char)
    ensures IsSpace(c) <==>
              || c in {'\t', '\n', '\U{0b}', '\U{0c}', '\r', ' ', '\U{85}', '\U{a0}', '\U{1680}'}
              || c in {'\U{2028}', '\U{2029}'}
              || c in {'\U{202f}', '\U{205f}', '\U{3000}', '\U{2000}', '\U{2001}', '\U{2002}', '\U{2003}', '\U{2004}'}
              || c in {'\U{2005}', '\U{2006}', '\U{2007}', '\U{2008}', '\U{2009}', '\U{200a}'}
  {
    var n := c as int;
    assert n == 0x09 ==> c == '\t';
    assert n == 0x0b ==> c == '\U{0b}';
    assert n == 0x0c ==> c == '\U{0c}';
    assert 0x2000 <= n <= 0x200a ==> c == n as char;
  }

  function TrimLeft(s: string): (r: string)
    ensures r == [] || !IsSpace(r[0])
    ensures s != [] && !IsSpace(s[0]) ==> r == s
    ensures |r| <= |s| && s[|s| - |r|..] == r
  {
    if s != [] && IsSpace(s[0]) then TrimLeft(s[1..]) else s
  }

  function TrimRight(s: string): (r: string)
    ensures r == [] || !IsSpace(r[|r| - 1])
    ensures s != [] && !IsSpace(s[|s| - 1]) ==> r == s
    ensures r <= s
  {
    if s != [] && IsSpace(s[|s| - 1]) then TrimRight(s[..|s| - 1]) else s
  }

  function TrimSpace(s: string): string {
    TrimRight(TrimLeft(s))
  }

  function StripSlashes(s: string): (r: string)
    ensures r == [] || r[|r| - 1] != '/'
    ensures s != [] && s[|s| - 1] != '/' ==> r == s
    ensures r <= s
  {
    if s != [] && s[|s| - 1] == '/' then StripSlashes(s[..|s| - 1]) else s
  }

  function CleanupUrl(url: string): string {
    var stripped := StripSlashes(TrimSpace(url));
    if stripped != [] then stripped + "/" else ""
  }

  predicate HasInternalSpace(url: string) {
    var t := TrimSpace(url);
    exists i :: 0 <= i < |t| && t[i] in {' ', '\t', '\n', '\U{0b}', '\r', '\U{0c}'}
  }

  /** What the stores need to know of URLs: how they are cleaned, and which ones a repository may have. */
  datatype UrlRules = UrlRules(cleanup: string -> string, acceptable: string -> bool)

  /** The rules the program uses; `parses` stands for the standard library's request-URI parser. */
  function ProgramRules(parses: string -> bool): UrlRules {
    UrlRules(CleanupUrl, (url: string) => !HasInternalSpace(url) && parses(url))
  }

  /** Cleaning twice is cleaning once, and there is nothing to clean in nothing. */
  ghost predicate WellBehaved(rules: UrlRules) {
    rules.cleanup("") == "" && forall url :: rules.cleanup(rules.cleanup(url)) == rules.cleanup(url)
  }

  lemma ProgramRulesAreWellBehaved(parses: string -> bool)
    ensures WellBehaved(ProgramRules(parses))
  {
    forall url: string {
      CleanupIsIdempotent(url);
    }
  }

  /** The loop of `CleanupURL`: strip slashes one at a time, then put one back. */
  method Cleanup(url: string) returns (r: string)
    ensures r == CleanupUrl(url)
  {
    r := TrimSpace(url);
    while |r| > 0 && r[|r| - 1] == '/'
      invariant StripSlashes(r) == StripSlashes(TrimSpace(url))
    {
      r := r[..|r| - 1];
    }
    if r != "" {
      r := r + "/";
    }
  }

  lemma StrippedStartsClean(url: string)
    ensures var s := StripSlashes(TrimSpace(url)); s != [] ==> !IsSpace(s[0])
  {
    var left := TrimLeft(url);
    assert StripSlashes(TrimRight(left)) <= TrimRight(left) <= left;
  }

  lemma CleanFormIsFixed(s: string)
    requires s != [] && !IsSpace(s[0]) && s[|s| - 1] != '/'
    ensures CleanupUrl(s + "/") == s + "/"
  {
    var clean := s + "/";
    assert TrimLeft(clean) == clean;
    assert TrimRight(clean) == clean;
    assert StripSlashes(clean) == s by {
      assert clean[..|clean| - 1] == s;
      assert StripSlashes(s) == s;
    }
  }

  ghost predicate AllSpace(s: string) {
    forall i :: 0 <= i < |s| ==> IsSpace(s[i])
  }

  lemma {:induction false} TrimLeftExactly(s: string)
    ensures AllSpace(s[..|s| - |TrimLeft(s)|])
  {
    if s != [] && IsSpace(s[0]) {
      var tail := s[1..];
      TrimLeftExactly(tail);
      var left := tail[..|tail| - |TrimLeft(tail)|];
      assert s[..|s| - |TrimLeft(s)|] == [s[0]] + left;
      SpaceAndSpace([s[0]], left);
    }
  }

  lemma SpaceAndSpace(a: string, b: string)
    requires AllSpace(a) && AllSpace(b)
    ensures AllSpace(a + b)
  {
    forall i | 0 <= i < |a + b|
      ensures IsSpace((a + b)[i])
    {
      assert (a + b)[i] == if i < |a| then a[i] else b[i - |a|];
    }
  }

  lemma {:induction false} TrimRightExactly(s: string)
    ensures AllSpace(s[|TrimRight(s)|..])
  {
    if s != [] && IsSpace(s[|s| - 1]) {
      var front := s[..|s| - 1];
      TrimRightExactly(front);
      var right := front[|TrimRight(front)|..];
      assert s[|TrimRight(s)|..] == right + [s[|s| - 1]];
      SpaceAndSpace(right, [s[|s| - 1]]);
    }
  }

  lemma {:induction false} StripExactly(s: string)
    ensures forall i :: |StripSlashes(s)| <= i < |s| ==> s[i] == '/'
  {
    if s != [] && s[|s| - 1] == '/' {
      StripExactly(s[..|s| - 1]);
    }
  }

  lemma TrimmedEnds(url: string)
    ensures var t := TrimSpace(url); t != "" ==> !IsSpace(t[0]) && !IsSpace(t[|t| - 1])
  {
    assert TrimSpace(url) <= TrimLeft(url);
  }

  lemma Pieces(s: string, t: string, m: string)
    requires |t| <= |s| && s[|s| - |t|..] == t && m <= t
    ensures s == s[..|s| - |t|] + m + t[|m|..]
  {
    assert t == m + t[|m|..];
  }

  lemma TrimExactly(url: string) returns (left: string, right: string)
    ensures url == left + TrimSpace(url) + right && AllSpace(left) && AllSpace(right)
  {
    var t := TrimLeft(url);
    TrimLeftExactly(url);
    TrimRightExactly(t);
    Pieces(url, t, TrimRight(t));
    left, right := url[..|url| - |t|], t[|TrimRight(t)|..];
  }

  /** A text is white space, a core that neither begins with white space nor ends with a slash, slashes,
      and white space; cleaned up it is the core and one slash, or nothing if there is no core. */
  lemma CleanupExactly(url: string) returns (left: string, core: string, slashes: string, right: string)
    ensures url == left + (core + slashes) + right && AllSpace(left) && AllSpace(right)
    ensures core != "" ==> !IsSpace(core[0]) && core[|core| - 1] != '/'
    ensures core + slashes != "" ==> !IsSpace((core + slashes)[|core + slashes| - 1])
    ensures forall i :: 0 <= i < |slashes| ==> slashes[i] == '/'
    ensures CleanupUrl(url) == if core == "" then "" else core + "/"
  {
    left, right := TrimExactly(url);
    TrimmedEnds(url);
    var t := TrimSpace(url);
    StripExactly(t);
    StrippedStartsClean(url);
    core, slashes := StripSlashes(t), t[|StripSlashes(t)|..];
    assert core + slashes == t;
  }

  /** White space anywhere within what is left when it is trimmed makes a URL unacceptable. */
  lemma AcceptableExactly(parses: string -> bool, url: string) returns (left: string, text: string, right: string)
    ensures url == left + text + right && AllSpace(left) && AllSpace(right)
    ensures text != "" ==> !IsSpace(text[0]) && !IsSpace(text[|text| - 1])
    ensures ProgramRules(parses).acceptable(url) <==>
              parses(url) && forall i :: 0 <= i < |text| ==> text[i] !in {' ', '\t', '\n', '\U{0b}', '\r', '\U{0c}'}
  {
    left, right := TrimExactly(url);
    TrimmedEnds(url);
    text := TrimSpace(url);
  }

  /** Cleaning a URL twice is cleaning it once, so a stored URL is found again under itself. */
  lemma CleanupIsIdempotent(url: string)
    ensures CleanupUrl(CleanupUrl(url)) == CleanupUrl(url)
  {
    var s := StripSlashes(TrimSpace(url));
    if s != [] {
      StrippedStartsClean(url);
      CleanFormIsFixed(s);
    }
  }

  /** A lone slash is acceptable wherever it parses, and cleans to nothing. */
  lemma LoneSlashCleansToNothing()
    ensures CleanupUrl("/") == "" && !HasInternalSpace("/")
  {
    assert TrimLeft("/") == "/" && TrimRight("/") == "/";
    assert "/"[..0] == "";
  }
}
