/** Cutting a text that holds several armoured GPG keys into one text per key
    (pkg/dao/repository_configs.go). */
module GpgKeys {
  import opened Basics

  const END_GPG_KEY := "-----END PGP PUBLIC KEY BLOCK-----"

  datatype Error = NilKey | NoKeyFound

  predicate OccursAt(s: string, m: string, i: int) {
    0 <= i && i + |m| <= |s| && s[i..i + |m|] == m
  }

  ghost predicate Occurs(s: string, m: string) {
    exists i :: OccursAt(s, m, i)
  }

  /** A piece holds the marker once, at its end. */
  ghost predicate EndsWithOnly(piece: string, m: string) {
    |m| <= |piece| && forall i :: OccursAt(piece, m, i) <==> i == |piece| - |m|
  }

  function Concat(pieces: seq<string>): string {
    if pieces == [] then "" else Concat(pieces[..|pieces| - 1]) + pieces[|pieces| - 1]
  }

  /** The pieces of a text and what is left after the last marker. */
  ghost predicate Cuts(s: string, m: string, pieces: seq<string>, rest: string) {
    && s == Concat(pieces) + rest
    && (forall i :: 0 <= i < |pieces| ==> EndsWithOnly(pieces[i], m))
    && !Occurs(rest, m)
  }

  method Index(s: string, m: string) returns (i: int)
    ensures i == -1 ==> !Occurs(s, m)
    ensures i != -1 ==> OccursAt(s, m, i) && forall j :: 0 <= j < i ==> !OccursAt(s, m, j)
  {
    i := 0;
    while i + |m| <= |s|
      invariant 0 <= i && forall j :: 0 <= j < i ==> !OccursAt(s, m, j)
      decreases |s| - i
    {
      if s[i..i + |m|] == m {
        return;
      }
      i := i + 1;
    }
    i := -1;
  }

  /** The text up to the end of the first marker is a piece. */
  lemma FirstPiece(s: string, m: string, i: int)
    requires OccursAt(s, m, i) && forall j :: 0 <= j < i ==> !OccursAt(s, m, j)
    ensures EndsWithOnly(s[..i + |m|], m)
  {
    var piece := s[..i + |m|];
    forall j
      ensures OccursAt(piece, m, j) <==> j == |piece| - |m|
    {
      if 0 <= j && j + |m| <= |piece| {
        assert piece[j..j + |m|] == s[j..j + |m|];
        assert OccursAt(piece, m, j) <==> OccursAt(s, m, j);
      }
    }
  }

  /** The loop: as long as the marker occurs, cut after its first occurrence. */
  method CutAtMarkers(text: string, m: string) returns (keys: seq<string>, rest: string)
    requires m != ""
    ensures Cuts(text, m, keys, rest)
    ensures keys == [] <==> !Occurs(text, m)
  {
    keys, rest := [], text;
    while true
      invariant text == Concat(keys) + rest
      invariant forall i :: 0 <= i < |keys| ==> EndsWithOnly(keys[i], m)
      invariant keys == [] ==> rest == text
      invariant keys != [] ==> Occurs(text, m)
      decreases |rest|
    {
      var val := Index(rest, m);
      if val == -1 {
        break;
      }
      FirstPiece(rest, m, val);
      var key, tail := rest[..val + |m|], rest[val + |m|..];
      assert (keys + [key])[..|keys|] == keys;
      assert rest == key + tail;
      keys, rest := keys + [key], tail;
    }
  }

  /** Consecutive pieces that each hold the end marker once, at their end, with no marker left over. */
  method ReadGpgKeys(text: Option<string>) returns (result: Result<seq<string>, Error>, rest: string)
    ensures text.None? <==> result == Err(NilKey)
    ensures text.Some? ==>
              (result == Err(NoKeyFound) <==> !Occurs(text.value, "-----END PGP PUBLIC KEY BLOCK-----"))
    ensures result.Ok? ==> text.Some? && result.value != [] && Cuts(text.value, END_GPG_KEY, result.value, rest)
  {
    if text.None? {
      return Err(NilKey), "";
    }
    var keys;
    keys, rest := CutAtMarkers(text.value, END_GPG_KEY);
    result := if |keys| == 0 then Err(NoKeyFound) else Ok(keys);
  }

  lemma {:induction false} ConcatFromFront(pieces: seq<string>)
    requires pieces != []
    ensures Concat(pieces) == pieces[0] + Concat(pieces[1..])
  {
    var last := |pieces| - 1;
    if last > 0 {
      ConcatFromFront(pieces[..last]);
      assert pieces[..last][1..] == pieces[1..][..last - 1];
    }
  }

  /** A text that starts with a piece has its first marker at the end of that piece. */
  lemma FirstMarker(piece: string, tail: string, m: string)
    requires EndsWithOnly(piece, m)
    ensures OccursAt(piece + tail, m, |piece| - |m|)
    ensures forall j :: 0 <= j < |piece| - |m| ==> !OccursAt(piece + tail, m, j)
  {
    var s, end := piece + tail, |piece| - |m|;
    assert OccursAt(piece, m, end);
    assert s[end..end + |m|] == piece[end..end + |m|];
    forall j | 0 <= j < end
      ensures !OccursAt(s, m, j)
    {
      assert s[j..j + |m|] == piece[j..j + |m|];
      assert !OccursAt(piece, m, j);
    }
  }

  lemma CutsFromFront(s: string, m: string, pieces: seq<string>, rest: string) returns (tail: string)
    requires Cuts(s, m, pieces, rest) && pieces != []
    ensures s == pieces[0] + tail && Cuts(tail, m, pieces[1..], rest)
    ensures OccursAt(s, m, |pieces[0]| - |m|) && forall j :: 0 <= j < |pieces[0]| - |m| ==> !OccursAt(s, m, j)
  {
    tail := Concat(pieces[1..]) + rest;
    assert s == pieces[0] + tail by {
      ConcatFromFront(pieces);
    }
    FirstMarker(pieces[0], tail, m);
  }

  /** There is only one way to cut a text, so the loop returns the keys and nothing else. */
  lemma {:induction false} CutsAreUnique(s: string, m: string, a: seq<string>, x: string, b: seq<string>, y: string)
    requires Cuts(s, m, a, x) && Cuts(s, m, b, y)
    ensures a == b && x == y
    decreases |a|
  {
    assert a == [] ==> s == x;
    assert b == [] ==> s == y;
    if a != [] {
      var tail := CutsFromFront(s, m, a, x);
      if b != [] {
        var tail' := CutsFromFront(s, m, b, y);
        assert |a[0]| == |b[0]|;
        assert a[0] == s[..|a[0]|] == b[0] && tail == s[|a[0]|..] == tail';
        CutsAreUnique(tail, m, a[1..], x, b[1..], y);
        assert a == [a[0]] + a[1..] && b == [b[0]] + b[1..];
      }
    } else if b != [] {
      var tail := CutsFromFront(s, m, b, y);
    }
  }
}
