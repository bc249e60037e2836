/** The ASCII string helpers of pki/string_util.cc that name matching relies on. */
module Strings {

  /** OPENSSL_tolower: only the letters A to Z change. */
  function Lower(c: char): char {
    if 'A' <= c <= 'Z' then (c as int + 32) as char else c
  }

  function Fold(s: string): (r: string)
    ensures |r| == |s|
  {
    seq(|s|, i requires 0 <= i < |s| => Lower(s[i]))
  }

  predicate EqualNoCase(a: string, b: string) {
    Fold(a) == Fold(b)
  }

  predicate EndsWithNoCase(s: string, suffix: string) {
    |suffix| <= |s| && EqualNoCase(suffix, s[|s| - |suffix|..])
  }

  /** The position of the first `c` in s, or |s| if there is none. */
  function Find(s: string, c: char): (k: nat)
    ensures k <= |s|
    ensures c !in s[..k]
    ensures k < |s| ==> s[k] == c
  {
    if s == "" || s[0] == c then 0
    else
      var k := 1 + Find(s[1..], c);
      assert s[..k] == [s[0]] + s[1..][..k - 1];
      k
  }

  /** All pieces of s between separators; the empty string has one empty piece. */
  function Pieces(s: string, c: char): (r: seq<string>)
    ensures |r| >= 1
    decreases |s|
  {
    var k := Find(s, c);
    if k == |s| then [s] else [s[..k]] + Pieces(s[k + 1..], c)
  }

  /** SplitString of pki/string_util.cc, which splits the empty string into nothing. */
  function SplitString(s: string, c: char): seq<string> {
    if s == "" then [] else Pieces(s, c)
  }

  function Join(pieces: seq<string>, c: char): string
    requires |pieces| >= 1
  {
    if |pieces| == 1 then pieces[0] else pieces[0] + [c] + Join(pieces[1..], c)
  }

  lemma ConcatAssociates<T>(a: seq<T>, b: seq<T>, c: seq<T>)
    ensures (a + b) + c == a + (b + c)
  {
  }

  lemma FindIsFirst(s: string, c: char, k: nat)
    requires k <= |s| && c !in s[..k] && (k < |s| ==> s[k] == c)
    ensures Find(s, c) == k
  {
  }

  lemma JoinCons(first: string, rest: seq<string>, c: char)
    requires |rest| >= 1
    ensures Join([first] + rest, c) == first + [c] + Join(rest, c)
  {
    assert ([first] + rest)[1..] == rest;
  }

  lemma {:induction false} JoinPieces(s: string, c: char)
    ensures Join(Pieces(s, c), c) == s
    decreases |s|
  {
    var k := Find(s, c);
    if k < |s| {
      var first, rest := s[..k], s[k + 1..];
      assert s == first + [c] + rest;
      JoinPieces(rest, c);
      JoinCons(first, Pieces(rest, c), c);
    }
  }

  lemma PiecesAt(s: string, c: char, k: nat)
    requires k < |s| && c !in s[..k] && s[k] == c
    ensures Pieces(s, c) == [s[..k]] + Pieces(s[k + 1..], c)
  {
    FindIsFirst(s, c, k);
  }

  lemma PiecesAfterLabel(a: string, c: char, b: string)
    requires c !in a
    ensures Pieces(a + [c] + b, c) == [a] + Pieces(b, c)
  {
    var s, k := a + [c] + b, |a|;
    assert s[..k] == a && s[k + 1..] == b;
    PiecesAt(s, c, k);
  }

  /** Splitting distributes over a separator, wherever it stands. */
  lemma {:induction false} PiecesAppend(a: string, c: char, b: string)
    ensures Pieces(a + [c] + b, c) == Pieces(a, c) + Pieces(b, c)
    decreases |a|
  {
    var k := Find(a, c);
    if k == |a| {
      assert a[..k] == a;
      PiecesAfterLabel(a, c, b);
    } else {
      var first, rest := a[..k], a[k + 1..];
      assert a == (first + [c]) + rest;
      ConcatAssociates(first + [c], rest, [c]);
      ConcatAssociates(first + [c], rest + [c], b);
      PiecesAfterLabel(first, c, rest + [c] + b);
      PiecesAppend(rest, c, b);
      ConcatAssociates([first], Pieces(rest, c), Pieces(b, c));
    }
  }

  lemma {:induction false} JoinAppend(xs: seq<string>, ys: seq<string>, c: char)
    requires |xs| >= 1 && |ys| >= 1
    ensures Join(xs + ys, c) == Join(xs, c) + [c] + Join(ys, c)
  {
    if |xs| == 1 {
      assert (xs + ys)[1..] == ys;
    } else {
      assert (xs + ys)[1..] == xs[1..] + ys;
      JoinAppend(xs[1..], ys, c);
    }
  }

  /** A string without the separator is its only piece. */
  lemma PiecesOfLabel(s: string, c: char)
    requires c !in s
    ensures Pieces(s, c) == [s]
  {
    assert s[..|s|] == s;
    FindIsFirst(s, c, |s|);
  }

  /** Splitting: nothing for the empty string, else the text up to the first separator and the rest. */
  lemma SplitStringIs(first: string, c: char, rest: string)
    requires c !in first
    ensures SplitString("", c) == []
    ensures first != "" ==> SplitString(first, c) == [first]
    ensures SplitString(first + [c] + rest, c) == [first] + if rest == "" then [""] else SplitString(rest, c)
  {
    PiecesOfLabel(first, c);
    PiecesAfterLabel(first, c, rest);
    PiecesOfLabel("", c);
  }

  // ---- Case, letter by letter ----

  /** The same character, or the two cases of one of the letters A to Z. */
  ghost predicate SameLetter(x: char, y: char) {
    || x == y
    || ('A' <= x <= 'Z' && y as int - 'a' as int == x as int - 'A' as int)
    || ('A' <= y <= 'Z' && x as int - 'a' as int == y as int - 'A' as int)
  }

  ghost predicate SameUpToCase(a: string, b: string) {
    |a| == |b| && forall i :: 0 <= i < |a| ==> SameLetter(a[i], b[i])
  }

  lemma LowerIsSameLetter(x: char, y: char)
    ensures Lower(x) == Lower(y) <==> SameLetter(x, y)
  {
  }

  lemma EqualNoCaseIsSameUpToCase(a: string, b: string)
    ensures EqualNoCase(a, b) <==> SameUpToCase(a, b)
  {
    forall i | 0 <= i < |a| && i < |b|
      ensures Fold(a)[i] == Fold(b)[i] <==> SameLetter(a[i], b[i])
    {
      LowerIsSameLetter(a[i], b[i]);
    }
    if SameUpToCase(a, b) {
      assert Fold(a) == Fold(b);
    }
    if EqualNoCase(a, b) {
      assert |a| == |b|;
      assert forall i :: 0 <= i < |a| ==> Fold(a)[i] == Fold(b)[i];
    }
  }
}
