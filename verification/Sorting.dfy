/** Sorted lists of byte strings, as std::sort and std::adjacent_find treat them. */
module Sorting {
  import opened Der
  import opened InputOrder

  ghost predicate AtMost(a: Input, b: Input) {
    !Less(b, a)
  }

  lemma AtMostIsTransitive(a: Input, b: Input, c: Input)
    requires AtMost(a, b) && AtMost(b, c)
    ensures AtMost(a, c)
  {
    LessIsTotal(a, b);
    LessIsTotal(b, c);
    LessIsTotal(a, c);
    if a != b && b != c {
      LessIsTransitive(a, b, c);
    }
  }

  ghost predicate IsSorted(s: seq<Input>) {
    forall i, j :: 0 <= i < j < |s| ==> AtMost(s[i], s[j])
  }

  ghost predicate IsStrictlySorted(s: seq<Input>) {
    forall i, j :: 0 <= i < j < |s| ==> Less(s[i], s[j])
  }

  method Insert(s: seq<Input>, x: Input) returns (r: seq<Input>)
    requires IsSorted(s)
    ensures IsSorted(r) && multiset(r) == multiset(s) + multiset{x}
  {
    var k := 0;
    while k < |s|
      invariant k <= |s| && forall i :: 0 <= i < k ==> AtMost(s[i], x)
    {
      var less := LessThan(x, s[k]);
      if less {
        break;
      }
      k := k + 1;
    }
    assert s == s[..k] + s[k..];
    r := s[..k] + [x] + s[k..];
    forall i | k <= i < |s|
      ensures AtMost(x, s[i])
    {
      LessIsTotal(x, s[k]);
      if k < i {
        AtMostIsTransitive(x, s[k], s[i]);
      }
    }
    InsertedIsSorted(s, x, k);
  }

  lemma InsertedIsSorted(s: seq<Input>, x: Input, k: nat)
    requires IsSorted(s) && k <= |s|
    requires (forall i :: 0 <= i < k ==> AtMost(s[i], x)) && (forall i :: k <= i < |s| ==> AtMost(x, s[i]))
    ensures IsSorted(s[..k] + [x] + s[k..])
  {
    var r := s[..k] + [x] + s[k..];
    forall i, j | 0 <= i < j < |r|
      ensures AtMost(r[i], r[j])
    {
      assert r[i] == if i < k then s[i] else if i == k then x else s[i - 1];
      assert r[j] == if j < k then s[j] else if j == k then x else s[j - 1];
    }
  }

  /** std::sort. */
  method Sort(s: seq<Input>) returns (r: seq<Input>)
    ensures IsSorted(r) && multiset(r) == multiset(s)
  {
    r := [];
    for i := 0 to |s|
      invariant IsSorted(r) && multiset(r) == multiset(s[..i])
    {
      assert s[..i + 1] == s[..i] + [s[i]];
      r := Insert(r, s[i]);
    }
    assert s[..|s|] == s;
  }

  /** std::adjacent_find on a sorted list finds a neighbour pair exactly when the list repeats itself. */
  method AdjacentFind(s: seq<Input>) returns (at: nat)
    requires IsSorted(s)
    ensures at <= |s|
    ensures at < |s| ==> at + 1 < |s| && s[at] == s[at + 1]
    ensures at == |s| ==> IsStrictlySorted(s)
  {
    for i := 0 to |s|
      invariant forall j :: 0 <= j < i && j + 1 < |s| ==> s[j] != s[j + 1]
    {
      if i + 1 < |s| && s[i] == s[i + 1] {
        return i;
      }
    }
    forall i, j | 0 <= i < j < |s|
      ensures Less(s[i], s[j])
    {
      assert AtMost(s[i], s[i + 1]);
      LessIsTotal(s[i], s[i + 1]);
      LessIsTotal(s[i], s[j]);
      if i + 1 < j {
        LessIsTotal(s[i + 1], s[j]);
        if s[i + 1] != s[j] {
          LessIsTransitive(s[i], s[i + 1], s[j]);
        }
      }
    }
    return |s|;
  }

  ghost predicate HasDuplicate<T(!new)>(s: seq<T>) {
    exists i, j :: 0 <= i < j < |s| && s[i] == s[j]
  }

  /** A list repeats an element exactly when some element counts twice. */
  lemma {:induction false} DuplicateIsCount(s: seq<Input>)
    ensures HasDuplicate(s) <==> exists x :: multiset(s)[x] >= 2
  {
    if s != [] {
      var n := |s| - 1;
      DuplicateIsCount(s[..n]);
      assert s == s[..n] + [s[n]];
      if HasDuplicate(s) {
        var i, j :| 0 <= i < j < |s| && s[i] == s[j];
        if j < n {
          assert s[..n][i] == s[..n][j];
          var x :| multiset(s[..n])[x] >= 2;
          assert multiset(s)[x] >= 2;
        } else {
          assert s[..n][i] in multiset(s[..n]);
          assert multiset(s)[s[n]] >= 2;
        }
      }
      if x :| multiset(s)[x] >= 2 {
        if multiset(s[..n])[x] >= 2 {
          var i, j :| 0 <= i < j < n && s[..n][i] == s[..n][j];
          assert s[i] == s[j];
        } else {
          assert x in multiset(s[..n]) && s[n] == x;
          var i :| 0 <= i < n && s[..n][i] == x;
          assert s[i] == s[n];
        }
      }
    }
  }

  lemma PermutationKeepsDuplicates(s: seq<Input>, t: seq<Input>)
    requires multiset(s) == multiset(t)
    ensures HasDuplicate(s) <==> HasDuplicate(t)
  {
    DuplicateIsCount(s);
    DuplicateIsCount(t);
  }

  lemma StrictHasNoDuplicate(s: seq<Input>)
    requires IsStrictlySorted(s)
    ensures !HasDuplicate(s)
  {
    forall i, j | 0 <= i < j < |s|
      ensures s[i] != s[j]
    {
      LessIsTotal(s[i], s[j]);
    }
  }
}
