/**
 DNS name constraints (section 4.2.1.10 of RFC 5280) as pki/name_constraints.cc matches them,
 character by character, and as the RFC describes them, label by label.
 */
module DnsNames {
  import opened Strings

  /** Whether "*.bar.com" matches the constraint "foo.bar.com". */
  datatype WildcardMatch = PartialMatch | FullMatch

  function StripDot(s: string): string {
    if s != "" && s[|s| - 1] == '.' then s[..|s| - 1] else s
  }

  predicate StartsWithWildcard(n: string) {
    |n| > 2 && n[0] == '*' && n[1] == '.'
  }

  /** DNSNameMatches: the character-level matcher. */
  predicate DnsNameMatches(name: string, constraint: string, wildcards: WildcardMatch) {
    var n, d := StripDot(name), StripDot(constraint);
    var dot := Find(d, '.');
    if constraint == "" then true
    else if wildcards.PartialMatch? && StartsWithWildcard(n) && dot < |d| && EqualNoCase(n[2..], d[dot + 1..]) then
      true
    else if !EndsWithNoCase(n, d) then false
    else if |n| == |d| then true
    else
      var rest := if d != "" && d[0] == '.' then d[1..] else d;
      |n| > |rest| && n[|n| - |rest| - 1] == '.'
  }

  // ---- The meaning of a constraint, over labels ----

  ghost function Labels(s: string): seq<string> {
    Pieces(Fold(StripDot(s)), '.')
  }

  ghost predicate IsSuffix(xs: seq<string>, ys: seq<string>) {
    |xs| <= |ys| && ys[|ys| - |xs|..] == xs
  }

  /**
   A name is in a constraint's subtree if adding labels on the left of the constraint gives the
   name, ignoring case and one trailing dot on each side. A leading dot asks for at least one label.
   */
  ghost predicate InSubtree(name: string, constraint: string) {
    var d := StripDot(constraint);
    if constraint == "" then true
    else if d != "" && d[0] == '.' then
      var rest := Pieces(Fold(d[1..]), '.');
      IsSuffix(rest, Labels(name)) && |rest| < |Labels(name)|
    else
      IsSuffix(Labels(constraint), Labels(name))
  }

  lemma FoldOfSuffix(n: string, k: nat)
    requires k <= |n|
    ensures Fold(n[k..]) == Fold(n)[k..]
  {
  }

  lemma FoldOfConcat(a: string, b: string)
    ensures Fold(a + b) == Fold(a) + Fold(b)
  {
  }

  /** n ends with "." + d. */
  ghost predicate DotSuffix(n: string, d: string) {
    |d| < |n| && n[|n| - |d|..] == d && n[|n| - |d| - 1] == '.'
  }

  /** The matcher on folded names without trailing dots. */
  ghost predicate FoldedMatch(n: string, d: string) {
    if d != "" && d[0] == '.' then DotSuffix(n, d[1..]) else n == d || DotSuffix(n, d)
  }

  lemma EndsWithIsFoldedSuffix(n: string, d: string)
    ensures EndsWithNoCase(n, d) <==> |d| <= |n| && Fold(n)[|n| - |d|..] == Fold(d)
  {
    if |d| <= |n| {
      FoldOfSuffix(n, |n| - |d|);
    }
  }

  /** A suffix that starts with a dot is a dot followed by a suffix. */
  lemma LeadingDot(n: string, d: string)
    requires d != "" && d[0] == '.'
    ensures |d| <= |n| && n[|n| - |d|..] == d <==> DotSuffix(n, d[1..])
  {
    if |d| <= |n| {
      var tail := n[|n| - |d|..];
      assert tail[1..] == n[|n| - |d[1..]|..];
      assert d == ['.'] + d[1..];
      assert tail == [tail[0]] + tail[1..];
    }
  }

  lemma FullMatchIsFoldedMatch(name: string, constraint: string)
    requires constraint != ""
    ensures DnsNameMatches(name, constraint, FullMatch) <==>
            FoldedMatch(Fold(StripDot(name)), Fold(StripDot(constraint)))
  {
    var n, d := StripDot(name), StripDot(constraint);
    EndsWithIsFoldedSuffix(n, d);
    if d != "" && d[0] == '.' {
      LeadingDot(Fold(n), Fold(d));
    }
  }

  lemma DotSuffixGivesLabelSuffix(n: string, d: string)
    requires DotSuffix(n, d)
    ensures IsSuffix(Pieces(d, '.'), Pieces(n, '.')) && |Pieces(d, '.')| < |Pieces(n, '.')|
  {
    var a := n[..|n| - |d| - 1];
    assert n == a + ['.'] + d;
    PiecesAppend(a, '.', d);
  }

  lemma LabelSuffixGivesDotSuffix(n: string, d: string)
    requires IsSuffix(Pieces(d, '.'), Pieces(n, '.')) && |Pieces(d, '.')| < |Pieces(n, '.')|
    ensures DotSuffix(n, d)
  {
    var dl, nl := Pieces(d, '.'), Pieces(n, '.');
    var xs := nl[..|nl| - |dl|];
    assert nl == xs + dl;
    JoinAppend(xs, dl, '.');
    JoinPieces(n, '.');
    JoinPieces(d, '.');
  }

  /** Ending with "." + d is having the labels of d as a proper suffix. */
  lemma DotSuffixIsLabelSuffix(n: string, d: string)
    ensures DotSuffix(n, d) <==> IsSuffix(Pieces(d, '.'), Pieces(n, '.')) && |Pieces(d, '.')| < |Pieces(n, '.')|
  {
    if DotSuffix(n, d) {
      DotSuffixGivesLabelSuffix(n, d);
    }
    if IsSuffix(Pieces(d, '.'), Pieces(n, '.')) && |Pieces(d, '.')| < |Pieces(n, '.')| {
      LabelSuffixGivesDotSuffix(n, d);
    }
  }

  lemma SameLabelsSameName(n: string, d: string)
    ensures n == d <==> IsSuffix(Pieces(d, '.'), Pieces(n, '.')) && |Pieces(d, '.')| == |Pieces(n, '.')|
  {
    JoinPieces(n, '.');
    JoinPieces(d, '.');
  }

  /** Without the wildcard rule, the character-level matcher is exactly the label-level subtree. */
  lemma FullMatchIsSubtree(name: string, constraint: string)
    ensures DnsNameMatches(name, constraint, FullMatch) <==> InSubtree(name, constraint)
  {
    if constraint != "" {
      FullMatchIsFoldedMatch(name, constraint);
      var n, d := Fold(StripDot(name)), Fold(StripDot(constraint));
      SameLabelsSameName(n, d);
      DotSuffixIsLabelSuffix(n, d);
      if d != "" && d[0] == '.' {
        FoldOfSuffix(StripDot(constraint), 1);
        DotSuffixIsLabelSuffix(n, d[1..]);
      }
    }
  }

  // ---- Wildcard names and their expansions ----

  /** A name "*.d" where d is not empty once one trailing dot is removed. */
  predicate IsWildcard(name: string) {
    StartsWithWildcard(StripDot(name))
  }

  predicate IsLabel(l: string) {
    l != "" && '.' !in l
  }

  /** A label a wildcard can stand for: "*" itself is not one. */
  predicate IsHostLabel(l: string) {
    IsLabel(l) && l != "*"
  }

  /** The name with its "*" replaced by the label l. */
  function Expand(name: string, l: string): string
    requires IsWildcard(name)
  {
    l + name[1..]
  }

  /** The labels of a wildcard name after the "*". */
  ghost function Domain(name: string): seq<string>
    requires IsWildcard(name)
  {
    Pieces(Fold(StripDot(name)[2..]), '.')
  }

  lemma StripExpanded(name: string, l: string)
    requires IsWildcard(name)
    ensures StripDot(Expand(name, l)) == l + ['.'] + StripDot(name)[2..]
  {
  }

  lemma ExpandLabels(name: string, l: string)
    requires IsWildcard(name) && IsLabel(l)
    ensures Labels(Expand(name, l)) == [Fold(l)] + Domain(name)
  {
    var d := StripDot(name)[2..];
    StripExpanded(name, l);
    FoldOfConcat(l + ['.'], d);
    FoldOfConcat(l, ['.']);
    assert Fold(['.']) == ['.'];
    assert '.' !in Fold(l);
    PiecesAfterLabel(Fold(l), '.', Fold(d));
  }

  lemma WildcardIsOwnExpansion(name: string)
    requires IsWildcard(name)
    ensures IsLabel("*") && Expand(name, "*") == name && Labels(name) == ["*"] + Domain(name)
  {
    assert Expand(name, "*") == name;
    assert Fold("*") == "*";
    ExpandLabels(name, "*");
  }

  ghost predicate LeadsWithDot(constraint: string) {
    StripDot(constraint) != "" && StripDot(constraint)[0] == '.'
  }

  /** The constraint already covers the wildcard's domain, whatever stands for "*". */
  ghost predicate CoversDomain(name: string, constraint: string)
    requires IsWildcard(name)
  {
    if constraint == "" then true
    else if LeadsWithDot(constraint) then IsSuffix(Pieces(Fold(StripDot(constraint)[1..]), '.'), Domain(name))
    else IsSuffix(Labels(constraint), Domain(name))
  }

  /** The constraint is one label longer than the domain, and that label is l. */
  ghost predicate NamesChild(name: string, constraint: string, l: string)
    requires IsWildcard(name)
  {
    constraint != "" && !LeadsWithDot(constraint) && Labels(constraint) == [Fold(l)] + Domain(name)
  }

  lemma SuffixOfCons(xs: seq<string>, y: string, ys: seq<string>)
    ensures IsSuffix(xs, [y] + ys) <==> IsSuffix(xs, ys) || xs == [y] + ys
  {
    if |xs| <= |ys| {
      assert ([y] + ys)[1 + |ys| - |xs|..] == ys[|ys| - |xs|..];
    }
  }

  lemma ExpansionInSubtree(name: string, constraint: string, l: string)
    requires IsWildcard(name) && IsLabel(l)
    ensures InSubtree(Expand(name, l), constraint) <==>
            CoversDomain(name, constraint) || NamesChild(name, constraint, l)
  {
    ExpandLabels(name, l);
    SuffixOfCons(Labels(constraint), Fold(l), Domain(name));
    if LeadsWithDot(constraint) {
      SuffixOfCons(Pieces(Fold(StripDot(constraint)[1..]), '.'), Fold(l), Domain(name));
    }
  }

  /** The special case of the partial match: equal after dropping the leftmost label. */
  ghost predicate SameParent(name: string, constraint: string)
    requires IsWildcard(name)
  {
    var n, d := StripDot(name), StripDot(constraint);
    Find(d, '.') < |d| && EqualNoCase(n[2..], d[Find(d, '.') + 1..])
  }

  lemma FoldKeepsDots(d: string)
    ensures Find(Fold(d), '.') == Find(d, '.')
  {
    var k := Find(d, '.');
    assert forall i :: 0 <= i < k ==> d[..k][i] == d[i];
    FindIsFirst(Fold(d), '.', k);
  }

  lemma SameParentIsLabelTail(name: string, constraint: string)
    requires IsWildcard(name)
    ensures SameParent(name, constraint) <==>
            |Labels(constraint)| > 1 && Labels(constraint)[1..] == Domain(name)
  {
    var n, d := StripDot(name), StripDot(constraint);
    var k := Find(d, '.');
    FoldKeepsDots(d);
    if k < |d| {
      FoldOfSuffix(d, k + 1);
      JoinPieces(Fold(n[2..]), '.');
      JoinPieces(Fold(d)[k + 1..], '.');
    }
  }

  lemma SameParentHasChild(name: string, constraint: string) returns (l: string)
    requires IsWildcard(name) && constraint != "" && SameParent(name, constraint)
    ensures IsLabel(l) && (CoversDomain(name, constraint) || NamesChild(name, constraint, l))
  {
    var d := StripDot(constraint);
    var k := Find(d, '.');
    SameParentIsLabelTail(name, constraint);
    FoldKeepsDots(d);
    if k == 0 {
      l := "a";
      FoldOfSuffix(d, 1);
    } else {
      l := d[..k];
      assert Fold(l) == Fold(d)[..k];
      assert Labels(constraint) == [Labels(constraint)[0]] + Labels(constraint)[1..];
    }
  }

  lemma PartialMatchIs(name: string, constraint: string)
    requires IsWildcard(name)
    ensures DnsNameMatches(name, constraint, PartialMatch) <==>
            DnsNameMatches(name, constraint, FullMatch) || SameParent(name, constraint)
  {
  }

  /** The constraint spells out the wildcard name itself, which the code takes for an exact match. */
  predicate SpellsWildcard(name: string, constraint: string) {
    constraint != "" && EqualNoCase(StripDot(name), StripDot(constraint))
  }

  lemma SpellsWildcardIsStarChild(name: string, constraint: string)
    requires IsWildcard(name)
    ensures SpellsWildcard(name, constraint) <==> NamesChild(name, constraint, "*")
  {
    var n, d := StripDot(name), StripDot(constraint);
    WildcardIsOwnExpansion(name);
    JoinPieces(Fold(n), '.');
    JoinPieces(Fold(d), '.');
    assert Fold("*") == "*";
    if SpellsWildcard(name, constraint) {
      assert Fold(n)[0] == Fold(d)[0];
    }
  }

  /** The constraint "*.d" holds none of the hosts under d. */
  lemma SpellingCoversNoHost(name: string, constraint: string, l: string)
    requires IsWildcard(name) && IsHostLabel(l)
    ensures SpellsWildcard(name, constraint) ==> !InSubtree(Expand(name, l), constraint)
  {
    ExpansionInSubtree(name, constraint, l);
    SpellsWildcardIsStarChild(name, constraint);
    StarChildIsAlone(name, constraint, l);
  }

  lemma StarChildIsAlone(name: string, constraint: string, l: string)
    requires IsWildcard(name) && IsHostLabel(l)
    ensures NamesChild(name, constraint, "*") ==> !NamesChild(name, constraint, l) && !CoversDomain(name, constraint)
  {
    OnlyStarFoldsToStar(l);
    if NamesChild(name, constraint, "*") {
      assert Labels(constraint)[0] == Fold("*") && |Labels(constraint)| == 1 + |Domain(name)|;
      assert ([Fold(l)] + Domain(name))[0] == Fold(l);
    }
  }

  lemma OnlyStarFoldsToStar(l: string)
    ensures Fold(l) == Fold("*") <==> l == "*"
  {
    if Fold(l) == Fold("*") {
      assert |l| == 1 && Fold(l)[0] == Fold("*")[0] == '*';
      assert l == [l[0]];
    }
  }

  /** Partial matching over labels: the subtree holds the wildcard's domain, or a sibling of it. */
  lemma PartialMatchIsReach(name: string, constraint: string)
    requires IsWildcard(name) && constraint != ""
    ensures DnsNameMatches(name, constraint, PartialMatch) <==>
            CoversDomain(name, constraint) || SameParent(name, constraint)
  {
    PartialMatchIs(name, constraint);
    FullMatchIsSubtree(name, constraint);
    WildcardIsOwnExpansion(name);
    ExpansionInSubtree(name, constraint, "*");
    SameParentIsLabelTail(name, constraint);
  }

  lemma ReachHasExpansion(name: string, constraint: string) returns (l: string)
    requires IsWildcard(name) && constraint != ""
    requires CoversDomain(name, constraint) || SameParent(name, constraint)
    ensures IsLabel(l) && InSubtree(Expand(name, l), constraint) && (l == "*" ==> SpellsWildcard(name, constraint))
  {
    if CoversDomain(name, constraint) {
      l := "a";
    } else {
      l := SameParentHasChild(name, constraint);
    }
    ExpansionInSubtree(name, constraint, l);
    SpellsWildcardIsStarChild(name, constraint);
  }

  lemma ExpansionReaches(name: string, constraint: string, l: string)
    requires IsWildcard(name) && constraint != "" && IsLabel(l) && InSubtree(Expand(name, l), constraint)
    ensures CoversDomain(name, constraint) || SameParent(name, constraint)
  {
    ExpansionInSubtree(name, constraint, l);
    SameParentIsLabelTail(name, constraint);
  }

  lemma SpelledWildcardReaches(name: string, constraint: string)
    requires IsWildcard(name) && SpellsWildcard(name, constraint)
    ensures InSubtree(Expand(name, "*"), constraint)
  {
    SpellsWildcardIsStarChild(name, constraint);
    ExpansionInSubtree(name, constraint, "*");
  }

  /**
   A wildcard matches partially exactly when some label puts its expansion in the subtree. With
   the "*" label set aside, one more case remains: the constraint that is that very wildcard.
   */
  lemma PartialMatchIsSomeExpansion(name: string, constraint: string)
    requires IsWildcard(name)
    ensures DnsNameMatches(name, constraint, PartialMatch) <==>
            exists l :: IsLabel(l) && InSubtree(Expand(name, l), constraint)
    ensures DnsNameMatches(name, constraint, PartialMatch) <==>
            (exists l :: IsHostLabel(l) && InSubtree(Expand(name, l), constraint)) || SpellsWildcard(name, constraint)
  {
    if constraint == "" {
      assert IsHostLabel("a") && InSubtree(Expand(name, "a"), constraint);
    } else {
      PartialMatchIsReach(name, constraint);
      if CoversDomain(name, constraint) || SameParent(name, constraint) {
        var l := ReachHasExpansion(name, constraint);
        assert IsHostLabel(l) || l == "*";
      }
      if SpellsWildcard(name, constraint) {
        SpelledWildcardReaches(name, constraint);
        assert IsLabel("*");
      }
      if l :| IsLabel(l) && InSubtree(Expand(name, l), constraint) {
        ExpansionReaches(name, constraint, l);
      }
    }
  }

  lemma SomeExpansionOutside(name: string, constraint: string) returns (l: string)
    requires IsWildcard(name) && !CoversDomain(name, constraint)
    ensures IsHostLabel(l) && !InSubtree(Expand(name, l), constraint)
  {
    l := if NamesChild(name, constraint, "a") then "b" else "a";
    assert Fold("a")[0] == 'a' && Fold("b")[0] == 'b';
    assert Labels(constraint)[0] == Fold("a") ==> Labels(constraint)[0] != Fold("b");
    ExpansionInSubtree(name, constraint, l);
  }

  lemma AllExpansionsIsCovers(name: string, constraint: string)
    requires IsWildcard(name)
    ensures (forall l :: IsLabel(l) ==> InSubtree(Expand(name, l), constraint)) <==> CoversDomain(name, constraint)
    ensures (forall l :: IsHostLabel(l) ==> InSubtree(Expand(name, l), constraint)) <==> CoversDomain(name, constraint)
  {
    if CoversDomain(name, constraint) {
      forall l | IsLabel(l)
        ensures InSubtree(Expand(name, l), constraint)
      {
        ExpansionInSubtree(name, constraint, l);
      }
    } else {
      var l := SomeExpansionOutside(name, constraint);
    }
  }

  /**
   A wildcard matches fully exactly when all its expansions lie in the subtree, or when the
   constraint is that very wildcard; the two never hold together.
   */
  lemma FullMatchIsEveryExpansion(name: string, constraint: string)
    requires IsWildcard(name)
    ensures DnsNameMatches(name, constraint, FullMatch) <==>
            (forall l :: IsHostLabel(l) ==> InSubtree(Expand(name, l), constraint)) || SpellsWildcard(name, constraint)
    ensures (DnsNameMatches(name, constraint, FullMatch) <==>
             forall l :: IsLabel(l) ==> InSubtree(Expand(name, l), constraint))
            <==> !SpellsWildcard(name, constraint)
  {
    FullMatchIsSubtree(name, constraint);
    WildcardIsOwnExpansion(name);
    ExpansionInSubtree(name, constraint, "*");
    SpellsWildcardIsStarChild(name, constraint);
    AllExpansionsIsCovers(name, constraint);
    assert Fold("*") == "*";
  }

  // ---- The matcher in strings: dots, letters and the dot boundary ----

  ghost predicate EndsInDot(s: string) {
    s != "" && s[|s| - 1] == '.'
  }

  /** An absolute name matches like the relative one. */
  lemma NameDotIsIgnored(name: string, constraint: string, wildcards: WildcardMatch)
    requires !EndsInDot(name)
    ensures DnsNameMatches(name + ".", constraint, wildcards) <==> DnsNameMatches(name, constraint, wildcards)
  {
    assert StripDot(name + ".") == name;
  }

  lemma ConstraintDotIsIgnored(name: string, constraint: string, wildcards: WildcardMatch)
    requires constraint != "" && !EndsInDot(constraint)
    ensures DnsNameMatches(name, constraint + ".", wildcards) <==> DnsNameMatches(name, constraint, wildcards)
  {
    assert StripDot(constraint + ".") == constraint;
  }

  lemma FoldDecidesDot(s: string, s': string)
    requires SameUpToCase(s, s')
    ensures Fold(s) == Fold(s') && Fold(StripDot(s)) == Fold(StripDot(s'))
  {
    EqualNoCaseIsSameUpToCase(s, s');
    if s != "" {
      var n := |s| - 1;
      assert SameLetter(s[n], s'[n]);
      EqualNoCaseIsSameUpToCase(s[..n], s'[..n]);
    }
  }

  /** Writing names or constraints in other cases changes no match. */
  lemma CaseIsIgnored(name: string, name': string, constraint: string, constraint': string, wildcards: WildcardMatch)
    requires SameUpToCase(name, name') && SameUpToCase(constraint, constraint')
    ensures DnsNameMatches(name, constraint, wildcards) <==> DnsNameMatches(name', constraint', wildcards)
  {
    if constraint != "" {
      FoldDecidesDot(name, name');
      FoldDecidesDot(constraint, constraint');
      FullMatchIsFoldedMatch(name, constraint);
      FullMatchIsFoldedMatch(name', constraint');
      SiblingRule(name, constraint);
      SiblingRule(name', constraint');
    }
  }

  /** What partial matching adds, over folded names. */
  ghost predicate FoldedSibling(n: string, d: string) {
    && |n| > 2 && n[0] == '*' && n[1] == '.'
    && Find(d, '.') < |d| && n[2..] == d[Find(d, '.') + 1..]
  }

  lemma SiblingRule(name: string, constraint: string)
    requires constraint != ""
    ensures DnsNameMatches(name, constraint, PartialMatch) <==>
            DnsNameMatches(name, constraint, FullMatch)
            || FoldedSibling(Fold(StripDot(name)), Fold(StripDot(constraint)))
  {
    var n, d := StripDot(name), StripDot(constraint);
    FoldKeepsDots(d);
    if |n| > 2 {
      FoldOfSuffix(n, 2);
      assert Fold(n)[0] == Lower(n[0]) && Fold(n)[1] == Lower(n[1]);
    }
    if Find(d, '.') < |d| {
      FoldOfSuffix(d, Find(d, '.') + 1);
    }
  }

  /** Without dots at the ends, a name matches if it is the constraint or ends with a dot and the constraint. */
  lemma FullMatchInStrings(n: string, d: string)
    requires !EndsInDot(n) && !EndsInDot(d) && d != "" && d[0] != '.'
    ensures DnsNameMatches(n, d, FullMatch) <==>
            SameUpToCase(n, d) || exists k: nat :: k < |n| && n[k] == '.' && SameUpToCase(n[k + 1..], d)
    ensures DnsNameMatches(n, "." + d, FullMatch) <==>
            exists k: nat :: k < |n| && n[k] == '.' && SameUpToCase(n[k + 1..], d)
  {
    FullMatchIsFoldedMatch(n, d);
    FullMatchIsFoldedMatch(n, "." + d);
    EqualNoCaseIsSameUpToCase(n, d);
    FoldOfConcat(".", d);
    assert Fold(".") == ".";
    assert Fold("." + d)[1..] == Fold(d);
    assert Fold(d)[0] != '.';
    DotSuffixInStrings(n, d);
  }

  lemma DotSuffixInStrings(n: string, d: string)
    ensures DotSuffix(Fold(n), Fold(d)) <==>
            exists k: nat :: k < |n| && n[k] == '.' && SameUpToCase(n[k + 1..], d)
  {
    var k := |n| - |d| - 1;
    if k >= 0 {
      EqualNoCaseIsSameUpToCase(n[k + 1..], d);
      FoldOfSuffix(n, k + 1);
      assert Fold(n)[k] == Lower(n[k]);
    }
  }

  /** Partial matching adds nothing for a name that does not start with a wildcard label. */
  lemma OnlyWildcardsMatchPartially(name: string, constraint: string)
    requires |name| < 3 || name[0] != '*' || name[1] != '.'
    ensures DnsNameMatches(name, constraint, PartialMatch) <==> DnsNameMatches(name, constraint, FullMatch)
  {
  }

  /** And for one that does, it adds the siblings: "*.d" against "x.d". */
  lemma WildcardMatchesSibling(x: string, d: string)
    requires d != "" && !EndsInDot(d) && '.' !in x
    ensures DnsNameMatches("*." + d, x + "." + d, PartialMatch)
  {
    var name, constraint := "*." + d, x + "." + d;
    assert StripDot(name) == name && StripDot(constraint) == constraint;
    assert constraint[..|x|] == x;
    FindIsFirst(constraint, '.', |x|);
    assert name[2..] == d && constraint[|x| + 1..] == d;
  }

  lemma EmptyConstraintMatchesAll(name: string, wildcards: WildcardMatch)
    ensures DnsNameMatches(name, "", wildcards)
  {
  }
}
