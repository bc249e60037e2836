/** E-mail address constraints of pki/name_constraints.cc (section 4.2.1.10 of RFC 5280). */
module Rfc822Names {
  import opened Strings
  import opened DnsNames

  predicate IsAlphaDigit(c: char) {
    '0' <= c <= '9' || 'a' <= c <= 'z' || 'A' <= c <= 'Z'
  }

  predicate IsAllowedLocalPart(s: string) {
    s != "" && forall c <- s :: IsAlphaDigit(c) || c in "!#$%&'*+-/=?^_`{|}~."
  }

  predicate IsAllowedDomain(s: string) {
    s != "" && forall c <- s :: IsAlphaDigit(c) || c in "-."
  }

  datatype MatchType = Permitted | Excluded

  /** Rfc822NameMatches. A malformed constraint answers whatever forbids the name. */
  predicate Rfc822NameMatches(localPart: string, domain: string, constraint: string,
                              matchType: MatchType, ignoreCase: bool)
  {
    var errorValue := matchType.Excluded?;
    var parts := SplitString(constraint, '@');
    if |parts| != 1 && |parts| != 2 then errorValue
    else
      var constraintLocal := if |parts| == 2 then parts[0] else "";
      var constraintDomain := parts[|parts| - 1];
      if |parts| == 2 && !IsAllowedLocalPart(constraintLocal) then errorValue
      else if !IsAllowedDomain(constraintDomain) then errorValue
      else if constraintLocal != "" then
        && (if ignoreCase then EqualNoCase(localPart, constraintLocal) else localPart == constraintLocal)
        && EqualNoCase(domain, constraintDomain)
      else if constraintDomain[0] == '.' then
        EndsWithNoCase(domain, constraintDomain)
      else
        EqualNoCase(domain, constraintDomain)
  }

  // ---- The meaning of a constraint ----

  /** The constraint names one mailbox. */
  ghost predicate IsMailbox(constraint: string, localPart: string, domain: string) {
    constraint == localPart + "@" + domain && IsAllowedLocalPart(localPart) && IsAllowedDomain(domain)
  }

  /** ".example.com" covers the hosts below example.com, "example.com" that host alone. */
  ghost predicate DomainInScope(domain: string, constraint: string)
    requires constraint != ""
  {
    if constraint[0] == '.' then
      var parent, labels := Pieces(Fold(constraint[1..]), '.'), Pieces(Fold(domain), '.');
      IsSuffix(parent, labels) && |parent| < |labels|
    else
      Fold(domain) == Fold(constraint)
  }

  ghost predicate WellFormed(constraint: string) {
    IsAllowedDomain(constraint) || exists l, d :: IsMailbox(constraint, l, d)
  }

  ghost predicate InScope(localPart: string, domain: string, constraint: string, ignoreCase: bool) {
    if IsAllowedDomain(constraint) then DomainInScope(domain, constraint)
    else
      exists l, d :: IsMailbox(constraint, l, d) && Fold(domain) == Fold(d)
                     && if ignoreCase then Fold(localPart) == Fold(l) else localPart == l
  }

  lemma NoAtSign(s: string)
    requires IsAllowedDomain(s) || IsAllowedLocalPart(s)
    ensures '@' !in s
  {
  }

  lemma SplitMailbox(l: string, d: string)
    requires '@' !in l && '@' !in d
    ensures SplitString(l + "@" + d, '@') == [l, d]
  {
    PiecesAppend(l, '@', d);
    PiecesOfLabel(l, '@');
    PiecesOfLabel(d, '@');
  }

  lemma MailboxOfSplit(constraint: string)
    requires |SplitString(constraint, '@')| == 2
    ensures constraint == SplitString(constraint, '@')[0] + "@" + SplitString(constraint, '@')[1]
  {
    JoinPieces(constraint, '@');
    var parts := Pieces(constraint, '@');
    assert Join(parts[1..], '@') == parts[1];
  }

  lemma DomainMatch(domain: string, constraint: string)
    requires constraint != ""
    ensures (if constraint[0] == '.' then EndsWithNoCase(domain, constraint) else EqualNoCase(domain, constraint))
            <==> DomainInScope(domain, constraint)
  {
    if constraint[0] == '.' {
      EndsWithIsFoldedSuffix(domain, constraint);
      LeadingDot(Fold(domain), Fold(constraint));
      FoldOfSuffix(constraint, 1);
      DotSuffixIsLabelSuffix(Fold(domain), Fold(constraint[1..]));
    }
  }

  lemma DomainConstraint(localPart: string, domain: string, constraint: string, matchType: MatchType, ignoreCase: bool)
    requires IsAllowedDomain(constraint)
    ensures Rfc822NameMatches(localPart, domain, constraint, matchType, ignoreCase) <==> DomainInScope(domain, constraint)
  {
    NoAtSign(constraint);
    PiecesOfLabel(constraint, '@');
    DomainMatch(domain, constraint);
  }

  lemma MailboxConstraint(localPart: string, domain: string, constraint: string, l: string, d: string,
                          matchType: MatchType, ignoreCase: bool)
    requires IsMailbox(constraint, l, d)
    ensures !IsAllowedDomain(constraint)
    ensures Rfc822NameMatches(localPart, domain, constraint, matchType, ignoreCase) <==>
            Fold(domain) == Fold(d) && if ignoreCase then Fold(localPart) == Fold(l) else localPart == l
  {
    NoAtSign(l);
    NoAtSign(d);
    SplitMailbox(l, d);
    assert constraint[|l|] == '@';
    assert '@' in constraint && '@' !in "-.";
  }

  /** The matcher is the constraint's meaning, and a constraint without one always forbids. */
  lemma MatchIsScope(localPart: string, domain: string, constraint: string, matchType: MatchType, ignoreCase: bool)
    ensures Rfc822NameMatches(localPart, domain, constraint, matchType, ignoreCase) <==>
            if WellFormed(constraint) then InScope(localPart, domain, constraint, ignoreCase) else matchType.Excluded?
  {
    if IsAllowedDomain(constraint) {
      DomainConstraint(localPart, domain, constraint, matchType, ignoreCase);
    } else {
      forall l, d | IsMailbox(constraint, l, d)
        ensures Rfc822NameMatches(localPart, domain, constraint, matchType, ignoreCase) <==>
                Fold(domain) == Fold(d) && if ignoreCase then Fold(localPart) == Fold(l) else localPart == l
      {
        MailboxConstraint(localPart, domain, constraint, l, d, matchType, ignoreCase);
      }
      NotAMailbox(localPart, domain, constraint, matchType, ignoreCase);
    }
  }

  lemma NotAMailbox(localPart: string, domain: string, constraint: string, matchType: MatchType, ignoreCase: bool)
    requires !IsAllowedDomain(constraint)
    ensures !WellFormed(constraint) ==>
              (Rfc822NameMatches(localPart, domain, constraint, matchType, ignoreCase) <==> matchType.Excluded?)
  {
    var parts := SplitString(constraint, '@');
    if |parts| == 1 {
      JoinPieces(constraint, '@');
    } else if |parts| == 2 {
      MailboxOfSplit(constraint);
      assert IsAllowedLocalPart(parts[0]) && IsAllowedDomain(parts[1]) ==> IsMailbox(constraint, parts[0], parts[1]);
    }
  }

  // ---- The matcher in strings ----

  /** Digits and letters, by their ASCII codes. */
  ghost predicate IsAlphaDigitCode(k: int) {
    48 <= k <= 57 || 65 <= k <= 90 || 97 <= k <= 122
  }

  ghost predicate IsDomainChar(c: char) {
    IsAlphaDigitCode(c as int) || c as int in {45, 46}
  }

  /** The atext characters of RFC 2822, and the dot. */
  ghost predicate IsLocalChar(c: char) {
    || IsAlphaDigitCode(c as int)
    || c as int in {33, 35, 36, 37, 38, 39, 42, 43, 45, 46, 47, 61, 63, 94, 95, 96, 123, 124, 125, 126}
  }

  lemma DomainCharIs(c: char)
    ensures IsAlphaDigit(c) || c in "-." <==> IsDomainChar(c)
  {
  }

  lemma LocalCharIs(c: char)
    ensures IsAlphaDigit(c) || c in "!#$%&'*+-/=?^_`{|}~." <==> IsLocalChar(c)
  {
  }

  lemma AllowedAre(s: string)
    ensures IsAllowedDomain(s) <==> s != "" && forall c <- s :: IsDomainChar(c)
    ensures IsAllowedLocalPart(s) <==> s != "" && forall c <- s :: IsLocalChar(c)
  {
    forall c | c in s
      ensures IsAlphaDigit(c) || c in "-." <==> IsDomainChar(c)
      ensures IsAlphaDigit(c) || c in "!#$%&'*+-/=?^_`{|}~." <==> IsLocalChar(c)
    {
      DomainCharIs(c);
      LocalCharIs(c);
    }
  }

  ghost predicate CoversMailbox(
    localPart: string, domain: string, constraint: string, ignoreCase: bool, l: string, d: string)
  {
    && constraint == l + "@" + d && IsAllowedLocalPart(l) && IsAllowedDomain(d)
    && SameUpToCase(domain, d) && (if ignoreCase then SameUpToCase(localPart, l) else localPart == l)
  }

  /** A constraint and a mailbox as strings: one host, the hosts below a dot, or one mailbox. */
  ghost predicate Covers(localPart: string, domain: string, constraint: string, ignoreCase: bool) {
    || (IsAllowedDomain(constraint) && constraint[0] != '.' && SameUpToCase(domain, constraint))
    || (IsAllowedDomain(constraint) && constraint[0] == '.' && |constraint| <= |domain|
        && SameUpToCase(domain[|domain| - |constraint|..], constraint))
    || (exists l, d :: CoversMailbox(localPart, domain, constraint, ignoreCase, l, d))
  }

  lemma MatchInStrings(localPart: string, domain: string, constraint: string, matchType: MatchType, ignoreCase: bool)
    ensures Rfc822NameMatches(localPart, domain, constraint, matchType, ignoreCase) <==>
            Covers(localPart, domain, constraint, ignoreCase) || (!WellFormed(constraint) && matchType.Excluded?)
  {
    MatchIsScope(localPart, domain, constraint, matchType, ignoreCase);
    if IsAllowedDomain(constraint) {
      DomainMatch(domain, constraint);
      EqualNoCaseIsSameUpToCase(domain, constraint);
      if |constraint| <= |domain| {
        EqualNoCaseIsSameUpToCase(constraint, domain[|domain| - |constraint|..]);
        SameUpToCaseIsSymmetric(constraint, domain[|domain| - |constraint|..]);
      }
      NoMailboxIsDomain(constraint);
    } else {
      forall d: string
        ensures SameUpToCase(domain, d) <==> Fold(domain) == Fold(d)
      {
        EqualNoCaseIsSameUpToCase(domain, d);
      }
      forall l: string
        ensures SameUpToCase(localPart, l) <==> Fold(localPart) == Fold(l)
      {
        EqualNoCaseIsSameUpToCase(localPart, l);
      }
      MailboxesAgree(localPart, domain, constraint, ignoreCase);
    }
  }

  lemma SameUpToCaseIsSymmetric(a: string, b: string)
    ensures SameUpToCase(a, b) <==> SameUpToCase(b, a)
  {
  }

  lemma NoMailboxIsDomain(constraint: string)
    requires IsAllowedDomain(constraint)
    ensures forall l, d :: constraint != l + "@" + d
  {
    NoAtSign(constraint);
    forall l, d
      ensures constraint != l + "@" + d
    {
      assert (l + "@" + d)[|l|] == '@';
    }
  }

  lemma MailboxesAgree(localPart: string, domain: string, constraint: string, ignoreCase: bool)
    requires !IsAllowedDomain(constraint)
    requires forall d: string :: SameUpToCase(domain, d) <==> Fold(domain) == Fold(d)
    requires forall l: string :: SameUpToCase(localPart, l) <==> Fold(localPart) == Fold(l)
    ensures InScope(localPart, domain, constraint, ignoreCase) <==> Covers(localPart, domain, constraint, ignoreCase)
    ensures InScope(localPart, domain, constraint, ignoreCase) ==> WellFormed(constraint)
  {
    if l, d :| IsMailbox(constraint, l, d) && Fold(domain) == Fold(d)
               && if ignoreCase then Fold(localPart) == Fold(l) else localPart == l {
      assert CoversMailbox(localPart, domain, constraint, ignoreCase, l, d);
    }
    if Covers(localPart, domain, constraint, ignoreCase) {
      var l, d :| CoversMailbox(localPart, domain, constraint, ignoreCase, l, d);
      assert IsMailbox(constraint, l, d);
    }
  }
}
