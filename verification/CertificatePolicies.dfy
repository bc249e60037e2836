/**
 The certificatePolicies extension (section 4.2.1.4 of RFC 5280) as
 pki/certificate_policies.cc reads it: collect the policy OIDs, sort them, reject repetitions. The
 DER layer below is summarised by what each read finds.
 */
module CertificatePolicies {
  import opened Der
  import opened Sorting

  /** kAnyPolicyOid: 2.5.29.32.0. */
  const ANY_POLICY: Input := [0x55, 0x1D, 0x20, 0x00]

  /** id-qt-cps and id-qt-unotice: 1.3.6.1.5.5.7.2.1 and 1.3.6.1.5.5.7.2.2. */
  const CPS_POINTER: Input := [0x2B, 0x06, 0x01, 0x05, 0x05, 0x07, 0x02, 0x01]
  const USER_NOTICE: Input := [0x2B, 0x06, 0x01, 0x05, 0x05, 0x07, 0x02, 0x02]

  /** A PolicyQualifierInfo: its OID, whether a qualifier follows, and whether data follows that. */
  datatype Qualifier = BadQualifier | Qualifier(oid: Input, hasValue: bool, trailingData: bool)

  datatype Qualifiers = NoQualifiers | BadSequence | TrailingData | Listed(qualifiers: seq<Qualifier>)

  datatype PolicyInformation = Malformed | Policy(oid: Input, qualifiers: Qualifiers)

  datatype Extension = NotASequence | ExtraData | Policies(entries: seq<PolicyInformation>)

  datatype Error =
    | EmptySequence | PolicyTrailingData | FailedParsingQualifiers | DuplicateOid(oid: Input)
    | EmptyQualifiers | UnknownQualifierOid(oid: Input) | MissingQualifier | QualifierTrailingData

  predicate IsKnown(oid: Input) {
    oid == CPS_POINTER || oid == USER_NOTICE
  }

  /** A complete qualifier, of a known kind if only those are allowed. */
  predicate IsComplete(q: Qualifier, onlyKnown: bool) {
    q.Qualifier? && q.hasValue && !q.trailingData && (onlyKnown ==> IsKnown(q.oid))
  }

  ghost predicate AllComplete(qualifiers: seq<Qualifier>, onlyKnown: bool) {
    forall i :: 0 <= i < |qualifiers| ==> IsComplete(qualifiers[i], onlyKnown)
  }

  /** ParsePolicyQualifiers. A qualifier OID is reported as unknown only if one of the list really is. */
  method ParsePolicyQualifiers(onlyKnown: bool, qualifiers: seq<Qualifier>) returns (ok: bool, errors: seq<Error>)
    ensures ok <==> qualifiers != [] && AllComplete(qualifiers, onlyKnown)
    ensures ok ==> errors == []
    ensures errors == [EmptyQualifiers] <==> qualifiers == []
    ensures forall e <- errors :: !e.DuplicateOid? && !e.EmptySequence?
    ensures forall e <- errors | e.UnknownQualifierOid? ::
              onlyKnown && !IsKnown(e.oid) && exists q <- qualifiers :: q.Qualifier? && q.oid == e.oid
  {
    errors := [];
    if qualifiers == [] {
      return false, [EmptyQualifiers];
    }
    for i := 0 to |qualifiers|
      invariant AllComplete(qualifiers[..i], onlyKnown)
    {
      var q := qualifiers[i];
      assert !IsComplete(q, onlyKnown) ==> !AllComplete(qualifiers, onlyKnown);
      if q.BadQualifier? {
        return false, errors;
      }
      if onlyKnown && q.oid != CPS_POINTER && q.oid != USER_NOTICE {
        return false, [UnknownQualifierOid(q.oid)];
      }
      if !q.hasValue {
        return false, [MissingQualifier];
      }
      if q.trailingData {
        return false, [QualifierTrailingData];
      }
    }
    assert qualifiers[..|qualifiers|] == qualifiers;
    return true, errors;
  }

  /** An entry that is read without an error. anyPolicy allows only the known qualifiers. */
  ghost predicate IsAcceptable(entry: PolicyInformation, failUnknown: bool) {
    && entry.Policy?
    && (entry.qualifiers.NoQualifiers?
        || (entry.qualifiers.Listed? && entry.qualifiers.qualifiers != []
            && AllComplete(entry.qualifiers.qualifiers, failUnknown || entry.oid == ANY_POLICY)))
  }

  /** Refusing unknown qualifiers everywhere refuses more, but never an entry whose qualifiers are known. */
  lemma StrictAcceptsLess(entry: PolicyInformation)
    ensures IsAcceptable(entry, true) <==>
            && IsAcceptable(entry, false)
            && (entry.qualifiers.Listed? ==>
                  forall q <- entry.qualifiers.qualifiers :: q.Qualifier? ==> IsKnown(q.oid))
  {
    if IsAcceptable(entry, false) && entry.qualifiers.Listed? {
      var qs := entry.qualifiers.qualifiers;
      assert AllComplete(qs, entry.oid == ANY_POLICY);
      assert forall i :: 0 <= i < |qs| ==> qs[i] in qs && qs[i].Qualifier?;
    }
  }

  ghost function OidsOf(entries: seq<PolicyInformation>): seq<Input>
    requires forall i :: 0 <= i < |entries| ==> entries[i].Policy?
  {
    seq(|entries|, i requires 0 <= i < |entries| => entries[i].oid)
  }

  ghost predicate AllAcceptable(entries: seq<PolicyInformation>, failUnknown: bool) {
    forall i :: 0 <= i < |entries| ==> IsAcceptable(entries[i], failUnknown)
  }

  /** The loop body: reads one entry. */
  method ReadEntry(entry: PolicyInformation, failUnknown: bool) returns (ok: bool, errors: seq<Error>)
    ensures ok <==> IsAcceptable(entry, failUnknown)
    ensures forall e <- errors :: !e.DuplicateOid? && !e.EmptySequence?
    ensures FailedParsingQualifiers in errors <==> !ok && entry.Policy? && entry.qualifiers.Listed?
  {
    errors := [];
    if entry.Malformed? {
      return false, errors;
    }
    match entry.qualifiers
    case NoQualifiers => return true, errors;
    case BadSequence => return false, errors;
    case TrailingData => return false, [PolicyTrailingData];
    case Listed(qualifiers) =>
      ok, errors := ParsePolicyQualifiers(failUnknown || entry.oid == ANY_POLICY, qualifiers);
      if !ok {
        errors := errors + [FailedParsingQualifiers];
      }
  }

  /**
   ParseCertificatePoliciesExtensionImpl succeeds exactly when the list is there, not empty, without
   a bad entry and without a repeated OID. It then returns the OIDs in strictly increasing order, and
   it reports a duplicate only for an OID that the extension really repeats.
   */
  method ParseCertificatePolicies(extension: Extension, failUnknown: bool)
    returns (ok: bool, oids: seq<Input>, errors: seq<Error>)
    ensures ok <==>
              && extension.Policies? && extension.entries != []
              && AllAcceptable(extension.entries, failUnknown) && !HasDuplicate(OidsOf(extension.entries))
    ensures ok ==> IsStrictlySorted(oids) && multiset(oids) == multiset(OidsOf(extension.entries))
    ensures ok ==> errors == []
    ensures EmptySequence in errors <==> extension == Policies([])
    ensures forall e <- errors | e.DuplicateOid? ::
              && extension.Policies? && AllAcceptable(extension.entries, failUnknown)
              && multiset(OidsOf(extension.entries))[e.oid] >= 2
    ensures (extension.Policies? && AllAcceptable(extension.entries, failUnknown)
             && HasDuplicate(OidsOf(extension.entries))) ==> exists e <- errors :: e.DuplicateOid?
  {
    oids, errors := [], [];
    if !extension.Policies? {
      return false, oids, errors;
    }
    var entries := extension.entries;
    if entries == [] {
      return false, oids, [EmptySequence];
    }
    for i := 0 to |entries|
      invariant forall j :: 0 <= j < i ==> IsAcceptable(entries[j], failUnknown)
      invariant oids == OidsOf(entries[..i]) && errors == []
    {
      ok, errors := ReadEntry(entries[i], failUnknown);
      if !ok {
        return false, oids, errors;
      }
      errors := [];
      oids := oids + [entries[i].oid];
    }
    assert entries[..|entries|] == entries;
    ghost var read := oids;
    oids := Sort(oids);
    PermutationKeepsDuplicates(oids, read);
    var at := AdjacentFind(oids);
    if at < |oids| {
      TwiceInSorted(oids, at);
      errors := [DuplicateOid(oids[at])];
      assert errors[0].DuplicateOid?;
      return false, oids, errors;
    }
    StrictHasNoDuplicate(oids);
    return true, oids, errors;
  }

  lemma TwiceInSorted(s: seq<Input>, at: nat)
    requires at + 1 < |s| && s[at] == s[at + 1]
    ensures HasDuplicate(s) && multiset(s)[s[at]] >= 2
  {
    assert s == s[..at] + [s[at], s[at + 1]] + s[at + 2..];
    assert multiset(s) == multiset(s[..at]) + multiset{s[at], s[at + 1]} + multiset(s[at + 2..]);
  }

  /** An entry in its fields: no qualifiers, or complete ones, all CPS or user notices where that is asked. */
  lemma AcceptableInFields(oid: Input, qs: seq<Qualifier>, failUnknown: bool)
    ensures !IsAcceptable(Malformed, failUnknown) && IsAcceptable(Policy(oid, NoQualifiers), failUnknown)
    ensures !IsAcceptable(Policy(oid, BadSequence), failUnknown) && !IsAcceptable(Policy(oid, TrailingData), failUnknown)
    ensures IsAcceptable(Policy(oid, Listed(qs)), failUnknown) <==>
            && qs != []
            && (forall i :: 0 <= i < |qs| ==> qs[i].Qualifier? && qs[i].hasValue && !qs[i].trailingData)
            && (failUnknown || oid == [0x55, 0x1D, 0x20, 0x00] ==>
                  forall i :: 0 <= i < |qs| && qs[i].Qualifier? ==>
                    qs[i].oid == [0x2B, 0x06, 0x01, 0x05, 0x05, 0x07, 0x02, 0x01]
                    || qs[i].oid == [0x2B, 0x06, 0x01, 0x05, 0x05, 0x07, 0x02, 0x02])
  {
  }
}
