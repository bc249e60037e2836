/**
 CRL processing of pki/crl.cc (section 6.3.3 of RFC 5280), from parsed structures on. Name
 normalisation, signature checks and the inner parsers are taken from outside.
 */
module Crl {
  import opened Wrappers
  import opened Der
  import opened DerTimes
  import opened InputOrder
  import opened Revocation
  import opened Sorting

  datatype Status = Good | Revoked | Unknown

  datatype CrlVersion = V1 | V2

  // ---- The list of revoked certificates ----

  datatype CrlEntry = MalformedEntry | Entry(serial: Input, extensions: ExtensionField, trailingData: bool)

  datatype RevokedList = Absent | NotASequence | Listed(entries: seq<CrlEntry>, trailingData: bool)

  predicate HasCritical(byOid: map<Input, Extension>) {
    exists oid <- byOid :: byOid[oid].critical
  }

  /** An entry that does not stop the CRL from being used. */
  ghost predicate IsReadable(version: CrlVersion, entry: CrlEntry) {
    && entry.Entry? && !entry.trailingData
    && match entry.extensions
       case NoExtensions => true
       case MalformedExtensions => false
       case Extensions(byOid) => version.V2? && !HasCritical(byOid)
  }

  ghost predicate AllReadable(version: CrlVersion, entries: seq<CrlEntry>) {
    forall e <- entries :: IsReadable(version, e)
  }

  ghost predicate Lists(entries: seq<CrlEntry>, serial: Input) {
    exists e <- entries :: e.Entry? && e.serial == serial
  }

  /** What the list says about a serial number. */
  ghost function ListStatus(serial: Input, version: CrlVersion, revoked: RevokedList): Status {
    match revoked
    case Absent => Good
    case NotASequence => Unknown
    case Listed(entries, trailingData) =>
      if entries == [] || trailingData || !AllReadable(version, entries) then Unknown
      else if Lists(entries, serial) then Revoked
      else Good
  }

  /** GetCRLStatusForCert. A match is not final: a later bad entry still makes the CRL unusable. */
  method GetCrlStatusForCert(serial: Input, version: CrlVersion, revoked: RevokedList) returns (status: Status)
    ensures status == ListStatus(serial, version, revoked)
    ensures status == Revoked ==> revoked.Listed? && exists e <- revoked.entries :: e.Entry? && e.serial == serial
    ensures status == Good && revoked.Listed? ==> forall e <- revoked.entries :: e.Entry? && e.serial != serial
    ensures revoked.Absent? ==> status == Good
  {
    if revoked.Absent? {
      return Good;
    }
    if revoked.NotASequence? {
      return Unknown;
    }
    var entries := revoked.entries;
    if entries == [] {
      return Unknown;
    }
    if revoked.trailingData {
      return Unknown;
    }
    var foundMatchingSerial := false;
    for i := 0 to |entries|
      invariant AllReadable(version, entries[..i])
      invariant foundMatchingSerial <==> Lists(entries[..i], serial)
    {
      var entry := entries[i];
      assert !IsReadable(version, entry) ==> !AllReadable(version, entries);
      if entry.MalformedEntry? {
        return Unknown;
      }
      if !entry.extensions.NoExtensions? {
        if version != V2 {
          return Unknown;
        }
        if entry.extensions.MalformedExtensions? {
          return Unknown;
        }
        if HasCritical(entry.extensions.byOid) {
          return Unknown;
        }
      }
      if entry.trailingData {
        return Unknown;
      }
      if entry.serial == serial {
        foundMatchingSerial := true;
      }
      assert entries[..i + 1] == entries[..i] + [entry];
    }
    assert entries[..|entries|] == entries;
    return if foundMatchingSerial then Revoked else Good;
  }

  /** The order of the entries does not matter. */
  lemma OrderDoesNotMatter(serial: Input, version: CrlVersion, entries: seq<CrlEntry>, entries': seq<CrlEntry>, trailing: bool)
    requires multiset(entries) == multiset(entries')
    ensures ListStatus(serial, version, Listed(entries, trailing)) == ListStatus(serial, version, Listed(entries', trailing))
  {
    SameMembers(entries, entries');
  }

  /** An entry is readable if it parses to its end and its extensions, allowed only in v2, are not critical. */
  lemma ReadableInFields(version: CrlVersion, serial: Input, extensions: ExtensionField, trailing: bool)
    ensures !IsReadable(version, MalformedEntry)
    ensures IsReadable(version, Entry(serial, extensions, trailing)) <==>
            && !trailing && !extensions.MalformedExtensions?
            && (extensions.Extensions? ==>
                  version == V2 && forall oid <- extensions.byOid :: !extensions.byOid[oid].critical)
  {
  }

  /** The answer from the list, entry by entry. */
  lemma ListStatusInFields(serial: Input, version: CrlVersion, revoked: RevokedList)
    ensures ListStatus(serial, version, revoked) == Revoked <==>
            && revoked.Listed? && !revoked.trailingData && (forall e <- revoked.entries :: IsReadable(version, e))
            && exists e <- revoked.entries :: e.Entry? && e.serial == serial
    ensures ListStatus(serial, version, revoked) == Good <==>
            || revoked.Absent?
            || (revoked.Listed? && revoked.entries != [] && !revoked.trailingData
                && forall e <- revoked.entries :: IsReadable(version, e) && e.serial != serial)
  {
  }

  // ---- Names in common ----

  /** ContainsExactMatchingName: sort both lists and intersect them in one pass. */
  method ContainsExactMatchingName(a: seq<Input>, b: seq<Input>) returns (found: bool)
    ensures found <==> exists x :: x in a && x in b
  {
    var s := Sort(a);
    var t := Sort(b);
    assert forall x :: x in a <==> x in multiset(a);
    assert forall x :: x in b <==> x in multiset(b);
    assert forall x :: x in s <==> x in multiset(s);
    assert forall x :: x in t <==> x in multiset(t);
    var namesInCommon := SetIntersection(s, t);
    if namesInCommon != [] {
      assert namesInCommon[0] in namesInCommon;
    }
    return namesInCommon != [];
  }

  /** std::set_intersection of two sorted lists: the elements they share, none missed. */
  method SetIntersection(s: seq<Input>, t: seq<Input>) returns (out: seq<Input>)
    requires IsSorted(s) && IsSorted(t)
    ensures forall x :: x in out <==> x in s && x in t
  {
    var i, j := 0, 0;
    out := [];
    while i < |s| && j < |t|
      invariant i <= |s| && j <= |t|
      invariant forall x <- out :: x in s && x in t
      invariant forall x :: x in s && x in t && x !in out ==> x in s[i..] && x in t[j..]
      decreases |s| - i + |t| - j
    {
      var less := LessThan(s[i], t[j]);
      if less {
        SkipSmaller(s, i, t, j);
        assert s[i..] == [s[i]] + s[i + 1..];
        i := i + 1;
      } else {
        var greater := LessThan(t[j], s[i]);
        if !greater {
          LessIsTotal(s[i], t[j]);
          out := out + [s[i]];
          assert s[i..] == [s[i]] + s[i + 1..];
          i := i + 1;
        } else {
          SkipSmaller(t, j, s, i);
        }
        assert t[j..] == [t[j]] + t[j + 1..];
        j := j + 1;
      }
    }
  }

  /** The head of one list that is below the head of the other is not in the other. */
  lemma SkipSmaller(s: seq<Input>, i: nat, t: seq<Input>, j: nat)
    requires IsSorted(t) && i < |s| && j < |t| && Less(s[i], t[j])
    ensures s[i] !in t[j..]
  {
    forall k | j <= k < |t|
      ensures t[k] != s[i]
    {
      LessIsTotal(s[i], t[j]);
      LessIsTotal(t[j], t[k]);
    }
  }

  // ---- The whole check ----

  datatype CertVersion = CertV1 | CertV2 | CertV3

  /** What CheckCRL looks at in a certificate; `isCa` and `crlSign` belong to optional extensions. */
  datatype Certificate = Certificate(
    normalizedIssuer: Input, normalizedSubject: Input, serial: Input, spki: Input, version: CertVersion,
    isCa: Option<bool>, crlSign: Option<bool>)

  /** The certificate's CRL distribution point; a full name is the URIs it holds. */
  datatype DistributionPoint = DistributionPoint(hasReasons: bool, hasCrlIssuer: bool, fullName: Option<seq<Input>>)

  datatype ContainedCerts = UserCerts | CaCerts | AnyCerts

  /** The issuing distribution point extension: the URIs of its name, if it has one, and its scope. */
  datatype IssuingPoint = IssuingPoint(names: Option<seq<Input>>, contains: ContainedCerts)

  /** A CRL as far as it parses; an algorithm or issuer that is not understood is None. */
  datatype Crl = Crl(
    tbs: Input, signature: Input, signatureAlgorithm: Option<Input>, tbsAlgorithm: Option<Input>,
    version: CrlVersion, normalizedIssuer: Option<Input>, thisUpdate: Time, nextUpdate: Option<Time>,
    extensions: ExtensionField, revoked: RevokedList)

  datatype Env = Env(
    clock: Clock,
    signedBy: (Input, Input, Input, Input) -> bool,
    parseIssuingPoint: Input -> Option<IssuingPoint>)

  /** id-ce-issuingDistributionPoint, 2.5.29.28. */
  const ISSUING_DISTRIBUTION_POINT: Input := [0x55, 0x1D, 0x1C]

  /** The issuing distribution point covers the certificate, reached through this distribution point. */
  ghost predicate Covers(idp: IssuingPoint, dp: DistributionPoint, cert: Certificate) {
    && (idp.names.Some? ==> dp.fullName.Some? && exists x :: x in dp.fullName.value && x in idp.names.value)
    && (idp.contains.UserCerts? ==> cert.isCa != Some(true) && cert.version.CertV3?)
    && (idp.contains.CaCerts? ==> cert.isCa == Some(true))
  }

  /** Every critical extension is understood, and the CRL's scope covers the certificate. */
  ghost predicate InScope(env: Env, field: ExtensionField, dp: DistributionPoint, cert: Certificate) {
    match field
    case NoExtensions => true
    case MalformedExtensions => false
    case Extensions(byOid) =>
      && (forall oid <- byOid :: byOid[oid].critical ==> oid == ISSUING_DISTRIBUTION_POINT)
      && (ISSUING_DISTRIBUTION_POINT in byOid ==>
            var idp := env.parseIssuingPoint(byOid[ISSUING_DISTRIBUTION_POINT].value);
            idp.Some? && Covers(idp.value, dp, cert))
  }

  /** The checks of steps (a) and (b): a current, complete, direct CRL of the certificate's issuer. */
  ghost predicate Applies(env: Env, crl: Crl, dp: DistributionPoint, cert: Certificate) {
    && !dp.hasReasons && !dp.hasCrlIssuer
    && crl.signatureAlgorithm.Some? && crl.tbsAlgorithm == crl.signatureAlgorithm
    && CheckRevocationDateValid(env.clock, crl.thisUpdate, crl.nextUpdate)
    && crl.normalizedIssuer == Some(cert.normalizedIssuer)
    && InScope(env, crl.extensions, dp, cert)
  }

  /** Steps (f) and (g): the certificate names the CRL's issuer, may sign CRLs, and signed this one. */
  ghost predicate IsSigner(env: Env, crl: Crl, issuer: Certificate) {
    && crl.signatureAlgorithm.Some?
    && crl.normalizedIssuer == Some(issuer.normalizedSubject)
    && issuer.crlSign != Some(false)
    && env.signedBy(crl.signatureAlgorithm.value, crl.tbs, crl.signature, issuer.spki)
  }

  /** The answer for a certificate whose issuers are the rest of its validated chain. */
  ghost function Verdict(
    env: Env, raw: Option<Crl>, dp: DistributionPoint, cert: Certificate, issuers: seq<Certificate>): Status
  {
    if raw.Some? && Applies(env, raw.value, dp, cert) && exists c <- issuers :: IsSigner(env, raw.value, c)
    then ListStatus(cert.serial, raw.value.version, raw.value.revoked)
    else Unknown
  }

  /** What the issuing distribution point of a CRL must say to cover a certificate. */
  lemma CoversInFields(names: Option<seq<Input>>, dp: DistributionPoint, cert: Certificate)
    ensures Covers(IssuingPoint(names, AnyCerts), dp, cert) <==>
            names.None? || (dp.fullName.Some? && exists x :: x in dp.fullName.value && x in names.value)
    ensures Covers(IssuingPoint(names, UserCerts), dp, cert) <==>
            && Covers(IssuingPoint(names, AnyCerts), dp, cert)
            && cert.version == CertV3 && (cert.isCa.Some? ==> !cert.isCa.value)
    ensures Covers(IssuingPoint(names, CaCerts), dp, cert) <==>
            Covers(IssuingPoint(names, AnyCerts), dp, cert) && cert.isCa.Some? && cert.isCa.value
  {
  }

  /** Which extensions a CRL may carry: critical, only the issuing distribution point, which must cover. */
  lemma InScopeInFields(env: Env, byOid: map<Input, Extension>, dp: DistributionPoint, cert: Certificate)
    ensures InScope(env, NoExtensions, dp, cert) && !InScope(env, MalformedExtensions, dp, cert)
    ensures var point: Input := [0x55, 0x1D, 0x1C];
            InScope(env, Extensions(byOid), dp, cert) <==>
            && (forall oid <- byOid :: byOid[oid].critical ==> oid == point)
            && (point in byOid ==>
                  var idp := env.parseIssuingPoint(byOid[point].value);
                  idp.Some? && Covers(idp.value, dp, cert))
  {
  }

  /** An answer other than UNKNOWN, in the fields of the CRL and the certificates. */
  lemma AnswerInFields(env: Env, raw: Option<Crl>, dp: DistributionPoint, cert: Certificate, issuers: seq<Certificate>)
    requires Verdict(env, raw, dp, cert, issuers) != Unknown
    ensures raw.Some? && !dp.hasReasons && !dp.hasCrlIssuer
    ensures var crl := raw.value;
            && crl.signatureAlgorithm.Some? && crl.tbsAlgorithm == crl.signatureAlgorithm
            && CheckRevocationDateValid(env.clock, crl.thisUpdate, crl.nextUpdate)
            && crl.normalizedIssuer == Some(cert.normalizedIssuer) && InScope(env, crl.extensions, dp, cert)
            && exists c <- issuers ::
                 && c.normalizedSubject == cert.normalizedIssuer && (c.crlSign.Some? ==> c.crlSign.value)
                 && env.signedBy(crl.signatureAlgorithm.value, crl.tbs, crl.signature, c.spki)
    ensures Verdict(env, raw, dp, cert, issuers) == Revoked ==>
              raw.value.revoked.Listed? && exists e <- raw.value.revoked.entries :: e.Entry? && e.serial == cert.serial
    ensures Verdict(env, raw, dp, cert, issuers) == Good ==>
              raw.value.revoked.Absent? ||
              (raw.value.revoked.Listed? && forall e <- raw.value.revoked.entries :: e.Entry? && e.serial != cert.serial)
  {
    ListStatusInFields(cert.serial, raw.value.version, raw.value.revoked);
  }

  /** And when there is one: a current CRL of the issuer, in scope, signed by a certificate of the issuer. */
  lemma SignedCrlAnswers(env: Env, crl: Crl, dp: DistributionPoint, cert: Certificate, issuers: seq<Certificate>, c: Certificate)
    requires !dp.hasReasons && !dp.hasCrlIssuer && InScope(env, crl.extensions, dp, cert)
    requires crl.signatureAlgorithm.Some? && crl.tbsAlgorithm == crl.signatureAlgorithm
    requires CheckRevocationDateValid(env.clock, crl.thisUpdate, crl.nextUpdate)
    requires crl.normalizedIssuer == Some(cert.normalizedIssuer)
    requires c in issuers && c.normalizedSubject == cert.normalizedIssuer && (c.crlSign.Some? ==> c.crlSign.value)
    requires env.signedBy(crl.signatureAlgorithm.value, crl.tbs, crl.signature, c.spki)
    ensures crl.revoked.Absent? ==> Verdict(env, Some(crl), dp, cert, issuers) == Good
    ensures crl.revoked.Listed? && crl.revoked.entries != [] && !crl.revoked.trailingData
            && (forall e <- crl.revoked.entries :: IsReadable(crl.version, e)) ==>
              Verdict(env, Some(crl), dp, cert, issuers) ==
              if exists e <- crl.revoked.entries :: e.Entry? && e.serial == cert.serial then Revoked else Good
  {
    assert IsSigner(env, crl, c);
    ListStatusInFields(cert.serial, crl.version, crl.revoked);
  }

  /** The extension part of CheckCRL: take out the issuing distribution point, then refuse critical ones. */
  method CheckExtensions(env: Env, field: ExtensionField, dp: DistributionPoint, cert: Certificate) returns (ok: bool)
    ensures ok <==> InScope(env, field, dp, cert)
  {
    if field.NoExtensions? {
      return true;
    }
    if field.MalformedExtensions? {
      return false;
    }
    var extensions := field.byOid;
    if ISSUING_DISTRIBUTION_POINT in extensions {
      var idp := env.parseIssuingPoint(extensions[ISSUING_DISTRIBUTION_POINT].value);
      extensions := extensions - {ISSUING_DISTRIBUTION_POINT};
      if idp.None? {
        return false;
      }
      if idp.value.names.Some? {
        if dp.fullName.None? {
          return false;
        }
        var matching := ContainsExactMatchingName(dp.fullName.value, idp.value.names.value);
        if !matching {
          return false;
        }
      }
      match idp.value.contains {
        case UserCerts =>
          if (cert.isCa.Some? && cert.isCa.value) || cert.version == CertV1 || cert.version == CertV2 {
            return false;
          }
        case CaCerts =>
          if cert.isCa.None? || !cert.isCa.value {
            return false;
          }
        case AnyCerts =>
      }
    }
    CriticalRemainder(field.byOid, extensions);
    return !HasCritical(extensions);
  }

  lemma CriticalRemainder(byOid: map<Input, Extension>, rest: map<Input, Extension>)
    requires rest == byOid - {ISSUING_DISTRIBUTION_POINT}
    ensures HasCritical(rest) <==> exists oid <- byOid :: byOid[oid].critical && oid != ISSUING_DISTRIBUTION_POINT
  {
    assert forall oid :: oid in rest <==> oid in byOid && oid != ISSUING_DISTRIBUTION_POINT;
    if HasCritical(rest) {
      var oid :| oid in rest && rest[oid].critical;
      assert oid in byOid && byOid[oid].critical;
    }
    if oid :| oid in byOid && byOid[oid].critical && oid != ISSUING_DISTRIBUTION_POINT {
      assert oid in rest && rest[oid].critical;
    }
  }

  /** CheckCRL. The chain runs from the leaf to the trust anchor; `raw` is None if the CRL does not parse. */
  method CheckCrl(env: Env, raw: Option<Crl>, chain: seq<Certificate>, target: nat, dp: DistributionPoint)
    returns (status: Status)
    requires target < |chain|
    ensures status == Verdict(env, raw, dp, chain[target], chain[target + 1..])
    ensures status == Revoked ==>
              && raw.Some? && raw.value.revoked.Listed?
              && exists e <- raw.value.revoked.entries :: e.Entry? && e.serial == chain[target].serial
    ensures status == Good && raw.Some? && raw.value.revoked.Listed? ==>
              forall e <- raw.value.revoked.entries :: e.Entry? && e.serial != chain[target].serial
  {
    if dp.hasReasons {
      return Unknown;
    }
    if dp.hasCrlIssuer {
      return Unknown;
    }
    var cert := chain[target];
    if raw.None? {
      return Unknown;
    }
    var crl := raw.value;
    if crl.signatureAlgorithm.None? {
      return Unknown;
    }
    if crl.tbsAlgorithm.None? || crl.signatureAlgorithm.value != crl.tbsAlgorithm.value {
      return Unknown;
    }
    if !CheckRevocationDateValid(env.clock, crl.thisUpdate, crl.nextUpdate) {
      return Unknown;
    }
    if crl.normalizedIssuer.None? {
      return Unknown;
    }
    if crl.normalizedIssuer.value != cert.normalizedIssuer {
      return Unknown;
    }
    var inScope := CheckExtensions(env, crl.extensions, dp, cert);
    if !inScope {
      return Unknown;
    }
    ghost var issuers := chain[target + 1..];
    for i := target + 1 to |chain|
      invariant forall k :: target < k < i ==> !IsSigner(env, crl, chain[k])
    {
      var issuer := chain[i];
      assert issuer == issuers[i - target - 1];
      if crl.normalizedIssuer.value != issuer.normalizedSubject {
        continue;
      }
      if issuer.crlSign.Some? && !issuer.crlSign.value {
        continue;
      }
      if !env.signedBy(crl.signatureAlgorithm.value, crl.tbs, crl.signature, issuer.spki) {
        continue;
      }
      assert IsSigner(env, crl, issuer);
      status := GetCrlStatusForCert(cert.serial, crl.version, crl.revoked);
      return;
    }
    return Unknown;
  }

  /** Certificates below the target change nothing: only its index shifts. */
  lemma PrependingChangesNothing(
    env: Env, raw: Option<Crl>, dp: DistributionPoint, below: seq<Certificate>, chain: seq<Certificate>, target: nat)
    requires target < |chain|
    ensures var longer, shifted := below + chain, |below| + target;
            Verdict(env, raw, dp, longer[shifted], longer[shifted + 1..])
            == Verdict(env, raw, dp, chain[target], chain[target + 1..])
  {
    assert (below + chain)[|below| + target + 1..] == chain[target + 1..];
  }

  /** Nor does the order of the issuers above it, or how often one is repeated. */
  lemma IssuerOrderDoesNotMatter(
    env: Env, raw: Option<Crl>, dp: DistributionPoint, cert: Certificate, issuers: seq<Certificate>, issuers': seq<Certificate>)
    requires forall c :: c in issuers <==> c in issuers'
    ensures Verdict(env, raw, dp, cert, issuers) == Verdict(env, raw, dp, cert, issuers')
  {
    if raw.Some? {
      assert (exists c <- issuers :: IsSigner(env, raw.value, c)) <==> (exists c <- issuers' :: IsSigner(env, raw.value, c));
    }
  }

  /** A longer chain of issuers can turn UNKNOWN into an answer, but never one answer into another. */
  lemma MoreIssuersOnlyDecide(
    env: Env, raw: Option<Crl>, dp: DistributionPoint, cert: Certificate, issuers: seq<Certificate>, more: seq<Certificate>)
    ensures var few := Verdict(env, raw, dp, cert, issuers);
            few == Unknown || Verdict(env, raw, dp, cert, issuers + more) == few
  {
    if raw.Some? {
      if c :| c in issuers && IsSigner(env, raw.value, c) {
        assert c in issuers + more;
      }
    }
  }
}
