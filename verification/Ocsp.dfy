/**
 OCSP response checking of pki/ocsp.cc (RFC 6960), from parsed structures on. Hashing, signature
 checks, name comparison and certificate parsing are taken from outside, through `Crypto`.
 */
module Ocsp {
  import opened Wrappers
  import opened Der
  import opened DerTimes
  import opened Revocation

  datatype Status = Good | Revoked | Unknown

  /** OCSPVerifyResult::ResponseStatus. */
  datatype Details =
    | NotChecked | Missing | Provided | ErrorResponse | BadProducedAt | NoMatchingResponse
    | InvalidDate | ParseResponseError | ParseResponseDataError | UnhandledCriticalExtension

  datatype Digest = Md2 | Md4 | Md5 | Sha1 | Sha256 | Sha384 | Sha512

  datatype CertId = CertId(digest: Digest, issuerNameHash: Input, issuerKeyHash: Input, serial: Input)

  datatype SingleResponse = SingleResponse(
    extensions: ExtensionField, certId: Option<CertId>, thisUpdate: Time, nextUpdate: Option<Time>, status: Status)

  datatype ResponderId = ByName(name: Input) | ByKeyHash(keyHash: Input)

  /** A single response that does not parse is None. */
  datatype ResponseData = ResponseData(
    responderId: ResponderId, producedAt: Time, responses: seq<Option<SingleResponse>>, extensions: ExtensionField)

  datatype Response = Response(
    successful: bool, data: Input, parsedData: Option<ResponseData>,
    signatureAlgorithm: Input, signature: Input, certs: seq<Input>)

  datatype Certificate = Certificate(
    subject: Input, issuer: Input, serial: Input, spki: Input, notBefore: Time, notAfter: Time,
    signatureAlgorithm: Option<Input>, tbs: Input, signature: Input, extendedKeyUsage: Option<seq<Input>>)

  datatype Crypto = Crypto(
    digest: (Digest, Input) -> Option<Input>,
    publicKeyBytes: Input -> Option<Input>,
    readSequence: Input -> Option<Input>,
    namesMatch: (Input, Input) -> bool,
    signedBy: (Input, Input, Input, Input) -> bool,
    parseCertificate: Input -> Option<Certificate>)

  /** id-kp-OCSPSigning, 1.3.6.1.5.5.7.3.9. */
  const OCSP_SIGNING: Input := [0x2B, 0x06, 0x01, 0x05, 0x05, 0x07, 0x03, 0x09]

  /** The certificate transparency extension, which is handled elsewhere. */
  const CT_EXTENSION: Input := [0x2B, 0x06, 0x01, 0x04, 0x01, 0xD6, 0x79, 0x02, 0x04, 0x05]

  // ---- Which certificate a response is about ----

  predicate VerifyHash(c: Crypto, digest: Digest, hash: Input, value: Input) {
    c.digest(digest, value) == Some(hash)
  }

  /** CheckCertIDMatchesCertificate. MD2, MD4 and MD5 are not supported. */
  predicate CertIdMatches(c: Crypto, id: CertId, cert: Certificate, issuer: Certificate) {
    if id.digest.Md2? || id.digest.Md4? || id.digest.Md5? then false
    else if !VerifyHash(c, id.digest, id.issuerNameHash, cert.issuer) then false
    else
      var key := c.publicKeyBytes(issuer.spki);
      if key.None? then false
      else if !VerifyHash(c, id.digest, id.issuerKeyHash, key.value) then false
      else id.serial == cert.serial
  }

  // ---- The fold over single responses ----

  /** Everything besides the responses that the fold looks at. */
  datatype Context = Context(crypto: Crypto, clock: Clock, cert: Certificate, issuer: Certificate)

  /** ParseOCSPSingleResponseExtensions: the error it reports, if any. */
  function ExtensionError(field: ExtensionField): Option<Details> {
    match field
    case NoExtensions => None
    case MalformedExtensions => Some(ParseResponseDataError)
    case Extensions(byOid) =>
      if exists oid <- byOid :: byOid[oid].critical && oid != CT_EXTENSION then Some(UnhandledCriticalExtension) else None
  }

  /** The response parses, its extensions are understood, and so is its CertID. */
  ghost predicate IsReadable(r: Option<SingleResponse>) {
    r.Some? && ExtensionError(r.value.extensions).None? && r.value.certId.Some?
  }

  ghost predicate Matches(x: Context, r: Option<SingleResponse>) {
    IsReadable(r) && CertIdMatches(x.crypto, r.value.certId.value, x.cert, x.issuer)
  }

  /** About this certificate, and in date. */
  ghost predicate Counts(x: Context, r: Option<SingleResponse>) {
    Matches(x, r) && CheckRevocationDateValid(x.clock, r.value.thisUpdate, r.value.nextUpdate)
  }

  ghost predicate AllReadable(rs: seq<Option<SingleResponse>>) {
    forall r <- rs :: IsReadable(r)
  }

  ghost predicate CountsAs(x: Context, rs: seq<Option<SingleResponse>>, status: Status) {
    exists r <- rs :: Counts(x, r) && r.value.status == status
  }

  ghost predicate AnyCounts(x: Context, rs: seq<Option<SingleResponse>>) {
    exists r <- rs :: Counts(x, r)
  }

  /** The strictest status that counts: revoked before unknown before good. */
  ghost function Strictest(x: Context, rs: seq<Option<SingleResponse>>): Status {
    if CountsAs(x, rs, Revoked) then Revoked
    else if CountsAs(x, rs, Unknown) || !AnyCounts(x, rs) then Unknown
    else Good
  }

  ghost function DetailsOf(x: Context, rs: seq<Option<SingleResponse>>): Details {
    if AnyCounts(x, rs) then Provided
    else if exists r <- rs :: Matches(x, r) then InvalidDate
    else NoMatchingResponse
  }

  /** Appending one response, for the loop. */
  lemma Extend(x: Context, rs: seq<Option<SingleResponse>>, r: Option<SingleResponse>)
    ensures forall status :: CountsAs(x, rs + [r], status) <==> CountsAs(x, rs, status) || (Counts(x, r) && r.value.status == status)
    ensures AnyCounts(x, rs + [r]) <==> AnyCounts(x, rs) || Counts(x, r)
    ensures (exists q <- rs + [r] :: Matches(x, q)) <==> (exists q <- rs :: Matches(x, q)) || Matches(x, r)
    ensures AllReadable(rs + [r]) <==> AllReadable(rs) && IsReadable(r)
  {
    var all := rs + [r];
    assert all[|rs|] == r;
    assert forall q :: q in all <==> q in rs || q == r;
  }

  /** The extension error an unreadable response reports; one that does not parse reports none. */
  function ErrorOf(r: Option<SingleResponse>): Option<Details> {
    if r.None? then None else ExtensionError(r.value.extensions)
  }

  /** Where the fold stops: the first unreadable response. */
  ghost function FirstUnreadable(rs: seq<Option<SingleResponse>>): (k: nat)
    ensures k <= |rs| && AllReadable(rs[..k]) && (k < |rs| ==> !IsReadable(rs[k]))
    ensures AllReadable(rs) <==> k == |rs|
  {
    if rs == [] then 0
    else if !IsReadable(rs[0]) then assert rs[0] in rs; 0
    else
      var k := 1 + FirstUnreadable(rs[1..]);
      assert rs[..k] == [rs[0]] + rs[1..][..k - 1] && rs == [rs[0]] + rs[1..];
      k
  }

  /** An unreadable response anywhere makes the answer UNKNOWN. */
  ghost function FoldStatus(x: Context, rs: seq<Option<SingleResponse>>): Status {
    if AllReadable(rs) then Strictest(x, rs) else Unknown
  }

  /** The details as of the first unreadable response, whose own extension error takes precedence. */
  ghost function FoldDetails(x: Context, rs: seq<Option<SingleResponse>>): Details {
    var k := FirstUnreadable(rs);
    if k < |rs| && ErrorOf(rs[k]).Some? then ErrorOf(rs[k]).value else DetailsOf(x, rs[..k])
  }

  lemma FirstUnreadableIs(rs: seq<Option<SingleResponse>>, k: nat)
    requires k <= |rs| && AllReadable(rs[..k]) && (k < |rs| ==> !IsReadable(rs[k]))
    ensures FirstUnreadable(rs) == k
  {
  }

  lemma FoldStopsAt(x: Context, rs: seq<Option<SingleResponse>>, k: nat)
    requires k < |rs| && AllReadable(rs[..k]) && !IsReadable(rs[k])
    ensures FoldStatus(x, rs) == Unknown
    ensures FoldDetails(x, rs) == if ErrorOf(rs[k]).Some? then ErrorOf(rs[k]).value else DetailsOf(x, rs[..k])
  {
    FirstUnreadableIs(rs, k);
  }

  lemma FoldRunsThrough(x: Context, rs: seq<Option<SingleResponse>>)
    requires AllReadable(rs)
    ensures FoldStatus(x, rs) == Strictest(x, rs) && FoldDetails(x, rs) == DetailsOf(x, rs)
  {
    assert rs[..|rs|] == rs;
  }

  /**
   GetRevocationStatusForCert. If every response is readable the answer is the strictest status that
   counts. Otherwise it is UNKNOWN, with the details collected before the first unreadable response
   or, if its extensions are at fault, that error.
   */
  method GetRevocationStatusForCert(x: Context, rs: seq<Option<SingleResponse>>)
    returns (result: Status, details: Details)
    ensures result == FoldStatus(x, rs)
    ensures details == FoldDetails(x, rs)
  {
    result, details := Unknown, NoMatchingResponse;
    for i := 0 to |rs|
      invariant AllReadable(rs[..i])
      invariant result == Strictest(x, rs[..i]) && details == DetailsOf(x, rs[..i])
    {
      var r := rs[i];
      Extend(x, rs[..i], r);
      assert rs[..i + 1] == rs[..i] + [r];
      if !IsReadable(r) {
        FoldStopsAt(x, rs, i);
      }
      if r.None? {
        return Unknown, details;
      }
      var single := r.value;
      var error := ExtensionError(single.extensions);
      if error.Some? {
        return Unknown, error.value;
      }
      if single.certId.None? {
        return Unknown, details;
      }
      if !CertIdMatches(x.crypto, single.certId.value, x.cert, x.issuer) {
        continue;
      }
      if !CheckRevocationDateValid(x.clock, single.thisUpdate, single.nextUpdate) {
        if details != Provided {
          details := InvalidDate;
        }
        continue;
      }
      if details != Provided || result == Good || single.status == Revoked {
        result := single.status;
      }
      details := Provided;
    }
    assert rs[..|rs|] == rs;
    FoldRunsThrough(x, rs);
  }

  // ---- The order of the responses ----

  /** The status never depends on the order; nor do the details if every response is readable. */
  lemma OrderDoesNotMatter(x: Context, rs: seq<Option<SingleResponse>>, rs': seq<Option<SingleResponse>>)
    requires multiset(rs) == multiset(rs')
    ensures FoldStatus(x, rs) == FoldStatus(x, rs')
    ensures AllReadable(rs) ==> FoldDetails(x, rs) == FoldDetails(x, rs') == DetailsOf(x, rs)
  {
    SameMembers(rs, rs');
    assert rs[..|rs|] == rs && rs'[..|rs'|] == rs';
  }

  /** The details of an unreadable list do: the same two responses, in both orders. */
  lemma OrderCanChangeDetails()
    returns (x: Context, rs: seq<Option<SingleResponse>>, rs': seq<Option<SingleResponse>>)
    ensures multiset(rs) == multiset(rs')
    ensures FoldDetails(x, rs) == NoMatchingResponse && FoldDetails(x, rs') == Provided
  {
    var time := Time(2000, 1, 1, 0, 0, 0);
    var crypto := Crypto(
      (d, v) => Some([]), k => Some([]), s => Some(s), (a, b) => false, (a, t, s, k) => false, der => None);
    var cert := Certificate([], [], [], [], time, time, None, [], [], None);
    x := Context(crypto, Clock(0, None, t => Some(time)), cert, cert);
    var r := Some(SingleResponse(NoExtensions, Some(CertId(Sha1, [], [], [])), time, None, Good));
    rs, rs' := [None, r], [r, None];
    assert Counts(x, r) && r in [r];
    FirstUnreadableIs(rs, 0);
    assert rs[..0] == [];
    FirstUnreadableIs(rs', 1);
    assert rs'[..1] == [r];
  }

  /** What a caller must know of the responses to rely on the details whatever their order. */
  ghost predicate DetailsAreStable(x: Context, rs: seq<Option<SingleResponse>>) {
    || AllReadable(rs)
    || (exists e :: UnreadableReport(rs, Some(e)))
    || (UnreadableReport(rs, None) && forall r <- rs :: !Matches(x, r))
  }

  /** All the unreadable responses report this error, or all report none. */
  ghost predicate UnreadableReport(rs: seq<Option<SingleResponse>>, error: Option<Details>) {
    forall r <- rs :: IsReadable(r) || ErrorOf(r) == error
  }

  lemma MoveToFront(rs: seq<Option<SingleResponse>>, r: Option<SingleResponse>)
    returns (rest: seq<Option<SingleResponse>>)
    requires r in rs
    ensures multiset([r] + rest) == multiset(rs)
  {
    var i :| 0 <= i < |rs| && rs[i] == r;
    rest := rs[..i] + rs[i + 1..];
    assert rs == rs[..i] + [r] + rs[i + 1..];
  }

  /** With an unreadable response first, the details are its error or that nothing matched. */
  lemma UnreadableFirst(x: Context, r: Option<SingleResponse>, rest: seq<Option<SingleResponse>>)
    requires !IsReadable(r)
    ensures FoldDetails(x, [r] + rest) == if ErrorOf(r).Some? then ErrorOf(r).value else NoMatchingResponse
  {
    var rs := [r] + rest;
    assert rs[..0] == [];
    FirstUnreadableIs(rs, 0);
  }

  /** With a matching response first and an unreadable one without an error next, something matched. */
  lemma MatchFirst(
    x: Context, r: Option<SingleResponse>, bad: Option<SingleResponse>, rest: seq<Option<SingleResponse>>)
    requires Matches(x, r) && !IsReadable(bad) && ErrorOf(bad).None?
    ensures FoldDetails(x, [r, bad] + rest) != NoMatchingResponse
  {
    var rs := [r, bad] + rest;
    assert rs[..1] == [r] && r in [r];
    FirstUnreadableIs(rs, 1);
  }

  lemma StableDetailsAre(x: Context, rs: seq<Option<SingleResponse>>)
    requires !AllReadable(rs)
    ensures forall e :: UnreadableReport(rs, Some(e)) ==> FoldDetails(x, rs) == e
    ensures UnreadableReport(rs, None) && (forall r <- rs :: !Matches(x, r)) ==>
              FoldDetails(x, rs) == NoMatchingResponse
  {
    var k := FirstUnreadable(rs);
    assert rs[k] in rs;
    assert forall r <- rs[..k] :: r in rs;
  }

  ghost predicate IgnoresOrder(x: Context, rs: seq<Option<SingleResponse>>) {
    forall rs' | multiset(rs') == multiset(rs) :: FoldDetails(x, rs') == FoldDetails(x, rs)
  }

  lemma StableIgnoresOrder(x: Context, rs: seq<Option<SingleResponse>>)
    requires DetailsAreStable(x, rs)
    ensures IgnoresOrder(x, rs)
  {
    forall rs' | multiset(rs') == multiset(rs)
      ensures FoldDetails(x, rs') == FoldDetails(x, rs)
    {
      SameMembers(rs, rs');
      OrderDoesNotMatter(x, rs, rs');
      if !AllReadable(rs) {
        StableDetailsAre(x, rs);
        StableDetailsAre(x, rs');
      }
    }
  }

  /** If the order is irrelevant, the details are what any unreadable response gives when it is first. */
  lemma EachUnreadableDecides(x: Context, rs: seq<Option<SingleResponse>>, bad: Option<SingleResponse>)
    requires IgnoresOrder(x, rs) && bad in rs && !IsReadable(bad)
    ensures FoldDetails(x, rs) == if ErrorOf(bad).Some? then ErrorOf(bad).value else NoMatchingResponse
  {
    var rest := MoveToFront(rs, bad);
    UnreadableFirst(x, bad, rest);
  }

  /** A permutation that starts with a match and then meets an unreadable response. */
  lemma MatchBeforeUnreadable(
    x: Context, rs: seq<Option<SingleResponse>>, bad: Option<SingleResponse>, r: Option<SingleResponse>)
    returns (rs': seq<Option<SingleResponse>>)
    requires bad in rs && !IsReadable(bad) && ErrorOf(bad).None? && r in rs && Matches(x, r)
    ensures multiset(rs') == multiset(rs) && FoldDetails(x, rs') != NoMatchingResponse
  {
    var rest := MoveToFront(rs, r);
    assert bad in multiset([r] + rest) && bad != r;
    var others := MoveToFront(rest, bad);
    rs' := [r, bad] + others;
    assert rs' == [r] + ([bad] + others);
    MatchFirst(x, r, bad, others);
  }

  lemma IgnoringOrderIsStable(x: Context, rs: seq<Option<SingleResponse>>)
    requires IgnoresOrder(x, rs)
    ensures DetailsAreStable(x, rs)
  {
    forall bad | bad in rs && !IsReadable(bad)
      ensures FoldDetails(x, rs) == if ErrorOf(bad).Some? then ErrorOf(bad).value else NoMatchingResponse
    {
      EachUnreadableDecides(x, rs, bad);
    }
    if bad :| bad in rs && !IsReadable(bad) && ErrorOf(bad).None? {
      assert UnreadableReport(rs, None);
      if r :| r in rs && Matches(x, r) {
        var rs' := MatchBeforeUnreadable(x, rs, bad, r);
      }
    } else {
      assert UnreadableReport(rs, Some(FoldDetails(x, rs)));
    }
  }

  /**
   The details are the same in every order exactly when all responses are readable, or the unreadable
   ones all report one and the same extension error, or they report none and nothing matches.
   */
  lemma DetailsIgnoreOrderIff(x: Context, rs: seq<Option<SingleResponse>>)
    ensures (forall rs' | multiset(rs') == multiset(rs) :: FoldDetails(x, rs') == FoldDetails(x, rs))
            <==> DetailsAreStable(x, rs)
  {
    if DetailsAreStable(x, rs) {
      StableIgnoresOrder(x, rs);
    }
    if IgnoresOrder(x, rs) {
      IgnoringOrderIsStable(x, rs);
    }
  }

  // ---- The answer, in the fields of the responses ----

  /** The response names this certificate: supported digest, issuer name, issuer key and serial number. */
  ghost predicate NamesCert(x: Context, id: CertId) {
    && id.digest in {Sha1, Sha256, Sha384, Sha512}
    && x.crypto.digest(id.digest, x.cert.issuer) == Some(id.issuerNameHash)
    && x.crypto.publicKeyBytes(x.issuer.spki).Some?
    && x.crypto.digest(id.digest, x.crypto.publicKeyBytes(x.issuer.spki).value) == Some(id.issuerKeyHash)
    && id.serial == x.cert.serial
  }

  lemma CertIdMatchesIsNamesCert(x: Context, id: CertId)
    ensures CertIdMatches(x.crypto, id, x.cert, x.issuer) <==> NamesCert(x, id)
  {
  }

  /** Extensions that do not stop the response: none critical, but for certificate transparency. */
  lemma ExtensionsInFields(byOid: map<Input, Extension>)
    ensures ExtensionError(NoExtensions) == None && ExtensionError(MalformedExtensions) == Some(ParseResponseDataError)
    ensures ExtensionError(Extensions(byOid)) ==
            if exists oid <- byOid :: byOid[oid].critical && oid != [0x2B, 0x06, 0x01, 0x04, 0x01, 0xD6, 0x79, 0x02, 0x04, 0x05]
            then Some(UnhandledCriticalExtension) else None
    ensures ResponseExtensionError(NoExtensions) == None
    ensures ResponseExtensionError(MalformedExtensions) == Some(ParseResponseDataError)
    ensures ResponseExtensionError(Extensions(byOid)) ==
            if exists oid <- byOid :: byOid[oid].critical then Some(UnhandledCriticalExtension) else None
  {
  }

  lemma ReadableInFields(single: SingleResponse)
    ensures !IsReadable(None)
    ensures IsReadable(Some(single)) <==> single.certId.Some? && ExtensionError(single.extensions) == None
  {
  }

  /** A response in the list that names the certificate and is in date. */
  ghost predicate Relevant(x: Context, rs: seq<Option<SingleResponse>>, single: SingleResponse) {
    && Some(single) in rs && single.certId.Some? && NamesCert(x, single.certId.value)
    && CheckRevocationDateValid(x.clock, single.thisUpdate, single.nextUpdate)
  }

  /** REVOKED and GOOD, by the relevant responses of a list that is readable throughout. */
  lemma StatusInFields(x: Context, rs: seq<Option<SingleResponse>>)
    ensures FoldStatus(x, rs) == Revoked <==>
            && (forall r <- rs :: IsReadable(r))
            && exists single :: Relevant(x, rs, single) && single.status == Revoked
    ensures FoldStatus(x, rs) == Good <==>
            && (forall r <- rs :: IsReadable(r))
            && (exists single :: Relevant(x, rs, single))
            && forall single :: Relevant(x, rs, single) ==> single.status == Good
  {
    if AllReadable(rs) {
      CountsIsRelevant(x, rs);
      OnlyThreeStatuses(x, rs);
    }
  }

  /** Some relevant response gives this status. */
  ghost predicate IsAnswered(x: Context, rs: seq<Option<SingleResponse>>, status: Status) {
    exists single :: Relevant(x, rs, single) && single.status == status
  }

  lemma AnswerIsFromResponse(x: Context, rs: seq<Option<SingleResponse>>)
    ensures FoldStatus(x, rs) != Unknown ==> IsAnswered(x, rs, FoldStatus(x, rs))
  {
    StatusInFields(x, rs);
  }

  lemma CountsIsRelevant(x: Context, rs: seq<Option<SingleResponse>>)
    requires AllReadable(rs)
    ensures forall single :: Relevant(x, rs, single) <==> Some(single) in rs && Counts(x, Some(single))
    ensures forall r <- rs :: Counts(x, r) ==> Relevant(x, rs, r.value)
  {
    forall single | Some(single) in rs
      ensures IsReadable(Some(single)) && (Relevant(x, rs, single) <==> Counts(x, Some(single)))
    {
      CertIdMatchesIsNamesCert(x, single.certId.value);
    }
    assert forall r <- rs :: r.Some? ==> r == Some(r.value);
  }

  lemma OnlyThreeStatuses(x: Context, rs: seq<Option<SingleResponse>>)
    requires AllReadable(rs)
    ensures AnyCounts(x, rs) <==> exists status :: CountsAs(x, rs, status)
    ensures Strictest(x, rs) == Good <==>
            AnyCounts(x, rs) && forall r <- rs :: Counts(x, r) ==> r.value.status == Good
  {
    if r :| r in rs && Counts(x, r) {
      assert CountsAs(x, rs, r.value.status);
    }
  }

  /** The details of a readable list: whether a response is relevant, or at least names the certificate. */
  lemma DetailsInFields(x: Context, rs: seq<Option<SingleResponse>>)
    requires forall r <- rs :: IsReadable(r)
    ensures FoldDetails(x, rs) == Provided <==> exists single :: Relevant(x, rs, single)
    ensures FoldDetails(x, rs) == NoMatchingResponse <==>
            forall r <- rs :: r.Some? && r.value.certId.Some? && !NamesCert(x, r.value.certId.value)
    ensures FoldDetails(x, rs) in {Provided, InvalidDate, NoMatchingResponse}
  {
    assert AllReadable(rs);
    FoldRunsThrough(x, rs);
    CountsIsRelevant(x, rs);
    forall r | r in rs
      ensures r.Some? && r.value.certId.Some? && (Matches(x, r) <==> NamesCert(x, r.value.certId.value))
    {
      CertIdMatchesIsNamesCert(x, r.value.certId.value);
    }
  }

  // ---- Who signed the response ----

  /** CheckResponderIDMatchesCertificate. */
  predicate ResponderIdMatches(c: Crypto, id: ResponderId, cert: Certificate) {
    match id
    case ByName(name) =>
      var nameRdn, certRdn := c.readSequence(name), c.readSequence(cert.subject);
      nameRdn.Some? && certRdn.Some? && c.namesMatch(nameRdn.value, certRdn.value)
    case ByKeyHash(keyHash) =>
      var key := c.publicKeyBytes(cert.spki);
      key.Some? && VerifyHash(c, Sha1, keyHash, key.value)
  }

  /** Signed by the issuer and marked for OCSP signing (section 4.2.2.2 of RFC 6960). */
  ghost predicate IsDelegate(c: Crypto, responder: Certificate, issuer: Certificate) {
    && responder.signatureAlgorithm.Some?
    && c.signedBy(responder.signatureAlgorithm.value, responder.tbs, responder.signature, issuer.spki)
    && responder.extendedKeyUsage.Some? && OCSP_SIGNING in responder.extendedKeyUsage.value
  }

  /** VerifyAuthorizedResponderCert. */
  method VerifyAuthorizedResponderCert(c: Crypto, responder: Certificate, issuer: Certificate) returns (ok: bool)
    ensures ok <==> IsDelegate(c, responder, issuer)
  {
    if responder.signatureAlgorithm.None? ||
       !c.signedBy(responder.signatureAlgorithm.value, responder.tbs, responder.signature, issuer.spki) {
      return false;
    }
    if responder.extendedKeyUsage.None? {
      return false;
    }
    var usages := responder.extendedKeyUsage.value;
    for i := 0 to |usages|
      invariant OCSP_SIGNING !in usages[..i]
    {
      if usages[i] == OCSP_SIGNING {
        return true;
      }
    }
    return false;
  }

  predicate SignedResponse(c: Crypto, response: Response, cert: Certificate) {
    c.signedBy(response.signatureAlgorithm, response.data, response.signature, cert.spki)
  }

  /** A certificate in the response that the responder ID names, a delegate, and the signer. */
  ghost predicate IsSigningDelegate(c: Crypto, response: Response, id: ResponderId, issuer: Certificate, der: Input) {
    var cert := c.parseCertificate(der);
    && cert.Some? && ResponderIdMatches(c, id, cert.value)
    && IsDelegate(c, cert.value, issuer) && SignedResponse(c, response, cert.value)
  }

  /** The response comes from the issuer or from an authorized responder. */
  ghost predicate IsAuthentic(c: Crypto, response: Response, id: ResponderId, issuer: Certificate) {
    || (ResponderIdMatches(c, id, issuer) && SignedResponse(c, response, issuer))
    || exists der <- response.certs :: IsSigningDelegate(c, response, id, issuer, der)
  }

  /** VerifyOCSPResponseSignature. */
  method VerifyOcspResponseSignature(c: Crypto, response: Response, id: ResponderId, issuer: Certificate)
    returns (ok: bool)
    ensures ok <==> IsAuthentic(c, response, id, issuer)
  {
    if ResponderIdMatches(c, id, issuer) && SignedResponse(c, response, issuer) {
      return true;
    }
    for i := 0 to |response.certs|
      invariant forall der <- response.certs[..i] :: !IsSigningDelegate(c, response, id, issuer, der)
    {
      var der := response.certs[i];
      var cert := c.parseCertificate(der);
      if cert.None? {
        continue;
      }
      if !ResponderIdMatches(c, id, cert.value) {
        continue;
      }
      var authorized := VerifyAuthorizedResponderCert(c, cert.value, issuer);
      if !authorized {
        continue;
      }
      if SignedResponse(c, response, cert.value) {
        assert IsSigningDelegate(c, response, id, issuer, der);
        return true;
      }
    }
    return false;
  }

  /** The two forms of a responder ID: the subject's name, or the SHA-1 hash of the key. */
  lemma ResponderIdInFields(c: Crypto, name: Input, keyHash: Input, cert: Certificate)
    ensures ResponderIdMatches(c, ByName(name), cert) <==>
            && c.readSequence(name).Some? && c.readSequence(cert.subject).Some?
            && c.namesMatch(c.readSequence(name).value, c.readSequence(cert.subject).value)
    ensures ResponderIdMatches(c, ByKeyHash(keyHash), cert) <==>
            c.publicKeyBytes(cert.spki).Some? && c.digest(Sha1, c.publicKeyBytes(cert.spki).value) == Some(keyHash)
  {
  }

  /** Who may have signed: the issuer, or a certificate in the response that the issuer marked for it. */
  lemma AuthenticInFields(c: Crypto, response: Response, id: ResponderId, issuer: Certificate)
    ensures IsAuthentic(c, response, id, issuer) <==>
            || (ResponderIdMatches(c, id, issuer)
                && c.signedBy(response.signatureAlgorithm, response.data, response.signature, issuer.spki))
            || exists der, cert ::
                 && der in response.certs && c.parseCertificate(der) == Some(cert) && ResponderIdMatches(c, id, cert)
                 && cert.signatureAlgorithm.Some?
                 && c.signedBy(cert.signatureAlgorithm.value, cert.tbs, cert.signature, issuer.spki)
                 && cert.extendedKeyUsage.Some?
                 && [0x2B, 0x06, 0x01, 0x05, 0x05, 0x07, 0x03, 0x09] in cert.extendedKeyUsage.value
                 && c.signedBy(response.signatureAlgorithm, response.data, response.signature, cert.spki)
  {
    if der :| der in response.certs && IsSigningDelegate(c, response, id, issuer, der) {
      assert c.parseCertificate(der) == Some(c.parseCertificate(der).value);
    }
    if der, cert :| der in response.certs && c.parseCertificate(der) == Some(cert) && ResponderIdMatches(c, id, cert)
                    && IsDelegate(c, cert, issuer) && SignedResponse(c, response, cert) {
      assert IsSigningDelegate(c, response, id, issuer, der);
    }
  }

  // ---- The whole check ----

  /** The stapled bytes, as far as they parse. */
  datatype RawResponse = Empty | Unparsable | Parsed(response: Response)

  /** A certificate the caller has parsed already, or its DER encoding. */
  datatype CertInput = Given(cert: Certificate) | Encoded(der: Input)

  function Load(c: Crypto, input: CertInput): Option<Certificate> {
    match input
    case Given(cert) => Some(cert)
    case Encoded(der) => c.parseCertificate(der)
  }

  ghost predicate HasCritical(field: ExtensionField) {
    field.Extensions? && exists oid <- field.byOid :: field.byOid[oid].critical
  }

  /** ParseOCSPResponseDataExtensions: here no critical extension is understood. */
  function ResponseExtensionError(field: ExtensionField): Option<Details> {
    match field
    case NoExtensions => None
    case MalformedExtensions => Some(ParseResponseDataError)
    case Extensions(byOid) =>
      if exists oid <- byOid :: byOid[oid].critical then Some(UnhandledCriticalExtension) else None
  }

  ghost predicate ProducedDuringValidity(producedAt: Time, cert: Certificate) {
    !Before(producedAt, cert.notBefore) && !Before(cert.notAfter, producedAt)
  }

  /** A response with data that is worth folding over, whoever signed it. */
  ghost predicate IsConsidered(c: Crypto, raw: RawResponse, cert: CertInput, issuer: CertInput) {
    && HasData(raw) && ResponseExtensionError(raw.response.parsedData.value.extensions).None?
    && Load(c, cert).Some? && Load(c, issuer).Some?
    && ProducedDuringValidity(raw.response.parsedData.value.producedAt, Load(c, cert).value)
  }

  ghost predicate HasData(raw: RawResponse) {
    raw.Parsed? && raw.response.successful && raw.response.parsedData.Some?
  }

  ghost function ContextOf(c: Crypto, clock: Clock, cert: CertInput, issuer: CertInput): Context
    requires Load(c, cert).Some? && Load(c, issuer).Some?
  {
    Context(c, clock, Load(c, cert).value, Load(c, issuer).value)
  }

  ghost predicate FoldReports(
    c: Crypto, clock: Clock, raw: RawResponse, cert: CertInput, issuer: CertInput, details: Details)
  {
    && IsConsidered(c, raw, cert, issuer)
    && FoldDetails(ContextOf(c, clock, cert, issuer), raw.response.parsedData.value.responses) == details
  }

  /** A response that may be used to judge the certificate. */
  ghost predicate IsUsable(c: Crypto, raw: RawResponse, cert: CertInput, issuer: CertInput) {
    && IsConsidered(c, raw, cert, issuer)
    && var data := raw.response.parsedData.value;
    && IsAuthentic(c, raw.response, data.responderId, Load(c, issuer).value)
    && AllReadable(data.responses)
  }

  /**
   CheckOCSP answers GOOD or REVOKED only from a usable response, only with details PROVIDED, and
   then with the strictest status of the responses that count; every other response gives UNKNOWN.
   The details say which check failed first, and are those of the fold even if the signature is bad.
   */
  method CheckOcsp(c: Crypto, clock: Clock, raw: RawResponse, certInput: CertInput, issuerInput: CertInput)
    returns (status: Status, details: Details)
    ensures status != Unknown ==> details == Provided && IsUsable(c, raw, certInput, issuerInput)
    ensures IsUsable(c, raw, certInput, issuerInput) ==>
              status == Strictest(ContextOf(c, clock, certInput, issuerInput), raw.response.parsedData.value.responses)
    ensures status != Unknown ==>
              IsAnswered(ContextOf(c, clock, certInput, issuerInput), raw.response.parsedData.value.responses, status)
    ensures details == Missing <==> raw.Empty?
    ensures details == ParseResponseError <==> raw.Unparsable?
    ensures details == ErrorResponse <==> raw.Parsed? && !raw.response.successful
    ensures details == NotChecked <==>
              && HasData(raw) && ResponseExtensionError(raw.response.parsedData.value.extensions).None?
              && (Load(c, certInput).None? || Load(c, issuerInput).None?)
    ensures details == BadProducedAt <==>
              && HasData(raw) && ResponseExtensionError(raw.response.parsedData.value.extensions).None?
              && Load(c, certInput).Some? && Load(c, issuerInput).Some?
              && !ProducedDuringValidity(raw.response.parsedData.value.producedAt, Load(c, certInput).value)
    ensures details == ParseResponseDataError <==>
              || (raw.Parsed? && raw.response.successful && raw.response.parsedData.None?)
              || (HasData(raw) && raw.response.parsedData.value.extensions.MalformedExtensions?)
              || FoldReports(c, clock, raw, certInput, issuerInput, ParseResponseDataError)
    ensures details == UnhandledCriticalExtension <==>
              || (HasData(raw) && HasCritical(raw.response.parsedData.value.extensions))
              || FoldReports(c, clock, raw, certInput, issuerInput, UnhandledCriticalExtension)
    ensures IsConsidered(c, raw, certInput, issuerInput) ==> FoldReports(c, clock, raw, certInput, issuerInput, details)
  {
    details := NotChecked;
    if raw.Empty? {
      return Unknown, Missing;
    }
    if raw.Unparsable? {
      return Unknown, ParseResponseError;
    }
    var response := raw.response;
    if !response.successful {
      return Unknown, ErrorResponse;
    }
    if response.parsedData.None? {
      return Unknown, ParseResponseDataError;
    }
    var data := response.parsedData.value;
    var error := ResponseExtensionError(data.extensions);
    if error.Some? {
      return Unknown, error.value;
    }
    var cert, issuer := Load(c, certInput), Load(c, issuerInput);
    if cert.None? || issuer.None? {
      return Unknown, NotChecked;
    }
    if Before(data.producedAt, cert.value.notBefore) || Before(cert.value.notAfter, data.producedAt) {
      return Unknown, BadProducedAt;
    }
    var x := Context(c, clock, cert.value, issuer.value);
    status, details := GetRevocationStatusForCert(x, data.responses);
    AnswerIsFromResponse(x, data.responses);
    var authentic := VerifyOcspResponseSignature(c, response, data.responderId, issuer.value);
    if !authentic {
      return Unknown, details;
    }
  }

  /** A response is usable if it was successful, is about the certificate's lifetime, authentic and readable. */
  lemma UsableInFields(c: Crypto, raw: RawResponse, cert: Certificate, issuer: Certificate)
    ensures IsUsable(c, raw, Given(cert), Given(issuer)) <==>
            && raw.Parsed? && raw.response.successful && raw.response.parsedData.Some?
            && var data := raw.response.parsedData.value;
            && ResponseExtensionError(data.extensions) == None
            && !Before(data.producedAt, cert.notBefore) && !Before(cert.notAfter, data.producedAt)
            && IsAuthentic(c, raw.response, data.responderId, issuer)
            && forall r <- data.responses :: IsReadable(r)
    ensures forall der, der' ::
              IsUsable(c, raw, Encoded(der), Encoded(der')) <==>
              && c.parseCertificate(der).Some? && c.parseCertificate(der').Some?
              && IsUsable(c, raw, Given(c.parseCertificate(der).value), Given(c.parseCertificate(der').value))
  {
  }
}
