/**
 The NameConstraints object of pki/name_constraints.cc: which names it permits, and the decision
 over a whole certificate. Directory name matching and the extraction of e-mail addresses from a
 subject belong to code outside this model, and come in through `NameOps`.
 */
module NameConstraints {
  import opened Wrappers
  import opened Strings
  import opened DnsNames
  import opened Rfc822Names
  import opened Der
  import opened IpUtil
  import opened GeneralNames
  import Arithmetic

  /** kSupportedNameTypes. */
  const SUPPORTED: set<NameType> := {Rfc822Name, DnsName, DirectoryName, IpAddress}

  const ALL_TYPES: set<NameType> :=
    {OtherName, Rfc822Name, DnsName, X400Address, DirectoryName,
     EdiPartyName, UniformResourceIdentifier, IpAddress, RegisteredId}

  lemma AllTypesIsComplete()
    ensures forall t: NameType :: t in ALL_TYPES
  {
    forall t: NameType
      ensures t in ALL_TYPES
    {
      match t
      case OtherName => case Rfc822Name => case DnsName => case X400Address => case DirectoryName =>
      case EdiPartyName => case UniformResourceIdentifier => case IpAddress => case RegisteredId =>
    }
  }

  /** kMaxChecks. */
  const MAX_CHECKS := 1048576

  /** The values a size_t can take. */
  const SIZE_LIMIT := 0x1_0000_0000_0000_0000

  /** VerifyNameInSubtree and FindEmailAddressesInName, which fails on a malformed subject. */
  datatype NameOps = NameOps(
    inSubtree: (Input, Input) -> bool,
    emailsIn: Input -> Option<seq<string>>)

  datatype Constraints = Constraints(
    permitted: GeneralNames, excluded: GeneralNames, constrainedNameTypes: set<NameType>)

  datatype CertErrorId = TooManyNameConstraintChecks | NotPermittedByNameConstraints

  class CertErrors {
    var nodes: seq<CertErrorId>

    constructor ()
      ensures nodes == []
    {
      nodes := [];
    }

    method AddError(id: CertErrorId)
      modifies this
      ensures nodes == old(nodes) + [id]
    {
      nodes := nodes + [id];
    }
  }

  // ---- What is permitted ----

  ghost predicate PermittedDns(c: Constraints, name: string) {
    && (forall x <- c.excluded.dnsNames :: !DnsNameMatches(name, x, PartialMatch))
    && (DnsName in c.permitted.presentNameTypes ==>
          exists x <- c.permitted.dnsNames :: DnsNameMatches(name, x, FullMatch))
  }

  ghost predicate PermittedRfc822(c: Constraints, name: string, ignoreCase: bool) {
    var parts := SplitString(name, '@');
    && |parts| == 2 && IsAllowedLocalPart(parts[0]) && IsAllowedDomain(parts[1])
    && (forall x <- c.excluded.rfc822Names :: !Rfc822NameMatches(parts[0], parts[1], x, Excluded, ignoreCase))
    && (Rfc822Name in c.permitted.presentNameTypes ==>
          exists x <- c.permitted.rfc822Names :: Rfc822NameMatches(parts[0], parts[1], x, Permitted, false))
  }

  ghost predicate PermittedDirectory(c: Constraints, ops: NameOps, rdns: Input) {
    && (forall x <- c.excluded.directoryNames :: !ops.inSubtree(rdns, x))
    && (DirectoryName in c.permitted.presentNameTypes ==>
          exists x <- c.permitted.directoryNames :: ops.inSubtree(rdns, x))
  }

  ghost predicate PermittedIp(c: Constraints, ip: Bytes) {
    && (forall x <- c.excluded.ipAddressRanges :: !Matches(ip, x.0, x.1))
    && (IpAddress in c.permitted.presentNameTypes ==>
          exists x <- c.permitted.ipAddressRanges :: Matches(ip, x.0, x.1))
  }

  ghost predicate AllRfc822(c: Constraints, names: seq<string>, ignoreCase: bool) {
    forall i :: 0 <= i < |names| ==> PermittedRfc822(c, names[i], ignoreCase)
  }

  ghost predicate AllDns(c: Constraints, names: seq<string>) {
    forall i :: 0 <= i < |names| ==> PermittedDns(c, names[i])
  }

  ghost predicate AllDirectory(c: Constraints, ops: NameOps, names: seq<Input>) {
    forall i :: 0 <= i < |names| ==> PermittedDirectory(c, ops, names[i])
  }

  ghost predicate AllIp(c: Constraints, addresses: seq<Bytes>) {
    forall i :: 0 <= i < |addresses| ==> PermittedIp(c, addresses[i])
  }

  /** Every alternative name is permitted, and none is of a critically constrained unsupported type. */
  ghost predicate SanPermitted(c: Constraints, ops: NameOps, names: GeneralNames) {
    && c.constrainedNameTypes * names.presentNameTypes <= SUPPORTED
    && (Rfc822Name in c.constrainedNameTypes ==> AllRfc822(c, names.rfc822Names, false))
    && AllDns(c, names.dnsNames)
    && AllDirectory(c, ops, names.directoryNames)
    && AllIp(c, names.ipAddresses)
  }

  ghost function NameCount(subject: Input, san: Option<GeneralNames>): nat {
    match san
    case Some(names) =>
      |names.rfc822Names| + |names.dnsNames| + |names.directoryNames| + |names.ipAddresses|
    case None => |subject|
  }

  ghost function ConstraintCount(c: Constraints, san: Option<GeneralNames>): nat {
    match san
    case Some(_) => SupportedCount(c.excluded) + SupportedCount(c.permitted)
    case None => |c.excluded.directoryNames| + |c.permitted.directoryNames|
  }

  ghost function SupportedCount(names: GeneralNames): nat {
    |names.rfc822Names| + |names.dnsNames| + |names.directoryNames| + |names.ipAddressRanges|
  }

  ghost predicate CertPermitted(c: Constraints, ops: NameOps, subject: Input, san: Option<GeneralNames>) {
    match san
    case Some(names) =>
      && SanPermitted(c, ops, names)
      && (subject != [] ==> PermittedDirectory(c, ops, subject))
    case None =>
      && (Rfc822Name in c.constrainedNameTypes ==>
            ops.emailsIn(subject).Some? && AllRfc822(c, ops.emailsIn(subject).value, true))
      && PermittedDirectory(c, ops, subject)
  }

  /** The errors a certificate gets, counting checks without a machine word's limits. */
  ghost function Verdict(c: Constraints, ops: NameOps, subject: Input, san: Option<GeneralNames>): seq<CertErrorId> {
    if NameCount(subject, san) * ConstraintCount(c, san) > MAX_CHECKS then [TooManyNameConstraintChecks]
    else if CertPermitted(c, ops, subject, san) then []
    else [NotPermittedByNameConstraints]
  }

  /** The guard on the wrapped 64-bit product accepts exactly the true products within the limit. */
  lemma GuardIsExact(constraints: nat, names: nat)
    requires constraints < SIZE_LIMIT && names < SIZE_LIMIT
    ensures var checks := (constraints * names) % SIZE_LIMIT;
            (constraints > 0 && checks / constraints != names) || checks > MAX_CHECKS
            <==> constraints * names > MAX_CHECKS
  {
    var product := constraints * names;
    if constraints > 0 {
      WrapIsDetected(constraints, names, product, SIZE_LIMIT);
    }
  }

  /** Dividing a wrapped product by one factor gives the other exactly when it did not wrap. */
  lemma WrapIsDetected(c: nat, n: nat, product: nat, limit: nat)
    requires c > 0 && limit > 0 && product == c * n
    ensures (product % limit) / c == n <==> product < limit
  {
    var checks := product % limit;
    if product < limit {
      assert checks == product by { Arithmetic.DivisionIs(product, limit, 0, product); }
      assert product / c == n by { Arithmetic.DivisionIs(product, c, n, 0); }
    } else {
      QuotientTimesDivisor(checks, c);
    }
  }

  lemma QuotientTimesDivisor(n: nat, d: nat)
    requires d > 0
    ensures d * (n / d) <= n
  {
  }

  /** The guard of IsPermittedCert, computed on the wrapped product. */
  method ExceedsLimit(constraintCount: nat, nameCount: nat) returns (tooMany: bool)
    requires constraintCount < SIZE_LIMIT && nameCount < SIZE_LIMIT
    ensures tooMany <==> nameCount * constraintCount > MAX_CHECKS
  {
    var checkCount := (constraintCount * nameCount) % SIZE_LIMIT;
    GuardIsExact(constraintCount, nameCount);
    return (constraintCount > 0 && checkCount / constraintCount != nameCount) || checkCount > MAX_CHECKS;
  }

  // ---- The extension ----

  /** A GeneralSubtree, as far as it parses; a minimum or maximum distance is not accepted. */
  datatype Subtree = BadSubtree | Subtree(base: GeneralName, hasDistance: bool)

  datatype SubtreesField = Absent | BadField | Present(subtrees: seq<Subtree>)

  datatype ExtensionValue =
    | NotASequence
    | DataAfterSequence
    | Fields(permitted: SubtreesField, excluded: SubtreesField, trailingData: bool)

  ghost predicate SubtreeOk(subtree: Subtree) {
    subtree.Subtree? && IsAcceptable(subtree.base, AddressAndNetmask) && !subtree.hasDistance
  }

  ghost predicate AllSubtreesOk(subtrees: seq<Subtree>) {
    forall i :: 0 <= i < |subtrees| ==> SubtreeOk(subtrees[i])
  }

  ghost function Bases(subtrees: seq<Subtree>): seq<GeneralName> {
    seq(|subtrees|, i requires 0 <= i < |subtrees| => if subtrees[i].Subtree? then subtrees[i].base else Unreadable)
  }

  ghost predicate IsReadable(field: SubtreesField) {
    !field.BadField? && (field.Present? ==> field.subtrees != [] && AllSubtreesOk(field.subtrees))
  }

  ghost function NamesIn(field: SubtreesField): GeneralNames {
    if field.Present? then Collected(Bases(field.subtrees), AddressAndNetmask) else NO_NAMES
  }

  /** When a field is readable, and what it then lists. */
  lemma FieldInFields(subtrees: seq<Subtree>)
    ensures IsReadable(Absent) && !IsReadable(BadField) && NamesIn(Absent) == NO_NAMES
    ensures IsReadable(Present(subtrees)) <==>
            && subtrees != []
            && forall i :: 0 <= i < |subtrees| ==>
                 && subtrees[i].Subtree? && !subtrees[i].hasDistance
                 && IsAcceptable(subtrees[i].base, AddressAndNetmask)
    ensures IsReadable(Present(subtrees)) ==>
              exists names: seq<GeneralName> ::
                && |names| == |subtrees| && (forall i :: 0 <= i < |names| ==> names[i] == subtrees[i].base)
                && NamesIn(Present(subtrees)) == Collected(names, AddressAndNetmask)
  {
    if IsReadable(Present(subtrees)) {
      var names := Bases(subtrees);
      assert forall i :: 0 <= i < |names| ==> SubtreeOk(subtrees[i]) && names[i] == subtrees[i].base;
    }
  }

  /** ParseGeneralSubtrees, which wants at least one subtree. */
  method ParseGeneralSubtrees(subtrees: seq<Subtree>) returns (ok: bool, names: GeneralNames)
    ensures ok <==> subtrees != [] && AllSubtreesOk(subtrees)
    ensures ok ==> names == Collected(Bases(subtrees), AddressAndNetmask)
  {
    names := NO_NAMES;
    if subtrees == [] {
      return false, names;
    }
    for i := 0 to |subtrees|
      invariant forall j :: 0 <= j < i ==> SubtreeOk(subtrees[j])
      invariant names == Collected(Bases(subtrees[..i]), AddressAndNetmask)
    {
      var subtree := subtrees[i];
      if subtree.BadSubtree? {
        return false, names;
      }
      assert Bases(subtrees[..i + 1]) == Bases(subtrees[..i]) + [subtree.base];
      ok, names := ParseGeneralName(subtree.base, AddressAndNetmask, names, Bases(subtrees[..i]));
      if !ok {
        return false, names;
      }
      if subtree.hasDistance {
        return false, names;
      }
    }
    assert subtrees[..|subtrees|] == subtrees;
    return true, names;
  }

  class NameConstraints {
    var permitted: GeneralNames
    var excluded: GeneralNames
    var constrainedNameTypes: set<NameType>

    ghost function View(): Constraints
      reads this
    {
      Constraints(permitted, excluded, constrainedNameTypes)
    }

    constructor ()
      ensures View() == Constraints(NO_NAMES, NO_NAMES, {})
    {
      permitted, excluded, constrainedNameTypes := NO_NAMES, NO_NAMES, {};
    }

    /** The mask of name types a constraint applies to: unsupported types only if critical. */
    static function TypeMask(isCritical: bool): set<NameType> {
      if isCritical then ALL_TYPES else SUPPORTED
    }

    /**
     Parse, from the fields of the extension, of which at least one must be there. The constraints are
     then exactly the names listed; unsupported types are constrained only by a critical extension.
     */
    method Parse(value: ExtensionValue, isCritical: bool) returns (ok: bool)
      requires View() == Constraints(NO_NAMES, NO_NAMES, {})
      modifies this
      ensures ok <==>
        && value.Fields? && IsReadable(value.permitted) && IsReadable(value.excluded) && !value.trailingData
        && (value.permitted.Present? || value.excluded.Present?)
      ensures ok ==>
        && permitted == NamesIn(value.permitted) && excluded == NamesIn(value.excluded)
        && forall t :: t in constrainedNameTypes <==>
             t in permitted.presentNameTypes + excluded.presentNameTypes && (isCritical || t in SUPPORTED)
    {
      if value.NotASequence? {
        return false;
      }
      if value.DataAfterSequence? {
        return false;
      }
      if value.permitted.BadField? {
        return false;
      }
      if value.permitted.Present? {
        ok, permitted := ParseGeneralSubtrees(value.permitted.subtrees);
        if !ok {
          return false;
        }
      }
      constrainedNameTypes := constrainedNameTypes + permitted.presentNameTypes * TypeMask(isCritical);
      if value.excluded.BadField? {
        return false;
      }
      if value.excluded.Present? {
        ok, excluded := ParseGeneralSubtrees(value.excluded.subtrees);
        if !ok {
          return false;
        }
      }
      constrainedNameTypes := constrainedNameTypes + excluded.presentNameTypes * TypeMask(isCritical);
      AllTypesIsComplete();
      if value.permitted.Absent? && value.excluded.Absent? {
        return false;
      }
      return !value.trailingData;
    }

    method IsPermittedDnsName(name: string) returns (ok: bool)
      ensures ok <==> PermittedDns(View(), name)
    {
      for i := 0 to |excluded.dnsNames|
        invariant forall x <- excluded.dnsNames[..i] :: !DnsNameMatches(name, x, PartialMatch)
      {
        if DnsNameMatches(name, excluded.dnsNames[i], PartialMatch) {
          return false;
        }
      }
      if DnsName !in permitted.presentNameTypes {
        return true;
      }
      for i := 0 to |permitted.dnsNames|
        invariant forall x <- permitted.dnsNames[..i] :: !DnsNameMatches(name, x, FullMatch)
      {
        if DnsNameMatches(name, permitted.dnsNames[i], FullMatch) {
          return true;
        }
      }
      return false;
    }

    method IsPermittedRfc822Name(name: string, ignoreCase: bool) returns (ok: bool)
      ensures ok <==> PermittedRfc822(View(), name, ignoreCase)
    {
      var parts := SplitString(name, '@');
      if |parts| != 2 {
        return false;
      }
      if !IsAllowedLocalPart(parts[0]) || !IsAllowedDomain(parts[1]) {
        return false;
      }
      for i := 0 to |excluded.rfc822Names|
        invariant forall x <- excluded.rfc822Names[..i] ::
                    !Rfc822NameMatches(parts[0], parts[1], x, Excluded, ignoreCase)
      {
        if Rfc822NameMatches(parts[0], parts[1], excluded.rfc822Names[i], Excluded, ignoreCase) {
          return false;
        }
      }
      if Rfc822Name !in permitted.presentNameTypes {
        return true;
      }
      for i := 0 to |permitted.rfc822Names|
        invariant forall x <- permitted.rfc822Names[..i] ::
                    !Rfc822NameMatches(parts[0], parts[1], x, Permitted, false)
      {
        if Rfc822NameMatches(parts[0], parts[1], permitted.rfc822Names[i], Permitted, false) {
          return true;
        }
      }
      return false;
    }

    method IsPermittedDirectoryName(ops: NameOps, rdns: Input) returns (ok: bool)
      ensures ok <==> PermittedDirectory(View(), ops, rdns)
    {
      for i := 0 to |excluded.directoryNames|
        invariant forall x <- excluded.directoryNames[..i] :: !ops.inSubtree(rdns, x)
      {
        if ops.inSubtree(rdns, excluded.directoryNames[i]) {
          return false;
        }
      }
      if DirectoryName !in permitted.presentNameTypes {
        return true;
      }
      for i := 0 to |permitted.directoryNames|
        invariant forall x <- permitted.directoryNames[..i] :: !ops.inSubtree(rdns, x)
      {
        if ops.inSubtree(rdns, permitted.directoryNames[i]) {
          return true;
        }
      }
      return false;
    }

    method IsPermittedIp(ip: Bytes) returns (ok: bool)
      ensures ok <==> PermittedIp(View(), ip)
    {
      for i := 0 to |excluded.ipAddressRanges|
        invariant forall x <- excluded.ipAddressRanges[..i] :: !Matches(ip, x.0, x.1)
      {
        var range := excluded.ipAddressRanges[i];
        var matches := IpAddressMatchesWithNetmask(ip, range.0, range.1);
        if matches {
          return false;
        }
      }
      if IpAddress !in permitted.presentNameTypes {
        return true;
      }
      for i := 0 to |permitted.ipAddressRanges|
        invariant forall x <- permitted.ipAddressRanges[..i] :: !Matches(ip, x.0, x.1)
      {
        var range := permitted.ipAddressRanges[i];
        var matches := IpAddressMatchesWithNetmask(ip, range.0, range.1);
        if matches {
          return true;
        }
      }
      return false;
    }

    // The loops of IsPermittedCert, one for each kind of name. Each stops at the first name not permitted.

    method AreRfc822NamesPermitted(names: seq<string>, ignoreCase: bool) returns (ok: bool)
      ensures ok <==> AllRfc822(View(), names, ignoreCase)
    {
      ghost var c := View();
      for i := 0 to |names|
        invariant forall j :: 0 <= j < i ==> PermittedRfc822(c, names[j], ignoreCase)
      {
        ok := IsPermittedRfc822Name(names[i], ignoreCase);
        if !ok {
          return false;
        }
      }
      return true;
    }

    method AreDnsNamesPermitted(names: seq<string>) returns (ok: bool)
      ensures ok <==> AllDns(View(), names)
    {
      ghost var c := View();
      for i := 0 to |names|
        invariant forall j :: 0 <= j < i ==> PermittedDns(c, names[j])
      {
        ok := IsPermittedDnsName(names[i]);
        if !ok {
          return false;
        }
      }
      return true;
    }

    method AreDirectoryNamesPermitted(ops: NameOps, names: seq<Input>) returns (ok: bool)
      ensures ok <==> AllDirectory(View(), ops, names)
    {
      ghost var c := View();
      for i := 0 to |names|
        invariant forall j :: 0 <= j < i ==> PermittedDirectory(c, ops, names[j])
      {
        ok := IsPermittedDirectoryName(ops, names[i]);
        if !ok {
          return false;
        }
      }
      return true;
    }

    method AreIpsPermitted(addresses: seq<Bytes>) returns (ok: bool)
      ensures ok <==> AllIp(View(), addresses)
    {
      ghost var c := View();
      for i := 0 to |addresses|
        invariant forall j :: 0 <= j < i ==> PermittedIp(c, addresses[j])
      {
        ok := IsPermittedIp(addresses[i]);
        if !ok {
          return false;
        }
      }
      return true;
    }

    /** The SAN half of IsPermittedCert. */
    method AreSubjectAltNamesPermitted(ops: NameOps, names: GeneralNames) returns (ok: bool)
      ensures ok <==> SanPermitted(View(), ops, names)
    {
      if constrainedNameTypes * names.presentNameTypes - SUPPORTED != {} {
        return false;
      }
      if Rfc822Name in constrainedNameTypes {
        ok := AreRfc822NamesPermitted(names.rfc822Names, false);
        if !ok {
          return false;
        }
      }
      ok := AreDnsNamesPermitted(names.dnsNames);
      if !ok {
        return false;
      }
      ok := AreDirectoryNamesPermitted(ops, names.directoryNames);
      if !ok {
        return false;
      }
      ok := AreIpsPermitted(names.ipAddresses);
    }

    /**
     IsPermittedCert. The counts fit a size_t because they count parts of one certificate; their
     product need not, and the guard is computed on the wrapped product.
     */
    method IsPermittedCert(ops: NameOps, subject: Input, san: Option<GeneralNames>, errors: CertErrors)
      requires NameCount(subject, san) < SIZE_LIMIT && ConstraintCount(View(), san) < SIZE_LIMIT
      modifies errors
      ensures errors.nodes == old(errors.nodes) + Verdict(View(), ops, subject, san)
    {
      var nameCount, constraintCount := 0, 0;
      if san.Some? {
        nameCount := |san.value.rfc822Names| + |san.value.dnsNames| + |san.value.directoryNames|
          + |san.value.ipAddresses|;
        constraintCount := |excluded.rfc822Names| + |permitted.rfc822Names|
          + |excluded.dnsNames| + |permitted.dnsNames|
          + |excluded.directoryNames| + |permitted.directoryNames|
          + |excluded.ipAddressRanges| + |permitted.ipAddressRanges|;
      } else {
        constraintCount := constraintCount + |excluded.directoryNames| + |permitted.directoryNames|;
        nameCount := |subject|;
      }
      var tooMany := ExceedsLimit(constraintCount, nameCount);
      if tooMany {
        errors.AddError(TooManyNameConstraintChecks);
        return;
      }

      var emails := [];
      if san.None? && Rfc822Name in constrainedNameTypes {
        var found := ops.emailsIn(subject);
        if found.None? {
          errors.AddError(NotPermittedByNameConstraints);
          return;
        }
        emails := found.value;
      }

      if san.Some? {
        var sanOk := AreSubjectAltNamesPermitted(ops, san.value);
        if !sanOk {
          errors.AddError(NotPermittedByNameConstraints);
          return;
        }
      }

      var ok := AreRfc822NamesPermitted(emails, true);
      if !ok {
        errors.AddError(NotPermittedByNameConstraints);
        return;
      }

      if san.Some? && subject == [] {
        return;
      }
      ok := IsPermittedDirectoryName(ops, subject);
      if !ok {
        errors.AddError(NotPermittedByNameConstraints);
      }
    }
  }

  // ---- The decisions, in the fields of the constraints ----

  /** No excluded constraint hits the name and, if its type is restricted, some permitted one holds it. */
  ghost predicate Allowed<N, C(!new)>(
    name: N, excluded: seq<C>, permitted: seq<C>, restricted: bool, hits: (N, C) -> bool, holds: (N, C) -> bool)
  {
    && (forall e <- excluded :: !hits(name, e))
    && (restricted ==> exists p <- permitted :: holds(name, p))
  }

  /** The one rule for the names of each type, with that type's ways of matching. */
  lemma PermittedIsAllowed(c: Constraints, ops: NameOps, dns: string, rdns: Input, ip: Bytes)
    ensures PermittedDns(c, dns) <==>
            Allowed(dns, c.excluded.dnsNames, c.permitted.dnsNames, DnsName in c.permitted.presentNameTypes,
                    (n, e) => DnsNameMatches(n, e, PartialMatch), (n, p) => DnsNameMatches(n, p, FullMatch))
    ensures PermittedDirectory(c, ops, rdns) <==>
            Allowed(rdns, c.excluded.directoryNames, c.permitted.directoryNames,
                    DirectoryName in c.permitted.presentNameTypes, ops.inSubtree, ops.inSubtree)
    ensures PermittedIp(c, ip) <==>
            Allowed(ip, c.excluded.ipAddressRanges, c.permitted.ipAddressRanges,
                    IpAddress in c.permitted.presentNameTypes,
                    (a: Bytes, r: (Bytes, Bytes)) => MatchesRange(a, r), (a: Bytes, r: (Bytes, Bytes)) => MatchesRange(a, r))
  {
  }

  ghost predicate MatchesRange(a: Bytes, range: (Bytes, Bytes)) {
    Matches(a, range.0, range.1)
  }

  /** A mailbox is judged by the same rule; malformed exclusions hit everything, malformed permissions hold nothing. */
  lemma PermittedMailboxIsAllowed(c: Constraints, l: string, d: string, ignoreCase: bool)
    requires IsAllowedLocalPart(l) && IsAllowedDomain(d)
    ensures PermittedRfc822(c, l + "@" + d, ignoreCase) <==>
            Allowed((l, d), c.excluded.rfc822Names, c.permitted.rfc822Names, Rfc822Name in c.permitted.presentNameTypes,
                    (m: (string, string), e: string) => MailboxHit(m, e, ignoreCase),
                    (m: (string, string), p: string) => Covers(m.0, m.1, p, false))
  {
    NoAtSign(l);
    NoAtSign(d);
    SplitMailbox(l, d);
    forall x: string
      ensures Rfc822NameMatches(l, d, x, Excluded, ignoreCase) <==> MailboxHit((l, d), x, ignoreCase)
      ensures Rfc822NameMatches(l, d, x, Permitted, false) <==> Covers(l, d, x, false)
    {
      MatchInStrings(l, d, x, Excluded, ignoreCase);
      MatchInStrings(l, d, x, Permitted, false);
    }
  }

  ghost predicate MailboxHit(mailbox: (string, string), exclusion: string, ignoreCase: bool) {
    Covers(mailbox.0, mailbox.1, exclusion, ignoreCase) || !WellFormed(exclusion)
  }

  /** Anything that is not a well-formed mailbox is refused. */
  lemma OnlyMailboxesArePermitted(c: Constraints, name: string, ignoreCase: bool)
    requires PermittedRfc822(c, name, ignoreCase)
    ensures exists l, d :: name == l + "@" + d && IsAllowedLocalPart(l) && IsAllowedDomain(d)
  {
    MailboxOfSplit(name);
  }

  lemma SupportedTypesAre(t: NameType)
    ensures t in SUPPORTED <==> t == Rfc822Name || t == DnsName || t == DirectoryName || t == IpAddress
  {
  }

  /** When a certificate with alternative names gets no error. */
  lemma NoErrorWithSan(c: Constraints, ops: NameOps, subject: Input, names: GeneralNames)
    ensures Verdict(c, ops, subject, Some(names)) == [] <==>
            && (|names.rfc822Names| + |names.dnsNames| + |names.directoryNames| + |names.ipAddresses|)
               * (|c.excluded.rfc822Names| + |c.permitted.rfc822Names| + |c.excluded.dnsNames| + |c.permitted.dnsNames|
                  + |c.excluded.directoryNames| + |c.permitted.directoryNames|
                  + |c.excluded.ipAddressRanges| + |c.permitted.ipAddressRanges|) <= 1048576
            && (forall t | t in c.constrainedNameTypes && t in names.presentNameTypes ::
                  t == Rfc822Name || t == DnsName || t == DirectoryName || t == IpAddress)
            && (Rfc822Name in c.constrainedNameTypes ==> forall x <- names.rfc822Names :: PermittedRfc822(c, x, false))
            && (forall x <- names.dnsNames :: PermittedDns(c, x))
            && (forall x <- names.directoryNames :: PermittedDirectory(c, ops, x))
            && (forall x <- names.ipAddresses :: PermittedIp(c, x))
            && (subject != [] ==> PermittedDirectory(c, ops, subject))
  {
    TypesAreSupportedIff(c.constrainedNameTypes, names.presentNameTypes);
    AllInList(names.rfc822Names);
    AllInList(names.dnsNames);
    AllInList(names.directoryNames);
    AllInList(names.ipAddresses);
  }

  lemma TypesAreSupportedIff(constrained: set<NameType>, present: set<NameType>)
    ensures constrained * present <= SUPPORTED <==>
            forall t | t in constrained && t in present ::
              t == Rfc822Name || t == DnsName || t == DirectoryName || t == IpAddress
  {
    if constrained * present <= SUPPORTED {
      forall t | t in constrained && t in present
        ensures t == Rfc822Name || t == DnsName || t == DirectoryName || t == IpAddress
      {
        assert t in constrained * present;
      }
    }
  }

  lemma AllInList<T>(s: seq<T>)
    ensures forall i :: 0 <= i < |s| ==> s[i] in s
  {
  }

  /** When a certificate without alternative names gets no error: its subject and the addresses in it. */
  lemma NoErrorWithoutSan(c: Constraints, ops: NameOps, subject: Input)
    ensures Verdict(c, ops, subject, None) == [] <==>
            && |subject| * (|c.excluded.directoryNames| + |c.permitted.directoryNames|) <= 1048576
            && (Rfc822Name in c.constrainedNameTypes ==>
                  ops.emailsIn(subject).Some? && forall x <- ops.emailsIn(subject).value :: PermittedRfc822(c, x, true))
            && PermittedDirectory(c, ops, subject)
  {
    if ops.emailsIn(subject).Some? {
      AllInList(ops.emailsIn(subject).value);
    }
  }

  /** Too many checks and a name that is not permitted are told apart, and the first is reported alone. */
  lemma ErrorsAreToldApart(c: Constraints, ops: NameOps, subject: Input, san: Option<GeneralNames>)
    ensures Verdict(c, ops, subject, san) == [TooManyNameConstraintChecks] <==>
            NameCount(subject, san) * ConstraintCount(c, san) > 1048576
    ensures |Verdict(c, ops, subject, san)| <= 1
  {
    assert [TooManyNameConstraintChecks][0] != [NotPermittedByNameConstraints][0];
  }

  // ---- What a parsed extension says of addresses ----

  /** The address is in the block of the given prefix length around the range's address. */
  ghost predicate InBlock(ip: Bytes, range: (Bytes, Bytes), k: nat) {
    && |ip| == |range.0| && k <= 8 * |range.0| && range.1 == PrefixMask(|range.0|, k)
    && SameBlock(Value(ip), Value(range.0), 8 * |range.0| - k)
  }

  ghost predicate InSomeBlock(ip: Bytes, ranges: seq<(Bytes, Bytes)>) {
    exists range <- ranges, k: nat :: InBlock(ip, range, k)
  }

  ghost predicate IsBlock(range: (Bytes, Bytes), k: nat) {
    k <= 8 * |range.0| && range.1 == PrefixMask(|range.0|, k)
  }

  ghost predicate AllBlocks(ranges: seq<(Bytes, Bytes)>) {
    forall r <- ranges :: exists k: nat :: IsBlock(r, k)
  }

  lemma ParsedAreBlocks(field: SubtreesField)
    requires IsReadable(field)
    ensures AllBlocks(NamesIn(field).ipAddressRanges)
  {
    forall r | r in NamesIn(field).ipAddressRanges
      ensures exists k: nat :: IsBlock(r, k)
    {
      assert forall i :: 0 <= i < |field.subtrees| ==> SubtreeOk(field.subtrees[i]);
      var k := ParsedRangeIsBlock(Bases(field.subtrees), r);
      assert IsBlock(r, k);
    }
  }

  lemma MatchesIsInSomeBlock(ip: Bytes, ranges: seq<(Bytes, Bytes)>)
    requires AllBlocks(ranges)
    ensures (exists r <- ranges :: Matches(ip, r.0, r.1)) <==> InSomeBlock(ip, ranges)
  {
    if r :| r in ranges && Matches(ip, r.0, r.1) {
      var k: nat :| IsBlock(r, k);
      BlockMatches(r.0, k, ip);
      assert InBlock(ip, r, k);
    }
    if r, k: nat :| r in ranges && InBlock(ip, r, k) {
      BlockMatches(r.0, k, ip);
    }
  }

  /**
   An address is permitted by a parsed extension exactly when it lies in no excluded CIDR block and,
   if there are permitted ones, in one of those.
   */
  lemma PermittedIpIsByBlocks(c: Constraints, value: ExtensionValue, ip: Bytes)
    requires value.Fields? && IsReadable(value.permitted) && IsReadable(value.excluded)
    requires c.permitted == NamesIn(value.permitted) && c.excluded == NamesIn(value.excluded)
    ensures PermittedIp(c, ip) <==>
            && !InSomeBlock(ip, c.excluded.ipAddressRanges)
            && (c.permitted.ipAddressRanges != [] ==> InSomeBlock(ip, c.permitted.ipAddressRanges))
  {
    ParsedAreBlocks(value.permitted);
    ParsedAreBlocks(value.excluded);
    MatchesIsInSomeBlock(ip, c.permitted.ipAddressRanges);
    MatchesIsInSomeBlock(ip, c.excluded.ipAddressRanges);
    if value.permitted.Present? {
      assert forall i :: 0 <= i < |value.permitted.subtrees| ==> SubtreeOk(value.permitted.subtrees[i]);
      CollectedIsCoherent(Bases(value.permitted.subtrees), AddressAndNetmask);
    }
  }

  // ---- Wildcards in certificates ----

  lemma LongerThanAll(xs: seq<string>) returns (n: nat)
    ensures forall x <- xs :: |x| <= n
  {
    n := 0;
    for i := 0 to |xs|
      invariant forall x <- xs[..i] :: |x| <= n
    {
      n := if |xs[i]| > n then |xs[i]| else n;
    }
  }

  lemma FirstLabelIsShort(constraint: string)
    ensures |Labels(constraint)[0]| <= |constraint|
  {
  }

  /** A host label too long to be the first label of any of the constraints. */
  lemma FreshLabel(name: string, constraints: seq<string>) returns (l: string)
    requires IsWildcard(name)
    ensures IsHostLabel(l) && forall x <- constraints :: !NamesChild(name, x, l)
  {
    var n := LongerThanAll(constraints);
    l := seq(n + 2, i => 'a');
    assert l[1] == 'a';
    forall x | x in constraints
      ensures !NamesChild(name, x, l)
    {
      FirstLabelIsShort(x);
    }
  }

  lemma NotAWildcard(name: string, l: string)
    requires IsWildcard(name) && IsHostLabel(l)
    ensures !IsWildcard(Expand(name, l))
  {
    var e := StripDot(Expand(name, l));
    assert e[0] == l[0];
    assert |l| > 1 ==> e[1] == l[1];
  }

  /** For an expansion by a host label, both ways of matching are membership in the subtree. */
  lemma HostMatchIsSubtree(name: string, l: string, constraint: string, wildcards: WildcardMatch)
    requires IsWildcard(name) && IsHostLabel(l)
    ensures DnsNameMatches(Expand(name, l), constraint, wildcards) <==> InSubtree(Expand(name, l), constraint)
  {
    NotAWildcard(name, l);
    FullMatchIsSubtree(Expand(name, l), constraint);
  }

  lemma HostIsPermitted(c: Constraints, name: string, l: string)
    requires IsWildcard(name) && PermittedDns(c, name) && IsHostLabel(l)
    requires forall x <- c.permitted.dnsNames :: !SpellsWildcard(name, x)
    ensures PermittedDns(c, Expand(name, l))
  {
    PermittedWildcardPermitsHostsIff(c, name);
  }

  /** If every host under the domain is permitted, only an exclusion of "*.d" itself can forbid "*.d". */
  lemma AllHostsPermitWildcard(c: Constraints, name: string)
    requires IsWildcard(name)
    requires forall l :: IsHostLabel(l) ==> PermittedDns(c, Expand(name, l))
    requires forall x <- c.excluded.dnsNames :: !SpellsWildcard(name, x)
    ensures PermittedDns(c, name)
  {
    AllHostsPermittedIff(c, name);
  }

  ghost predicate Spelled(name: string, constraints: seq<string>) {
    exists x <- constraints :: SpellsWildcard(name, x)
  }

  /**
   A wildcard name is permitted exactly when every host it stands for is, once constraints that
   spell out the wildcard itself are accounted for: one that is excluded forbids it, and one that is
   permitted allows it as long as no host under it is excluded.
   */
  lemma WildcardPermittedIff(c: Constraints, name: string)
    requires IsWildcard(name)
    ensures PermittedDns(c, name) <==>
            && !Spelled(name, c.excluded.dnsNames)
            && ((forall l :: IsHostLabel(l) ==> PermittedDns(c, Expand(name, l)))
                || (Spelled(name, c.permitted.dnsNames)
                    && forall x <- c.excluded.dnsNames :: !DnsNameMatches(name, x, PartialMatch)))
  {
    forall x: string
      ensures SpellsWildcard(name, x) ==>
                DnsNameMatches(name, x, FullMatch) && DnsNameMatches(name, x, PartialMatch)
    {
      FullMatchIsEveryExpansion(name, x);
      PartialMatchIsSomeExpansion(name, x);
    }
    if PermittedDns(c, name) && !Spelled(name, c.permitted.dnsNames) {
      forall l | IsHostLabel(l)
        ensures PermittedDns(c, Expand(name, l))
      {
        HostIsPermitted(c, name, l);
      }
    }
    if !Spelled(name, c.excluded.dnsNames) && forall l :: IsHostLabel(l) ==> PermittedDns(c, Expand(name, l)) {
      AllHostsPermitWildcard(c, name);
    }
  }

  /** Excluding constraints leave a wildcard's hosts alone unless one reaches past the wildcard itself. */
  lemma NoHostExcludedIff(name: string, x: string)
    requires IsWildcard(name)
    ensures (forall l :: IsHostLabel(l) ==> !DnsNameMatches(Expand(name, l), x, PartialMatch))
            <==> (DnsNameMatches(name, x, PartialMatch) ==> SpellsWildcard(name, x))
  {
    PartialMatchIsSomeExpansion(name, x);
    FullMatchIsEveryExpansion(name, x);
    if DnsNameMatches(name, x, PartialMatch) && !SpellsWildcard(name, x) {
      var l :| IsHostLabel(l) && InSubtree(Expand(name, l), x);
      HostMatchIsSubtree(name, l, x, PartialMatch);
    }
    forall l | IsHostLabel(l) && DnsNameMatches(Expand(name, l), x, PartialMatch)
      ensures DnsNameMatches(name, x, PartialMatch) && !SpellsWildcard(name, x)
    {
      HostMatchIsSubtree(name, l, x, PartialMatch);
      SpellingCoversNoHost(name, x, l);
    }
  }

  /** Some permitted constraint holds all the hosts under the wildcard: it matches without spelling it. */
  ghost predicate HostsCovered(name: string, constraints: seq<string>) {
    exists x <- constraints :: DnsNameMatches(name, x, FullMatch) && !SpellsWildcard(name, x)
  }

  lemma HostsCoveredIff(name: string, constraints: seq<string>)
    requires IsWildcard(name)
    ensures (forall l :: IsHostLabel(l) ==> exists x <- constraints :: DnsNameMatches(Expand(name, l), x, FullMatch))
            <==> HostsCovered(name, constraints)
  {
    if HostsCovered(name, constraints) {
      var x :| x in constraints && DnsNameMatches(name, x, FullMatch) && !SpellsWildcard(name, x);
      FullMatchIsEveryExpansion(name, x);
      forall l | IsHostLabel(l)
        ensures DnsNameMatches(Expand(name, l), x, FullMatch)
      {
        HostMatchIsSubtree(name, l, x, FullMatch);
      }
    }
    var l := FreshLabel(name, constraints);
    if x :| x in constraints && DnsNameMatches(Expand(name, l), x, FullMatch) {
      HostMatchIsSubtree(name, l, x, FullMatch);
      ExpansionInSubtree(name, x, l);
      AllExpansionsIsCovers(name, x);
      FullMatchIsEveryExpansion(name, x);
      SpellingCoversNoHost(name, x, l);
    }
  }

  /**
   When every host of a wildcard is permitted, over all constraint lists: no exclusion reaches a host,
   and some permitted constraint, not merely the wildcard spelled out, holds them all.
   */
  lemma AllHostsPermittedIff(c: Constraints, name: string)
    requires IsWildcard(name)
    ensures (forall l :: IsHostLabel(l) ==> PermittedDns(c, Expand(name, l))) <==>
            && (forall x <- c.excluded.dnsNames :: DnsNameMatches(name, x, PartialMatch) ==> SpellsWildcard(name, x))
            && (DnsName in c.permitted.presentNameTypes ==> HostsCovered(name, c.permitted.dnsNames))
  {
    forall x | x in c.excluded.dnsNames
      ensures (forall l :: IsHostLabel(l) ==> !DnsNameMatches(Expand(name, l), x, PartialMatch))
              <==> (DnsNameMatches(name, x, PartialMatch) ==> SpellsWildcard(name, x))
    {
      NoHostExcludedIff(name, x);
    }
    HostsCoveredIff(name, c.permitted.dnsNames);
  }

  /**
   When a permitted wildcard permits its hosts: exactly when some permitted constraint matches the
   wildcard without spelling it, or DNS names are not restricted to permitted constraints at all.
   */
  lemma PermittedWildcardPermitsHostsIff(c: Constraints, name: string)
    requires IsWildcard(name) && PermittedDns(c, name)
    ensures (forall l :: IsHostLabel(l) ==> PermittedDns(c, Expand(name, l))) <==>
            (DnsName in c.permitted.presentNameTypes ==>
               exists x <- c.permitted.dnsNames :: DnsNameMatches(name, x, FullMatch) && !SpellsWildcard(name, x))
  {
    AllHostsPermittedIff(c, name);
  }

  /** A permitted constraint "*.a" lets the name "*.a" through although it permits no host under "a". */
  lemma SpelledWildcardCounterexample()
    ensures var c := Constraints(NO_NAMES.(dnsNames := ["*.a"], presentNameTypes := {DnsName}), NO_NAMES, {DnsName});
            IsWildcard("*.a") && PermittedDns(c, "*.a") && IsHostLabel("b") && !PermittedDns(c, Expand("*.a", "b"))
  {
    var star, host := "*.a", Expand("*.a", "b");
    assert StripDot(star) == star && IsWildcard(star) && IsHostLabel("b");
    FullMatchIsEveryExpansion(star, star);
    SpellingCoversNoHost(star, star, "b");
    HostMatchIsSubtree(star, "b", star, FullMatch);
  }

  // ---- E-mail addresses ----

  /** Ignoring the case of local parts, as for addresses in the subject, only forbids more. */
  lemma IgnoringCaseForbidsMore(c: Constraints, name: string)
    requires PermittedRfc822(c, name, true)
    ensures PermittedRfc822(c, name, false)
  {
    var parts := SplitString(name, '@');
    forall x | x in c.excluded.rfc822Names
      ensures !Rfc822NameMatches(parts[0], parts[1], x, Excluded, false)
    {
      MatchIsScope(parts[0], parts[1], x, Excluded, false);
      MatchIsScope(parts[0], parts[1], x, Excluded, true);
    }
  }

  /** Spelling the domain in another case never changes the decision. */
  lemma DomainCaseIsIrrelevant(c: Constraints, localPart: string, domain: string, domain': string, ignoreCase: bool)
    requires IsAllowedLocalPart(localPart) && IsAllowedDomain(domain) && IsAllowedDomain(domain')
    requires EqualNoCase(domain, domain') && PermittedRfc822(c, localPart + "@" + domain, ignoreCase)
    ensures PermittedRfc822(c, localPart + "@" + domain', ignoreCase)
  {
    NoAtSign(localPart);
    NoAtSign(domain);
    NoAtSign(domain');
    SplitMailbox(localPart, domain);
    SplitMailbox(localPart, domain');
    forall x: string, matchType: MatchType, ignore: bool
      ensures Rfc822NameMatches(localPart, domain, x, matchType, ignore) <==>
              Rfc822NameMatches(localPart, domain', x, matchType, ignore)
    {
      MatchIsScope(localPart, domain, x, matchType, ignore);
      MatchIsScope(localPart, domain', x, matchType, ignore);
    }
  }
}
