/**
 GeneralNames of pki/general_names.cc (section 4.2.1.6 of RFC 5280): what parsing a list of names
 collects, and for name constraints, that every address range it lets through is a CIDR block.
 */
module GeneralNames {
  import opened Wrappers
  import opened Der
  import opened IpUtil

  datatype NameType =
    | OtherName | Rfc822Name | DnsName | X400Address | DirectoryName
    | EdiPartyName | UniformResourceIdentifier | IpAddress | RegisteredId

  /** A name by its tag. A directory name is what the SEQUENCE in it holds, if there is one. */
  datatype GeneralName =
    | Unreadable
    | UnknownTag
    | Rfc822(value: Input)
    | Dns(value: Input)
    | Directory(sequence: Option<Input>)
    | Uri(value: Input)
    | Ip(octets: Bytes)
    | Unsupported(kind: UnsupportedKind)

  datatype UnsupportedKind = OtherNameKind | X400Kind | EdiPartyKind | RegisteredIdKind

  /** Whether addresses come alone, as in subjectAltName, or with a netmask, as in name constraints. */
  datatype IpForm = AddressOnly | AddressAndNetmask

  /** The parts of a parsed GeneralNames that name constraints look at. */
  datatype GeneralNames = GeneralNames(
    rfc822Names: seq<string>,
    dnsNames: seq<string>,
    directoryNames: seq<Input>,
    ipAddresses: seq<Bytes>,
    ipAddressRanges: seq<(Bytes, Bytes)>,
    presentNameTypes: set<NameType>)

  const NO_NAMES := GeneralNames([], [], [], [], [], {})

  function TypeOf(n: GeneralName): Option<NameType> {
    match n
    case Unreadable => None
    case UnknownTag => None
    case Rfc822(_) => Some(Rfc822Name)
    case Dns(_) => Some(DnsName)
    case Directory(_) => Some(DirectoryName)
    case Uri(_) => Some(UniformResourceIdentifier)
    case Ip(_) => Some(IpAddress)
    case Unsupported(OtherNameKind) => Some(OtherName)
    case Unsupported(X400Kind) => Some(X400Address)
    case Unsupported(EdiPartyKind) => Some(EdiPartyName)
    case Unsupported(RegisteredIdKind) => Some(RegisteredId)
  }

  predicate IsAscii(s: Input) {
    forall b <- s :: b < 128
  }

  /** BytesAsStringView. */
  function AsText(s: Input): string {
    seq(|s|, i requires 0 <= i < |s| => s[i] as char)
  }

  function FirstHalf(s: Bytes): Bytes {
    s[..|s| / 2]
  }

  function SecondHalf(s: Bytes): Bytes {
    s[|s| / 2..]
  }

  ghost predicate IsAddress(s: Bytes) {
    |s| == IPV4_ADDRESS_SIZE || |s| == IPV6_ADDRESS_SIZE
  }

  /** An address, and after it a mask of the same size: ones, then zeros. */
  ghost predicate IsRange(s: Bytes) {
    |s| % 2 == 0 && IsAddress(FirstHalf(s)) && IsPrefixMask(SecondHalf(s))
  }

  ghost predicate IsAcceptable(n: GeneralName, form: IpForm) {
    && !n.Unreadable? && !n.UnknownTag?
    && (n.Rfc822? || n.Dns? || n.Uri? ==> IsAscii(n.value))
    && (n.Directory? ==> n.sequence.Some?)
    && (n.Ip? ==> if form.AddressOnly? then IsAddress(n.octets) else IsRange(n.octets))
  }

  ghost predicate AllAcceptable(ns: seq<GeneralName>, form: IpForm) {
    forall i :: 0 <= i < |ns| ==> IsAcceptable(ns[i], form)
  }

  /** The strings of the given type, in order. */
  ghost function TextsOf(ns: seq<GeneralName>, t: NameType): seq<string> {
    if ns == [] then []
    else
      var last := ns[|ns| - 1];
      TextsOf(ns[..|ns| - 1], t) +
      if (last.Rfc822? || last.Dns?) && TypeOf(last) == Some(t) then [AsText(last.value)] else []
  }

  ghost function DirectoriesOf(ns: seq<GeneralName>): seq<Input> {
    if ns == [] then []
    else
      var last := ns[|ns| - 1];
      DirectoriesOf(ns[..|ns| - 1]) + if last.Directory? && last.sequence.Some? then [last.sequence.value] else []
  }

  ghost function OctetsOf(ns: seq<GeneralName>): seq<Bytes> {
    if ns == [] then []
    else OctetsOf(ns[..|ns| - 1]) + if ns[|ns| - 1].Ip? then [ns[|ns| - 1].octets] else []
  }

  ghost function RangesOf(octets: seq<Bytes>): seq<(Bytes, Bytes)> {
    seq(|octets|, i requires 0 <= i < |octets| => (FirstHalf(octets[i]), SecondHalf(octets[i])))
  }

  /** Everything in a list of names, each kind in its own list and in order. */
  ghost function Collected(ns: seq<GeneralName>, form: IpForm): GeneralNames {
    GeneralNames(
      TextsOf(ns, Rfc822Name), TextsOf(ns, DnsName), DirectoriesOf(ns),
      if form.AddressOnly? then OctetsOf(ns) else [],
      if form.AddressOnly? then [] else RangesOf(OctetsOf(ns)),
      set n <- ns | TypeOf(n).Some? :: TypeOf(n).value)
  }

  lemma CollectedSnoc(ns: seq<GeneralName>, n: GeneralName, form: IpForm)
    requires IsAcceptable(n, form)
    ensures var c, c' := Collected(ns, form), Collected(ns + [n], form);
            && c'.rfc822Names == c.rfc822Names + (if n.Rfc822? then [AsText(n.value)] else [])
            && c'.dnsNames == c.dnsNames + (if n.Dns? then [AsText(n.value)] else [])
            && c'.directoryNames == c.directoryNames + (if n.Directory? then [n.sequence.value] else [])
            && c'.ipAddresses == c.ipAddresses + (if n.Ip? && form.AddressOnly? then [n.octets] else [])
            && c'.ipAddressRanges == c.ipAddressRanges +
               (if n.Ip? && !form.AddressOnly? then [(FirstHalf(n.octets), SecondHalf(n.octets))] else [])
            && c'.presentNameTypes == c.presentNameTypes + {TypeOf(n).value}
  {
    assert (ns + [n])[..|ns|] == ns;
    assert forall m :: m in ns + [n] <==> m in ns || m == n;
  }

  /** ParseGeneralName adds one name to those collected, if it is acceptable. */
  method ParseGeneralName(n: GeneralName, form: IpForm, names: GeneralNames, ghost before: seq<GeneralName>)
    returns (ok: bool, out: GeneralNames)
    requires names == Collected(before, form)
    ensures ok <==> IsAcceptable(n, form)
    ensures ok ==> out == Collected(before + [n], form)
  {
    out := names;
    if IsAcceptable(n, form) {
      CollectedSnoc(before, n, form);
    }
    match n {
      case Unreadable => return false, out;
      case UnknownTag => return false, out;
      case Rfc822(value) =>
        if !IsAscii(value) {
          return false, out;
        }
        out := out.(rfc822Names := out.rfc822Names + [AsText(value)]);
      case Dns(value) =>
        if !IsAscii(value) {
          return false, out;
        }
        out := out.(dnsNames := out.dnsNames + [AsText(value)]);
      case Directory(sequence) =>
        if sequence.None? {
          return false, out;
        }
        out := out.(directoryNames := out.directoryNames + [sequence.value]);
      case Uri(value) =>
        if !IsAscii(value) {
          return false, out;
        }
      case Ip(octets) =>
        if form.AddressOnly? {
          if |octets| != IPV4_ADDRESS_SIZE && |octets| != IPV6_ADDRESS_SIZE {
            return false, out;
          }
          out := out.(ipAddresses := out.ipAddresses + [octets]);
        } else {
          if |octets| != IPV4_ADDRESS_SIZE * 2 && |octets| != IPV6_ADDRESS_SIZE * 2 {
            return false, out;
          }
          var address, mask := octets[..|octets| / 2], octets[|octets| / 2..];
          var valid := IsValidNetmask(mask);
          if !valid {
            return false, out;
          }
          out := out.(ipAddressRanges := out.ipAddressRanges + [(address, mask)]);
        }
      case Unsupported(_) =>
    }
    out := out.(presentNameTypes := out.presentNameTypes + {TypeOf(n).value});
    return true, out;
  }

  /** A supported type is marked present exactly when its list is not empty; no name is listed twice. */
  ghost predicate IsCoherent(c: GeneralNames, count: nat) {
    && (DnsName in c.presentNameTypes <==> c.dnsNames != [])
    && (Rfc822Name in c.presentNameTypes <==> c.rfc822Names != [])
    && (DirectoryName in c.presentNameTypes <==> c.directoryNames != [])
    && (IpAddress in c.presentNameTypes <==> c.ipAddresses != [] || c.ipAddressRanges != [])
    && |c.rfc822Names| + |c.dnsNames| + |c.directoryNames| + |c.ipAddresses| + |c.ipAddressRanges| <= count
  }

  lemma SnocKeepsCoherent(ns: seq<GeneralName>, n: GeneralName, form: IpForm)
    requires IsAcceptable(n, form) && IsCoherent(Collected(ns, form), |ns|)
    ensures IsCoherent(Collected(ns + [n], form), |ns| + 1)
  {
    CollectedSnoc(ns, n, form);
  }

  lemma {:induction false} CollectedIsCoherent(ns: seq<GeneralName>, form: IpForm)
    requires AllAcceptable(ns, form)
    ensures IsCoherent(Collected(ns, form), |ns|)
  {
    if ns != [] {
      CollectedIsCoherent(ns[..|ns| - 1], form);
      SnocKeepsCoherent(ns[..|ns| - 1], ns[|ns| - 1], form);
      assert ns == ns[..|ns| - 1] + [ns[|ns| - 1]];
    }
  }

  lemma {:induction false} OctetsAreFromNames(ns: seq<GeneralName>, octets: Bytes)
    requires octets in OctetsOf(ns)
    ensures Ip(octets) in ns
  {
    var front, last := ns[..|ns| - 1], ns[|ns| - 1];
    if octets in OctetsOf(front) {
      OctetsAreFromNames(front, octets);
    }
  }

  /** A range in the form parsing demands is a CIDR block. */
  lemma RangeIsBlock(s: Bytes) returns (k: nat)
    requires IsRange(s)
    ensures var n := |FirstHalf(s)|; k <= 8 * n && SecondHalf(s) == PrefixMask(n, k)
  {
    var n := |FirstHalf(s)|;
    assert |SecondHalf(s)| == n;
    k :| k <= 8 * n && SecondHalf(s) == PrefixMask(n, k);
  }

  lemma BlockMatches(address: Bytes, k: nat, ip: Bytes)
    requires k <= 8 * |address|
    ensures Matches(ip, address, PrefixMask(|address|, k)) <==>
            |ip| == |address| && SameBlock(Value(ip), Value(address), 8 * |address| - k)
  {
    if |ip| == |address| {
      MatchIsSameBlock(ip, address, |address|, k);
    }
  }

  /** Every range that parsing lets through is a CIDR block of the address's own family. */
  lemma ParsedRangeIsBlock(ns: seq<GeneralName>, range: (Bytes, Bytes)) returns (k: nat)
    requires AllAcceptable(ns, AddressAndNetmask) && range in Collected(ns, AddressAndNetmask).ipAddressRanges
    ensures IsAddress(range.0) && k <= 8 * |range.0| && range.1 == PrefixMask(|range.0|, k)
    ensures forall ip: Bytes :: Matches(ip, range.0, range.1) <==>
              |ip| == |range.0| && SameBlock(Value(ip), Value(range.0), 8 * |range.0| - k)
  {
    var s := RangeIsParsed(ns, range);
    k := RangeIsBlock(s);
    forall ip: Bytes
      ensures Matches(ip, range.0, range.1) <==>
                |ip| == |range.0| && SameBlock(Value(ip), Value(range.0), 8 * |range.0| - k)
    {
      BlockMatches(range.0, k, ip);
    }
  }

  lemma RangeIsParsed(ns: seq<GeneralName>, range: (Bytes, Bytes)) returns (s: Bytes)
    requires AllAcceptable(ns, AddressAndNetmask) && range in Collected(ns, AddressAndNetmask).ipAddressRanges
    ensures IsRange(s) && range == (FirstHalf(s), SecondHalf(s))
  {
    var all := OctetsOf(ns);
    var i :| 0 <= i < |all| && range == (FirstHalf(all[i]), SecondHalf(all[i]));
    s := all[i];
    OctetsAreFromNames(ns, s);
  }

  /** CreateFromValue: the names of a subjectAltName, of which there must be at least one. */
  method CreateFromValue(ns: seq<GeneralName>) returns (out: Option<GeneralNames>)
    ensures out.Some? <==> ns != [] && AllAcceptable(ns, AddressOnly)
    ensures out.Some? ==> out.value == Collected(ns, AddressOnly)
  {
    if ns == [] {
      return None;
    }
    var names := NO_NAMES;
    for i := 0 to |ns|
      invariant AllAcceptable(ns[..i], AddressOnly) && names == Collected(ns[..i], AddressOnly)
    {
      var ok;
      assert ns[..i + 1] == ns[..i] + [ns[i]];
      ok, names := ParseGeneralName(ns[i], AddressOnly, names, ns[..i]);
      if !ok {
        return None;
      }
    }
    assert ns[..|ns|] == ns;
    return Some(names);
  }

  // ---- Acceptance and collection, name by name ----

  lemma AcceptableTextIs(v: Input, form: IpForm)
    ensures IsAcceptable(Rfc822(v), form) <==> forall i :: 0 <= i < |v| ==> v[i] <= 127
    ensures IsAcceptable(Dns(v), form) <==> forall i :: 0 <= i < |v| ==> v[i] <= 127
    ensures IsAcceptable(Uri(v), form) <==> forall i :: 0 <= i < |v| ==> v[i] <= 127
  {
    assert forall i :: 0 <= i < |v| ==> v[i] in v;
  }

  /** An address is 4 or 16 octets; with a netmask, 8 or 32, the second half being ones and then zeros. */
  lemma AcceptableIpIs(v: Bytes)
    ensures IsAcceptable(Ip(v), AddressOnly) <==> |v| == 4 || |v| == 16
    ensures IsAcceptable(Ip(v), AddressAndNetmask) <==>
            || (|v| == 8 && exists k: nat :: k <= 32 && v[4..] == PrefixMask(4, k))
            || (|v| == 32 && exists k: nat :: k <= 128 && v[16..] == PrefixMask(16, k))
  {
  }

  lemma AcceptableOthersAre(form: IpForm)
    ensures !IsAcceptable(Unreadable, form) && !IsAcceptable(UnknownTag, form) && !IsAcceptable(Directory(None), form)
    ensures forall v :: IsAcceptable(Directory(Some(v)), form)
    ensures forall kind :: IsAcceptable(Unsupported(kind), form)
  {
  }

  /** Characters of the text, byte for byte. */
  lemma TextIsBytes(v: Input)
    ensures |AsText(v)| == |v| && forall i :: 0 <= i < |v| ==> AsText(v)[i] as int == v[i]
  {
  }

  /** The address of a range comes first, then its mask. */
  lemma HalvesAre(v: Bytes)
    ensures |v| == 8 ==> (FirstHalf(v), SecondHalf(v)) == (v[..4], v[4..])
    ensures |v| == 32 ==> (FirstHalf(v), SecondHalf(v)) == (v[..16], v[16..])
  {
  }

  /** A list of one name collects that name under its type and nothing else. */
  lemma CollectedOne(n: GeneralName, form: IpForm)
    requires IsAcceptable(n, form)
    ensures var c := Collected([n], form);
            match n
            case Rfc822(v) => c == NO_NAMES.(rfc822Names := [AsText(v)], presentNameTypes := {Rfc822Name})
            case Dns(v) => c == NO_NAMES.(dnsNames := [AsText(v)], presentNameTypes := {DnsName})
            case Directory(v) => c == NO_NAMES.(directoryNames := [v.value], presentNameTypes := {DirectoryName})
            case Uri(_) => c == NO_NAMES.(presentNameTypes := {UniformResourceIdentifier})
            case Ip(v) =>
              c == (if form.AddressOnly? then NO_NAMES.(ipAddresses := [v], presentNameTypes := {IpAddress})
                    else NO_NAMES.(ipAddressRanges := [(v[..|v| / 2], v[|v| / 2..])], presentNameTypes := {IpAddress}))
            case Unsupported(OtherNameKind) => c == NO_NAMES.(presentNameTypes := {OtherName})
            case Unsupported(X400Kind) => c == NO_NAMES.(presentNameTypes := {X400Address})
            case Unsupported(EdiPartyKind) => c == NO_NAMES.(presentNameTypes := {EdiPartyName})
            case Unsupported(RegisteredIdKind) => c == NO_NAMES.(presentNameTypes := {RegisteredId})
            case _ => false
  {
    CollectedSnoc([], n, form);
    assert [] + [n] == [n];
    CollectedNone(form);
  }

  lemma CollectedNone(form: IpForm)
    ensures Collected([], form) == NO_NAMES
  {
    assert RangesOf([]) == [];
  }
}
