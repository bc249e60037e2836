/**
 The RFC 2253 printer of pki/parse_name.cc and a reader that undoes it (sections 2 and 3 of
 RFC 2253): printing loses neither attributes, nor their order, nor any byte of a value.
 */
module Rfc2253 {
  import opened Wrappers
  import opened Der
  import opened Strings
  import opened OidText

  datatype Tag = Ia5String | PrintableString | T61String | Utf8String | UniversalString | BmpString | OtherTag

  datatype Attribute = Attribute(typeOid: Input, tag: Tag, value: Input)

  type Rdn = seq<Attribute>

  /** ParseUniversalString and ParseBmpString: the value as UTF-8, unless it is malformed. */
  datatype Decoders = Decoders(universal: Input -> Option<Input>, bmp: Input -> Option<Input>)

  // ---- The printer ----

  /** The attribute types that have a short name. */
  function ShortName(oid: Input): Option<string> {
    if oid == [0x55, 0x04, 0x03] then Some("CN")
    else if oid == [0x55, 0x04, 0x04] then Some("SN")
    else if oid == [0x55, 0x04, 0x06] then Some("C")
    else if oid == [0x55, 0x04, 0x07] then Some("L")
    else if oid == [0x55, 0x04, 0x08] then Some("ST")
    else if oid == [0x55, 0x04, 0x0a] then Some("O")
    else if oid == [0x55, 0x04, 0x0b] then Some("OU")
    else if oid == [0x55, 0x04, 0x2a] then Some("givenName")
    else if oid == [0x2A, 0x86, 0x48, 0x86, 0xF7, 0x0D, 0x01, 0x09, 0x01] then Some("emailAddress")
    else None
  }

  /** ValueAsStringUnsafe. */
  function ValueAsString(d: Decoders, a: Attribute): Option<Input> {
    match a.tag
    case UniversalString => d.universal(a.value)
    case BmpString => d.bmp(a.value)
    case OtherTag => None
    case _ => Some(a.value)
  }

  function HexDigit(n: nat): char
    requires n < 16
  {
    if n < 10 then ('0' as int + n) as char else ('A' as int + n - 10) as char
  }

  function HexByte(b: byte): string {
    [HexDigit(b / 16), HexDigit(b % 16)]
  }

  function HexEncode(s: Input): string {
    if s == [] then "" else HexByte(s[0]) + HexEncode(s[1..])
  }

  predicate IsSpecial(c: char) {
    c == ',' || c == '+' || c == '"' || c == '\\' || c == '<' || c == '>' || c == ';'
  }

  predicate IsNonprintable(b: byte) {
    b < 32 || b > 126
  }

  /** What the loop appends for the i-th byte of the text. */
  function EscapeAt(text: Input, i: nat): string
    requires i < |text|
  {
    var b := text[i];
    var c := b as char;
    if i == 0 && c == '#' then "\\#"
    else if i == 0 && c == ' ' then "\\ "
    else if i == |text| - 1 && c == ' ' then "\\ "
    else if IsSpecial(c) then "\\" + [c]
    else if IsNonprintable(b) then "\\" + HexByte(b)
    else [c]
  }

  function EscapeFrom(text: Input, i: nat): string
    requires i <= |text|
    decreases |text| - i
  {
    if i == |text| then "" else EscapeAt(text, i) + EscapeFrom(text, i + 1)
  }

  ghost predicate HasNonprintable(text: Input) {
    exists b <- text :: IsNonprintable(b)
  }

  /** What an attribute's printed value stands for: text, or the value's raw bytes. */
  datatype Content = Plain(text: Input) | Raw(value: Input)

  ghost function ContentOf(d: Decoders, a: Attribute): Option<Content> {
    if ShortName(a.typeOid).None? then Some(Raw(a.value))
    else
      var text := ValueAsString(d, a);
      if text.None? then None
      else if HasNonprintable(text.value) && a.tag == T61String then Some(Raw(a.value))
      else Some(Plain(text.value))
  }

  ghost function LabelOf(a: Attribute): string {
    if ShortName(a.typeOid).Some? then ShortName(a.typeOid).value else OidToString(a.typeOid)
  }

  ghost function PrintContent(c: Content): string {
    match c
    case Plain(text) => EscapeFrom(text, 0)
    case Raw(value) => "#" + HexEncode(value)
  }

  ghost function PrintAttribute(d: Decoders, a: Attribute): Option<string> {
    if LabelOf(a) == "" || ContentOf(d, a).None? then None
    else Some(LabelOf(a) + "=" + PrintContent(ContentOf(d, a).value))
  }

  /** The escapes of the first i bytes, as the loop builds them up. */
  ghost function EscapeUpTo(text: Input, i: nat): string
    requires i <= |text|
  {
    if i == 0 then "" else EscapeUpTo(text, i - 1) + EscapeAt(text, i - 1)
  }

  lemma {:induction false} EscapeMeets(text: Input, i: nat)
    requires i <= |text|
    ensures EscapeUpTo(text, i) + EscapeFrom(text, i) == EscapeFrom(text, 0)
  {
    if i > 0 {
      EscapeMeets(text, i - 1);
      ConcatAssociates(EscapeUpTo(text, i - 1), EscapeAt(text, i - 1), EscapeFrom(text, i));
    }
  }

  /** The escaping loop of AsRFC2253String. */
  method Escape(text: Input) returns (valueString: string, nonprintable: bool)
    ensures valueString == EscapeFrom(text, 0)
    ensures nonprintable <==> HasNonprintable(text)
  {
    valueString, nonprintable := "", false;
    for i := 0 to |text|
      invariant valueString == EscapeUpTo(text, i)
      invariant nonprintable <==> exists j :: 0 <= j < i && IsNonprintable(text[j])
    {
      var piece, isHex := EscapeByte(text, i);
      valueString := valueString + piece;
      nonprintable := nonprintable || isHex;
    }
    EscapeMeets(text, |text|);
  }

  /** The body of the escaping loop: what it appends, and whether that is a hex pair. */
  method EscapeByte(text: Input, i: nat) returns (piece: string, nonprintable: bool)
    requires i < |text|
    ensures piece == EscapeAt(text, i) && (nonprintable <==> IsNonprintable(text[i]))
  {
    var b := text[i];
    var c := b as char;
    nonprintable := false;
    if i == 0 && c == '#' {
      piece := "\\#";
    } else if i == 0 && c == ' ' {
      piece := "\\ ";
    } else if i == |text| - 1 && c == ' ' {
      piece := "\\ ";
    } else if IsSpecial(c) {
      piece := "\\" + [c];
    } else if IsNonprintable(b) {
      nonprintable := true;
      piece := "\\" + HexByte(b);
    } else {
      piece := [c];
    }
  }

  /** X509NameAttribute::AsRFC2253String. */
  method AsRfc2253String(d: Decoders, a: Attribute) returns (out: Option<string>)
    ensures out == PrintAttribute(d, a)
  {
    var typeString, valueString := "", "";
    var short := ShortName(a.typeOid);
    if short.Some? {
      typeString := short.value;
    } else {
      typeString := OidToString(a.typeOid);
      if typeString == "" {
        return None;
      }
      valueString := "#" + HexEncode(a.value);
    }

    if valueString == "" {
      var unescaped := ValueAsString(d, a);
      if unescaped.None? {
        return None;
      }
      var nonprintable;
      valueString, nonprintable := Escape(unescaped.value);
      if nonprintable && a.tag == T61String {
        valueString := "#" + HexEncode(a.value);
      }
    }
    return Some(typeString + "=" + valueString);
  }

  /** Appends a piece, with a separator unless nothing has been printed yet. */
  function Glue(printed: string, sep: char, piece: string): string {
    (if printed == "" then "" else printed + [sep]) + piece
  }

  ghost function GlueAll(pieces: seq<string>, sep: char): string {
    if pieces == [] then ""
    else Glue(GlueAll(pieces[..|pieces| - 1], sep), sep, pieces[|pieces| - 1])
  }

  /** The printed attributes of an RDN, if all of them print. */
  ghost function PrintAttributes(d: Decoders, rdn: Rdn): Option<seq<string>> {
    if rdn == [] then Some([])
    else
      var front, last := PrintAttributes(d, rdn[..|rdn| - 1]), PrintAttribute(d, rdn[|rdn| - 1]);
      if front.None? || last.None? then None else Some(front.value + [last.value])
  }

  ghost function PrintRdn(d: Decoders, rdn: Rdn): Option<string> {
    var pieces := PrintAttributes(d, rdn);
    if pieces.None? then None else Some(GlueAll(pieces.value, '+'))
  }

  /** The printed RDNs, last one first. */
  ghost function PrintRdns(d: Decoders, rdns: seq<Rdn>): Option<seq<string>> {
    if rdns == [] then Some([])
    else
      var later, first := PrintRdns(d, rdns[1..]), PrintRdn(d, rdns[0]);
      if later.None? || first.None? then None else Some(later.value + [first.value])
  }

  ghost function PrintName(d: Decoders, rdns: seq<Rdn>): Option<string> {
    var pieces := PrintRdns(d, rdns);
    if pieces.None? then None else Some(GlueAll(pieces.value, ','))
  }

  lemma GlueLast(pieces: seq<string>, last: string, sep: char)
    ensures GlueAll(pieces + [last], sep) == Glue(GlueAll(pieces, sep), sep, last)
  {
    assert (pieces + [last])[..|pieces|] == pieces;
  }

  lemma {:induction false} AttributesFail(d: Decoders, rdn: Rdn, i: nat)
    requires i < |rdn| && PrintAttribute(d, rdn[i]).None?
    ensures PrintAttributes(d, rdn).None?
  {
    if i < |rdn| - 1 {
      AttributesFail(d, rdn[..|rdn| - 1], i);
    }
  }

  lemma {:induction false} RdnsFail(d: Decoders, rdns: seq<Rdn>, i: nat)
    requires i < |rdns| && PrintRdn(d, rdns[i]).None?
    ensures PrintRdns(d, rdns).None?
  {
    if i > 0 {
      RdnsFail(d, rdns[1..], i - 1);
    }
  }

  /** Printing an RDN from left to right. */
  lemma PrintRdnUpTo(d: Decoders, rdn: Rdn, j: nat)
    requires j < |rdn|
    ensures var front, last := PrintRdn(d, rdn[..j]), PrintAttribute(d, rdn[j]);
            PrintRdn(d, rdn[..j + 1]) ==
            if front.None? || last.None? then None else Some(Glue(front.value, '+', last.value))
  {
    assert rdn[..j + 1][..j] == rdn[..j];
    var pieces, last := PrintAttributes(d, rdn[..j]), PrintAttribute(d, rdn[j]);
    if pieces.Some? && last.Some? {
      GlueLast(pieces.value, last.value, '+');
    }
  }

  /** Printing a name from right to left. */
  lemma PrintNameFrom(d: Decoders, rdns: seq<Rdn>, k: nat)
    requires k < |rdns|
    ensures var later, first := PrintName(d, rdns[k + 1..]), PrintRdn(d, rdns[k]);
            PrintName(d, rdns[k..]) ==
            if later.None? || first.None? then None else Some(Glue(later.value, ',', first.value))
  {
    assert rdns[k..][1..] == rdns[k + 1..];
    var pieces, first := PrintRdns(d, rdns[k + 1..]), PrintRdn(d, rdns[k]);
    if pieces.Some? && first.Some? {
      GlueLast(pieces.value, first.value, ',');
    }
  }

  /** The inner loop of ConvertToRFC2253: one RDN, its attributes in order. */
  method ConvertRdn(d: Decoders, rdn: Rdn) returns (out: Option<string>)
    ensures out == PrintRdn(d, rdn)
  {
    var rdnString := "";
    for j := 0 to |rdn|
      invariant PrintRdn(d, rdn[..j]) == Some(rdnString)
    {
      PrintRdnUpTo(d, rdn, j);
      if rdnString != "" {
        rdnString := rdnString + "+";
      }
      var atv := AsRfc2253String(d, rdn[j]);
      if atv.None? {
        AttributesFail(d, rdn, j);
        return None;
      }
      rdnString := rdnString + atv.value;
    }
    assert rdn[..|rdn|] == rdn;
    return Some(rdnString);
  }

  /** ConvertToRFC2253, from the last RDN to the first. */
  method ConvertToRfc2253(d: Decoders, rdns: seq<Rdn>) returns (out: Option<string>)
    ensures out == PrintName(d, rdns)
  {
    var rdnsString := "";
    var size := |rdns|;
    for i := 0 to size
      invariant PrintName(d, rdns[size - i..]) == Some(rdnsString)
    {
      var k := size - i - 1;
      PrintNameFrom(d, rdns, k);
      var rdnString := ConvertRdn(d, rdns[k]);
      if rdnString.None? {
        RdnsFail(d, rdns, k);
        return None;
      }
      if rdnsString != "" {
        rdnsString := rdnsString + ",";
      }
      rdnsString := rdnsString + rdnString.value;
    }
    assert rdns[0..] == rdns;
    return Some(rdnsString);
  }
}
