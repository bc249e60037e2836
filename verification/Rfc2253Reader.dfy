/**
 A reader for RFC 2253 names, and the proof that it undoes the printer of module Rfc2253. The
 reader knows nothing of the printer: it splits at unescaped separators, cuts at the first '=' and
 resolves escapes.
 */
module Rfc2253Reader {
  import opened Wrappers
  import opened Der
  import opened Strings
  import opened OidText
  import opened Rfc2253

  // ---- The reader ----

  /** Splits at every `sep` that no backslash escapes. */
  function SplitUnescaped(s: string, sep: char): (r: seq<string>)
    ensures r != []
    decreases |s|
  {
    if s == "" then [""]
    else if s[0] == '\\' && |s| >= 2 then
      var later := SplitUnescaped(s[2..], sep);
      [s[..2] + later[0]] + later[1..]
    else if s[0] == sep then [""] + SplitUnescaped(s[1..], sep)
    else
      var later := SplitUnescaped(s[1..], sep);
      [s[..1] + later[0]] + later[1..]
  }

  function HexValue(c: char): Option<nat> {
    if '0' <= c <= '9' then Some(c as int - '0' as int)
    else if 'A' <= c <= 'F' then Some(c as int - 'A' as int + 10)
    else None
  }

  function HexPair(hi: char, lo: char): (r: Option<byte>) {
    var h, l := HexValue(hi), HexValue(lo);
    if h.Some? && l.Some? && h.value < 16 && l.value < 16 then Some(16 * h.value + l.value) else None
  }

  function HexDecode(s: string): Option<Input> {
    if s == "" then Some([])
    else if |s| < 2 || HexPair(s[0], s[1]).None? then None
    else
      var later := HexDecode(s[2..]);
      if later.None? then None else Some([HexPair(s[0], s[1]).value] + later.value)
  }

  /** Section 2.4 of RFC 2253: the characters a backslash must stand before, by where they stand. */
  predicate MustQuote(c: char, first: bool, last: bool) {
    c in ",+\"\\<>;" || (first && (c == '#' || c == ' ')) || (last && c == ' ')
  }

  predicate IsPrintable(c: char) {
    ' ' <= c <= '~'
  }

  /**
   A backslash quotes a character that must be quoted, or introduces two hex digits for one that cannot
   be printed. Anything else that must be quoted, or cannot be printed, is refused, and so is an
   escape that is not needed.
   */
  function Unescape(s: string, first: bool): Option<Input> {
    if s == "" then Some([])
    else if s[0] == '\\' then
      if |s| >= 3 && HexPair(s[1], s[2]).Some? then
        var c := HexPair(s[1], s[2]).value as char;
        if IsPrintable(c) then None else Cons(c, Unescape(s[3..], false))
      else if |s| >= 2 && MustQuote(s[1], first, |s| == 2) then Cons(s[1], Unescape(s[2..], false))
      else None
    else if MustQuote(s[0], first, |s| == 1) || !IsPrintable(s[0]) then None
    else Cons(s[0], Unescape(s[1..], false))
  }

  function Cons(c: char, later: Option<Input>): Option<Input> {
    if c as int >= 256 || later.None? then None else Some([c as int] + later.value)
  }

  function ReadContent(s: string): Option<Content> {
    if s != "" && s[0] == '#' then
      var value := HexDecode(s[1..]);
      if value.None? then None else Some(Raw(value.value))
    else
      var text := Unescape(s, true);
      if text.None? then None else Some(Plain(text.value))
  }

  datatype Reading = Reading(typeLabel: string, content: Content)

  function ReadAttribute(s: string): Option<Reading> {
    var k := Find(s, '=');
    if k == |s| then None
    else
      var content := ReadContent(s[k + 1..]);
      if content.None? then None else Some(Reading(s[..k], content.value))
  }

  function ReadAttributes(pieces: seq<string>): Option<seq<Reading>> {
    if pieces == [] then Some([])
    else
      var front, last := ReadAttributes(pieces[..|pieces| - 1]), ReadAttribute(pieces[|pieces| - 1]);
      if front.None? || last.None? then None else Some(front.value + [last.value])
  }

  /** The RDNs behind the pieces, in the opposite order. */
  function ReadRdns(pieces: seq<string>): Option<seq<seq<Reading>>> {
    if pieces == [] then Some([])
    else
      var rdn := ReadAttributes(SplitUnescaped(pieces[|pieces| - 1], '+'));
      var later := ReadRdns(pieces[..|pieces| - 1]);
      if rdn.None? || later.None? then None else Some([rdn.value] + later.value)
  }

  function ReadName(s: string): Option<seq<seq<Reading>>> {
    if s == "" then Some([]) else ReadRdns(SplitUnescaped(s, ','))
  }

  // ---- Values ----

  lemma HexRoundTrip(b: byte)
    ensures HexPair(HexByte(b)[0], HexByte(b)[1]) == Some(b)
  {
  }

  lemma {:induction false} HexDecodeEncode(s: Input)
    ensures HexDecode(HexEncode(s)) == Some(s)
  {
    if s != [] {
      HexRoundTrip(s[0]);
      HexDecodeEncode(s[1..]);
      assert HexEncode(s)[2..] == HexEncode(s[1..]);
      assert s == [s[0]] + s[1..];
    }
  }

  lemma UnescapeStep(text: Input, i: nat, rest: string)
    requires i < |text| && (rest == "" <==> i == |text| - 1)
    ensures Unescape(EscapeAt(text, i) + rest, i == 0) == Cons(text[i] as char, Unescape(rest, false))
  {
    var e := EscapeAt(text, i);
    var s := e + rest;
    HexRoundTrip(text[i]);
    if |e| == 1 {
      assert s[1..] == rest;
    } else if |e| == 2 {
      assert s[2..] == rest;
    } else {
      assert s[3..] == rest;
    }
  }

  lemma {:induction false} UnescapeEscape(text: Input, i: nat)
    requires i <= |text|
    ensures Unescape(EscapeFrom(text, i), i == 0) == Some(text[i..])
    decreases |text| - i
  {
    if i == |text| {
      assert text[i..] == [];
    } else {
      assert i + 1 < |text| ==> |EscapeAt(text, i + 1)| > 0;
      UnescapeStep(text, i, EscapeFrom(text, i + 1));
      UnescapeEscape(text, i + 1);
      assert text[i..] == [text[i]] + text[i + 1..];
    }
  }

  lemma UnescapeOfSome(s: string, first: bool)
    requires Unescape(s, first).Some?
    ensures s == "" <==> Unescape(s, first).value == []
  {
  }

  /** One escape, recognised and taken off. */
  lemma EscapeAtHead(s: string, text: Input, i: nat) returns (rest: string)
    requires i < |text| && Unescape(s, i == 0) == Some(text[i..])
    ensures s == EscapeAt(text, i) + rest && Unescape(rest, false) == Some(text[i + 1..])
  {
    assert text[i..] == [text[i]] + text[i + 1..];
    assert [text[i]] + text[i + 1..] != [];
    var k := if s[0] != '\\' then 1 else if |s| >= 3 && HexPair(s[1], s[2]).Some? then 3 else 2;
    rest := s[k..];
    assert s == s[..k] + rest;
    assert ([text[i]] + text[i + 1..])[1..] == text[i + 1..];
    assert Unescape(rest, false) == Some(text[i + 1..]);
    UnescapeOfSome(rest, false);
    assert |s| == k <==> i == |text| - 1;
    if k == 1 {
      assert s[..1] == [text[i] as char];
    } else if k == 2 {
      assert s[..2] == "\\" + [text[i] as char];
    } else {
      HexPairIsHexByte(s[1], s[2]);
      assert s[..3] == "\\" + HexByte(text[i]);
    }
  }

  lemma HexPairIsHexByte(hi: char, lo: char)
    requires HexPair(hi, lo).Some?
    ensures HexByte(HexPair(hi, lo).value) == [hi, lo]
  {
  }

  /** The escaped text is the only one the reader takes for these bytes. */
  lemma {:induction false} EscapeIsOnlySpelling(s: string, text: Input, i: nat)
    requires i <= |text| && Unescape(s, i == 0) == Some(text[i..])
    ensures s == EscapeFrom(text, i)
    decreases |text| - i
  {
    UnescapeOfSome(s, i == 0);
    if i < |text| {
      var rest := EscapeAtHead(s, text, i);
      EscapeIsOnlySpelling(rest, text, i + 1);
    }
  }

  lemma {:induction false} HexEncodeDecode(s: string)
    requires HexDecode(s).Some?
    ensures HexEncode(HexDecode(s).value) == s
  {
    if s != "" {
      HexPairIsHexByte(s[0], s[1]);
      HexEncodeDecode(s[2..]);
      var value := HexDecode(s).value;
      assert value[1..] == HexDecode(s[2..]).value;
      assert s == [s[0], s[1]] + s[2..];
    }
  }

  /** A printed value is the only text that reads as it: printing is canonical. */
  lemma PrintUndoesRead(s: string)
    requires ReadContent(s).Some?
    ensures PrintContent(ReadContent(s).value) == s
  {
    if s != "" && s[0] == '#' {
      HexEncodeDecode(s[1..]);
      assert s == "#" + s[1..];
    } else {
      var text := Unescape(s, true).value;
      assert text[0..] == text;
      EscapeIsOnlySpelling(s, text, 0);
    }
  }

  lemma ReadPrintedContent(c: Content)
    ensures ReadContent(PrintContent(c)) == Some(c)
  {
    match c
    case Plain(text) =>
      UnescapeEscape(text, 0);
      assert text[0..] == text;
    case Raw(value) =>
      HexDecodeEncode(value);
      assert PrintContent(c)[1..] == HexEncode(value);
  }

  // ---- Splitting what was joined ----

  /** No separator and no stray backslash outside escapes. */
  ghost predicate Free(s: string, sep: char)
    decreases |s|
  {
    if s == "" then true
    else if s[0] == '\\' then |s| >= 2 && Free(s[2..], sep)
    else s[0] != sep && Free(s[1..], sep)
  }

  lemma {:induction false} FreeConcat(a: string, b: string, sep: char)
    requires Free(a, sep) && Free(b, sep)
    ensures Free(a + b, sep)
    decreases |a|
  {
    if a == "" {
      assert a + b == b;
    } else {
      var k := if a[0] == '\\' then 2 else 1;
      assert (a + b)[k..] == a[k..] + b;
      FreeConcat(a[k..], b, sep);
    }
  }

  lemma {:induction false} FreePlain(s: string, sep: char)
    requires sep !in s && '\\' !in s
    ensures Free(s, sep)
  {
    if s != "" {
      FreePlain(s[1..], sep);
    }
  }

  lemma {:induction false} SplitFree(a: string, sep: char)
    requires Free(a, sep)
    ensures SplitUnescaped(a, sep) == [a]
    decreases |a|
  {
    if a != "" {
      var k := if a[0] == '\\' then 2 else 1;
      SplitFree(a[k..], sep);
      assert a == a[..k] + a[k..];
    }
  }

  lemma {:induction false} SplitAtSeparator(a: string, sep: char, b: string)
    requires Free(a, sep) && sep != '\\'
    ensures SplitUnescaped(a + [sep] + b, sep) == [a] + SplitUnescaped(b, sep)
    decreases |a|
  {
    var s := a + [sep] + b;
    assert s == a + ([sep] + b);
    if a == "" {
      assert s[1..] == b;
    } else {
      var k := if a[0] == '\\' then 2 else 1;
      SplitAtSeparator(a[k..], sep, b);
      assert s[k..] == a[k..] + [sep] + b && s[..k] == a[..k];
      assert a == a[..k] + a[k..];
    }
  }

  lemma {:induction false} SplitJoin(pieces: seq<string>, sep: char)
    requires pieces != [] && sep != '\\' && forall i :: 0 <= i < |pieces| ==> Free(pieces[i], sep)
    ensures SplitUnescaped(Join(pieces, sep), sep) == pieces
  {
    if |pieces| == 1 {
      SplitFree(pieces[0], sep);
    } else {
      SplitJoin(pieces[1..], sep);
      SplitAtSeparator(pieces[0], sep, Join(pieces[1..], sep));
    }
  }

  lemma {:induction false} GlueAllIsJoin(pieces: seq<string>, sep: char)
    requires pieces != [] && forall i :: 0 <= i < |pieces| ==> pieces[i] != ""
    ensures GlueAll(pieces, sep) == Join(pieces, sep) && Join(pieces, sep) != ""
  {
    var n := |pieces| - 1;
    if n > 0 {
      GlueAllIsJoin(pieces[..n], sep);
      JoinAppend(pieces[..n], [pieces[n]], sep);
      assert pieces == pieces[..n] + [pieces[n]];
    }
  }

  lemma {:induction false} FreeJoin(pieces: seq<string>, glue: char, sep: char)
    requires pieces != [] && glue != sep && glue != '\\' && forall i :: 0 <= i < |pieces| ==> Free(pieces[i], sep)
    ensures Free(Join(pieces, glue), sep)
  {
    if |pieces| > 1 {
      FreeJoin(pieces[1..], glue, sep);
      FreePlain([glue], sep);
      FreeConcat(pieces[0], [glue], sep);
      FreeConcat(pieces[0] + [glue], Join(pieces[1..], glue), sep);
    }
  }

  // ---- What the printer emits ----

  ghost predicate IsSeparator(sep: char) {
    sep == ',' || sep == '+'
  }

  lemma {:induction false} EscapedIsFree(text: Input, i: nat, sep: char)
    requires i <= |text| && IsSeparator(sep)
    ensures Free(EscapeFrom(text, i), sep)
    decreases |text| - i
  {
    if i < |text| {
      EscapedIsFree(text, i + 1, sep);
      EscapeAtIsFree(text, i, sep);
      FreeConcat(EscapeAt(text, i), EscapeFrom(text, i + 1), sep);
    }
  }

  lemma EscapeAtIsFree(text: Input, i: nat, sep: char)
    requires i < |text| && IsSeparator(sep)
    ensures Free(EscapeAt(text, i), sep)
  {
    var e := EscapeAt(text, i);
    if |e| == 1 {
      assert e[1..] == "";
    } else if |e| == 2 {
      assert e[2..] == "";
    } else {
      FreePlain(e[2..], sep);
    }
  }

  lemma {:induction false} HexIsPlain(s: Input)
    ensures ',' !in HexEncode(s) && '+' !in HexEncode(s) && '\\' !in HexEncode(s)
  {
    if s != [] {
      HexIsPlain(s[1..]);
    }
  }

  lemma ContentIsFree(c: Content, sep: char)
    requires IsSeparator(sep)
    ensures Free(PrintContent(c), sep)
  {
    match c
    case Plain(text) => EscapedIsFree(text, 0, sep);
    case Raw(value) =>
      HexIsPlain(value);
      FreePlain("#" + HexEncode(value), sep);
  }

  lemma LabelIsPlain(a: Attribute)
    ensures forall c <- LabelOf(a) :: c != ',' && c != '+' && c != '\\' && c != '='
  {
    if ShortName(a.typeOid).None? {
      assert IsDotted(LabelOf(a));
    }
  }

  lemma PrintedAttributeIsFree(d: Decoders, a: Attribute, sep: char)
    requires PrintAttribute(d, a).Some? && IsSeparator(sep)
    ensures Free(PrintAttribute(d, a).value, sep) && PrintAttribute(d, a).value != ""
  {
    var prefix := LabelOf(a) + "=";
    LabelIsPlain(a);
    FreePlain(prefix, sep);
    ContentIsFree(ContentOf(d, a).value, sep);
    FreeConcat(prefix, PrintContent(ContentOf(d, a).value), sep);
  }

  lemma ReadPrintedAttribute(d: Decoders, a: Attribute)
    requires PrintAttribute(d, a).Some?
    ensures ReadAttribute(PrintAttribute(d, a).value) == Some(ReadingOf(d, a))
  {
    var s, name := PrintAttribute(d, a).value, LabelOf(a);
    LabelIsPlain(a);
    assert s[..|name|] == name && s[|name|] == '=';
    FindIsFirst(s, '=', |name|);
    assert s[|name| + 1..] == PrintContent(ContentOf(d, a).value);
    ReadPrintedContent(ContentOf(d, a).value);
  }

  /** What reading an attribute that prints should give. */
  ghost function ReadingOf(d: Decoders, a: Attribute): Reading {
    Reading(LabelOf(a), if ContentOf(d, a).Some? then ContentOf(d, a).value else Plain([]))
  }

  ghost function Readings(d: Decoders, rdn: Rdn): seq<Reading> {
    seq(|rdn|, i requires 0 <= i < |rdn| => ReadingOf(d, rdn[i]))
  }

  /** The readings a name should give: every attribute, in order, RDN by RDN. */
  ghost function NameReadings(d: Decoders, rdns: seq<Rdn>): seq<seq<Reading>> {
    seq(|rdns|, i requires 0 <= i < |rdns| => Readings(d, rdns[i]))
  }

  ghost predicate AllFree(pieces: seq<string>, sep: char) {
    forall i :: 0 <= i < |pieces| ==> pieces[i] != "" && Free(pieces[i], sep)
  }

  lemma {:induction false} PrintedAttributesAreFree(d: Decoders, rdn: Rdn, sep: char)
    requires PrintAttributes(d, rdn).Some? && IsSeparator(sep)
    ensures |PrintAttributes(d, rdn).value| == |rdn| && AllFree(PrintAttributes(d, rdn).value, sep)
  {
    if rdn != [] {
      PrintedAttributesAreFree(d, rdn[..|rdn| - 1], sep);
      PrintedAttributeIsFree(d, rdn[|rdn| - 1], sep);
    }
  }

  lemma ReadAttributesSnoc(pieces: seq<string>, last: string)
    requires ReadAttributes(pieces).Some? && ReadAttribute(last).Some?
    ensures ReadAttributes(pieces + [last]) == Some(ReadAttributes(pieces).value + [ReadAttribute(last).value])
  {
    assert (pieces + [last])[..|pieces|] == pieces;
  }

  lemma ReadingsSnoc(d: Decoders, rdn: Rdn, n: nat)
    requires |rdn| == n + 1
    ensures Readings(d, rdn) == Readings(d, rdn[..n]) + [ReadingOf(d, rdn[n])]
  {
  }

  lemma {:induction false} ReadPrintedAttributes(d: Decoders, rdn: Rdn)
    requires PrintAttributes(d, rdn).Some?
    ensures ReadAttributes(PrintAttributes(d, rdn).value) == Some(Readings(d, rdn))
  {
    if rdn == [] {
      assert Readings(d, rdn) == [];
    } else {
      var n := |rdn| - 1;
      ReadPrintedAttributes(d, rdn[..n]);
      ReadPrintedAttribute(d, rdn[n]);
      ReadAttributesSnoc(PrintAttributes(d, rdn[..n]).value, PrintAttribute(d, rdn[n]).value);
      ReadingsSnoc(d, rdn, n);
    }
  }

  lemma PrintedRdn(d: Decoders, rdn: Rdn)
    requires rdn != [] && PrintRdn(d, rdn).Some?
    ensures var s := PrintRdn(d, rdn).value;
            s != "" && Free(s, ',') && ReadAttributes(SplitUnescaped(s, '+')) == Some(Readings(d, rdn))
  {
    var pieces := PrintAttributes(d, rdn).value;
    PrintedAttributesAreFree(d, rdn, '+');
    PrintedAttributesAreFree(d, rdn, ',');
    ReadPrintedAttributes(d, rdn);
    GlueAllIsJoin(pieces, '+');
    SplitJoin(pieces, '+');
    FreeJoin(pieces, '+', ',');
  }

  lemma {:induction false} PrintedRdnsAreFree(d: Decoders, rdns: seq<Rdn>)
    requires NoEmptyRdn(rdns) && PrintRdns(d, rdns).Some?
    ensures |PrintRdns(d, rdns).value| == |rdns| && AllFree(PrintRdns(d, rdns).value, ',')
  {
    if rdns != [] {
      PrintedRdnsAreFree(d, rdns[1..]);
      PrintedRdn(d, rdns[0]);
    }
  }

  lemma ReadRdnsSnoc(pieces: seq<string>, last: string)
    ensures ReadRdns(pieces + [last]) ==
            var rdn, later := ReadAttributes(SplitUnescaped(last, '+')), ReadRdns(pieces);
            if rdn.None? || later.None? then None else Some([rdn.value] + later.value)
  {
    assert (pieces + [last])[..|pieces|] == pieces;
  }

  lemma NameReadingsCons(d: Decoders, rdns: seq<Rdn>)
    requires rdns != []
    ensures NameReadings(d, rdns) == [Readings(d, rdns[0])] + NameReadings(d, rdns[1..])
  {
  }

  lemma {:induction false} PrintedRdns(d: Decoders, rdns: seq<Rdn>)
    requires NoEmptyRdn(rdns) && PrintRdns(d, rdns).Some?
    ensures ReadRdns(PrintRdns(d, rdns).value) == Some(NameReadings(d, rdns))
  {
    if rdns == [] {
      assert NameReadings(d, rdns) == [];
    } else {
      var first, later := PrintRdn(d, rdns[0]).value, PrintRdns(d, rdns[1..]).value;
      PrintedRdns(d, rdns[1..]);
      PrintedRdn(d, rdns[0]);
      ReadRdnsSnoc(later, first);
      NameReadingsCons(d, rdns);
    }
  }

  lemma {:induction false} ReadRdnsAreNonempty(pieces: seq<string>)
    requires ReadRdns(pieces).Some?
    ensures forall i :: 0 <= i < |ReadRdns(pieces).value| ==> ReadRdns(pieces).value[i] != []
  {
    if pieces != [] {
      ReadRdnsAreNonempty(pieces[..|pieces| - 1]);
    }
  }

  ghost predicate NoEmptyRdn(rdns: seq<Rdn>) {
    forall i :: 0 <= i < |rdns| ==> rdns[i] != []
  }

  /** Reading undoes printing: types, values and both orders come back, for every name that prints. */
  lemma ReadUndoesPrint(d: Decoders, rdns: seq<Rdn>)
    requires NoEmptyRdn(rdns) && PrintName(d, rdns).Some?
    ensures ReadName(PrintName(d, rdns).value) == Some(NameReadings(d, rdns))
  {
    PrintedRdns(d, rdns);
    PrintedRdnsAreFree(d, rdns);
    if rdns != [] {
      var pieces := PrintRdns(d, rdns).value;
      GlueAllIsJoin(pieces, ',');
      SplitJoin(pieces, ',');
    }
  }

  /** RDNs without attributes, which no parsed name has, are the only thing printing can lose. */
  lemma ReadUndoesPrintIff(d: Decoders, rdns: seq<Rdn>)
    requires PrintName(d, rdns).Some?
    ensures ReadName(PrintName(d, rdns).value) == Some(NameReadings(d, rdns)) <==> NoEmptyRdn(rdns)
  {
    var s := PrintName(d, rdns).value;
    if NoEmptyRdn(rdns) {
      ReadUndoesPrint(d, rdns);
    } else if ReadName(s) == Some(NameReadings(d, rdns)) {
      var i :| 0 <= i < |rdns| && rdns[i] == [];
      assert NameReadings(d, rdns)[i] == [];
      ReadRdnsAreNonempty(SplitUnescaped(s, ','));
    }
  }

  lemma LabelDeterminesType(a: Attribute, b: Attribute)
    requires LabelOf(a) == LabelOf(b) != ""
    ensures a.typeOid == b.typeOid
  {
    if ShortName(a.typeOid).None? && ShortName(b.typeOid).None? {
      OidToStringIsInjective(a.typeOid, b.typeOid);
    } else {
      ShortNamesAreNotDotted(a);
      ShortNamesAreNotDotted(b);
      ShortNamesDiffer(a.typeOid, b.typeOid);
    }
  }

  lemma ShortNamesAreNotDotted(a: Attribute)
    ensures LabelOf(a) != "" ==> (IsDotted(LabelOf(a)) <==> ShortName(a.typeOid).None?)
  {
    var l := LabelOf(a);
    if ShortName(a.typeOid).Some? {
      assert l[0] in l;
    }
  }

  lemma ShortNamesDiffer(a: Input, b: Input)
    requires ShortName(a).Some? && ShortName(a) == ShortName(b)
    ensures a == b
  {
  }

  lemma AttributePrints(d: Decoders, rdns: seq<Rdn>, i: nat, j: nat)
    requires PrintName(d, rdns).Some? && i < |rdns| && j < |rdns[i]|
    ensures PrintAttribute(d, rdns[i][j]).Some?
  {
    if PrintAttribute(d, rdns[i][j]).None? {
      AttributesFail(d, rdns[i], j);
      RdnsFail(d, rdns, i);
    }
  }

  /** Names that print alike have the same attribute types and contents, in the same places. */
  lemma PrintIsInjective(d: Decoders, x: seq<Rdn>, y: seq<Rdn>, i: nat, j: nat)
    requires NoEmptyRdn(x) && NoEmptyRdn(y) && PrintName(d, x).Some? && PrintName(d, x) == PrintName(d, y)
    ensures |x| == |y| && (i < |x| ==> |x[i]| == |y[i]|)
    ensures i < |x| && j < |x[i]| ==>
              x[i][j].typeOid == y[i][j].typeOid && ContentOf(d, x[i][j]) == ContentOf(d, y[i][j])
  {
    ReadUndoesPrint(d, x);
    ReadUndoesPrint(d, y);
    assert |NameReadings(d, x)| == |x| && |NameReadings(d, y)| == |y|;
    if i < |x| {
      assert Readings(d, x[i]) == NameReadings(d, x)[i] == NameReadings(d, y)[i] == Readings(d, y[i]);
      assert |Readings(d, x[i])| == |x[i]| && |Readings(d, y[i])| == |y[i]|;
      if j < |x[i]| {
        AttributePrints(d, x, i, j);
        AttributePrints(d, y, i, j);
        assert ReadingOf(d, x[i][j]) == Readings(d, x[i])[j] == Readings(d, y[i])[j] == ReadingOf(d, y[i][j]);
        LabelDeterminesType(x[i][j], y[i][j]);
      }
    }
  }

  // ---- What stands for a value ----

  /** An attribute prints as its short name or dotted type, '=', and its value; it fails if it has neither. */
  lemma PrintedAttributeIs(d: Decoders, a: Attribute)
    ensures PrintAttribute(d, a).None? <==>
            ContentOf(d, a).None? || (ShortName(a.typeOid).None? && OidToString(a.typeOid) == "")
    ensures PrintAttribute(d, a).Some? ==>
              ReadAttribute(PrintAttribute(d, a).value) ==
              Some(Reading(
                if ShortName(a.typeOid).Some? then ShortName(a.typeOid).value else OidToString(a.typeOid),
                ContentOf(d, a).value))
  {
    if PrintAttribute(d, a).Some? {
      ReadPrintedAttribute(d, a);
    }
  }

  /** Which bytes a printed value stands for, by type and tag. */
  lemma ContentInFields(d: Decoders, typeOid: Input, value: Input)
    ensures ShortName(typeOid).None? ==>
              forall tag :: ContentOf(d, Attribute(typeOid, tag, value)) == Some(Raw(value))
    ensures ShortName(typeOid).Some? ==>
              && ContentOf(d, Attribute(typeOid, Utf8String, value)) == Some(Plain(value))
              && ContentOf(d, Attribute(typeOid, PrintableString, value)) == Some(Plain(value))
              && ContentOf(d, Attribute(typeOid, Ia5String, value)) == Some(Plain(value))
              && ContentOf(d, Attribute(typeOid, OtherTag, value)) == None
              && ContentOf(d, Attribute(typeOid, T61String, value)) ==
                 Some(if forall i :: 0 <= i < |value| ==> ' ' <= value[i] as char <= '~' then Plain(value) else Raw(value))
              && ContentOf(d, Attribute(typeOid, UniversalString, value)) ==
                 (if d.universal(value).None? then None else Some(Plain(d.universal(value).value)))
              && ContentOf(d, Attribute(typeOid, BmpString, value)) ==
                 (if d.bmp(value).None? then None else Some(Plain(d.bmp(value).value)))
  {
    assert forall i :: 0 <= i < |value| ==> value[i] in value;
  }
}
