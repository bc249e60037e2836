/** The dotted text of an object identifier: CBS_asn1_oid_to_text of crypto/bytestring/cbs.cc. */
module OidText {
  import opened Wrappers
  import opened Der
  import opened Strings

  datatype Component = Component(value: nat, rest: Input)

  /** parse_base128_integer, having read v so far. */
  function ReadBase128(s: Input, v: nat): (r: Option<Component>)
    ensures r.Some? ==> |r.value.rest| < |s|
    decreases |s|
  {
    if s == [] then None
    else if v >= 0x200_0000_0000_0000 then None
    else if v == 0 && s[0] == 0x80 then None
    else
      var v' := v * 128 + s[0] % 128;
      if s[0] >= 128 then ReadBase128(s[1..], v') else Some(Component(v', s[1..]))
  }

  function Decimal(n: nat): (r: string)
    ensures r != "" && forall c <- r :: '0' <= c <= '9'
  {
    var digit := [('0' as int + n % 10) as char];
    if n < 10 then digit else Decimal(n / 10) + digit
  }

  predicate IsDotted(s: string) {
    forall c <- s :: '0' <= c <= '9' || c == '.'
  }

  function LaterComponents(s: Input): (r: Option<string>)
    ensures r.Some? ==> IsDotted(r.value)
    decreases |s|
  {
    if s == [] then Some("")
    else
      var component := ReadBase128(s, 0);
      if component.None? then None
      else
        var later := LaterComponents(component.value.rest);
        if later.None? then None else Some("." + (Decimal(component.value.value) + later.value))
  }

  /** The first number holds two: 40 * x + y for x = 0, 1 or 2, with y unlimited for 2. */
  function FirstTwo(v: nat): (string, string) {
    if v >= 80 then ("2", Decimal(v - 80)) else (Decimal(v / 40), Decimal(v % 40))
  }

  /** OidToString of pki/parse_name.cc: digits and dots, or the empty string on error. */
  function OidToString(oid: Input): (r: string)
    ensures IsDotted(r)
  {
    var first := ReadBase128(oid, 0);
    if first.None? then ""
    else
      var v := first.value.value;
      var later := LaterComponents(first.value.rest);
      if later.None? then ""
      else FirstTwo(v).0 + "." + (FirstTwo(v).1 + later.value)
  }

  // ---- The text determines the identifier ----

  /** The octets of a base-128 number that others follow, and of a complete one. */
  ghost function Leading(v: nat): Input {
    if v == 0 then [] else Leading(v / 128) + [128 + v % 128]
  }

  ghost function Base128(v: nat): Input {
    Leading(v / 128) + [v % 128]
  }

  /** Only the minimal encoding of a number is read. */
  lemma {:induction false} ReadIsMinimal(s: Input, v: nat)
    requires ReadBase128(s, v).Some?
    ensures var c := ReadBase128(s, v).value; Leading(v) + s == Base128(c.value) + c.rest
    decreases |s|
  {
    var v' := v * 128 + s[0] % 128;
    assert s == [s[0]] + s[1..];
    if s[0] >= 128 {
      assert Leading(v') == Leading(v) + [s[0]];
      ReadIsMinimal(s[1..], v');
      assert Leading(v) + s == Leading(v') + s[1..];
    } else {
      assert Base128(v') == Leading(v) + [s[0]];
    }
  }

  ghost function ParseDecimal(s: string): int {
    if s == "" then 0 else 10 * ParseDecimal(s[..|s| - 1]) + (s[|s| - 1] as int - '0' as int)
  }

  lemma {:induction false} DecimalRoundTrip(n: nat)
    ensures ParseDecimal(Decimal(n)) == n
  {
    var s := Decimal(n);
    if n >= 10 {
      DecimalRoundTrip(n / 10);
      assert s[..|s| - 1] == Decimal(n / 10);
    } else {
      assert s[..0] == "";
    }
  }

  /** Reading one component after another gives back the octets that were printed. */
  lemma {:induction false} LaterAreInjective(s: Input, t: Input, a: string, b: string)
    requires LaterComponents(s).Some? && LaterComponents(t).Some? && '.' !in a && '.' !in b
    requires a + LaterComponents(s).value == b + LaterComponents(t).value
    ensures a == b && s == t
    decreases |s|
  {
    var text := a + LaterComponents(s).value;
    FirstPiece(s, a);
    FirstPiece(t, b);
    assert s == [] <==> t == [];
    if s != [] {
      var cs, ct := ReadBase128(s, 0).value, ReadBase128(t, 0).value;
      var ds, dt := Decimal(cs.value), Decimal(ct.value);
      assert text[|a| + 1..] == ds + LaterComponents(cs.rest).value;
      assert text[|a| + 1..] == dt + LaterComponents(ct.rest).value;
      LaterAreInjective(cs.rest, ct.rest, ds, dt);
      DecimalRoundTrip(cs.value);
      DecimalRoundTrip(ct.value);
      ReadIsMinimal(s, 0);
      ReadIsMinimal(t, 0);
      assert Leading(0) + s == s && Leading(0) + t == t;
    }
  }

  lemma FirstPiece(s: Input, a: string)
    requires LaterComponents(s).Some? && '.' !in a
    ensures Find(a + LaterComponents(s).value, '.') == |a|
    ensures s == [] <==> |a + LaterComponents(s).value| == |a|
  {
    var text := a + LaterComponents(s).value;
    assert text[..|a|] == a;
    FindIsFirst(text, '.', |a|);
  }

  /** The first number of an identifier, from the two it prints as. */
  ghost function Combine(a: int, b: int): int {
    if a == 2 then 80 + b else 40 * a + b
  }

  lemma FirstComponent(oid: Input) returns (a: string, b: string)
    requires OidToString(oid) != ""
    ensures '.' !in a && '.' !in b
    ensures var c := ReadBase128(oid, 0).value;
            && OidToString(oid) == a + "." + (b + LaterComponents(c.rest).value)
            && c.value == Combine(ParseDecimal(a), ParseDecimal(b))
            && ParseDecimal(a) <= 2 && (ParseDecimal(a) < 2 ==> ParseDecimal(b) < 40)
  {
    var v := ReadBase128(oid, 0).value.value;
    if v >= 80 {
      a, b := "2", Decimal(v - 80);
      TwoIsTwo();
      DecimalRoundTrip(v - 80);
    } else {
      a, b := Decimal(v / 40), Decimal(v % 40);
      DecimalRoundTrip(v / 40);
      DecimalRoundTrip(v % 40);
    }
  }

  lemma TwoIsTwo()
    ensures ParseDecimal("2") == 2
  {
    assert "2"[..0] == "";
  }

  /** Different identifiers have different texts. */
  lemma OidToStringIsInjective(oid: Input, oid': Input)
    requires OidToString(oid) == OidToString(oid') != ""
    ensures oid == oid'
  {
    var a, b := FirstComponent(oid);
    var a', b' := FirstComponent(oid');
    var c, c' := ReadBase128(oid, 0).value, ReadBase128(oid', 0).value;
    var text := OidToString(oid);
    assert text[..|a|] == a && text[..|a'|] == a';
    FindIsFirst(text, '.', |a|);
    FindIsFirst(text, '.', |a'|);
    assert text[|a| + 1..] == b + LaterComponents(c.rest).value == b' + LaterComponents(c'.rest).value;
    LaterAreInjective(c.rest, c'.rest, b, b');
    ReadIsMinimal(oid, 0);
    ReadIsMinimal(oid', 0);
    assert Leading(0) + oid == oid && Leading(0) + oid' == oid';
  }

  // ---- Every identifier of 64-bit numbers has its text ----

  const ARC_LIMIT := 0x1_0000_0000_0000_0000

  /** The octets of a list of numbers, and their text. */
  ghost function EncodeArcs(arcs: seq<nat>): Input {
    if arcs == [] then [] else Base128(arcs[0]) + EncodeArcs(arcs[1..])
  }

  ghost function Dotted(arcs: seq<nat>): string {
    if arcs == [] then "" else "." + (Decimal(arcs[0]) + Dotted(arcs[1..]))
  }

  /** Reading the leading octets of u leaves u read so far. */
  lemma {:induction false} ReadLeading(u: nat, t: Input)
    requires u < ARC_LIMIT / 128
    ensures ReadBase128(Leading(u) + t, 0) == ReadBase128(t, u)
  {
    if u == 0 {
      assert Leading(0) + t == t;
    } else {
      ReadLeading(u / 128, [128 + u % 128] + t);
      ConcatAssociates(Leading(u / 128), [128 + u % 128], t);
      ReadOctet(u, t);
    }
  }

  lemma ReadOctet(u: nat, t: Input)
    requires 0 < u < ARC_LIMIT / 128
    ensures ReadBase128([128 + u % 128] + t, u / 128) == ReadBase128(t, u)
  {
    var s := [128 + u % 128] + t;
    assert s[1..] == t && s[0] % 128 == u % 128;
    assert u / 128 * 128 + u % 128 == u;
  }

  lemma ReadAccepts(v: nat, rest: Input)
    requires v < ARC_LIMIT
    ensures ReadBase128(Base128(v) + rest, 0) == Some(Component(v, rest))
  {
    var s := [v % 128] + rest;
    assert Base128(v) + rest == Leading(v / 128) + s;
    ReadLeading(v / 128, s);
    assert s[1..] == rest;
  }

  lemma {:induction false} LaterOfArcs(arcs: seq<nat>)
    requires AllFit(arcs)
    ensures LaterComponents(EncodeArcs(arcs)) == Some(Dotted(arcs))
  {
    if arcs != [] {
      ReadAccepts(arcs[0], EncodeArcs(arcs[1..]));
      LaterOfArcs(arcs[1..]);
      assert EncodeArcs(arcs) != [];
    }
  }

  ghost predicate AllFit(arcs: seq<nat>) {
    forall i :: 0 <= i < |arcs| ==> arcs[i] < ARC_LIMIT
  }

  /** An identifier prints as its numbers, the first two of which share one encoded number. */
  lemma OidOfArcs(oid: Input, first: nat, second: nat, later: seq<nat>)
    requires first <= 2 && (first < 2 ==> second < 40) && 40 * first + second < ARC_LIMIT && AllFit(later)
    requires oid == Base128(40 * first + second) + EncodeArcs(later)
    ensures OidToString(oid) == Decimal(first) + "." + (Decimal(second) + Dotted(later))
  {
    var rest := EncodeArcs(later);
    FirstIsRead(oid, 40 * first + second, rest);
    LaterOfArcs(later);
    OidToStringIs(oid, first, second, rest, Dotted(later));
  }

  lemma FirstIsRead(oid: Input, v: nat, rest: Input)
    requires v < ARC_LIMIT && oid == Base128(v) + rest
    ensures ReadBase128(oid, 0) == Some(Component(v, rest))
  {
    ReadAccepts(v, rest);
  }

  lemma OidToStringIs(oid: Input, first: nat, second: nat, rest: Input, later: string)
    requires first <= 2 && (first < 2 ==> second < 40)
    requires ReadBase128(oid, 0) == Some(Component(40 * first + second, rest)) && LaterComponents(rest) == Some(later)
    ensures OidToString(oid) == Decimal(first) + "." + (Decimal(second) + later)
  {
    FirstTwoAre(first, second);
  }

  lemma FirstTwoAre(first: nat, second: nat)
    requires first <= 2 && (first < 2 ==> second < 40)
    ensures FirstTwo(40 * first + second) == (Decimal(first), Decimal(second))
  {
    var v := 40 * first + second;
    if first == 2 {
      assert v - 80 == second;
      TwoIsPrinted();
    } else {
      assert v < 80 && v / 40 == first && v % 40 == second;
    }
  }

  lemma TwoIsPrinted()
    ensures Decimal(2) == "2"
  {
  }
}
