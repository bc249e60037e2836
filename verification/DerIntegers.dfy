/** DER INTEGER values of pki/parse_values.cc (section 8.3 of ITU-T X.690). */
module DerIntegers {
  import opened Wrappers
  import opened Der
  import opened ByteReader
  import opened Arithmetic

  const UINT64_LIMIT := 0x1_0000_0000_0000_0000

  /** Section 8.3.2: with more than one octet, the first nine bits are not all equal. */
  predicate IsMinimal(s: Input) {
    && s != []
    && (|s| > 1 ==> !(s[0] == 0 && s[1] < 0x80) && !(s[0] == 0xFF && s[1] >= 0x80))
  }

  /** The minimal encoding of a non-negative integer. */
  ghost predicate EncodesUnsigned(s: Input) {
    IsMinimal(s) && s[0] < 0x80
  }

  /** CBS_is_valid_asn1_integer, as IsValidInteger uses it: valid, and whether negative. */
  function IsValidInteger(s: Input): (bool, bool) {
    (IsMinimal(s), s != [] && s[0] >= 0x80)
  }

  /** GetUnsignedIntegerLength: the octets without a leading zero. */
  function GetUnsignedIntegerLength(s: Input): nat {
    if s == [] then 0 else if s[0] == 0 && |s| > 1 then |s| - 1 else |s|
  }

  ghost function Pow256(n: nat): nat
    ensures Pow256(n) >= 1
  {
    if n == 0 then 1 else 256 * Pow256(n - 1)
  }

  lemma NextOctet(h: int, p: int, v: int, b: int)
    requires h * p <= v < (h + 1) * p && 0 <= b < 256
    ensures h * (256 * p) <= 256 * v + b < (h + 1) * (256 * p)
  {
    MulAssociates(h, 256, p);
    assert (h + 1) * p >= v + 1;
  }

  /** The leading octet bounds the value from both sides. */
  lemma {:induction false} LeadingOctet(s: Input)
    requires s != []
    ensures s[0] * Pow256(|s| - 1) <= BigEndian(s) < (s[0] + 1) * Pow256(|s| - 1)
  {
    var n := |s| - 1;
    if n > 0 {
      LeadingOctet(s[..n]);
      var h: int := s[0];
      var p, v := Pow256(n - 1), BigEndian(s[..n]);
      NextOctet(h, p, v, s[n]);
    } else {
      assert s[..0] == [];
    }
  }

  /** A leading zero octet adds nothing. */
  lemma {:induction false} LeadingZero(s: Input)
    requires s != [] && s[0] == 0
    ensures BigEndian(s) == BigEndian(s[1..])
  {
    var n := |s| - 1;
    if n > 0 {
      LeadingZero(s[..n]);
      assert s[..n][1..] == s[1..][..n - 1];
    } else {
      assert s[..0] == [] && s[1..] == [];
    }
  }

  lemma {:induction false} Pow256Grows(m: nat, n: nat)
    requires m <= n
    ensures Pow256(m) <= Pow256(n)
  {
    if m < n {
      Pow256Grows(m, n - 1);
    }
  }

  lemma Pow256At8()
    ensures Pow256(8) == UINT64_LIMIT
  {
    assert Pow256(2) == 0x1_0000 && Pow256(4) == 0x1_0000_0000 && Pow256(6) == 0x1_0000_0000_0000;
  }

  /** How large an unsigned encoding's value is, from its length without the leading zero. */
  lemma UnsignedSize(s: Input)
    requires EncodesUnsigned(s)
    ensures var n := GetUnsignedIntegerLength(s);
            n >= 1 && BigEndian(s) < Pow256(n) && (n > 1 ==> BigEndian(s) >= Pow256(n - 1))
  {
    var t := if s[0] == 0 && |s| > 1 then s[1..] else s;
    if s[0] == 0 {
      LeadingZero(s);
    }
    LeadingOctet(t);
    var p := Pow256(|t| - 1);
    var h: int := t[0];
    MulIsMonotone(h + 1, 256, p);
    if |t| > 1 {
      MulIsMonotone(1, h, p);
    }
  }

  /** The length test of ParseUint64 is exactly the test for overflow. */
  lemma LengthTestIsExact(s: Input)
    requires EncodesUnsigned(s)
    ensures GetUnsignedIntegerLength(s) <= 8 <==> BigEndian(s) < UINT64_LIMIT
  {
    var n := GetUnsignedIntegerLength(s);
    UnsignedSize(s);
    Pow256At8();
    if n <= 8 {
      Pow256Grows(n, 8);
    } else {
      Pow256Grows(8, n - 1);
    }
  }

  lemma {:induction false} PrefixIsSmaller(s: Input, i: nat)
    requires i <= |s|
    ensures BigEndian(s[..i]) <= BigEndian(s)
    decreases |s|
  {
    if i < |s| {
      PrefixIsSmaller(s[..|s| - 1], i);
      assert s[..|s| - 1][..i] == s[..i];
    } else {
      assert s[..i] == s;
    }
  }

  /**
   ParseUint64 accepts exactly the minimal encodings of the integers from 0 to 2^64 - 1 and
   returns their value; no shift loses a bit, not even with nine octets.
   */
  method ParseUint64(input: Input) returns (out: Option<nat>)
    ensures out.Some? <==> EncodesUnsigned(input) && BigEndian(input) < UINT64_LIMIT
    ensures out.Some? ==> out.value == BigEndian(input)
  {
    var (valid, negative) := IsValidInteger(input);
    if !valid || negative {
      return None;
    }
    LengthTestIsExact(input);
    if GetUnsignedIntegerLength(input) > 8 {
      return None;
    }
    var reader := new ByteReader(input);
    var value := 0;
    ghost var i := 0;
    var ok, data := reader.ReadByte();
    assert ok ==> input[..1] == [data];
    while ok
      invariant i <= |input| && value == BigEndian(input[..i])
      invariant ok <==> i < |input|
      invariant ok ==> data == input[i] && reader.data == input[i + 1..]
      invariant !ok ==> reader.data == []
      decreases |input| - i
    {
      assert input[..i + 1][..i] == input[..i];
      PrefixIsSmaller(input, i + 1);
      value := (value * 256) % UINT64_LIMIT + data;
      i := i + 1;
      ok, data := reader.ReadByte();
    }
    assert input[..i] == input;
    return Some(value);
  }

  // ---- The values and their encodings correspond one to one ----

  lemma {:induction false} BigEndianIsInjective(s: Input, t: Input)
    requires |s| == |t| && BigEndian(s) == BigEndian(t)
    ensures s == t
  {
    if s != [] {
      var n := |s| - 1;
      BigEndianIsInjective(s[..n], t[..n]);
      assert s == s[..n] + [s[n]] && t == t[..n] + [t[n]];
    }
  }

  lemma ShorterIsSmaller(s: Input, t: Input)
    requires EncodesUnsigned(s) && EncodesUnsigned(t) && |s| < |t|
    ensures BigEndian(s) < BigEndian(t)
  {
    var p := Pow256(|s| - 1);
    LeadingOctet(s);
    MulIsMonotone(s[0] + 1, 128, p);
    Pow256Grows(|s| - 1, |t| - 2);
    var q := Pow256(|t| - 2);
    if t[0] == 0 {
      LeadingZero(t);
      LeadingOctet(t[1..]);
      MulIsMonotone(128, t[1], q);
    } else {
      LeadingOctet(t);
      MulIsMonotone(1, t[0], Pow256(|t| - 1));
    }
  }

  /** Distinct encodings have distinct values. */
  lemma EncodingIsUnique(s: Input, t: Input)
    requires EncodesUnsigned(s) && EncodesUnsigned(t) && BigEndian(s) == BigEndian(t)
    ensures s == t
  {
    if |s| < |t| {
      ShorterIsSmaller(s, t);
    } else if |t| < |s| {
      ShorterIsSmaller(t, s);
    } else {
      BigEndianIsInjective(s, t);
    }
  }

  ghost function EncodeUnsigned(v: nat): (s: Input)
    ensures EncodesUnsigned(s) && BigEndian(s) == v
    decreases v
  {
    if v < 128 then
      assert [v][..0] == [];
      [v]
    else if v < 256 then
      assert [0, v][..1] == [0] && [0][..0] == [];
      [0, v]
    else
      var front := EncodeUnsigned(v / 256);
      var s := front + [v % 256];
      assert s[..|s| - 1] == front;
      s
  }
}
