/**
 IP address ranges of pki/ip_util.cc. The code works byte by byte with bit operations; here it is
 tied to CIDR blocks: addresses as big-endian integers that agree above the lowest 8n - k bits.
 */
module IpUtil {
  import opened Arithmetic
  import opened Der

  /** Octets on which the code does bit arithmetic. */
  type Bytes = seq<bv8>

  const IPV4_ADDRESS_SIZE := 4
  const IPV6_ADDRESS_SIZE := 16

  /** The octets as integers. */
  ghost function Octets(s: Bytes): Input {
    seq(|s|, i requires 0 <= i < |s| => s[i] as int)
  }

  /** An address or mask as one unsigned integer. */
  ghost function Value(s: Bytes): nat {
    BigEndian(Octets(s))
  }

  /** The byte of k ones followed by 8 - k zeros. */
  function TopOnes(k: nat): bv8
    requires k <= 8
  {
    match k
    case 0 => 0x00
    case 1 => 0x80
    case 2 => 0xC0
    case 3 => 0xE0
    case 4 => 0xF0
    case 5 => 0xF8
    case 6 => 0xFC
    case 7 => 0xFE
    case _ => 0xFF
  }

  ghost function OnesInByte(k: nat, i: nat): (c: nat)
    ensures c <= 8
  {
    if k <= 8 * i then 0 else if k >= 8 * i + 8 then 8 else k - 8 * i
  }

  /** The n-byte mask of k ones followed by zeros. */
  ghost function PrefixMask(n: nat, k: nat): (m: Bytes)
    ensures |m| == n
    ensures forall i :: 0 <= i < n ==> m[i] == TopOnes(OnesInByte(k, i))
  {
    seq(n, i requires 0 <= i < n => TopOnes(OnesInByte(k, i)))
  }

  ghost predicate IsPrefixMask(mask: Bytes) {
    exists k: nat :: k <= 8 * |mask| && mask == PrefixMask(|mask|, k)
  }

  lemma TopOnesValue(k: nat)
    requires k <= 8
    ensures TopOnes(k) as int == 256 - Pow2(8 - k)
  {
    PowersOfTwo();
  }

  /** The mask of k ones, as an integer. */
  lemma {:induction false} PrefixMaskValue(n: nat, k: nat)
    requires k <= 8 * n
    ensures Value(PrefixMask(n, k)) == Pow2(8 * n) - Pow2(8 * n - k)
  {
    if n > 0 {
      var h := 8 * (n - 1);
      var front := FrontMask(n, k);
      var last := LastByte(PrefixMask(n, k));
      PrefixMaskValue(n - 1, front);
      assert Pow2(8 * n) == 256 * Pow2(h) by { Pow2Plus8(h); }
      LastMaskByte(h, k, front);
    }
  }

  lemma FrontMask(n: nat, k: nat) returns (front: nat)
    requires 0 < n && k <= 8 * n
    ensures front == if k <= 8 * (n - 1) then k else 8 * (n - 1)
    ensures PrefixMask(n, k)[..n - 1] == PrefixMask(n - 1, front)
    ensures PrefixMask(n, k)[n - 1] as int == 256 - Pow2(8 - (k - front))
  {
    front := if k <= 8 * (n - 1) then k else 8 * (n - 1);
    assert forall i: nat :: i < n - 1 ==> OnesInByte(k, i) == OnesInByte(front, i);
    assert OnesInByte(k, n - 1) == k - front;
    TopOnesValue(k - front);
  }

  lemma LastMaskByte(h: nat, k: nat, front: nat)
    requires k <= h + 8 && front == if k <= h then k else h
    ensures 256 * Pow2(h - front) - (256 - Pow2(8 - (k - front))) == Pow2(h + 8 - k)
  {
    PowersOfTwo();
    Pow2Plus8(h - front);
  }

  /** The byte test of the code: some ones, then zeros. */
  lemma InvertedByteTest(b: bv8)
    ensures !b & (!b + 1) == 0 <==> exists k: nat :: k <= 8 && b == TopOnes(k)
  {
    assert !b & (!b + 1) == 0 <==> b in {0x00, 0x80, 0xC0, 0xE0, 0xF0, 0xF8, 0xFC, 0xFE, 0xFF};
    assert TopOnes(0) == 0 && TopOnes(1) == 0x80 && TopOnes(2) == 0xC0 && TopOnes(3) == 0xE0;
    assert TopOnes(4) == 0xF0 && TopOnes(5) == 0xF8 && TopOnes(6) == 0xFC && TopOnes(7) == 0xFE && TopOnes(8) == 0xFF;
  }

  /** IsValidNetmask accepts exactly the address-sized masks of some ones followed by zeros. */
  method IsValidNetmask(mask: Bytes) returns (valid: bool)
    ensures valid <==> (|mask| == IPV4_ADDRESS_SIZE || |mask| == IPV6_ADDRESS_SIZE) && IsPrefixMask(mask)
  {
    if |mask| != IPV4_ADDRESS_SIZE && |mask| != IPV6_ADDRESS_SIZE {
      return false;
    }
    for i := 0 to |mask|
      invariant forall j :: 0 <= j < i ==> mask[j] == 0xFF
    {
      var b := mask[i];
      if b != 0xFF {
        var inv := !b;
        InvertedByteTest(b);
        if inv & (inv + 1) != 0 {
          assert forall k: nat :: k <= 8 * |mask| ==> PrefixMask(|mask|, k)[i] == TopOnes(OnesInByte(k, i));
          return false;
        }
        for j := i + 1 to |mask|
          invariant forall h :: i < h < j ==> mask[h] == 0
        {
          if mask[j] != 0 {
            NotPrefixMask(mask, i, j);
            return false;
          }
        }
        ghost var k: nat :| k <= 8 && b == TopOnes(k);
        assert mask == PrefixMask(|mask|, 8 * i + k);
        return true;
      }
    }
    assert mask == PrefixMask(|mask|, 8 * |mask|);
    return true;
  }

  /** After a byte that is not all ones, a prefix mask has only zeros. */
  lemma NotPrefixMask(mask: Bytes, i: nat, j: nat)
    requires i < j < |mask| && mask[i] != 0xFF && mask[j] != 0
    ensures !IsPrefixMask(mask)
  {
    forall k: nat | k <= 8 * |mask|
      ensures mask != PrefixMask(|mask|, k)
    {
      assert PrefixMask(|mask|, k)[i] == TopOnes(OnesInByte(k, i));
      assert PrefixMask(|mask|, k)[j] == TopOnes(OnesInByte(k, j));
    }
  }

  ghost predicate SameUnder(x: bv8, y: bv8, m: bv8) {
    x & m == y & m
  }

  ghost predicate Matches(a: Bytes, b: Bytes, mask: Bytes) {
    |a| == |b| == |mask| && forall i :: 0 <= i < |a| ==> SameUnder(a[i], b[i], mask[i])
  }

  /** IPAddressMatchesWithNetmask. */
  method IpAddressMatchesWithNetmask(a: Bytes, b: Bytes, mask: Bytes) returns (matches: bool)
    ensures matches <==> Matches(a, b, mask)
  {
    if |a| != |b| || |a| != |mask| {
      return false;
    }
    for i := 0 to |a|
      invariant forall j :: 0 <= j < i ==> SameUnder(a[j], b[j], mask[j])
    {
      if a[i] & mask[i] != b[i] & mask[i] {
        return false;
      }
    }
    return true;
  }

  // ---- CIDR blocks ----

  ghost predicate SameTopBits(x: bv8, y: bv8, k: nat)
    requires k <= 8
  {
    SameUnder(x, y, TopOnes(k))
  }

  ghost predicate SameQuotient(x: int, y: int, k: nat)
    requires k <= 8
  {
    x / Pow2(8 - k) == y / Pow2(8 - k)
  }

  /** Clearing the low bits of a byte is dividing them away. */
  lemma MaskedByte(x: bv8, y: bv8, k: nat)
    requires k <= 8
    ensures SameTopBits(x, y, k) <==> SameQuotient(x as int, y as int, k)
  {
    if k == 0 { MaskedByte0(x, y); }
    else if k == 1 { MaskedByte1(x, y); }
    else if k == 2 { MaskedByte2(x, y); }
    else if k == 3 { MaskedByte3(x, y); }
    else if k == 4 { MaskedByte4(x, y); }
    else if k == 5 { MaskedByte5(x, y); }
    else if k == 6 { MaskedByte6(x, y); }
    else if k == 7 { MaskedByte7(x, y); }
    else { MaskedByte8(x, y); }
  }

  lemma MaskedByte0(x: bv8, y: bv8)
    ensures SameTopBits(x, y, 0) <==> SameQuotient(x as int, y as int, 0)
  {
    PowersOfTwo();
  }

  lemma MaskedByte1(x: bv8, y: bv8)
    ensures SameTopBits(x, y, 1) <==> SameQuotient(x as int, y as int, 1)
  {
    PowersOfTwo();
    assert x & 0x80 == y & 0x80 <==> x >> 7 == y >> 7;
    assert (x >> 7) as int == x as int / 128 && (y >> 7) as int == y as int / 128;
  }

  lemma MaskedByte2(x: bv8, y: bv8)
    ensures SameTopBits(x, y, 2) <==> SameQuotient(x as int, y as int, 2)
  {
    PowersOfTwo();
    assert x & 0xC0 == y & 0xC0 <==> x >> 6 == y >> 6;
    assert (x >> 6) as int == x as int / 64 && (y >> 6) as int == y as int / 64;
  }

  lemma MaskedByte3(x: bv8, y: bv8)
    ensures SameTopBits(x, y, 3) <==> SameQuotient(x as int, y as int, 3)
  {
    PowersOfTwo();
    assert x & 0xE0 == y & 0xE0 <==> x >> 5 == y >> 5;
    assert (x >> 5) as int == x as int / 32 && (y >> 5) as int == y as int / 32;
  }

  lemma MaskedByte4(x: bv8, y: bv8)
    ensures SameTopBits(x, y, 4) <==> SameQuotient(x as int, y as int, 4)
  {
    PowersOfTwo();
    assert x & 0xF0 == y & 0xF0 <==> x >> 4 == y >> 4;
    assert (x >> 4) as int == x as int / 16 && (y >> 4) as int == y as int / 16;
  }

  lemma MaskedByte5(x: bv8, y: bv8)
    ensures SameTopBits(x, y, 5) <==> SameQuotient(x as int, y as int, 5)
  {
    PowersOfTwo();
    assert x & 0xF8 == y & 0xF8 <==> x >> 3 == y >> 3;
    assert (x >> 3) as int == x as int / 8 && (y >> 3) as int == y as int / 8;
  }

  lemma MaskedByte6(x: bv8, y: bv8)
    ensures SameTopBits(x, y, 6) <==> SameQuotient(x as int, y as int, 6)
  {
    PowersOfTwo();
    assert x & 0xFC == y & 0xFC <==> x >> 2 == y >> 2;
    assert (x >> 2) as int == x as int / 4 && (y >> 2) as int == y as int / 4;
  }

  lemma MaskedByte7(x: bv8, y: bv8)
    ensures SameTopBits(x, y, 7) <==> SameQuotient(x as int, y as int, 7)
  {
    PowersOfTwo();
    assert x & 0xFE == y & 0xFE <==> x >> 1 == y >> 1;
    assert (x >> 1) as int == x as int / 2 && (y >> 1) as int == y as int / 2;
  }

  lemma MaskedByte8(x: bv8, y: bv8)
    ensures SameTopBits(x, y, 8) <==> SameQuotient(x as int, y as int, 8)
  {
    PowersOfTwo();
    assert x & 0xFF == x && y & 0xFF == y;
    SameByte(x, y);
    assert x as int / 1 == x as int && y as int / 1 == y as int;
  }

  lemma SameByte(x: bv8, y: bv8)
    ensures x == y <==> x as int == y as int
  {
  }

  /** Dividing away at least the last byte. */
  lemma DropLowByte(a: nat, x: nat, q: nat)
    requires x < 256 && q > 0
    ensures (256 * a + x) / (256 * q) == a / q
  {
    DivideTwice(256 * a + x, 256, q);
    DivisionIs(256 * a + x, 256, a, x);
  }

  lemma SplitQuotient(a: nat, x: nat, i: nat)
    requires x < 256 && i <= 8
    ensures (256 * a + x) / Pow2(i) == a * Pow2(8 - i) + x / Pow2(i)
    ensures 0 <= x / Pow2(i) < Pow2(8 - i)
  {
    var q, r := Pow2(i), Pow2(8 - i);
    Pow2Adds(8 - i, i);
    PowersOfTwo();
    MulAssociates(a, r, q);
    DivisionIs(256 * a + x, q, a * r + x / q, x % q);
    MulIsMonotone(r, x / q, q);
  }

  /** Dividing away part of the last byte. */
  lemma SplitLowByte(a: nat, x: nat, b: nat, y: nat, i: nat)
    requires x < 256 && y < 256 && i <= 8
    ensures (256 * a + x) / Pow2(i) == (256 * b + y) / Pow2(i) <==> a == b && x / Pow2(i) == y / Pow2(i)
  {
    var r, u, v := Pow2(8 - i), x / Pow2(i), y / Pow2(i);
    var s, t := (256 * a + x) / Pow2(i), (256 * b + y) / Pow2(i);
    assert s == a * r + u && 0 <= u < r by { SplitQuotient(a, x, i); }
    assert t == b * r + v && 0 <= v < r by { SplitQuotient(b, y, i); }
    assert s == t <==> a == b && u == v by { DigitsAreUnique(a, u, b, v, r); }
  }

  ghost predicate SameBlock(a: nat, b: nat, hostBits: nat) {
    a / Pow2(hostBits) == b / Pow2(hostBits)
  }

  lemma MatchesSplit(a: Bytes, b: Bytes, m: Bytes, n: nat)
    requires |a| == |b| == |m| == n > 0
    ensures Matches(a, b, m) <==>
            Matches(a[..n - 1], b[..n - 1], m[..n - 1]) && SameUnder(a[n - 1], b[n - 1], m[n - 1])
  {
    var a', b', m' := a[..n - 1], b[..n - 1], m[..n - 1];
    forall i | 0 <= i < n - 1
      ensures SameUnder(a'[i], b'[i], m'[i]) <==> SameUnder(a[i], b[i], m[i])
    {
    }
  }

  lemma MatchesLastByte(a: Bytes, b: Bytes, n: nat, k: nat, front: nat)
    requires |a| == |b| == n > 0 && k <= 8 * n && front == if k <= 8 * (n - 1) then k else 8 * (n - 1)
    ensures Matches(a, b, PrefixMask(n, k)) <==>
            Matches(a[..n - 1], b[..n - 1], PrefixMask(n - 1, front)) && SameTopBits(a[n - 1], b[n - 1], k - front)
  {
    var f := FrontMask(n, k);
    MatchesSplit(a, b, PrefixMask(n, k), n);
    assert OnesInByte(k, n - 1) == k - front;
  }

  lemma SameBlockDropByte(a: nat, x: nat, b: nat, y: nat, hostBits: nat)
    requires x < 256 && y < 256
    ensures SameBlock(256 * a + x, 256 * b + y, hostBits + 8) <==> SameBlock(a, b, hostBits)
  {
    Pow2Plus8(hostBits);
    DropLowByte(a, x, Pow2(hostBits));
    DropLowByte(b, y, Pow2(hostBits));
  }

  lemma SameBlockOfOne(a: nat, b: nat)
    ensures SameBlock(a, b, 0) <==> a == b
  {
  }

  lemma NoTopBits(x: nat, y: nat)
    requires x < 256 && y < 256
    ensures SameQuotient(x, y, 0)
  {
    PowersOfTwo();
  }

  lemma SameBlockLastByte(a: nat, x: nat, b: nat, y: nat, h: nat, k: nat, front: nat)
    requires x < 256 && y < 256 && k <= h + 8 && front == if k <= h then k else h
    ensures SameBlock(256 * a + x, 256 * b + y, h + 8 - k) <==>
            SameBlock(a, b, h - front) && SameQuotient(x, y, k - front)
  {
    if k <= h {
      SameBlockDropByte(a, x, b, y, h - k);
      NoTopBits(x, y);
    } else {
      SplitLowByte(a, x, b, y, h + 8 - k);
      SameBlockOfOne(a, b);
    }
  }

  lemma ValuesSplit(a: Bytes, b: Bytes, h: nat, k: nat, front: nat)
    requires a != [] && |a| == |b| && k <= h + 8 && front == if k <= h then k else h
    ensures var n := |a| - 1;
            SameBlock(Value(a), Value(b), h + 8 - k) <==>
            SameBlock(Value(a[..n]), Value(b[..n]), h - front) && SameQuotient(a[n] as int, b[n] as int, k - front)
  {
    var n := |a| - 1;
    var x := LastByte(a);
    var y := LastByte(b);
    SameBlockLastByte(Value(a[..n]), x, Value(b[..n]), y, h, k, front);
  }

  /**
   Under a netmask of k ones, two addresses match exactly when the integers agree above the
   lowest 8n - k bits: the mask denotes a CIDR block.
   */
  lemma {:induction false} MatchIsSameBlock(a: Bytes, b: Bytes, n: nat, k: nat)
    requires |a| == |b| == n && k <= 8 * n
    ensures Matches(a, b, PrefixMask(n, k)) <==> SameBlock(Value(a), Value(b), 8 * n - k)
  {
    if n > 0 {
      var h := 8 * (n - 1);
      var front := if k <= h then k else h;
      MatchIsSameBlock(a[..n - 1], b[..n - 1], n - 1, front);
      MatchesLastByte(a, b, n, k, front);
      MaskedByte(a[n - 1], b[n - 1], k - front);
      ValuesSplit(a, b, h, k, front);
    }
  }

  lemma LastByte(a: Bytes) returns (x: nat)
    requires a != []
    ensures x < 256 && x == a[|a| - 1] as int && Value(a) == 256 * Value(a[..|a| - 1]) + x
  {
    x := a[|a| - 1] as int;
    assert Octets(a)[..|a| - 1] == Octets(a[..|a| - 1]);
  }

  lemma CoarserBlock(x: nat, y: nat, i: nat, j: nat)
    requires i <= j && SameBlock(x, y, i)
    ensures SameBlock(x, y, j)
  {
    Pow2Adds(i, j - i);
    DivideTwice(x, Pow2(i), Pow2(j - i));
    DivideTwice(y, Pow2(i), Pow2(j - i));
  }

  lemma NestedBlocks(shared: nat, a: nat, b: nat, other: nat, i: nat, j: nat)
    requires i <= j && SameBlock(shared, a, j) && SameBlock(shared, b, i)
    ensures SameBlock(other, b, i) ==> SameBlock(other, a, j)
  {
    if SameBlock(other, b, i) {
      CoarserBlock(other, shared, i, j);
    }
  }

  /** Two ranges of the same address family are nested or disjoint. */
  lemma RangesNestOrAreDisjoint(a: Bytes, ka: nat, b: Bytes, kb: nat, shared: Bytes, other: Bytes)
    requires |a| == |b| == |shared| == |other| && ka <= kb <= 8 * |a|
    requires Matches(shared, a, PrefixMask(|a|, ka)) && Matches(shared, b, PrefixMask(|a|, kb))
    ensures Matches(other, b, PrefixMask(|a|, kb)) ==> Matches(other, a, PrefixMask(|a|, ka))
  {
    var n := |a|;
    var i, j := 8 * n - kb, 8 * n - ka;
    assert SameBlock(Value(shared), Value(a), j) by { MatchIsSameBlock(shared, a, n, ka); }
    assert SameBlock(Value(shared), Value(b), i) by { MatchIsSameBlock(shared, b, n, kb); }
    if Matches(other, b, PrefixMask(n, kb)) {
      assert SameBlock(Value(other), Value(b), i) by { MatchIsSameBlock(other, b, n, kb); }
      NestedBlocks(Value(shared), Value(a), Value(b), Value(other), i, j);
      MatchIsSameBlock(other, a, n, ka);
    }
  }
}
