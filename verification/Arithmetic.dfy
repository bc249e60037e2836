/** Facts about multiplication, division and powers of two that the verifier needs spelled out. */
module Arithmetic {

  ghost function Pow2(n: nat): nat
    ensures Pow2(n) >= 1
  {
    if n == 0 then 1 else 2 * Pow2(n - 1)
  }

  lemma {:induction false} Pow2Adds(a: nat, b: nat)
    ensures Pow2(a + b) == Pow2(a) * Pow2(b)
  {
    if b > 0 {
      Pow2Adds(a, b - 1);
      MulAssociates(2, Pow2(b - 1), Pow2(a));
    }
  }

  lemma PowersOfTwo()
    ensures Pow2(0) == 1 && Pow2(1) == 2 && Pow2(2) == 4 && Pow2(3) == 8 && Pow2(4) == 16
    ensures Pow2(5) == 32 && Pow2(6) == 64 && Pow2(7) == 128 && Pow2(8) == 256
  {
    assert Pow2(2) == 4 && Pow2(4) == 16 && Pow2(6) == 64;
  }

  lemma Pow2Plus8(n: nat)
    ensures Pow2(n + 8) == 256 * Pow2(n)
  {
    PowersOfTwo();
    Pow2Adds(n, 8);
  }

  lemma MulAssociates(a: int, b: int, c: int)
    ensures (a * b) * c == a * (b * c)
  {
  }

  lemma MulIsMonotone(a: int, b: int, q: nat)
    ensures a <= b ==> a * q <= b * q
  {
    if a <= b {
      assert (b - a) * q >= 0;
    }
  }

  /** Division with remainder has one answer. */
  lemma DivisionIs(n: int, q: nat, d: int, r: nat)
    requires n == d * q + r && r < q
    ensures n / q == d && n % q == r
  {
    var e := n / q;
    assert n == e * q + n % q;
    MulIsMonotone(e + 1, d, q);
    MulIsMonotone(d + 1, e, q);
  }

  /** A number in base r is determined by, and determines, its leading part and last digit. */
  lemma DigitsAreUnique(a: int, u: int, b: int, v: int, r: nat)
    requires 0 <= u < r && 0 <= v < r
    ensures a * r + u == b * r + v <==> a == b && u == v
  {
    DivisionIs(a * r + u, r, a, u);
    DivisionIs(b * r + v, r, b, v);
  }

  lemma DivideTwice(n: nat, p: nat, q: nat)
    requires p > 0 && q > 0
    ensures p * q > 0 && n / (p * q) == n / p / q
  {
    var m := n / p;
    var d, r := m / q, m % q;
    assert m == d * q + r;
    assert n == m * p + n % p;
    assert m * p == d * (p * q) + r * p by {
      MulAssociates(d, q, p);
    }
    MulIsMonotone(r, q - 1, p);
    assert p * q > 0 by {
      MulIsMonotone(1, p, q);
    }
    DivisionIs(n, p * q, d, r * p + n % p);
  }
}
