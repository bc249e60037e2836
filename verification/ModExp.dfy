/**
 The square-and-multiply exponentiation of fuzz/bn_mod_exp.cc, against which the library's own
 modular exponentiation is compared. BIGNUMs are unbounded integers; allocation failures are not
 modelled.
 */
module ModExp {
  import opened Arithmetic

  ghost function Pow(b: int, n: nat): int {
    if n == 0 then 1 else b * Pow(b, n - 1)
  }

  lemma {:induction false} PowDoubles(b: int, n: nat)
    ensures Pow(b * b, n) == Pow(b, 2 * n)
  {
    if n > 0 {
      PowDoubles(b, n - 1);
      assert Pow(b, 2 * n) == b * (b * Pow(b, 2 * n - 2));
      MulAssociates(b, b, Pow(b, 2 * n - 2));
    }
  }

  lemma ModOfMultiple(x: int, k: int, m: nat)
    requires m > 0
    ensures (x + k * m) % m == x % m
  {
    assert x + k * m == (x / m + k) * m + x % m;
    DivisionIs(x + k * m, m, x / m + k, x % m);
  }

  /** A factor may be reduced before multiplying. */
  lemma ReduceFactor(x: int, y: int, m: nat)
    requires m > 0
    ensures ((x % m) * y) % m == (x * y) % m
  {
    var q, r := x / m, x % m;
    assert x == q * m + r;
    assert x * y == r * y + (q * y) * m;
    ModOfMultiple(r * y, q * y, m);
  }

  lemma {:induction false} ReduceBase(b: int, n: nat, m: nat)
    requires m > 0
    ensures Pow(b % m, n) % m == Pow(b, n) % m
  {
    if n > 0 {
      var p, p' := Pow(b, n - 1), Pow(b % m, n - 1);
      ReduceBase(b, n - 1, m);
      ReduceFactor(b, p', m);
      ReduceFactor(p', b, m);
      ReduceFactor(p, b, m);
    }
  }

  lemma CongruentFactor(r: int, x: int, y: int, m: nat)
    requires m > 0 && x % m == y % m
    ensures (r * x) % m == (r * y) % m
  {
    ReduceFactor(x, r, m);
    ReduceFactor(y, r, m);
  }

  lemma ReduceBoth(r: int, b: int, n: nat, m: nat)
    requires m > 0
    ensures (r * Pow(b % m, n)) % m == (r * Pow(b, n)) % m
  {
    ReduceBase(b, n, m);
    CongruentFactor(r, Pow(b % m, n), Pow(b, n), m);
  }

  /** The loop invariant: what is still to be multiplied completes r to the goal. */
  ghost predicate Completes(r: int, base: int, exp: nat, goal: int, m: nat)
    requires m > 0
  {
    (r * Pow(base, exp)) % m == goal % m
  }

  /** One round of the loop keeps the invariant. */
  lemma Round(r: int, base: int, exp: nat, goal: int, m: nat)
    requires m > 0 && exp > 0 && Completes(r, base, exp, goal, m)
    ensures Completes(if exp % 2 == 1 then (r * base) % m else r, (base * base) % m, exp / 2, goal, m)
  {
    var r' := if exp % 2 == 1 then (r * base) % m else r;
    var half := Pow(base * base, exp / 2);
    ReduceBoth(r', base * base, exp / 2, m);
    PowDoubles(base, exp / 2);
    if exp % 2 == 1 {
      ReduceFactor(r * base, half, m);
      MulAssociates(r, base, half);
    }
  }

  lemma Finished(r: int, base: int, goal: int, m: nat)
    requires 0 <= r < m && Completes(r, base, 0, goal, m)
    ensures r == goal % m
  {
    DivisionIs(r, m, 0, r);
  }

  /** mod_exp computes a^p reduced to [0, m), also for negative a, p = 0 and m = 1. */
  method ModExp(a: int, p: nat, m: nat) returns (r: int)
    requires m >= 1
    ensures 0 <= r < m && r == Pow(a, p) % m
  {
    if m == 1 {
      return 0;
    }
    var exp := p;
    r := 1;
    var base := a % m;
    ReduceBoth(1, a, p, m);
    while exp != 0
      invariant 0 <= r < m && Completes(r, base, exp, Pow(a, p), m)
    {
      Round(r, base, exp, Pow(a, p), m);
      if exp % 2 == 1 {
        r := (r * base) % m;
      }
      exp := exp / 2;
      base := (base * base) % m;
    }
    Finished(r, base, Pow(a, p), m);
  }

  /** Pow is exponentiation: x^0 = 1, x^1 = x, and exponents add. */
  lemma {:induction false} PowAdds(b: int, m: nat, n: nat)
    ensures Pow(b, 0) == 1 && Pow(b, 1) == b && Pow(b, m + n) == Pow(b, m) * Pow(b, n)
  {
    if n > 0 {
      PowAdds(b, m, n - 1);
      assert Pow(b, m + n) == b * Pow(b, m + (n - 1));
      MulAssociates(b, Pow(b, m), Pow(b, n - 1));
      MulAssociates(Pow(b, m), b, Pow(b, n - 1));
    }
  }
}
