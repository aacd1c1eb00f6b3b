/** Natural-number powers and the few facts about them that the limb
    arithmetic needs: base 10^18 for decimal limbs, base 2^64 for binary
    words, base 10 for decimal text. */
module Arith {

  function Power(b: nat, e: nat): nat
  {
    if e == 0 then 1 else b * Power(b, e - 1)
  }

  lemma {:induction false} PowerPositive(b: nat, e: nat)
    requires b > 0
    ensures Power(b, e) > 0
  {
    if e > 0 {
      PowerPositive(b, e - 1);
      MulPositive(b, Power(b, e - 1));
    }
  }

  /** One more factor, for an exponent written as `e1`. */
  lemma PowerStep(b: nat, e: nat, e1: nat)
    requires e1 == e + 1
    ensures Power(b, e1) == b * Power(b, e)
  {
  }

  lemma {:induction false} PowerAdd(b: nat, e1: nat, e2: nat)
    ensures Power(b, e1 + e2) == Power(b, e1) * Power(b, e2)
    decreases e2
  {
    if e2 > 0 {
      PowerAdd(b, e1, e2 - 1);
      calc {
        Power(b, e1 + e2);
        b * Power(b, e1 + e2 - 1);
        b * (Power(b, e1) * Power(b, e2 - 1));
        { MulAssoc3(b, Power(b, e1), Power(b, e2 - 1)); }
        Power(b, e1) * (b * Power(b, e2 - 1));
        Power(b, e1) * Power(b, e2);
      }
    }
  }

  lemma {:induction false} PowerMono(b: nat, e1: nat, e2: nat)
    requires b >= 1 && e1 <= e2
    ensures Power(b, e1) <= Power(b, e2)
    decreases e2
  {
    if e2 > e1 {
      PowerMono(b, e1, e2 - 1);
      PowerPositive(b, e2 - 1);
      MulLe(1, b, Power(b, e2 - 1));
    }
  }

  lemma {:induction false} PowerStrictMono(b: nat, e1: nat, e2: nat)
    requires b >= 2 && e1 < e2
    ensures Power(b, e1) < Power(b, e2)
    decreases e2
  {
    PowerMono(b, e1, e2 - 1);
    PowerPositive(b, e2 - 1);
    MulLe(2, b, Power(b, e2 - 1));
  }

  /** (b^k)^e == b^(k*e): used for 10^(18*n) == (10^18)^n and 2^(64*n) == (2^64)^n. */
  lemma {:induction false} PowerOfPower(b: nat, k: nat, e: nat)
    ensures Power(Power(b, k), e) == Power(b, k * e)
    decreases e
  {
    if e > 0 {
      PowerOfPower(b, k, e - 1);
      PowerAdd(b, k, k * (e - 1));
      assert k + k * (e - 1) == k * e;
    }
  }

  /** Powers of an integer base, which may be negative. */
  function IntPower(b: int, e: nat): int
  {
    if e == 0 then 1 else b * IntPower(b, e - 1)
  }

  lemma {:induction false} IntPowerAdd(b: int, e1: nat, e2: nat)
    ensures IntPower(b, e1 + e2) == IntPower(b, e1) * IntPower(b, e2)
    decreases e2
  {
    if e2 > 0 {
      IntPowerAdd(b, e1, e2 - 1);
      MulAssoc3(b, IntPower(b, e1), IntPower(b, e2 - 1));
    }
  }

  lemma {:induction false} IntPowerOfNat(b: nat, e: nat)
    ensures IntPower(b, e) == Power(b, e)
  {
    if e > 0 {
      IntPowerOfNat(b, e - 1);
    }
  }

  lemma MulPositive(a: nat, b: nat)
    requires a > 0 && b > 0
    ensures a * b > 0
  {}

  lemma MulLe(a: nat, b: nat, c: nat)
    requires a <= b
    ensures a * c <= b * c
  {}

  lemma MulAssoc3(a: int, b: int, c: int)
    ensures a * (b * c) == b * (a * c)
    ensures (a * b) * c == a * (b * c)
  {}

  /** The quotient and remainder of Euclidean division are determined by
      their defining equation. */
  lemma DivModUnique(n: nat, d: nat, q: nat, r: nat)
    requires d > 0 && r < d && n == q * d + r
    ensures q == n / d && r == n % d
  {
    var q0, r0 := n / d, n % d;
    assert n == q0 * d + r0;
    if q < q0 {
      MulLe(q + 1, q0, d);
    } else if q > q0 {
      MulLe(q0 + 1, q, d);
    }
  }

  lemma DivModSplit(n: int, d: int)
    requires d > 0
    ensures (n / d) * d + n % d == n
  {}

  /** (q * d + r) / d == q for r < d, the form in which the limb loops use it. */
  lemma DivOfMulAdd(q: nat, d: nat, r: nat)
    requires d > 0 && r < d
    ensures (q * d + r) / d == q && (q * d + r) % d == r
  {
    DivModUnique(q * d + r, d, q, r);
  }

  /** Whole multiples of the divisor come out of the quotient unchanged. */
  lemma DivAddMul(q: nat, d: nat, x: nat)
    requires d > 0
    ensures (q * d + x) / d == q + x / d
  {
    var h, l := x / d, x % d;
    MulDistrib(q, h, d);
    DivModUnique(q * d + x, d, q + h, l);
  }

  /** Dividing by a product is dividing twice. */
  lemma DivDiv(n: nat, a: nat, b: nat)
    requires a > 0 && b > 0
    ensures a * b > 0 && n / (a * b) == (n / a) / b
  {
    MulPositive(a, b);
    var m := n / a;
    var q, rm, rn := m / b, m % b, n % a;
    DivModSplit(n, a);
    DivModSplit(m, b);
    Regroup(q, b, rm, a, rn);
    RemainderBound(rm, rn, a, b);
    DivModUnique(n, a * b, q, rm * a + rn);
  }

  /** `(q * b + rm) * a + rn` with the product `a * b` set apart. */
  lemma Regroup(q: int, b: int, rm: int, a: int, rn: int)
    ensures (q * b + rm) * a + rn == q * (a * b) + (rm * a + rn)
  {
    MulDistrib(q * b, rm, a);
    MulAssoc3(q, b, a);
    assert b * a == a * b;
  }

  /** A two-level remainder stays below the product of the divisors. */
  lemma RemainderBound(rm: nat, rn: nat, a: nat, b: nat)
    requires rm < b && rn < a
    ensures rm * a + rn < a * b
  {
    MulLe(rm, b - 1, a);
    MulSub(b, 1, a);
  }

  lemma MulDistrib(x: int, y: int, c: int)
    ensures (x + y) * c == x * c + y * c
  {}

  lemma MulSub(x: int, y: int, c: int)
    ensures (x - y) * c == x * c - y * c
  {}
}
