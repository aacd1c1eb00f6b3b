// `pow` by repeated squaring, and the shifts built on it.

module Powers {
  import opened Arith
  import opened Limbs
  import opened Comparison
  import opened Multiplication
  import opened Division

  /** The number 2 as the integer constructor builds it for `pow(2, n)`. */
  const Two: BigInt := BigInt(false, [2])

  /** `pow`: 1 for the constructed 0 as exponent; otherwise the power for
      half the exponent (by `operator/`) squared, times the base first when
      the last limb of the exponent is odd. Only exponents without a minus
      sign end the recursion: a negative one halves towards -0, which is not
      the constructed 0. */
  function Pow(base: BigInt, e: BigInt): (r: BigInt)
    requires |base.limbs| >= 1 && Bounded(base.limbs) && Natural(e)
    ensures Canonical(r.limbs)
    ensures r.neg <==> base.neg && Val(e.limbs) % 2 == 1
    ensures IntVal(r) == IntPower(IntVal(base), Val(e.limbs))
    decreases Val(e.limbs)
  {
    if e == Zero then
      ValSingle(1);
      BigInt(false, [1])
    else
      HalfExponent(e);
      var half := Quotient(e, Two).value;
      var odd := e.limbs[|e.limbs| - 1] % 2 == 1;
      var p := Pow(base, half);
      var r := SquareTimes(base, p, odd);
      PowStep(IntVal(base), Val(e.limbs), Val(half.limbs), odd, IntVal(p), IntVal(r));
      r
  }

  /** The power `r` from the power `p` for half the exponent. */
  lemma PowStep(b: int, e: nat, h: nat, odd: bool, p: int, r: int)
    requires e == 2 * h + (if odd then 1 else 0)
    requires p == IntPower(b, h) && r == if odd then b * (p * p) else p * p
    ensures r == IntPower(b, e) && (odd <==> e % 2 == 1)
  {
    PowerSplit(b, e, h, odd);
    SquareOf(IntPower(b, h), p);
    ParityOf(e, h, odd);
  }

  lemma SquareOf(x: int, p: int)
    requires x == p
    ensures x * x == p * p
  {
  }

  /** The parity of `2 * h + 1` or `2 * h`. */
  lemma ParityOf(e: nat, h: nat, odd: bool)
    requires e == 2 * h + (if odd then 1 else 0)
    ensures odd <==> e % 2 == 1
  {
  }

  /** The last step of `pow`: `base * p * p` for an odd exponent, `p * p`
      for an even one. */
  function SquareTimes(base: BigInt, p: BigInt, odd: bool): (r: BigInt)
    requires |base.limbs| >= 1 && Bounded(base.limbs) && Canonical(p.limbs)
    ensures Canonical(r.limbs) && (r.neg <==> base.neg && odd)
    ensures IntVal(r) == if odd then IntVal(base) * (IntVal(p) * IntVal(p)) else IntVal(p) * IntVal(p)
  {
    if odd then
      ProductCorrect(base, p);
      var bp := Product(base, p);
      ProductCorrect(bp, p);
      MulAssoc3(IntVal(base), IntVal(p), IntVal(p));
      Product(bp, p)
    else
      ProductCorrect(p, p);
      Product(p, p)
  }

  /** b^e in terms of b^h for e == 2h or e == 2h + 1. */
  lemma PowerSplit(b: int, e: nat, h: nat, odd: bool)
    requires e == 2 * h + (if odd then 1 else 0)
    ensures IntPower(b, e) == if odd then b * (IntPower(b, h) * IntPower(b, h)) else IntPower(b, h) * IntPower(b, h)
  {
    IntPowerAdd(b, h, h);
  }

  /** Halving a non-zero exponent with `operator/` gives a smaller natural
      whose double, plus the parity of the last limb, is the exponent. */
  lemma HalfExponent(e: BigInt)
    requires Natural(e) && e != Zero
    ensures Quotient(e, Two).Success?
    ensures var h := Quotient(e, Two).value;
      Natural(h) && Val(h.limbs) < Val(e.limbs)
      && Val(e.limbs) == 2 * Val(h.limbs) + (if e.limbs[|e.limbs| - 1] % 2 == 1 then 1 else 0)
  {
    ValSingle(2);
    QuotientCorrect(e, Two);
    IsZeroOfNormal(e);
    ValParity(e.limbs);
    var h := Quotient(e, Two).value;
    DivModUnique(Val(e.limbs), 2, Val(h.limbs), Val(e.limbs) % 2);
  }

  /** `pow(2, n)` is 2^n without a minus sign, so never 0. */
  lemma PowerOfTwo(n: BigInt)
    requires Natural(n)
    ensures Natural(Pow(Two, n)) && Val(Pow(Two, n).limbs) == Power(2, Val(n.limbs))
    ensures Pow(Two, n) != Zero
  {
    ValSingle(2);
    IntPowerOfNat(2, Val(n.limbs));
    PowerPositive(2, Val(n.limbs));
  }

  /** `operator<<`: multiplication by `pow(2, n)`. */
  function ShiftLeft(a: BigInt, n: BigInt): (r: BigInt)
    requires |a.limbs| >= 1 && Bounded(a.limbs) && Natural(n)
  {
    ValSingle(2);
    Product(a, Pow(Two, n))
  }

  /** `<<` multiplies by 2^n and keeps the sign bit. */
  lemma ShiftLeftCorrect(a: BigInt, n: BigInt)
    requires |a.limbs| >= 1 && Bounded(a.limbs) && Natural(n)
    ensures Canonical(ShiftLeft(a, n).limbs) && ShiftLeft(a, n).neg == a.neg
    ensures IntVal(ShiftLeft(a, n)) == IntVal(a) * Power(2, Val(n.limbs))
  {
    PowerOfTwo(n);
    ProductCorrect(a, Pow(Two, n));
  }

  /** `operator>>`: division by `pow(2, n)`, which cannot be 0. */
  function ShiftRight(a: BigInt, n: BigInt): (r: BigInt)
    requires Canonical(a.limbs) && Natural(n)
  {
    PowerOfTwo(n);
    QuotientCorrect(a, Pow(Two, n));
    Quotient(a, Pow(Two, n)).value
  }

  /** `>>` divides the magnitude by 2^n rounding down and keeps the sign bit,
      so a negative number is rounded toward zero, not toward minus infinity. */
  lemma ShiftRightCorrect(a: BigInt, n: BigInt)
    requires Canonical(a.limbs) && Natural(n)
    ensures Canonical(ShiftRight(a, n).limbs) && ShiftRight(a, n).neg == a.neg
    ensures Power(2, Val(n.limbs)) > 0 && Val(ShiftRight(a, n).limbs) == Val(a.limbs) / Power(2, Val(n.limbs))
  {
    PowerOfTwo(n);
    PowerPositive(2, Val(n.limbs));
    QuotientCorrect(a, Pow(Two, n));
  }
}
