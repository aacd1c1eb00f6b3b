// Division and remainder of `BigInteger`: the doubling loop of `operator/`
// and `operator%` built from it as `a - (a / b) * b`.

module Division {
  import opened Arith
  import opened Limbs
  import opened Comparison
  import opened Addition
  import opened Multiplication

  /** A normal number without a minus sign: the values the division loop
      keeps in `remainder`, `quotient`, `pwr_two` and `double_divisor`. */
  predicate Natural(x: BigInt)
  {
    Normal(x) && !x.neg
  }

  /** `+` on two naturals is a natural holding the sum. */
  lemma AddNatural(x: BigInt, y: BigInt)
    requires Natural(x) && Natural(y)
    ensures Natural(Sum(x, y)) && Val(Sum(x, y).limbs) == Val(x.limbs) + Val(y.limbs)
  {
    SumOfNonNegative(x, y);
  }

  /** `-` of a natural not above the other is a natural holding the difference. */
  lemma SubNatural(x: BigInt, y: BigInt)
    requires Natural(x) && Natural(y) && Val(y.limbs) <= Val(x.limbs)
    ensures Natural(Subtract(x, y)) && Val(Subtract(x, y).limbs) == Val(x.limbs) - Val(y.limbs)
  {
    SubtractCorrect(x, y);
    var d := Subtract(x, y);
    if d.neg {
      CanonicalZero(d.limbs);
    }
  }

  /** What `operator/` computes: the constructed 0 as divisor raises the
      arithmetic error; otherwise the magnitude is the floor of |a| / |b| and
      the one-bit sign field receives the sum of the two sign bits. */
  function Quotient(a: BigInt, b: BigInt): (r: Result<BigInt>)
    requires Canonical(a.limbs) && Normal(b)
  {
    if b == Zero then Failure(DivisionByZero)
    else
      IsZeroOfNormal(b);
      Success(BigInt(a.neg != b.neg, ToLimbs(Val(a.limbs) / Val(b.limbs))))
  }

  /** `operator/`: the error for the constructed 0; otherwise the quotient
      truncates toward zero: its magnitude times |b| does not exceed |a| and
      one more |b| would, and its sign bit is the exclusive or of the
      operands' sign bits, so that a quotient of 0 can carry a minus sign. */
  lemma QuotientCorrect(a: BigInt, b: BigInt)
    requires Canonical(a.limbs) && Normal(b)
    ensures Quotient(a, b).Failure? <==> IntVal(b) == 0
    ensures Quotient(a, b).Failure? ==> Quotient(a, b).error == DivisionByZero
    ensures Quotient(a, b).Success? ==>
      var q := Quotient(a, b).value;
      Canonical(q.limbs) && (q.neg <==> a.neg != b.neg)
      && Val(q.limbs) * Val(b.limbs) <= Val(a.limbs) < (Val(q.limbs) + 1) * Val(b.limbs)
      && (IntVal(q) == 0 <==> Val(a.limbs) < Val(b.limbs))
  {
    IsZeroOfNormal(b);
    if b != Zero {
      var A, B := Val(a.limbs), Val(b.limbs);
      var Q := A / B;
      DivModSplit(A, B);
      MulDistrib(Q, 1, B);
      if Q > 0 {
        MulLe(1, Q, B);
      }
    }
  }

  /** `operator/` as written: after the check for 0, `remainder` starts at
      |a| and, while it is at least |b|, the largest doubling
      `|b| * 2^k` below it (or |b| itself) is taken off and `2^k` added to
      `quotient`; the sign bit is set at the end. A divisor of -0 is not 0
      to `==` but makes the inner loop double 0 for ever, so it is excluded. */
  method Divide(a: BigInt, b: BigInt) returns (r: Result<BigInt>)
    requires Canonical(a.limbs) && Normal(b)
    ensures r == Quotient(a, b)
  {
    var isZero := Equals(b, Zero);
    if isZero {
      return Failure(DivisionByZero);
    }
    IsZeroOfNormal(b);
    ghost var A, B := Val(a.limbs), Val(b.limbs);
    var remainder := Abs(a);
    var absOther := Abs(b);
    var quotient := Zero;
    ValSingle(0);
    var ord := CompareScan(remainder, absOther);
    while ord != Less
      invariant Natural(remainder) && Natural(quotient) && absOther == Abs(b) && Natural(absOther)
      invariant Val(quotient.limbs) * B + Val(remainder.limbs) == A
      invariant ord == Compare(remainder, absOther)
      decreases Val(remainder.limbs)
    {
      CompareSound(remainder, absOther);
      var pwrTwo, doubleDivisor := LargestDoubling(absOther, remainder);
      AddNatural(quotient, pwrTwo);
      SubNatural(remainder, doubleDivisor);
      ghost var q, rem := quotient, remainder;
      quotient, remainder := Sum(quotient, pwrTwo), Subtract(remainder, doubleDivisor);
      DivisionStep(A, B, Val(q.limbs), Val(rem.limbs), Val(pwrTwo.limbs), Val(doubleDivisor.limbs),
                   Val(quotient.limbs), Val(remainder.limbs));
      ord := CompareScan(remainder, absOther);
    }
    CompareSound(remainder, absOther);
    DivModUnique(A, B, Val(quotient.limbs), Val(remainder.limbs));
    ToLimbsOfVal(quotient.limbs);
    r := Success(quotient.(neg := a.neg != b.neg));
  }

  /** Taking `p * B` off the remainder and adding `p` to the quotient keeps
      `quotient * B + remainder == A` and makes the remainder smaller. */
  lemma DivisionStep(A: nat, B: nat, q: nat, r: nat, p: nat, d: nat, q': nat, r': nat)
    requires q * B + r == A && d == p * B && 1 <= p && 0 < B && d <= r
    requires q' == q + p && r' == r - d
    ensures q' * B + r' == A && r' < r
  {
    MulDistrib(q, p, B);
    MulLe(1, p, B);
  }

  /** The inner loop of `operator/`: starting from `pwr_two = 1` and
      `double_divisor = d`, doubles both while twice the divisor stays below
      the remainder `rem`, ending with the largest `d * 2^k` whose double
      reaches `rem`. */
  method LargestDoubling(d: BigInt, rem: BigInt) returns (pwrTwo: BigInt, doubleDivisor: BigInt)
    requires Natural(d) && Natural(rem) && 0 < Val(d.limbs) <= Val(rem.limbs)
    ensures Natural(pwrTwo) && Natural(doubleDivisor) && Val(pwrTwo.limbs) >= 1
    ensures Val(doubleDivisor.limbs) == Val(pwrTwo.limbs) * Val(d.limbs)
    ensures Val(doubleDivisor.limbs) <= Val(rem.limbs) <= 2 * Val(doubleDivisor.limbs)
  {
    ghost var B := Val(d.limbs);
    pwrTwo, doubleDivisor := FromMachineInt(1), d;
    ValSingle(1);
    var doubled := Sum(doubleDivisor, doubleDivisor);
    AddNatural(doubleDivisor, doubleDivisor);
    var below := CompareScan(doubled, rem);
    while below == Less
      invariant Natural(pwrTwo) && Natural(doubleDivisor) && Natural(doubled)
      invariant Val(pwrTwo.limbs) >= 1 && Val(doubleDivisor.limbs) == Val(pwrTwo.limbs) * B
      invariant Val(doubleDivisor.limbs) <= Val(rem.limbs)
      invariant Val(doubled.limbs) == 2 * Val(doubleDivisor.limbs)
      invariant below == Compare(doubled, rem)
      decreases Val(rem.limbs) - Val(doubleDivisor.limbs)
    {
      CompareSound(doubled, rem);
      AddNatural(pwrTwo, pwrTwo);
      ghost var p := pwrTwo;
      doubleDivisor, pwrTwo := doubled, Sum(pwrTwo, pwrTwo);
      MulDistrib(Val(p.limbs), Val(p.limbs), B);
      assert Val(doubleDivisor.limbs) == Val(pwrTwo.limbs) * B;
      AddNatural(doubleDivisor, doubleDivisor);
      doubled := Sum(doubleDivisor, doubleDivisor);
      below := CompareScan(doubled, rem);
    }
    CompareSound(doubled, rem);
  }

  /** `operator%`: `a - (a / b) * b`, with the error of the division. */
  function Remainder(a: BigInt, b: BigInt): (r: Result<BigInt>)
    requires Canonical(a.limbs) && Normal(b)
  {
    match Quotient(a, b)
    case Failure(e) => Failure(e)
    case Success(q) => Success(Subtract(a, Product(q, b)))
  }

  /** The remainder of `operator%` is the truncated one of C++: normal,
      `a == (a / b) * b + a % b`, smaller than |b| in magnitude and never of
      the opposite sign to `a`. */
  lemma RemainderCorrect(a: BigInt, b: BigInt)
    requires Canonical(a.limbs) && Normal(b)
    ensures Remainder(a, b).Failure? <==> IntVal(b) == 0
    ensures Remainder(a, b).Success? ==>
      var q, r := Quotient(a, b).value, Remainder(a, b).value;
      Normal(r) && IntVal(a) == IntVal(q) * IntVal(b) + IntVal(r)
      && -(Val(b.limbs) as int) < IntVal(r) < Val(b.limbs)
      && (IntVal(a) >= 0 ==> IntVal(r) >= 0) && (IntVal(a) <= 0 ==> IntVal(r) <= 0)
  {
    QuotientCorrect(a, b);
    if b != Zero {
      var q := Quotient(a, b).value;
      var p := Product(q, b);
      ProductCorrect(q, b);
      SubtractCorrect(a, p);
      var A, B, Q := Val(a.limbs), Val(b.limbs), Val(q.limbs);
      assert Q * B <= A < Q * B + B by {
        MulDistrib(Q, 1, B);
      }
      SignedRemainder(IntVal(a), IntVal(b), IntVal(q), A, B, Q);
    }
  }

  /** The sign bookkeeping of `RemainderCorrect` on plain integers. */
  lemma SignedRemainder(ia: int, ib: int, iq: int, A: int, B: int, Q: int)
    requires A >= 0 && B >= 0 && Q >= 0
    requires ia == A || ia == -A
    requires ib == B || ib == -B
    requires Q * B <= A < Q * B + B
    requires (iq == Q || iq == -Q) && (Q != 0 ==> ((iq < 0) <==> ((ia < 0) != (ib < 0))))
    ensures -B < ia - iq * ib < B
    ensures ia >= 0 ==> ia - iq * ib >= 0
    ensures ia <= 0 ==> ia - iq * ib <= 0
  {
    if iq == -Q {
      assert iq * ib == -(Q * ib);
    } else {
      assert iq * ib == Q * ib;
    }
    if ib == -B {
      assert Q * ib == -(Q * B);
    }
  }
}
