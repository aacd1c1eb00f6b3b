/** The `BigInteger` object: the integer constructor, and the compound
    assignments `+= -= *= /= %= <<= >>= &= |= ^=` with `++` and `--`, each
    of which replaces the number held by `*this` with `(*this) op other`. */
module Integer {
  import opened Arith
  import opened Limbs
  import opened Comparison
  import opened Addition
  import opened Multiplication
  import opened Division
  import opened Powers
  import opened Words
  import opened Binary
  import opened Text

  /** 2^63: `int64_t` holds values below it, `uint64_t` values below 2^64. */
  const Int64Limit: nat := 0x8000_0000_0000_0000

  /** The integer constructor as written, for a value of any integer type
      up to 64 bits: the sign bit set when the value is below 0, and a
      single limb `static_cast<uint64_t>(std::abs(static_cast<int64_t>(value)))`.
      A `uint64_t` of 2^63 or more turns negative in the cast to `int64_t`;
      -2^63, and the `uint64_t` 2^63 that the cast turns into it, have no
      `std::abs` and are left out. */
  function MachineIntAsWritten(v: int): BigInt
    requires -(Int64Limit as int) < v < Word && v != Int64Limit
  {
    var asInt64 := if v >= Int64Limit then v - Word else v;
    BigInt(v < 0, [if asInt64 < 0 then -asInt64 else asInt64])
  }

  /** Below 10^18 in magnitude the constructor builds the normal number with
      that value, the one the intended constructor `FromInt` builds. */
  lemma MachineIntAgrees(v: int)
    requires -(Base as int) < v < Base
    ensures MachineIntAsWritten(v) == FromMachineInt(v) == FromInt(v)
  {
    WordIsPowerOfTwo();
  }

  /** 10^18 gets one limb equal to the base, which is not canonical, where
      the intended number has the limbs 1 and 0. */
  lemma LargeMachineIntAsWritten()
    ensures MachineIntAsWritten(Base) == BigInt(false, [Base])
    ensures !Canonical(MachineIntAsWritten(Base).limbs)
    ensures FromInt(Base) == BigInt(false, [1, 0])
  {
    WordIsPowerOfTwo();
    assert ToLimbs(1) == [1];
  }

  /** A `uint64_t` of 2^63 + 1 becomes -(2^63 - 1) in the cast to
      `int64_t`, so the number holds 2^63 - 1. */
  lemma UnsignedMachineIntAsWritten()
    ensures MachineIntAsWritten(Int64Limit + 1) == BigInt(false, [Int64Limit - 1])
    ensures IntVal(MachineIntAsWritten(Int64Limit + 1)) != Int64Limit + 1
  {
    WordIsPowerOfTwo();
    ValSingle(Int64Limit - 1);
  }

  /** The constant `1` that `++` and `--` add and take away. */
  const One: BigInt := BigInt(false, [1])

  class BigInteger {
    /** The sign bit and `integer_storage_`. */
    var value: BigInt

    /** The default constructor: the single limb 0. */
    constructor Default()
      ensures value == Zero
    {
      value := Zero;
    }

    /** The integer constructor, as intended: the normal number holding `v`. */
    constructor OfInt(v: int)
      ensures value == FromInt(v) && Normal(value) && IntVal(value) == v
    {
      value := FromInt(v);
    }

    /** The copy constructor. */
    constructor Copy(other: BigInteger)
      ensures value == other.value
    {
      value := other.value;
    }

    /** `+=`: the sum; `other` may be `*this`, whose old value is used. */
    method AddAssign(other: BigInteger)
      requires Addable(value, other.value)
      modifies this
      ensures value == Sum(old(value), old(other.value))
      ensures Normal(value) && IntVal(value) == IntVal(old(value)) + IntVal(old(other.value))
    {
      SumCorrect(value, other.value);
      value := Sum(value, other.value);
    }

    /** `-=`: the sum with the negated operand. */
    method SubAssign(other: BigInteger)
      requires Addable(value, Comparison.Negate(other.value))
      modifies this
      ensures value == Subtract(old(value), old(other.value))
      ensures Normal(value) && IntVal(value) == IntVal(old(value)) - IntVal(old(other.value))
    {
      SubtractCorrect(value, other.value);
      value := Subtract(value, other.value);
    }

    /** `*=`: the product, its sign the exclusive or of the signs. */
    method MulAssign(other: BigInteger)
      requires |value.limbs| >= 1 && |other.value.limbs| >= 1
      requires Bounded(value.limbs) && Bounded(other.value.limbs)
      modifies this
      ensures value == Product(old(value), old(other.value))
      ensures Canonical(value.limbs) && IntVal(value) == IntVal(old(value)) * IntVal(old(other.value))
    {
      ProductCorrect(value, other.value);
      value := Product(value, other.value);
    }

    /** `/=`: the quotient; dividing by 0 throws before `*this` is assigned,
        which leaves the number as it was. */
    method DivAssign(other: BigInteger) returns (thrown: Option<Error>)
      requires Canonical(value.limbs) && Normal(other.value)
      modifies this
      ensures thrown.Some? <==> IntVal(old(other.value)) == 0
      ensures thrown.Some? ==> thrown.value == DivisionByZero && value == old(value)
      ensures thrown.None? ==> Quotient(old(value), old(other.value)) == Success(value)
    {
      QuotientCorrect(value, other.value);
      var q := Quotient(value, other.value);
      if q.Failure? {
        return Some(q.error);
      }
      value := q.value;
      return None;
    }

    /** `%=`: the remainder `a - (a / b) * b`, with the error of `/`. */
    method ModAssign(other: BigInteger) returns (thrown: Option<Error>)
      requires Canonical(value.limbs) && Normal(other.value)
      modifies this
      ensures thrown.Some? <==> IntVal(old(other.value)) == 0
      ensures thrown.Some? ==> thrown.value == DivisionByZero && value == old(value)
      ensures thrown.None? ==> Remainder(old(value), old(other.value)) == Success(value)
      ensures thrown.None? ==> Normal(value) && -(Val(old(other.value).limbs) as int) < IntVal(value) < Val(old(other.value).limbs)
    {
      QuotientCorrect(value, other.value);
      RemainderCorrect(value, other.value);
      var r := Remainder(value, other.value);
      if r.Failure? {
        return Some(r.error);
      }
      value := r.value;
      return None;
    }

    /** `<<=`: multiplication by 2 to the power of a non-negative `other`. */
    method ShiftLeftAssign(other: BigInteger)
      requires |value.limbs| >= 1 && Bounded(value.limbs) && Natural(other.value)
      modifies this
      ensures value == ShiftLeft(old(value), old(other.value))
      ensures IntVal(value) == IntVal(old(value)) * Power(2, Val(old(other.value).limbs))
    {
      ShiftLeftCorrect(value, other.value);
      value := ShiftLeft(value, other.value);
    }

    /** `>>=`: division of the magnitude by 2 to the power of `other`. */
    method ShiftRightAssign(other: BigInteger)
      requires Canonical(value.limbs) && Natural(other.value)
      modifies this
      ensures value == ShiftRight(old(value), old(other.value))
      ensures value.neg == old(value).neg
      ensures Power(2, Val(old(other.value).limbs)) > 0
      ensures Val(value.limbs) == Val(old(value).limbs) / Power(2, Val(old(other.value).limbs))
    {
      ShiftRightCorrect(value, other.value);
      value := ShiftRight(value, other.value);
    }

    /** `&=`, `|=` and `^=`: the word-wise operation on the binary forms; on
        non-negative numbers the bitwise operation on the values. */
    method BitwiseAssign(op: BitOp, other: BigInteger)
      requires Normal(value) && Normal(other.value)
      modifies this
      ensures value == BinaryOp(op, old(value), old(other.value))
      ensures Natural(value)
      ensures !old(value).neg && !old(other.value).neg ==>
        IntVal(value) == Bitwise(op, Val(old(value).limbs), Val(old(other.value).limbs))
    {
      BinaryOpCommutes(op, value, other.value);
      if !value.neg && !other.value.neg {
        BinaryOpValue(op, value, other.value);
      }
      value := BinaryOp(op, value, other.value);
    }

    /** Prefix `++`: `*this += 1`. */
    method Increment()
      requires Addable(value, One)
      modifies this
      ensures value == Sum(old(value), One)
      ensures Normal(value) && IntVal(value) == IntVal(old(value)) + 1
    {
      ValSingle(1);
      SumCorrect(value, One);
      value := Sum(value, One);
    }

    /** Prefix `--`: `*this -= 1`. */
    method Decrement()
      requires Addable(value, Comparison.Negate(One))
      modifies this
      ensures value == Subtract(old(value), One)
      ensures Normal(value) && IntVal(value) == IntVal(old(value)) - 1
    {
      ValSingle(1);
      SubtractCorrect(value, One);
      value := Subtract(value, One);
    }

    /** Postfix `++`: the number before the increment is returned. */
    method PostIncrement() returns (copy: BigInt)
      requires Addable(value, One)
      modifies this
      ensures copy == old(value) && value == Sum(old(value), One)
      ensures Normal(value) && IntVal(value) == IntVal(old(value)) + 1
    {
      copy := value;
      Increment();
    }

    /** Postfix `--`: the number before the decrement is returned. */
    method PostDecrement() returns (copy: BigInt)
      requires Addable(value, Comparison.Negate(One))
      modifies this
      ensures copy == old(value) && value == Subtract(old(value), One)
      ensures Normal(value) && IntVal(value) == IntVal(old(value)) - 1
    {
      copy := value;
      Decrement();
    }
  }

  /** The -0 that `/=`, `*=` and `>>=` can leave behind is not normal, yet
      `++` and `--` take it, as `+=` does, to 1 and -1. */
  lemma IncrementNegativeZero()
    ensures !Normal(BigInt(true, [0]))
    ensures Addable(BigInt(true, [0]), One) && Sum(BigInt(true, [0]), One) == One
    ensures Addable(BigInt(true, [0]), Comparison.Negate(One))
    ensures Subtract(BigInt(true, [0]), One) == BigInt(true, [1])
  {
    ValSingle(0);
    ValSingle(1);
    SumCorrect(BigInt(true, [0]), One);
    SubtractCorrect(BigInt(true, [0]), One);
    NormalEqual(Sum(BigInt(true, [0]), One), One);
    NormalEqual(Subtract(BigInt(true, [0]), One), BigInt(true, [1]));
  }

  /** `++` then `--` gives the number back. */
  lemma IncrementDecrement(x: BigInt)
    requires Normal(x)
    ensures Normal(Sum(x, One)) && Subtract(Sum(x, One), One) == x
  {
    ValSingle(1);
    SumCorrect(x, One);
    SubtractCorrect(Sum(x, One), One);
    NormalEqual(Subtract(Sum(x, One), One), x);
  }
}
