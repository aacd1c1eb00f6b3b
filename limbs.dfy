/** The decimal-limb representation shared by every number (BigNumber):
    a sign bit and a sequence of limbs, most significant first, each limb a
    group of 18 decimal digits, i.e. a digit in base 10^18. */
module Limbs {
  import opened Arith

  /** Decimal digits held by one 64-bit limb. */
  const DigitsPerLimb: nat := 18
  /** The limb base, 10^18 (`overflow_unit_of_storage`). */
  const Base: nat := 1_000_000_000_000_000_000
  /** Half the base, the weight of a bit carried into the next limb when halving. */
  const HalfBase: nat := Base / 2
  /** The largest limb of a canonical number. */
  const MaxLimb: nat := Base - 1

  /** One 64-bit machine word: limbs and binary words live in `uint64_t`. */
  const Word: nat := 0x1_0000_0000_0000_0000

  /** A limb holds exactly 18 decimal digits. */
  lemma {:induction false} BaseIsPowerOfTen()
    ensures Base == Power(10, DigitsPerLimb)
  {
    assert Power(10, 3) == 1000;
    PowerAdd(10, 3, 3);
    PowerAdd(10, 6, 3);
    PowerAdd(10, 9, 9);
  }

  /** `uint64_t` holds 64 bits, and every limb below the base fits in one. */
  lemma {:induction false} WordIsPowerOfTwo()
    ensures Word == Power(2, 64) && Base < Word
  {
    assert Power(2, 8) == 256;
    PowerAdd(2, 8, 8);
    PowerAdd(2, 16, 16);
    PowerAdd(2, 32, 32);
  }

  /** A value: the sign bit `is_negative` and `integer_storage_`. */
  datatype BigInt = BigInt(neg: bool, limbs: seq<nat>)

  /** The two errors the library raises. */
  datatype Error = NumberFormat(text: string) | DivisionByZero

  datatype Result<T> = Success(value: T) | Failure(error: Error)

  /** Evaluated value of a limb sequence, most significant limb first. */
  function Val(s: seq<nat>): nat
  {
    ValTo(s, |s|)
  }

  /** Evaluated value of the first `n` limbs. */
  function ValTo(s: seq<nat>, n: nat): nat
    requires n <= |s|
  {
    if n == 0 then 0 else ValTo(s, n - 1) * Base + s[n - 1]
  }

  /** Signed value of a number; a negative-signed zero evaluates to 0. */
  function IntVal(x: BigInt): int
  {
    var v: int := Val(x.limbs);
    if x.neg then -v else v
  }

  function PowB(k: nat): nat
  {
    Power(Base, k)
  }

  /** One more limb of shift, for an exponent written as `e1`. */
  lemma PowBStep(e: nat, e1: nat)
    requires e1 == e + 1
    ensures PowB(e1) == Base * PowB(e)
  {
  }

  predicate Bounded(s: seq<nat>)
  {
    forall i :: 0 <= i < |s| ==> s[i] < Base
  }

  lemma BoundedPush(p: seq<nat>, z: nat)
    requires Bounded(p) && z < Base
    ensures Bounded(p + [z])
  {
  }

  /** No leading zero limb unless the number is the single limb 0. */
  predicate Canonical(s: seq<nat>)
  {
    |s| >= 1 && Bounded(s) && (|s| > 1 ==> s[0] != 0)
  }

  /** Canonical limbs, and zero carries the non-negative sign. */
  predicate Normal(x: BigInt)
  {
    Canonical(x.limbs) && !(x.neg && x.limbs == [0])
  }

  const Zero: BigInt := BigInt(false, [0])

  /** The canonical limbs of a natural number. */
  function ToLimbs(n: nat): (r: seq<nat>)
    ensures Canonical(r) && Val(r) == n
    ensures n > 0 ==> r[0] != 0
    decreases n
  {
    if n < Base then ValSingle(n); [n]
    else
      var p := ToLimbs(n / Base);
      ValPush(p, n % Base);
      assert (p + [n % Base])[..|p|] == p;
      p + [n % Base]
  }

  /** The normal number with a given signed value. */
  function FromInt(i: int): (r: BigInt)
    ensures Normal(r) && IntVal(r) == i
    ensures r.neg <==> i < 0
  {
    if i < 0 then BigInt(true, ToLimbs(-i)) else BigInt(false, ToLimbs(i))
  }

  /** The integer constructor: sign from the value, one limb holding its
      magnitude, which the constructor assumes is below 10^18. */
  function FromMachineInt(v: int): (r: BigInt)
    requires -(Base as int) < v < Base
    ensures Normal(r) && IntVal(r) == v && |r.limbs| == 1
  {
    if v < 0 then ValSingle(-v); BigInt(true, [-v])
    else ValSingle(v); BigInt(false, [v])
  }

  // ---------------------------------------------------------------------
  // Facts about Val

  /** The value of the first `n` limbs depends on those limbs only. */
  lemma {:induction false} ValToSame(s: seq<nat>, t: seq<nat>, n: nat)
    requires n <= |s| && n <= |t| && forall k :: 0 <= k < n ==> s[k] == t[k]
    ensures ValTo(s, n) == ValTo(t, n)
  {
    if n > 0 {
      ValToSame(s, t, n - 1);
    }
  }

  /** The value of a prefix. */
  lemma ValPrefix(s: seq<nat>, n: nat)
    requires n <= |s|
    ensures Val(s[..n]) == ValTo(s, n)
  {
    ValToSame(s[..n], s, n);
  }

  /** The value with the least significant limb set apart. */
  lemma ValLast(s: seq<nat>)
    requires |s| >= 1
    ensures Val(s) == Val(s[..|s| - 1]) * Base + s[|s| - 1]
  {
    ValPrefix(s, |s| - 1);
  }

  /** Appending a limb shifts the value up by one limb. */
  lemma ValPush(p: seq<nat>, z: nat)
    ensures Val(p + [z]) == Val(p) * Base + z
  {
    ValToSame(p + [z], p, |p|);
  }

  lemma {:induction false} ValAppend(p: seq<nat>, q: seq<nat>)
    ensures Val(p + q) == Val(p) * PowB(|q|) + Val(q)
    decreases |q|
  {
    if |q| == 0 {
      assert p + q == p;
    } else {
      var q' := q[..|q| - 1];
      var z := q[|q| - 1];
      assert p + q == (p + q') + [z];
      assert q == q' + [z];
      ValPush(p + q', z);
      ValPush(q', z);
      ValAppend(p, q');
      calc {
        Val(p + q);
        Val(p + q') * Base + z;
        (Val(p) * PowB(|q'|) + Val(q')) * Base + z;
        { MulDistrib(Val(p) * PowB(|q'|), Val(q'), Base); }
        (Val(p) * PowB(|q'|)) * Base + Val(q') * Base + z;
        { MulAssoc3(Val(p), PowB(|q'|), Base); }
        Val(p) * (Base * PowB(|q'|)) + Val(q);
      }
    }
  }

  lemma ValCons(x: nat, s: seq<nat>)
    ensures Val([x] + s) == x * PowB(|s|) + Val(s)
  {
    ValSingle(x);
    ValAppend([x], s);
  }

  lemma ValSingle(x: nat)
    ensures Val([x]) == x
  {
    assert ValTo([x], 0) == 0;
  }

  /** Leading zero limbs do not change the value. */
  lemma ValLeadingZero(s: seq<nat>)
    ensures Val([0] + s) == Val(s)
  {
    ValCons(0, s);
  }

  lemma {:induction false} ValUpper(s: seq<nat>)
    requires Bounded(s)
    ensures Val(s) < PowB(|s|)
    decreases |s|
  {
    if |s| > 0 {
      var p := s[..|s| - 1];
      ValLast(s);
      ValUpper(p);
      MulLe(Val(p) + 1, PowB(|p|), Base);
      assert PowB(|s|) == Base * PowB(|p|);
    }
  }

  lemma ValLower(s: seq<nat>)
    requires |s| >= 1 && s[0] != 0
    ensures Val(s) >= PowB(|s| - 1)
  {
    assert s == [s[0]] + s[1..];
    ValCons(s[0], s[1..]);
    MulLe(1, s[0], PowB(|s| - 1));
  }

  /** A canonical sequence is the only canonical sequence with its value. */
  lemma {:induction false} ToLimbsOfVal(s: seq<nat>)
    requires Canonical(s)
    ensures ToLimbs(Val(s)) == s
    decreases |s|
  {
    if |s| == 1 {
      assert Val(s) == s[0] by { ValSingle(s[0]); assert s == [s[0]]; }
    } else {
      var p := s[..|s| - 1];
      assert Canonical(p);
      ValLower(p);
      PowerPositive(Base, |p| - 1);
      ToLimbsOfVal(p);
      ValLast(s);
      DivOfMulAdd(Val(p), Base, s[|s| - 1]);
      assert s == p + [s[|s| - 1]];
    }
  }

  lemma CanonicalZero(s: seq<nat>)
    requires Canonical(s)
    ensures Val(s) == 0 <==> s == [0]
  {
    ToLimbsOfVal(s);
    assert ToLimbs(0) == [0];
    if s == [0] {
      ValSingle(0);
    }
  }

  /** Two normal numbers are equal exactly when their values are. */
  lemma NormalEqual(x: BigInt, y: BigInt)
    requires Normal(x) && Normal(y)
    ensures x == y <==> IntVal(x) == IntVal(y)
  {
    CanonicalZero(x.limbs);
    CanonicalZero(y.limbs);
    if IntVal(x) == IntVal(y) {
      ToLimbsOfVal(x.limbs);
      ToLimbsOfVal(y.limbs);
    }
  }

  lemma FromIntOfNormal(x: BigInt)
    requires Normal(x)
    ensures FromInt(IntVal(x)) == x
  {
    NormalEqual(FromInt(IntVal(x)), x);
  }

  /** The base is even, so the last limb decides the parity. */
  lemma ValParity(s: seq<nat>)
    requires |s| >= 1
    ensures Val(s) % 2 == s[|s| - 1] % 2
  {
    var v := Val(s[..|s| - 1]);
    ValLast(s);
    EvenShift(v, s[|s| - 1]);
  }

  /** A limb shifted up by one position is even. */
  lemma EvenShift(v: int, x: nat)
    ensures (v * Base + x) % 2 == x % 2
  {
    var k := v * HalfBase;
    assert Base == 2 * HalfBase;
    MulAssoc3(v, 2, HalfBase);
    TwiceMod(k, x);
  }

  lemma TwiceMod(k: int, x: int)
    ensures (2 * k + x) % 2 == x % 2
  {
  }

  /** Appending k zero limbs multiplies by 10^(18k). */
  lemma ValZeros(s: seq<nat>, k: nat)
    ensures Val(s + Zeros(k)) == Val(s) * PowB(k)
  {
    ValAppend(s, Zeros(k));
    ValOfZeros(k);
  }

  function Zeros(k: nat): (r: seq<nat>)
    ensures |r| == k && forall i :: 0 <= i < k ==> r[i] == 0
  {
    seq(k, _ => 0)
  }

  lemma {:induction false} ValOfZeros(k: nat)
    ensures Val(Zeros(k)) == 0
  {
    if k > 0 {
      assert Zeros(k)[..k - 1] == Zeros(k - 1);
      ValLast(Zeros(k));
      ValOfZeros(k - 1);
    }
  }
}
