/** Sign handling and the comparison operators of BigInteger: `abs`, unary
    minus, `!`, `==` and `<=>`. Comparison works on the representation: the
    sign first, then the number of limbs, then the limbs from the most
    significant one. */
module Comparison {
  import opened Arith
  import opened Limbs

  datatype Ordering = Less | Equal | Greater

  function Reverse(o: Ordering): Ordering
  {
    match o
    case Less => Greater
    case Equal => Equal
    case Greater => Less
  }

  /** `abs`: the same limbs with the sign cleared. */
  function Abs(x: BigInt): (r: BigInt)
    ensures IntVal(r) == Val(x.limbs) && (IntVal(x) >= 0 ==> IntVal(r) == IntVal(x))
    ensures IntVal(x) < 0 ==> IntVal(r) == -IntVal(x)
    ensures Canonical(x.limbs) ==> Normal(r)
  {
    BigInt(false, x.limbs)
  }

  /** Unary minus: flips the sign bit unconditionally, zero included. */
  function Negate(x: BigInt): (r: BigInt)
    ensures IntVal(r) == -IntVal(x)
    ensures Normal(x) && x != Zero ==> Normal(r)
  {
    BigInt(!x.neg, x.limbs)
  }

  lemma NegateTwice(x: BigInt)
    ensures Negate(Negate(x)) == x
  {
  }

  /** `operator!`: the number compares equal (`==`) to the constructed 0. */
  function IsZero(x: BigInt): bool
  {
    x == Zero
  }

  lemma IsZeroOfNormal(x: BigInt)
    requires Normal(x)
    ensures IsZero(x) <==> IntVal(x) == 0
  {
    NormalEqual(x, Zero);
  }

  /** Unary minus turns 0 into a negative-signed zero, which is neither
      `== 0` nor caught by `!`, and which orders below 0. */
  lemma NegatedZeroIsNotZero()
    ensures Negate(Zero) != Zero && !IsZero(Negate(Zero))
    ensures IntVal(Negate(Zero)) == 0 && Compare(Negate(Zero), Zero) == Less
  {
  }

  /** Limb-by-limb scan of two sequences of equal length: the first
      differing limb decides. */
  function LexCompare(a: seq<nat>, b: seq<nat>): Ordering
    requires |a| == |b|
  {
    if |a| == 0 then Equal
    else if a[0] < b[0] then Less
    else if a[0] > b[0] then Greater
    else LexCompare(a[1..], b[1..])
  }

  /** Magnitude comparison as the source does it: a longer limb sequence is
      larger, equal lengths are scanned from the most significant limb. */
  function CompareLimbs(a: seq<nat>, b: seq<nat>): Ordering
  {
    if |a| == |b| then LexCompare(a, b)
    else if |a| < |b| then Less
    else Greater
  }

  /** `operator<=>`. */
  function Compare(x: BigInt, y: BigInt): Ordering
  {
    if x.neg && !y.neg then Less
    else if !x.neg && y.neg then Greater
    else if x.neg then Reverse(CompareLimbs(x.limbs, y.limbs))
    else CompareLimbs(x.limbs, y.limbs)
  }

  // ---------------------------------------------------------------------
  // What the comparison means

  lemma {:induction false} LexCompareSound(a: seq<nat>, b: seq<nat>)
    requires |a| == |b| && Bounded(a) && Bounded(b)
    ensures LexCompare(a, b) == Less <==> Val(a) < Val(b)
    ensures LexCompare(a, b) == Greater <==> Val(a) > Val(b)
    decreases |a|
  {
    if |a| > 0 {
      assert a == [a[0]] + a[1..] && b == [b[0]] + b[1..];
      if a[0] < b[0] {
        HeadDecides(a[0], a[1..], b[0], b[1..]);
      } else if a[0] > b[0] {
        HeadDecides(b[0], b[1..], a[0], a[1..]);
      } else {
        LexCompareSound(a[1..], b[1..]);
        ValCons(a[0], a[1..]);
        ValCons(b[0], b[1..]);
      }
    }
  }

  /** A smaller leading limb means a smaller value, whatever follows. */
  lemma HeadDecides(x: nat, s: seq<nat>, y: nat, t: seq<nat>)
    requires x < y && |s| == |t| && Bounded(s)
    ensures Val([x] + s) < Val([y] + t)
  {
    var p := PowB(|s|);
    ValCons(x, s);
    ValCons(y, t);
    ValUpper(s);
    MulLe(x + 1, y, p);
    MulDistrib(x, 1, p);
    assert Val([x] + s) < (x + 1) * p;
  }

  /** For canonical limbs the length-first comparison orders by value. */
  lemma CompareLimbsSound(a: seq<nat>, b: seq<nat>)
    requires Canonical(a) && Canonical(b)
    ensures CompareLimbs(a, b) == Less <==> Val(a) < Val(b)
    ensures CompareLimbs(a, b) == Equal <==> a == b
    ensures CompareLimbs(a, b) == Greater <==> Val(a) > Val(b)
  {
    if |a| == |b| {
      LexCompareSound(a, b);
      if Val(a) == Val(b) {
        ToLimbsOfVal(a);
        ToLimbsOfVal(b);
      }
    } else if |a| < |b| {
      ValUpper(a);
      ValLower(b);
      PowerMono(Base, |a|, |b| - 1);
    } else {
      ValUpper(b);
      ValLower(a);
      PowerMono(Base, |b|, |a| - 1);
    }
  }

  /** On normal numbers `<=>` is the order of the integers. */
  lemma CompareSound(x: BigInt, y: BigInt)
    requires Normal(x) && Normal(y)
    ensures Compare(x, y) == Less <==> IntVal(x) < IntVal(y)
    ensures Compare(x, y) == Equal <==> x == y
    ensures Compare(x, y) == Greater <==> IntVal(x) > IntVal(y)
  {
    CompareLimbsSound(x.limbs, y.limbs);
    NormalEqual(x, y);
    CanonicalZero(x.limbs);
    CanonicalZero(y.limbs);
  }

  lemma {:induction false} LexCompareAntisymmetric(a: seq<nat>, b: seq<nat>)
    requires |a| == |b|
    ensures LexCompare(b, a) == Reverse(LexCompare(a, b))
    decreases |a|
  {
    if |a| > 0 && a[0] == b[0] {
      LexCompareAntisymmetric(a[1..], b[1..]);
    }
  }

  /** Swapping the operands reverses the answer, for every representation. */
  lemma CompareAntisymmetric(x: BigInt, y: BigInt)
    ensures Compare(y, x) == Reverse(Compare(x, y))
  {
    if |x.limbs| == |y.limbs| {
      LexCompareAntisymmetric(x.limbs, y.limbs);
    }
  }

  lemma {:induction false} LexCompareFirstDifference(a: seq<nat>, b: seq<nat>, i: nat)
    requires |a| == |b| && i <= |a| && a[..i] == b[..i]
    ensures i == |a| ==> LexCompare(a, b) == Equal
    ensures i < |a| && a[i] < b[i] ==> LexCompare(a, b) == Less
    ensures i < |a| && a[i] > b[i] ==> LexCompare(a, b) == Greater
    decreases i
  {
    if i > 0 {
      assert a[0] == a[..i][0] && b[0] == b[..i][0];
      assert a[1..][..i - 1] == a[..i][1..];
      assert b[1..][..i - 1] == b[..i][1..];
      LexCompareFirstDifference(a[1..], b[1..], i - 1);
    }
  }

  // ---------------------------------------------------------------------
  // The two read-only scans of the source

  /** `operator==`: equal lengths, equal signs, equal limbs. */
  method Equals(x: BigInt, y: BigInt) returns (r: bool)
    ensures r <==> x == y
  {
    if |x.limbs| != |y.limbs| {
      return false;
    }
    if x.neg == !y.neg {
      return false;
    }
    var i := 0;
    while i < |x.limbs|
      invariant 0 <= i <= |x.limbs|
      invariant x.limbs[..i] == y.limbs[..i]
    {
      if x.limbs[i] != y.limbs[i] {
        return false;
      }
      i := i + 1;
    }
    assert x.limbs == x.limbs[..i] && y.limbs == y.limbs[..i];
    return true;
  }

  /** `operator<=>`, with its do-while scan of equal-length limb sequences. */
  method CompareScan(x: BigInt, y: BigInt) returns (r: Ordering)
    requires |x.limbs| >= 1 && |y.limbs| >= 1
    ensures r == Compare(x, y)
  {
    if x.neg && !y.neg {
      return Less;
    }
    if !x.neg && y.neg {
      return Greater;
    }
    var so1 := if x.neg && y.neg then Greater else Less;
    var so2 := if x.neg && y.neg then Less else Greater;
    var n := |x.limbs|;
    if n == |y.limbs| {
      var counter := 1;
      var first, second := x.limbs[0], y.limbs[0];
      while counter != n && first == second
        invariant 1 <= counter <= n
        invariant first == x.limbs[counter - 1] && second == y.limbs[counter - 1]
        invariant x.limbs[..counter - 1] == y.limbs[..counter - 1]
      {
        assert x.limbs[..counter] == x.limbs[..counter - 1] + [first];
        assert y.limbs[..counter] == y.limbs[..counter - 1] + [second];
        first, second := x.limbs[counter], y.limbs[counter];
        counter := counter + 1;
      }
      if first == second {
        assert x.limbs[..counter] == x.limbs[..counter - 1] + [first];
        assert y.limbs[..counter] == y.limbs[..counter - 1] + [second];
        LexCompareFirstDifference(x.limbs, y.limbs, counter);
      } else {
        LexCompareFirstDifference(x.limbs, y.limbs, counter - 1);
      }
      return if counter == n && first == second then Equal
             else if first < second then so1 else so2;
    }
    return if n < |y.limbs| then so1 else so2;
  }
}
