// `divide_by_2`: halving a big integer limb by limb, the step `dec2bin`
// repeats to peel off binary digits.

module Halving {
  import opened Arith
  import opened Limbs

  /** Limb `i` of the halved vector: half of limb `i`, plus half the base when
      the limb before it (the next more significant one) is odd. */
  function HalfLimb(s: seq<nat>, i: nat): nat
    requires i < |s|
  {
    s[i] / 2 + (if i == 0 then 0 else s[i - 1] % 2) * HalfBase
  }

  /** Every limb halved, the odd bit of each limb carried into the next. */
  function HalvedLimbs(s: seq<nat>): (r: seq<nat>)
    ensures |r| == |s| && forall i :: 0 <= i < |s| ==> r[i] == HalfLimb(s, i)
  {
    seq(|s|, i requires 0 <= i < |s| => HalfLimb(s, i))
  }

  /** `divide_by_2`: the halved limbs, the sign unchanged, and a zero first
      limb erased when there are at least two limbs. */
  function Half(x: BigInt): BigInt
  {
    var h := HalvedLimbs(x.limbs);
    if |h| >= 2 && h[0] == 0 then BigInt(x.neg, h[1..]) else BigInt(x.neg, h)
  }

  /** Twice the halved prefix, plus the dropped bit, is the prefix. */
  lemma {:induction false} HalvedValueTo(s: seq<nat>, n: nat)
    requires 1 <= n <= |s|
    ensures 2 * ValTo(HalvedLimbs(s), n) + s[n - 1] % 2 == ValTo(s, n)
  {
    var h := HalvedLimbs(s);
    if n == 1 {
      assert ValTo(h, 1) == h[0] && ValTo(s, 1) == s[0];
    } else {
      HalvedValueTo(s, n - 1);
      var vh, vs := ValTo(h, n - 1), ValTo(s, n - 1);
      assert ValTo(h, n) == vh * Base + h[n - 1];
      assert ValTo(s, n) == vs * Base + s[n - 1];
      HalfStep(vh, vs, s[n - 1], s[n - 2] % 2, h[n - 1]);
    }
  }

  /** One limb of `HalvedValueTo` on plain numbers. */
  lemma HalfStep(vh: nat, vs: nat, x: nat, c: nat, y: nat)
    requires 2 * vh + c == vs && c <= 1 && y == x / 2 + c * HalfBase
    ensures 2 * (vh * Base + y) + x % 2 == vs * Base + x
  {
    assert 2 * (vh * Base) == (2 * vh) * Base;
    assert 2 * (c * HalfBase) == c * Base;
    MulSub(vs, c, Base);
  }

  /** `divide_by_2` floors the magnitude at half and keeps the sign. */
  lemma HalfValue(x: BigInt)
    requires |x.limbs| >= 1
    ensures Half(x).neg == x.neg
    ensures Val(Half(x).limbs) == Val(x.limbs) / 2
  {
    var s := x.limbs;
    var h := HalvedLimbs(s);
    HalvedValueTo(s, |s|);
    DivModUnique(Val(s), 2, Val(h), s[|s| - 1] % 2);
    if |h| >= 2 && h[0] == 0 {
      assert h == [0] + h[1..];
      ValLeadingZero(h[1..]);
    }
  }

  /** `divide_by_2` keeps the limbs canonical: the only limb that can turn
      zero is the first, and when it does it is erased, its odd bit having
      gone into the next limb, which is then at least half the base. */
  lemma HalfCanonical(x: BigInt)
    requires Canonical(x.limbs)
    ensures Canonical(Half(x).limbs)
  {
    var s := x.limbs;
    var h := HalvedLimbs(s);
    forall i | 0 <= i < |h|
      ensures h[i] < Base
    {
      assert s[i] / 2 < HalfBase;
    }
    if |h| >= 2 && h[0] == 0 {
      assert s[0] == 1;
      assert h[1] >= HalfBase;
    }
  }

  /** `divide_by_2` as written: one pass from the most significant limb,
      `prev_carry` holding the odd bit of the limb before, then the erase. */
  method DivideBy2(x: BigInt) returns (r: BigInt)
    ensures r == Half(x)
  {
    var limbs := x.limbs;
    var prevCarry := 0;
    var i := 0;
    while i < |limbs|
      invariant 0 <= i <= |limbs| && |limbs| == |x.limbs|
      invariant limbs[..i] == HalvedLimbs(x.limbs)[..i] && limbs[i..] == x.limbs[i..]
      invariant prevCarry == if i == 0 then 0 else x.limbs[i - 1] % 2
    {
      assert limbs[i] == x.limbs[i];
      var nextCarry := limbs[i] % 2;
      limbs := limbs[i := limbs[i] / 2 + prevCarry * HalfBase];
      prevCarry := nextCarry;
      i := i + 1;
    }
    assert limbs == HalvedLimbs(x.limbs);
    if |limbs| >= 2 && limbs[0] == 0 {
      limbs := limbs[1..];
    }
    r := BigInt(x.neg, limbs);
  }
}
