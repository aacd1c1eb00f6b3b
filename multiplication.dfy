/** `operator*`: schoolbook multiplication. Every limb `d` of the second
    operand gives a row, the first operand times `d` with the carry taken
    through every limb but the leading one, which keeps its full 128-bit
    value. Each row is split back into limbs below 10^18 (a partial sum that
    starts from the default-constructed 0), shifted by appending zero limbs,
    and added into the final sum. The sign is the sum of the two sign bits
    in a one-bit field, i.e. their exclusive or, zero included. */
module Multiplication {
  import opened Arith
  import opened Limbs
  import opened Comparison
  import opened Addition

  /** The first `j` entries of the row for the limb `d`, when `carry`
      comes into entry `j - 1` from the entries below it. Entry 0 is not
      reduced modulo the base. */
  function RowFrom(a: seq<nat>, d: nat, j: nat, carry: nat): (r: seq<nat>)
    requires j <= |a|
    ensures |r| == j
  {
    if j == 0 then []
    else if j == 1 then [d * a[0] + carry]
    else
      var res := d * a[j - 1] + carry;
      RowFrom(a, d, j - 1, res / Base) + [res % Base]
  }

  /** `parts[i]`: the row for the limb `d` of the second operand. */
  function Row(a: seq<nat>, d: nat): (r: seq<nat>)
    ensures |r| == |a|
  {
    RowFrom(a, d, |a|, 0)
  }

  /** The first `n` row entries as limbs: each entry becomes its high part
      `entry / BASE`, when that is not 0, followed by its low part. */
  function SplitLimbs(row: seq<nat>, n: nat): (r: seq<nat>)
    requires n <= |row|
  {
    if n == 0 then []
    else
      var high, low := row[n - 1] / Base, row[n - 1] % Base;
      SplitLimbs(row, n - 1) + (if high != 0 then [high, low] else [low])
  }

  /** The limbs of a partial sum before it is shifted: the limb 0 of the
      constructed 0, then the row for `d` split into limbs. */
  function RowLimbs(a: seq<nat>, d: nat): seq<nat>
  {
    [0] + SplitLimbs(Row(a, d), |a|)
  }

  /** `partialSums[i]` after the zero limbs that shift it into place. */
  function Partial(a: seq<nat>, b: seq<nat>, i: nat): (r: BigInt)
    requires i < |b|
  {
    BigInt(false, RowLimbs(a, b[i]) + Zeros(|b| - 1 - i))
  }

  /** `finalSum` once the first `k` partial sums have been added: a
      normal, non-negative number holding the first operand times the first
      `k` limbs of the second, shifted into place. */
  function RunningSum(a: seq<nat>, b: seq<nat>, k: nat): (r: BigInt)
    requires |a| >= 1 && k <= |b| && Bounded(a) && Bounded(b)
    ensures Normal(r) && !r.neg && Val(r.limbs) == Val(a) * (ValTo(b, k) * PowB(|b| - k))
  {
    if k == 0 then
      ValSingle(0);
      assert ValTo(b, 0) == 0;
      Zero
    else
      var prev := RunningSum(a, b, k - 1);
      RunningStepValue(a, b, k - 1, k, prev);
      Sum(prev, Partial(a, b, k - 1))
  }

  /** The running sum after one more shifted row, for the row `k` and the
      count `k1` of rows added after it. */
  lemma RunningStepValue(a: seq<nat>, b: seq<nat>, k: nat, k1: nat, prev: BigInt)
    requires |a| >= 1 && k1 == k + 1 && k1 <= |b| && Bounded(a) && Bounded(b)
    requires Normal(prev) && !prev.neg && Val(prev.limbs) == Val(a) * (ValTo(b, k) * PowB(|b| - k))
    ensures var s := Sum(prev, Partial(a, b, k));
      Normal(s) && !s.neg && Val(s.limbs) == Val(a) * (ValTo(b, k1) * PowB(|b| - k1))
  {
    var e, e1 := |b| - k1, |b| - k;
    PartialValue(a, b, k, e);
    PartialBounded(a, b, k);
    PowBStep(e, e1);
    assert ValTo(b, k1) == ValTo(b, k) * Base + b[k];
    AddShiftedRow(prev, Partial(a, b, k), Val(a), ValTo(b, k), b[k], PowB(e), PowB(e1), ValTo(b, k1));
  }

  /** `operator*`. */
  function Product(a: BigInt, b: BigInt): (r: BigInt)
    requires |a.limbs| >= 1 && Bounded(a.limbs) && Bounded(b.limbs)
  {
    BigInt(a.neg != b.neg, RunningSum(a.limbs, b.limbs, |b.limbs|).limbs)
  }

  // ---------------------------------------------------------------------
  // What the product means

  /** A limb times a limb plus a carry stays below BASE^2, so the carry out
      stays below the base. */
  lemma LimbProduct(d: nat, x: nat, c: nat)
    requires d < Base && x < Base && c < Base
    ensures d * x + c < Base * Base && (d * x + c) / Base < Base
  {
    MulLe(d, Base - 1, x);
    MulLe(x, Base - 1, Base - 1);
    DivModSplit(d * x + c, Base);
  }

  /** An entry below BASE^2 splits into two limbs below the base. */
  lemma LimbProductSplit(e: nat)
    requires e < Base * Base
    ensures e / Base < Base && (e / Base) * Base + e % Base == e
  {
    DivModSplit(e, Base);
  }

  /** One step of the row: `d * (v * BASE + x) + c` split at the base. */
  lemma RowLimb(v: nat, d: nat, x: nat, c: nat)
    ensures (d * v + (d * x + c) / Base) * Base + (d * x + c) % Base == d * (v * Base + x) + c
  {
    var res := d * x + c;
    DivModSplit(res, Base);
    MulDistrib(d * v, res / Base, Base);
    MulAssoc3(d, v, Base);
  }

  /** The row holds `d` times the first `j` limbs plus the carry, with
      every entry but the leading one below the base. */
  lemma {:induction false} RowFromValue(a: seq<nat>, d: nat, j: nat, c: nat)
    requires 1 <= j <= |a| && Bounded(a) && d < Base && c < Base
    ensures var r := RowFrom(a, d, j, c);
      Val(r) == d * ValTo(a, j) + c && r[0] < Base * Base
      && forall k :: 1 <= k < j ==> r[k] < Base
    decreases j
  {
    var res := d * a[j - 1] + c;
    LimbProduct(d, a[j - 1], c);
    if j == 1 {
      ValSingle(res);
      assert ValTo(a, 1) == a[0];
    } else {
      var p := RowFrom(a, d, j - 1, res / Base);
      RowFromValue(a, d, j - 1, res / Base);
      ValPush(p, res % Base);
      RowLimb(ValTo(a, j - 1), d, a[j - 1], c);
    }
  }

  /** The leading entry of a row splits into one or two limbs below the
      base with its value. */
  lemma SplitFirst(row: seq<nat>)
    requires |row| >= 1 && row[0] < Base * Base
    ensures var s := SplitLimbs(row, 1); Val(s) == row[0] && Bounded(s) && |s| >= 1
  {
    var high, low := row[0] / Base, row[0] % Base;
    LimbProductSplit(row[0]);
    assert ValTo(row, 1) == row[0];
    if high != 0 {
      assert SplitLimbs(row, 1) == [high] + [low];
      ValPush([high], low);
      ValSingle(high);
    } else {
      assert SplitLimbs(row, 1) == [low];
      ValSingle(low);
    }
  }

  /** Splitting a row whose entries after the first are below the base
      keeps its value and gives limbs below the base. */
  lemma {:induction false} SplitLimbsValue(row: seq<nat>, n: nat)
    requires n <= |row| && (|row| >= 1 ==> row[0] < Base * Base)
    requires forall k :: 1 <= k < |row| ==> row[k] < Base
    ensures Val(SplitLimbs(row, n)) == ValTo(row, n) && Bounded(SplitLimbs(row, n))
    ensures n >= 1 ==> |SplitLimbs(row, n)| >= 1
    decreases n
  {
    if n == 1 {
      SplitFirst(row);
    } else if n > 1 {
      var p := SplitLimbs(row, n - 1);
      var e := row[n - 1];
      SplitLimbsValue(row, n - 1);
      DivOfMulAdd(0, Base, e);
      assert SplitLimbs(row, n) == p + [e];
      ValPush(p, e);
      BoundedPush(p, e);
    }
  }

  /** Zero limbs appended and a zero limb in front. */
  lemma ShiftedValue(s: seq<nat>, z: nat)
    ensures Val([0] + s + Zeros(z)) == Val(s) * PowB(z)
  {
    ValZeros([0] + s, z);
    ValLeadingZero(s);
  }

  /** A partial sum holds its limb of the second operand times the first
      operand, shifted into place. */
  lemma PartialValue(a: seq<nat>, b: seq<nat>, i: nat, e: nat)
    requires |a| >= 1 && i < |b| && Bounded(a) && Bounded(b) && e == |b| - 1 - i
    ensures Val(Partial(a, b, i).limbs) == Val(a) * b[i] * PowB(e)
  {
    var row := Row(a, b[i]);
    var s := SplitLimbs(row, |a|);
    var v, P := Val(a), PowB(e);
    RowFromValue(a, b[i], |a|, 0);
    SplitLimbsValue(row, |a|);
    assert Val(s) == b[i] * v;
    ShiftedValue(s, |b| - 1 - i);
    MulAssoc3(b[i], v, P);
  }

  /** A partial sum is a non-negative number with limbs below the base. */
  lemma PartialBounded(a: seq<nat>, b: seq<nat>, i: nat)
    requires |a| >= 1 && i < |b| && Bounded(a) && Bounded(b)
    ensures var p := Partial(a, b, i); |p.limbs| >= 1 && !p.neg && Bounded(p.limbs)
  {
    var row := Row(a, b[i]);
    var s := SplitLimbs(row, |a|);
    RowFromValue(a, b[i], |a|, 0);
    SplitLimbsValue(row, |a|);
    var limbs := [0] + s + Zeros(|b| - 1 - i);
    assert Partial(a, b, i).limbs == limbs;
    forall k | 0 <= k < |limbs|
      ensures limbs[k] < Base
    {
      if 1 <= k <= |s| {
        assert limbs[k] == s[k - 1];
      }
    }
  }

  /** Adding one more shifted row. */
  lemma RunningStep(A: int, V: int, x: int, P: int, PB: int, W: int, prev: int, part: int, sum: int)
    requires PB == Base * P && W == V * Base + x
    requires prev == A * (V * PB) && part == A * x * P && sum == prev + part
    ensures sum == A * (W * P)
  {
    MulAssoc3(V, Base, P);
    MulDistrib(V * Base, x, P);
    MulDistrib(A * (V * Base * P), A * (x * P), 1);
    MulAssoc3(A, x, P);
  }

  /** Adding one more shifted row to the final sum, on values. */
  lemma AddShiftedRow(prev: BigInt, p: BigInt, A: nat, V: nat, x: nat, P: nat, PB: nat, W: nat)
    requires Normal(prev) && !prev.neg && Val(prev.limbs) == A * (V * PB)
    requires |p.limbs| >= 1 && !p.neg && Bounded(p.limbs) && Val(p.limbs) == A * x * P
    requires PB == Base * P && W == V * Base + x
    ensures var s := Sum(prev, p); Normal(s) && !s.neg && Val(s.limbs) == A * (W * P)
  {
    SumOfNonNegative(prev, p);
    var s := Sum(prev, p);
    RunningStep(A, V, x, P, PB, W, Val(prev.limbs), Val(p.limbs), Val(s.limbs));
  }

  /** The product has canonical limbs holding the product of the values,
      and the exclusive or of the signs. */
  lemma ProductCorrect(a: BigInt, b: BigInt)
    requires |a.limbs| >= 1 && |b.limbs| >= 1 && Bounded(a.limbs) && Bounded(b.limbs)
    ensures Canonical(Product(a, b).limbs)
    ensures Product(a, b).neg <==> a.neg != b.neg
    ensures IntVal(Product(a, b)) == IntVal(a) * IntVal(b)
  {
    var A: int, B: int := Val(a.limbs), Val(b.limbs);
    assert PowB(0) == 1 && ValTo(b.limbs, |b.limbs|) == B;
    var AB := A * (B * 1);
    assert Val(Product(a, b).limbs) == AB;
    assert IntVal(Product(a, b)) == if a.neg != b.neg then -AB else AB;
    assert IntVal(a) == (if a.neg then -A else A) && IntVal(b) == (if b.neg then -B else B);
    SignedProduct(A, B, a.neg, b.neg);
  }

  /** The signed product from the magnitudes and the signs. */
  lemma SignedProduct(A: int, B: int, na: bool, nb: bool)
    ensures (if na != nb then -(A * B) else A * B) == (if na then -A else A) * (if nb then -B else B)
  {
  }

  /** The product is normal exactly when it is not a zero that took a
      negative sign from the operands. */
  lemma ProductNormal(a: BigInt, b: BigInt)
    requires |a.limbs| >= 1 && |b.limbs| >= 1 && Bounded(a.limbs) && Bounded(b.limbs)
    ensures Normal(Product(a, b)) <==> a.neg == b.neg || IntVal(a) * IntVal(b) != 0
  {
    ProductCorrect(a, b);
    CanonicalZero(Product(a, b).limbs);
  }

  /** `0 * -5` is a negative-signed zero. */
  lemma ZeroTimesNegative()
    ensures Product(Zero, FromMachineInt(-5)) == BigInt(true, [0])
  {
    var r := Product(Zero, FromMachineInt(-5));
    ProductCorrect(Zero, FromMachineInt(-5));
    CanonicalZero(r.limbs);
  }

  /** The order of the operands does not matter. */
  lemma ProductCommutes(a: BigInt, b: BigInt)
    requires |a.limbs| >= 1 && |b.limbs| >= 1 && Bounded(a.limbs) && Bounded(b.limbs)
    ensures Product(a, b) == Product(b, a)
  {
    ProductCorrect(a, b);
    ProductCorrect(b, a);
    var x, y := Product(a, b), Product(b, a);
    assert Val(x.limbs) == Val(y.limbs) by {
      assert Val(a.limbs) * Val(b.limbs) == Val(b.limbs) * Val(a.limbs);
    }
    ToLimbsOfVal(x.limbs);
    ToLimbsOfVal(y.limbs);
  }

  /** 1 is the neutral element for normal numbers. */
  lemma ProductOne(a: BigInt)
    requires Normal(a)
    ensures Product(a, FromMachineInt(1)) == a
  {
    ProductCorrect(a, FromMachineInt(1));
    ToLimbsOfVal(a.limbs);
    ToLimbsOfVal(Product(a, FromMachineInt(1)).limbs);
  }

  // ---------------------------------------------------------------------
  // The method: the three loop nests of the source

  /** The row for `d` as the source's inner loop builds it, from the
      least significant entry: one more entry, reduced unless it is
      entry 0. */
  lemma RowFromStep(a: seq<nat>, d: nat, j: nat, c: nat)
    requires j < |a|
    ensures RowFrom(a, d, j + 1, c)
      == RowFrom(a, d, j, (d * a[j] + c) / Base)
         + [if j != 0 then (d * a[j] + c) % Base else d * a[j] + c]
  {
  }

  /** The first loop nest: `parts[i][j]` for every limb `i` of the second
      operand and `j` of the first, from the least significant ends. */
  method MultiplyRows(a: seq<nat>, b: seq<nat>) returns (parts: seq<seq<nat>>)
    ensures |parts| == |b| && forall i :: 0 <= i < |b| ==> parts[i] == Row(a, b[i])
  {
    parts := seq(|b|, _ => seq(|a|, _ => 0));
    var ii := |b|;
    while ii > 0
      invariant 0 <= ii <= |b| && |parts| == |b|
      invariant forall k :: 0 <= k < |b| ==> |parts[k]| == |a|
      invariant forall k :: ii <= k < |b| ==> parts[k] == Row(a, b[k])
    {
      var i := ii - 1;
      var row := MultiplyRow(a, b[i], parts[i]);
      parts := parts[i := row];
      ii := ii - 1;
    }
  }

  /** The inner loop of `operator*`: overwrites the row of digit `d`, from the
      least-significant limb up, with `d * a[j] + carry`, keeping the last
      (most-significant) product whole. */
  method MultiplyRow(a: seq<nat>, d: nat, row0: seq<nat>) returns (row: seq<nat>)
    requires |row0| == |a|
    ensures row == Row(a, d)
  {
    row := row0;
    var carry: nat := 0;
    var jj := |a|;
    while jj > 0
      invariant 0 <= jj <= |a| && |row| == |a|
      invariant Row(a, d) == RowFrom(a, d, jj, carry) + row[jj..]
    {
      var j := jj - 1;
      var res: nat := d * a[j] + carry;
      RowFromStep(a, d, j, carry);
      carry := res / Base;
      if j != 0 {
        res := res % Base;
      }
      ghost var before := row;
      row := row[j := res];
      assert row[j..] == [res] + before[jj..];
      jj := jj - 1;
    }
    assert row[0..] == row;
  }


  /** The second loop nest: every row is split into limbs below the base,
      appended to a partial sum that starts as the constructed 0. */
  method SplitRows(a: seq<nat>, b: seq<nat>, parts: seq<seq<nat>>) returns (partialSums: seq<BigInt>)
    requires |parts| == |b| && forall k :: 0 <= k < |b| ==> |parts[k]| == |a|
    ensures |partialSums| == |b|
    ensures forall k :: 0 <= k < |b| ==> partialSums[k] == BigInt(false, [0] + SplitLimbs(parts[k], |a|))
  {
    partialSums := seq(|b|, _ => Zero);
    var ii := |b|;
    while ii > 0
      invariant 0 <= ii <= |b| && |partialSums| == |b|
      invariant forall k :: 0 <= k < ii ==> partialSums[k] == Zero
      invariant forall k :: ii <= k < |b| ==> partialSums[k] == BigInt(false, [0] + SplitLimbs(parts[k], |a|))
    {
      partialSums := SplitRow(parts[ii - 1], |a|, partialSums, ii - 1);
      ii := ii - 1;
    }
  }

  /** The inner loop of the second nest: the entries of row `i` split into
      limbs and appended, in place, to partial sum `i`. */
  method SplitRow(row: seq<nat>, n: nat, partialSums: seq<BigInt>, i: nat) returns (partialSums': seq<BigInt>)
    requires n <= |row| && i < |partialSums| && partialSums[i] == Zero
    ensures partialSums' == partialSums[i := BigInt(false, [0] + SplitLimbs(row, n))]
  {
    partialSums' := partialSums;
    var j := 0;
    while j < n
      invariant 0 <= j <= n && |partialSums'| == |partialSums|
      invariant forall k :: 0 <= k < |partialSums| && k != i ==> partialSums'[k] == partialSums[k]
      invariant partialSums'[i] == BigInt(false, [0] + SplitLimbs(row, j))
    {
      var num1 := row[j];
      var resHigh, resLow := num1 / Base, num1 % Base;
      if resHigh != 0 {
        partialSums' := partialSums'[i := partialSums'[i].(limbs := partialSums'[i].limbs + [resHigh])];
      }
      partialSums' := partialSums'[i := partialSums'[i].(limbs := partialSums'[i].limbs + [resLow])];
      j := j + 1;
    }
    assert partialSums' == partialSums[i := BigInt(false, [0] + SplitLimbs(row, n))];
  }

  /** The innermost loop of the third nest: `count` zero limbs appended
      to the partial sum `i`, shifting it up by `count` limbs. */
  method AppendZeros(sums: seq<BigInt>, i: nat, count: nat) returns (sums': seq<BigInt>)
    requires i < |sums|
    ensures sums' == sums[i := sums[i].(limbs := sums[i].limbs + Zeros(count))]
  {
    sums' := sums;
    var j := 0;
    assert sums[i].limbs + Zeros(0) == sums[i].limbs;
    while j < count
      invariant 0 <= j <= count && |sums'| == |sums|
      invariant sums' == sums[i := sums[i].(limbs := sums[i].limbs + Zeros(j))]
    {
      assert Zeros(j + 1) == Zeros(j) + [0];
      assert sums[i].limbs + Zeros(j + 1) == (sums[i].limbs + Zeros(j)) + [0];
      sums' := sums'[i := sums'[i].(limbs := sums'[i].limbs + [0])];
      j := j + 1;
    }
  }

  /** The third loop nest: each partial sum is shifted by appending zero
      limbs and added into the final sum. */
  method AddShiftedRows(a: seq<nat>, b: seq<nat>, partialSums: seq<BigInt>) returns (finalSum: BigInt)
    requires |a| >= 1 && Bounded(a) && Bounded(b) && |partialSums| == |b|
    requires forall k :: 0 <= k < |b| ==> partialSums[k] == BigInt(false, RowLimbs(a, b[k]))
    ensures finalSum == RunningSum(a, b, |b|)
  {
    var sums := partialSums;
    finalSum := Zero;
    var i := 0;
    while i < |b|
      invariant 0 <= i <= |b| && |sums| == |b|
      invariant forall k :: i <= k < |b| ==> sums[k] == partialSums[k]
      invariant finalSum == RunningSum(a, b, i)
    {
      sums, finalSum := ShiftAndAdd(a, b, sums, i, finalSum);
      i := i + 1;
    }
  }

  /** One turn of the third loop nest: partial sum `i` shifted into place
      and added; the partial sums after it are left as they were. */
  method ShiftAndAdd(a: seq<nat>, b: seq<nat>, sums: seq<BigInt>, i: nat, finalSum: BigInt)
      returns (sums': seq<BigInt>, finalSum': BigInt)
    requires |a| >= 1 && Bounded(a) && Bounded(b) && |sums| == |b| && i < |b|
    requires sums[i] == BigInt(false, RowLimbs(a, b[i])) && finalSum == RunningSum(a, b, i)
    ensures |sums'| == |b| && forall k :: i < k < |b| ==> sums'[k] == sums[k]
    ensures finalSum' == RunningSum(a, b, i + 1)
  {
    sums' := AppendZeros(sums, i, |b| - i - 1);
    ShiftedIsPartial(a, b, i, sums[i], sums'[i]);
    RunningSumUnfold(a, b, i);
    finalSum' := Sum(finalSum, sums'[i]);
  }

  /** Partial sum `i` with its zero limbs appended is the shifted row. */
  lemma ShiftedIsPartial(a: seq<nat>, b: seq<nat>, i: nat, row: BigInt, shifted: BigInt)
    requires i < |b| && row == BigInt(false, RowLimbs(a, b[i]))
    requires shifted == row.(limbs := row.limbs + Zeros(|b| - i - 1))
    ensures shifted == Partial(a, b, i)
  {
  }

  lemma RunningSumUnfold(a: seq<nat>, b: seq<nat>, i: nat)
    requires |a| >= 1 && i < |b| && Bounded(a) && Bounded(b)
    ensures RunningSum(a, b, i + 1) == Sum(RunningSum(a, b, i), Partial(a, b, i))
  {
  }

  /** `operator*`. */
  method Multiply(a: BigInt, b: BigInt) returns (r: BigInt)
    requires |a.limbs| >= 1 && Bounded(a.limbs) && Bounded(b.limbs)
    ensures r == Product(a, b)
  {
    var parts := MultiplyRows(a.limbs, b.limbs);
    var partialSums := SplitRows(a.limbs, b.limbs, parts);
    var finalSum := AddShiftedRows(a.limbs, b.limbs, partialSums);
    r := finalSum.(neg := a.neg != b.neg);
  }
}
