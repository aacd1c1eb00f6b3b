/** `operator+` of BigInteger and `operator-`, which is defined through it.

    The source adds limb by limb from the least significant end into a
    result vector one limb longer than the longer operand. With equal signs
    each limb sum is split into `sum % BASE`, added into the current result
    limb, and `sum / BASE`, added into the next one; with different signs the
    limbs of the smaller magnitude are subtracted from those of the larger
    one, and a borrow of 1 is added into the next result limb, to be
    subtracted from it later. Neither the carry nor the borrow travels more
    than one limb, and all limb arithmetic is on `uint64_t`.

    `AddAsWritten` and the method `Plus` model exactly that. `Sum` is the
    same algorithm with the carry and the borrow propagated through every
    limb; the rest of the model uses `Sum`. */
module Addition {
  import opened Arith
  import opened Limbs
  import opened Comparison

  /** Unsigned 64-bit wrap-around of a limb computation. */
  function Wrap(v: int): nat
  {
    v % Word
  }

  // ---------------------------------------------------------------------
  // The source's result vector

  /** The result limbs (most significant first) still to be produced once
      the loops have reached `a[..i1]` and `b[..i2]`, `c` being what the
      current result limb already holds. While both operands have limbs left,
      `num1` and `num2` are combined (for different signs `num1` comes from
      the operand the source calls bigger) and a carry or borrow goes into
      the next result limb; the rest is `RawTail`. */
  function RawFrom(isOneNegative: bool, bBig: bool, a: seq<nat>, b: seq<nat>, i1: nat, i2: nat, c: nat)
    : (r: seq<nat>)
    requires i1 <= |a| && i2 <= |b|
    ensures |r| == (if i1 > i2 then i1 else i2) + 1
    decreases i1 + i2
  {
    if i1 > 0 && i2 > 0 then
      if isOneNegative then
        var num1 := if bBig then b[i2 - 1] else a[i1 - 1];
        var num2 := if bBig then a[i1 - 1] else b[i2 - 1];
        var diff := if num1 < num2 then Wrap(Base + num1 - num2) else Wrap(num1 as int - num2);
        RawFrom(isOneNegative, bBig, a, b, i1 - 1, i2 - 1, if num1 < num2 then 1 else 0)
          + [Wrap(diff as int - c)]
      else
        var sum := Wrap(a[i1 - 1] + b[i2 - 1]);
        RawFrom(isOneNegative, bBig, a, b, i1 - 1, i2 - 1, sum / Base) + [Wrap(c + sum % Base)]
    else if i1 > 0 then RawTail(isOneNegative, a, i1, c)
    else RawTail(isOneNegative, b, i2, c)
  }

  /** The limbs `v[..i]` of the operand left once the other one is used up
      (`add_remaining_digits`): with equal signs each is added into its result
      limb, with different signs the result limb, which holds at most a
      pending borrow, is subtracted from it; nothing goes into the next limb. */
  function RawTail(isOneNegative: bool, v: seq<nat>, i: nat, c: nat): (r: seq<nat>)
    requires i <= |v|
    ensures |r| == i + 1
  {
    if i == 0 then [c]
    else
      RawTail(isOneNegative, v, i - 1, 0)
        + [if isOneNegative then Wrap(v[i - 1] as int - c) else Wrap(c + v[i - 1])]
  }

  /** Is |b| >= |a| by the source's comparison (`abs(other) >= abs(*this)`)? */
  predicate SecondIsBigger(a: BigInt, b: BigInt)
  {
    Compare(Abs(b), Abs(a)) != Less
  }

  /** The comparison looks at the number of limbs first, so the operand the
      source calls bigger never has fewer limbs. */
  lemma BiggerIsNotShorter(a: BigInt, b: BigInt)
    ensures SecondIsBigger(a, b) ==> |a.limbs| <= |b.limbs|
    ensures !SecondIsBigger(a, b) ==> |b.limbs| <= |a.limbs|
  {
  }

  /** The sign `operator+` gives its result before zero is looked at. */
  predicate SumSign(a: BigInt, b: BigInt)
  {
    (a.neg && Compare(Abs(a), Abs(b)) == Greater)
    || (b.neg && Compare(Abs(a), Abs(b)) == Less)
    || (a.neg && b.neg)
  }

  /** The whole result vector of `operator+`, before leading zeros are erased. */
  function RawAdd(a: BigInt, b: BigInt): (r: seq<nat>)
    requires |a.limbs| >= 1 && |b.limbs| >= 1
    ensures |r| >= 2
  {
    RawFrom(a.neg != b.neg, SecondIsBigger(a, b), a.limbs, b.limbs, |a.limbs|, |b.limbs|, 0)
  }

  /** Erase leading zero limbs while more than one limb remains. */
  function TrimLeadingZeros(s: seq<nat>): (r: seq<nat>)
    requires |s| >= 1
    ensures |r| >= 1 && Val(r) == Val(s)
    ensures |r| > 1 ==> r[0] != 0
    ensures Bounded(s) ==> Canonical(r)
    decreases |s|
  {
    if s[0] == 0 && |s| > 1 then
      assert s == [0] + s[1..];
      ValLeadingZero(s[1..]);
      TrimLeadingZeros(s[1..])
    else s
  }

  /** The sign of a result whose limbs are the single 0 is cleared. */
  function WithSign(neg: bool, limbs: seq<nat>): (r: BigInt)
    ensures r.limbs == limbs && (r.neg <==> neg && limbs != [0])
  {
    BigInt(if limbs == [0] then false else neg, limbs)
  }

  /** `operator+` as written. */
  function AddAsWritten(a: BigInt, b: BigInt): (r: BigInt)
    requires |a.limbs| >= 1 && |b.limbs| >= 1
  {
    WithSign(SumSign(a, b), TrimLeadingZeros(RawAdd(a, b)))
  }

  // ---------------------------------------------------------------------
  // The method: the source's loops over the result vector

  /** The `add_remaining_digits` lambda: the limbs `vec[..index]` of the
      operand that is not used up go into `res[..index + 1]`, from the least
      significant end, and the result index moves down to 1. */
  method AddRemainingDigits(isOneNegative: bool, res: seq<nat>, ri: nat, vec: seq<nat>, index: nat)
    returns (res': seq<nat>, ri': nat)
    requires index <= |vec| && ri <= |res| && (index != 0 ==> ri == index + 1)
    requires forall k :: 0 <= k < index ==> res[k] == 0
    ensures index == 0 ==> res' == res && ri' == ri
    ensures index != 0 ==> ri' == 1 && res' == RawTail(isOneNegative, vec, index, res[index]) + res[ri..]
    ensures ri == 1 ==> res' == RawTail(isOneNegative, vec, index, res[index]) + res[ri..]
  {
    res', ri' := res, ri;
    if index == 0 {
      assert ri == 1 ==> res == [res[0]] + res[1..];
      return;
    }
    var i := index;
    while i != 0
      invariant 0 <= i <= index && ri' == i + 1 && |res'| == |res|
      invariant forall k :: 0 <= k < i ==> res'[k] == 0
      invariant RawTail(isOneNegative, vec, index, res[index]) + res[ri..]
                == RawTail(isOneNegative, vec, i, res'[i]) + res'[ri'..]
    {
      ghost var rest := res'[ri'..];
      i, ri' := i - 1, ri' - 1;
      if isOneNegative {
        res' := res'[ri' := Wrap(vec[i] as int - res'[ri'])];
      } else {
        res' := res'[ri' := Wrap(res'[ri'] + vec[i])];
      }
      assert res'[ri'..] == [res'[ri']] + rest;
    }
    assert res' == [res'[0]] + res'[1..];
  }

  /** The loop that erases the leading zero limbs of the result vector. */
  method EraseLeadingZeros(raw: seq<nat>) returns (limbs: seq<nat>)
    requires |raw| >= 1
    ensures limbs == TrimLeadingZeros(raw)
  {
    limbs := raw;
    while limbs[0] == 0 && |limbs| > 1
      invariant |limbs| >= 1 && TrimLeadingZeros(limbs) == TrimLeadingZeros(raw)
    {
      limbs := limbs[1..];
    }
  }

  /** One step of the loop over the limbs both operands have: `w` is what
      the current result limb becomes and `carry` what the next one holds. */
  lemma RawFromStep(isOneNegative: bool, bBig: bool, a: seq<nat>, b: seq<nat>, n1: nat, n2: nat,
                    i1: nat, i2: nat, c: nat, w: nat, carry: nat)
    requires i1 < |a| && i2 < |b| && n1 == i1 + 1 && n2 == i2 + 1
    requires
      var num1 := if bBig then b[i2] else a[i1];
      var num2 := if bBig then a[i1] else b[i2];
      var diff := if num1 < num2 then Wrap(Base + num1 - num2) else Wrap(num1 as int - num2);
      var sum := Wrap(a[i1] + b[i2]);
      if isOneNegative then w == Wrap(diff as int - c) && carry == (if num1 < num2 then 1 else 0)
      else w == Wrap(c + sum % Base) && carry == sum / Base
    ensures RawFrom(isOneNegative, bBig, a, b, n1, n2, c)
            == RawFrom(isOneNegative, bBig, a, b, i1, i2, carry) + [w]
  {
  }

  /** Writing the current result limb and the next one. */
  lemma StoreTwo(res: seq<nat>, ri: nat, w: nat, x: nat)
    requires 1 <= ri < |res|
    ensures var res' := res[ri := w][ri - 1 := x];
      res'[ri..] == [w] + res[ri + 1..] && res'[..ri - 1] == res[..ri - 1]
  {
    var res' := res[ri := w][ri - 1 := x];
    assert res'[ri..] == [w] + res[ri + 1..];
  }

  lemma ConcatAssoc(x: seq<nat>, y: seq<nat>, z: seq<nat>)
    ensures (x + y) + z == x + (y + z)
  {
  }

  /** Once one operand is used up only the other one's limbs remain. */
  lemma RawFromDone(isOneNegative: bool, bBig: bool, a: seq<nat>, b: seq<nat>, i1: nat, i2: nat, c: nat)
    requires i1 <= |a| && i2 <= |b| && (i1 == 0 || i2 == 0)
    ensures RawFrom(isOneNegative, bBig, a, b, i1, i2, c)
            == RawTail(isOneNegative, if i1 != 0 then a else b, if i1 != 0 then i1 else i2, c)
  {
  }

  /** What the do-while loop of `operator+` keeps: the loop has reached
      `a[..i1]` and `b[..i2]`, the result limbs after `ri` are final, the ones
      before it still zero, and what remains to be produced completes them
      into the whole result vector. */
  predicate CommonDigitsState(isOneNegative: bool, bBig: bool, a: seq<nat>, b: seq<nat>, target: seq<nat>,
                              i1: nat, i2: nat, res: seq<nat>, ri: nat)
  {
    i1 <= |a| && i2 <= |b| && |a| - i1 == |b| - i2
    && ri == (if i1 > i2 then i1 else i2) + 1 && ri <= |res|
    && (forall k :: 0 <= k < ri - 1 ==> res[k] == 0)
    && target == RawFrom(isOneNegative, bBig, a, b, i1, i2, res[ri - 1]) + res[ri..]
  }

  /** The body of the do-while loop of `operator+`: one limb of each
      operand, `a[i1]` and `b[i2]`, combined into the result limb `ri`, with
      the carry or borrow added into the (still zero) limb before it. */
  method AddDigitPair(isOneNegative: bool, bBig: bool, a: seq<nat>, b: seq<nat>, ghost target: seq<nat>,
                      n1: nat, n2: nat, res: seq<nat>, n: nat)
    returns (res': seq<nat>)
    requires 0 < n1 <= |a| && 0 < n2 <= |b| && n <= |res|
    requires target == RawFrom(isOneNegative, bBig, a, b, |a|, |b|, 0)
    requires CommonDigitsState(isOneNegative, bBig, a, b, target, n1, n2, res, n)
    ensures |res'| == |res| && CommonDigitsState(isOneNegative, bBig, a, b, target, n1 - 1, n2 - 1, res', n - 1)
  {
    var i1, i2, ri := n1 - 1, n2 - 1, n - 1;
    res' := res;
    if isOneNegative {
      var num1 := if bBig then b[i2] else a[i1];
      var num2 := if bBig then a[i1] else b[i2];
      var diff := if num1 < num2 then Wrap(Base + num1 - num2) else Wrap(num1 as int - num2);
      res' := res'[ri := Wrap(diff as int - res'[ri])];
      res' := res'[ri - 1 := res'[ri - 1] + (if num1 < num2 then 1 else 0)];
    } else {
      var sum := Wrap(a[i1] + b[i2]);
      res' := res'[ri := Wrap(res'[ri] + sum % Base)];
      res' := res'[ri - 1 := res'[ri - 1] + sum / Base];
    }
    StoreTwo(res, ri, res'[ri], res'[ri - 1]);
    RawFromStep(isOneNegative, bBig, a, b, n1, n2, i1, i2, res[ri], res'[ri], res'[ri - 1]);
    ConcatAssoc(RawFrom(isOneNegative, bBig, a, b, i1, i2, res'[ri - 1]), [res'[ri]], res[ri + 1..]);
    assert forall k :: 0 <= k < ri - 1 ==> res'[k] == res[..ri - 1][k];
  }

  /** The do-while loop of `operator+` over the limbs both operands have:
      it runs from the least significant limbs until one operand is used up,
      leaving the remaining limbs of the other for `AddRemainingDigits`. */
  method AddCommonDigits(isOneNegative: bool, bBig: bool, a: seq<nat>, b: seq<nat>)
    returns (res: seq<nat>, i1: nat, i2: nat, ri: nat)
    requires |a| >= 1 && |b| >= 1
    ensures i1 <= |a| && i2 <= |b| && (i1 == 0 || i2 == 0)
    ensures ri == (if i1 > i2 then i1 else i2) + 1 && ri <= |res|
    ensures forall k :: 0 <= k < ri - 1 ==> res[k] == 0
    ensures RawFrom(isOneNegative, bBig, a, b, |a|, |b|, 0)
            == RawTail(isOneNegative, if i1 != 0 then a else b, ri - 1, res[ri - 1]) + res[ri..]
  {
    var len := (if |a| > |b| then |a| else |b|) + 1;
    res := Zeros(len);
    i1, i2, ri := |a|, |b|, len;
    ghost var target := RawFrom(isOneNegative, bBig, a, b, |a|, |b|, 0);
    CommonDigitsStart(isOneNegative, bBig, a, b, target, res);
    res, i1, i2, ri := CommonDigitsLoop(isOneNegative, bBig, a, b, target, res);
    CommonDigitsEnd(isOneNegative, bBig, a, b, target, i1, i2, res, ri);
  }

  /** The do-while loop itself, from the first limb pair until one operand
      is used up. */
  method CommonDigitsLoop(isOneNegative: bool, bBig: bool, a: seq<nat>, b: seq<nat>, ghost target: seq<nat>,
                          start: seq<nat>)
    returns (res: seq<nat>, i1: nat, i2: nat, ri: nat)
    requires |a| >= 1 && |b| >= 1 && target == RawFrom(isOneNegative, bBig, a, b, |a|, |b|, 0)
    requires CommonDigitsState(isOneNegative, bBig, a, b, target, |a|, |b|, start, |start|)
    ensures (i1 == 0 || i2 == 0) && CommonDigitsState(isOneNegative, bBig, a, b, target, i1, i2, res, ri)
  {
    res := start;
    i1, i2, ri := |a|, |b|, |start|;
    while i1 != 0 && i2 != 0
      invariant |res| == |start| && CommonDigitsState(isOneNegative, bBig, a, b, target, i1, i2, res, ri)
      decreases i1
    {
      res := AddDigitPair(isOneNegative, bBig, a, b, target, i1, i2, res, ri);
      i1, i2, ri := i1 - 1, i2 - 1, ri - 1;
    }
  }

  /** The state before the first limb pair: nothing stored, nothing carried. */
  lemma CommonDigitsStart(isOneNegative: bool, bBig: bool, a: seq<nat>, b: seq<nat>, target: seq<nat>,
                          res: seq<nat>)
    requires target == RawFrom(isOneNegative, bBig, a, b, |a|, |b|, 0)
    requires res == Zeros((if |a| > |b| then |a| else |b|) + 1)
    ensures CommonDigitsState(isOneNegative, bBig, a, b, target, |a|, |b|, res, |res|)
  {
    assert res[|res|..] == [];
  }

  /** The state once one operand is used up: the rest is `add_remaining_digits`. */
  lemma CommonDigitsEnd(isOneNegative: bool, bBig: bool, a: seq<nat>, b: seq<nat>, target: seq<nat>,
                        i1: nat, i2: nat, res: seq<nat>, ri: nat)
    requires target == RawFrom(isOneNegative, bBig, a, b, |a|, |b|, 0)
    requires CommonDigitsState(isOneNegative, bBig, a, b, target, i1, i2, res, ri) && (i1 == 0 || i2 == 0)
    ensures i1 <= |a| && i2 <= |b| && (i1 == 0 || i2 == 0)
    ensures ri == (if i1 > i2 then i1 else i2) + 1 && ri <= |res|
    ensures forall k :: 0 <= k < ri - 1 ==> res[k] == 0
    ensures RawFrom(isOneNegative, bBig, a, b, |a|, |b|, 0)
            == RawTail(isOneNegative, if i1 != 0 then a else b, ri - 1, res[ri - 1]) + res[ri..]
  {
    RawFromDone(isOneNegative, bBig, a, b, i1, i2, res[ri - 1]);
  }


  /** `operator+`: the sign of the result, the loops that fill the result
      vector from the least significant end, and the erasing of leading zero
      limbs. */
  method Plus(a: BigInt, b: BigInt) returns (r: BigInt)
    requires |a.limbs| >= 1 && |b.limbs| >= 1
    ensures r == AddAsWritten(a, b)
  {
    var isOneNegative := a.neg != b.neg;
    var bBig := SecondIsBigger(a, b);
    var res, i1, i2, ri := AddCommonDigits(isOneNegative, bBig, a.limbs, b.limbs);
    res, ri := AddRemainingDigits(isOneNegative, res, ri, a.limbs, i1);
    res, ri := AddRemainingDigits(isOneNegative, res, ri, b.limbs, i2);
    var limbs := EraseLeadingZeros(res);
    r := BigInt(SumSign(a, b), limbs);
    if limbs[0] == 0 && |limbs| == 1 {
      r := r.(neg := false);
    }
  }

  /** `operator-`: adds the other operand with its sign flipped. */
  function SubtractAsWritten(a: BigInt, b: BigInt): (r: BigInt)
    requires |a.limbs| >= 1 && |b.limbs| >= 1
  {
    AddAsWritten(a, Negate(b))
  }

  // ---------------------------------------------------------------------
  // The intended addition: carries and borrows propagate

  /** The limb below position `i`, or 0 once the operand is used up. */
  function Digit(a: seq<nat>, i: nat): nat
    requires i <= |a|
  {
    if i > 0 then a[i - 1] else 0
  }

  /** The next position down, staying at 0 once the operand is used up. */
  function Down(i: nat): (r: nat)
    ensures r <= i && (i > 0 ==> r == i - 1)
  {
    if i > 0 then i - 1 else 0
  }

  /** Limb-wise sum of the magnitudes `a[..i]` and `b[..j]`, the shorter
      one padded with zero limbs, with the carry propagated to the most
      significant limb. */
  function AddMagnitudes(a: seq<nat>, b: seq<nat>, i: nat, j: nat, carry: nat): (r: seq<nat>)
    requires i <= |a| && j <= |b|
    ensures |r| == (if i > j then i else j) + 1
    decreases i + j
  {
    if i == 0 && j == 0 then [carry]
    else
      var s := Digit(a, i) + Digit(b, j) + carry;
      if s < Base then AddMagnitudes(a, b, Down(i), Down(j), 0) + [s]
      else AddMagnitudes(a, b, Down(i), Down(j), 1) + [s - Base]
  }

  /** Limb-wise difference of the magnitudes `big[..i]` and `small[..j]`,
      with the borrow propagated. */
  function SubMagnitudes(big: seq<nat>, small: seq<nat>, i: nat, j: nat, borrow: nat): (r: seq<nat>)
    requires j <= i <= |big| && j <= |small|
    ensures |r| == i
    decreases i
  {
    if i == 0 then []
    else
      var d := big[i - 1] - Digit(small, j) - borrow;
      SubMagnitudes(big, small, i - 1, Down(j), if d < 0 then 1 else 0) + [d % Base]
  }

  /** Addition as intended: the sign and the choice of the bigger operand of
      `operator+`, with carries and borrows carried through every limb. */
  function Sum(a: BigInt, b: BigInt): (r: BigInt)
    requires |a.limbs| >= 1 && |b.limbs| >= 1
  {
    BiggerIsNotShorter(a, b);
    var raw :=
      if a.neg == b.neg then AddMagnitudes(a.limbs, b.limbs, |a.limbs|, |b.limbs|, 0)
      else if SecondIsBigger(a, b) then SubMagnitudes(b.limbs, a.limbs, |b.limbs|, |a.limbs|, 0)
      else SubMagnitudes(a.limbs, b.limbs, |a.limbs|, |b.limbs|, 0);
    WithSign(SumSign(a, b), TrimLeadingZeros(raw))
  }

  /** Subtraction as intended. */
  function Subtract(a: BigInt, b: BigInt): (r: BigInt)
    requires |a.limbs| >= 1 && |b.limbs| >= 1
  {
    Sum(a, Negate(b))
  }

  /** The operands addition is meant for: limbs below the base, and, when the
      signs differ and magnitudes must be compared, no leading zero limbs
      (the comparison goes by the number of limbs first). */
  predicate Addable(a: BigInt, b: BigInt)
  {
    |a.limbs| >= 1 && |b.limbs| >= 1 && Bounded(a.limbs) && Bounded(b.limbs)
    && (a.neg != b.neg ==> Canonical(a.limbs) && Canonical(b.limbs))
  }

  /** The value of a prefix, zero for the empty one. */
  lemma ValPrefixStep(s: seq<nat>, i: nat)
    requires i <= |s|
    ensures ValTo(s, i) == ValTo(s, Down(i)) * Base + Digit(s, i)
    ensures Bounded(s) ==> Digit(s, i) < Base
  {
  }

  /** One limb of `AddMagnitudes`, with the carry it passes on. */
  lemma AddMagnitudesStep(a: seq<nat>, b: seq<nat>, i: nat, j: nat, carry: nat)
    requires i <= |a| && j <= |b| && (i > 0 || j > 0)
    ensures var s := Digit(a, i) + Digit(b, j) + carry;
      var out := if s < Base then 0 else 1;
      AddMagnitudes(a, b, i, j, carry) == AddMagnitudes(a, b, Down(i), Down(j), out) + [s - out * Base]
  {
  }

  lemma {:induction false} AddMagnitudesValue(a: seq<nat>, b: seq<nat>, i: nat, j: nat, carry: nat)
    requires i <= |a| && j <= |b| && Bounded(a) && Bounded(b) && carry <= 1
    ensures var r := AddMagnitudes(a, b, i, j, carry);
      Val(r) == ValTo(a, i) + ValTo(b, j) + carry && Bounded(r)
    decreases i + j
  {
    if i == 0 && j == 0 {
      ValSingle(carry);
    } else {
      var s := Digit(a, i) + Digit(b, j) + carry;
      var out := if s < Base then 0 else 1;
      AddMagnitudesValue(a, b, Down(i), Down(j), out);
      AddMagnitudesValueStep(a, b, i, j, carry, out);
    }
  }

  /** One limb of `AddMagnitudesValue`, the limbs below already summed. */
  lemma AddMagnitudesValueStep(a: seq<nat>, b: seq<nat>, i: nat, j: nat, carry: nat, out: nat)
    requires i <= |a| && j <= |b| && (i > 0 || j > 0) && Bounded(a) && Bounded(b) && carry <= 1
    requires out == if Digit(a, i) + Digit(b, j) + carry < Base then 0 else 1
    requires var p := AddMagnitudes(a, b, Down(i), Down(j), out);
      Val(p) == ValTo(a, Down(i)) + ValTo(b, Down(j)) + out && Bounded(p)
    ensures var r := AddMagnitudes(a, b, i, j, carry);
      Val(r) == ValTo(a, i) + ValTo(b, j) + carry && Bounded(r)
  {
    ValPrefixStep(a, i);
    ValPrefixStep(b, j);
    AddMagnitudesStep(a, b, i, j, carry);
    SumLimb(AddMagnitudes(a, b, Down(i), Down(j), out), ValTo(a, Down(i)), ValTo(b, Down(j)),
            Digit(a, i), Digit(b, j), carry);
  }

  /** The limb `x + y + c`, less the base when it carries, pushed below a
      vector holding `u + v` and the carry. */
  lemma SumLimb(p: seq<nat>, u: int, v: int, x: nat, y: nat, c: nat)
    requires Bounded(p) && x < Base && y < Base && c <= 1
    requires Val(p) == u + v + (if x + y + c < Base then 0 else 1)
    ensures var out := if x + y + c < Base then 0 else 1;
      var w := x + y + c - out * Base;
      w >= 0 && Val(p + [w]) == (u * Base + x) + (v * Base + y) + c && Bounded(p + [w])
  {
    var w := x + y + c - (if x + y + c < Base then 0 else 1) * Base;
    ValPush(p, w);
    BoundedPush(p, w);
    LimbCarry(Val(p), u, v, x + y + c);
  }

  lemma {:induction false} SubMagnitudesValue(big: seq<nat>, small: seq<nat>, i: nat, j: nat, borrow: nat)
    requires j <= i <= |big| && j <= |small| && Bounded(big) && Bounded(small) && borrow <= 1
    requires ValTo(small, j) + borrow <= ValTo(big, i)
    ensures var r := SubMagnitudes(big, small, i, j, borrow);
      Val(r) == ValTo(big, i) - ValTo(small, j) - borrow && Bounded(r)
    decreases i
  {
    var r := SubMagnitudes(big, small, i, j, borrow);
    if i == 0 {
    } else {
      var j' := Down(j);
      var x, y := big[i - 1], Digit(small, j);
      var vb', vs' := ValTo(big, i - 1), ValTo(small, j');
      var d := x - y - borrow;
      var out := if d < 0 then 1 else 0;
      ValPrefixStep(big, i);
      ValPrefixStep(small, j);
      if d < 0 && vb' <= vs' {
        MulLe(vb', vs', Base);
        assert false;
      }
      SubMagnitudesValue(big, small, i - 1, j', out);
      var p := SubMagnitudes(big, small, i - 1, j', out);
      assert r == p + [d % Base];
      ValPush(p, d % Base);
      BoundedPush(p, d % Base);
      LimbBorrow(Val(p), vb', vs', d);
    }
  }

  /** One limb of a sum `s` below twice the base: the limbs above take the
      carry when `s` reaches the base. */
  lemma LimbCarry(above: int, u: int, v: int, s: int)
    requires above == u + v + (if s < Base then 0 else 1)
    ensures var out := if s < Base then 0 else 1;
      above * Base + (s - out * Base) == u * Base + v * Base + s
  {
    MulDistrib(u, v, Base);
    MulDistrib(u + v, if s < Base then 0 else 1, Base);
  }

  /** One limb of a difference `d` within one base of 0: the limbs above
      give up the borrow when `d` is negative. */
  lemma LimbBorrow(above: int, u: int, v: int, d: int)
    requires -(Base as int) <= d < Base
    requires above == u - v - (if d < 0 then 1 else 0)
    ensures above * Base + d % Base == u * Base - v * Base + d
  {
    var out := if d < 0 then 1 else 0;
    assert d % Base == d + out * Base;
    MulSub(u - v, out, Base);
    MulSub(u, v, Base);
  }

  /** The sign `operator+` chooses is right once the limbs hold the sum or
      the difference of the magnitudes. */
  lemma SumSignCorrect(a: BigInt, b: BigInt, limbs: seq<nat>)
    requires Addable(a, b) && Canonical(limbs)
    requires a.neg == b.neg ==> Val(limbs) == Val(a.limbs) + Val(b.limbs)
    requires a.neg != b.neg && SecondIsBigger(a, b) ==> Val(limbs) == Val(b.limbs) - Val(a.limbs)
    requires a.neg != b.neg && !SecondIsBigger(a, b) ==> Val(limbs) == Val(a.limbs) - Val(b.limbs)
    ensures Normal(WithSign(SumSign(a, b), limbs))
    ensures IntVal(WithSign(SumSign(a, b), limbs)) == IntVal(a) + IntVal(b)
  {
    CanonicalZero(limbs);
    if a.neg != b.neg {
      CompareLimbsSound(a.limbs, b.limbs);
      CompareLimbsSound(b.limbs, a.limbs);
    }
  }

  /** For signs that differ, the operand `operator+` calls bigger has the
      larger magnitude. */
  lemma SecondIsBiggerSound(a: BigInt, b: BigInt)
    requires Canonical(a.limbs) && Canonical(b.limbs)
    ensures SecondIsBigger(a, b) <==> Val(b.limbs) >= Val(a.limbs)
  {
    CompareLimbsSound(b.limbs, a.limbs);
  }

  /** The intended addition is exact and its result is normal. */
  lemma SumCorrect(a: BigInt, b: BigInt)
    requires Addable(a, b)
    ensures Normal(Sum(a, b)) && IntVal(Sum(a, b)) == IntVal(a) + IntVal(b)
  {
    BiggerIsNotShorter(a, b);
    var raw :=
      if a.neg == b.neg then AddMagnitudes(a.limbs, b.limbs, |a.limbs|, |b.limbs|, 0)
      else if SecondIsBigger(a, b) then SubMagnitudes(b.limbs, a.limbs, |b.limbs|, |a.limbs|, 0)
      else SubMagnitudes(a.limbs, b.limbs, |a.limbs|, |b.limbs|, 0);
    if a.neg == b.neg {
      AddMagnitudesValue(a.limbs, b.limbs, |a.limbs|, |b.limbs|, 0);
    } else {
      SecondIsBiggerSound(a, b);
      if SecondIsBigger(a, b) {
        SubMagnitudesValue(b.limbs, a.limbs, |b.limbs|, |a.limbs|, 0);
      } else {
        SubMagnitudesValue(a.limbs, b.limbs, |a.limbs|, |b.limbs|, 0);
      }
    }
    SumSignCorrect(a, b, TrimLeadingZeros(raw));
  }

  /** Two non-negative numbers add up to a non-negative normal number. */
  lemma SumOfNonNegative(a: BigInt, b: BigInt)
    requires Addable(a, b) && !a.neg && !b.neg
    ensures Normal(Sum(a, b)) && !Sum(a, b).neg
    ensures Val(Sum(a, b).limbs) == Val(a.limbs) + Val(b.limbs)
  {
    SumCorrect(a, b);
  }

  /** Subtraction is exact. */
  lemma SubtractCorrect(a: BigInt, b: BigInt)
    requires Addable(a, Negate(b))
    ensures Normal(Subtract(a, b)) && IntVal(Subtract(a, b)) == IntVal(a) - IntVal(b)
  {
    SumCorrect(a, Negate(b));
  }

  /** Addition of normal numbers does not depend on the order of the operands. */
  lemma SumCommutes(a: BigInt, b: BigInt)
    requires Normal(a) && Normal(b)
    ensures Sum(a, b) == Sum(b, a)
  {
    SumCorrect(a, b);
    SumCorrect(b, a);
    NormalEqual(Sum(a, b), Sum(b, a));
  }

  /** 0 is the neutral element, and a normal number minus itself is 0. */
  lemma SumZero(a: BigInt)
    requires Normal(a)
    ensures Sum(a, Zero) == a && Subtract(a, a) == Zero
  {
    SumCorrect(a, Zero);
    NormalEqual(Sum(a, Zero), a);
    if a != Zero {
      SubtractCorrect(a, a);
      NormalEqual(Subtract(a, a), Zero);
    } else {
      assert Negate(a) == BigInt(true, [0]);
      SubtractCorrect(a, a);
      NormalEqual(Subtract(a, a), Zero);
    }
  }

  // ---------------------------------------------------------------------
  // What the source's result vector holds

  /** A value that is a valid limb, or -1, survives the 64-bit wrap exactly
      when it stays below the base. */
  lemma WrapSmall(v: int)
    requires -1 <= v < Word
    ensures v >= 0 ==> Wrap(v) == v
    ensures v < 0 ==> Wrap(v) == Word - 1 && Wrap(v) >= Base
  {
  }

  /** With equal signs a limb stays at most the base plus one, so the 64-bit
      arithmetic never wraps. */
  lemma {:induction false} RawTailSumValue(v: seq<nat>, i: nat, c: nat)
    requires i <= |v| && Bounded(v) && c <= 1
    ensures Val(RawTail(false, v, i, c)) == ValTo(v, i) + c
  {
    if i == 0 {
      ValSingle(c);
    } else {
      var p := RawTail(false, v, i - 1, 0);
      RawTailSumValue(v, i - 1, 0);
      WrapSmall(c + v[i - 1]);
      assert RawTail(false, v, i, c) == p + [c + v[i - 1]];
      ValPush(p, c + v[i - 1]);
    }
  }

  /** One limb pair with equal signs, the 64-bit wrap-around ruled out. */
  lemma RawFromSumStep(bBig: bool, a: seq<nat>, b: seq<nat>, i1: nat, i2: nat, c: nat)
    requires 0 < i1 <= |a| && 0 < i2 <= |b| && Bounded(a) && Bounded(b) && c <= 1
    ensures var sum := a[i1 - 1] + b[i2 - 1];
      sum / Base <= 1
      && RawFrom(false, bBig, a, b, i1, i2, c)
         == RawFrom(false, bBig, a, b, i1 - 1, i2 - 1, sum / Base) + [c + sum % Base]
  {
    var sum := a[i1 - 1] + b[i2 - 1];
    WrapSmall(sum);
    WrapSmall(c + sum % Base);
  }

  /** One limb of a sum: the limbs above hold the carry `s / Base`. */
  lemma LimbCarryDiv(above: int, u: int, v: int, s: int)
    requires above == u + v + s / Base
    ensures above * Base + s % Base == u * Base + v * Base + s
  {
    MulDistrib(u + v, s / Base, Base);
    MulDistrib(u, v, Base);
    DivModSplit(s, Base);
  }

  /** With equal signs the result vector has the exact value of the sum,
      even where a limb ends up equal to the base. */
  lemma {:induction false} RawFromSumValue(bBig: bool, a: seq<nat>, b: seq<nat>, i1: nat, i2: nat, c: nat)
    requires i1 <= |a| && i2 <= |b| && Bounded(a) && Bounded(b) && c <= 1
    ensures Val(RawFrom(false, bBig, a, b, i1, i2, c)) == ValTo(a, i1) + ValTo(b, i2) + c
    decreases i1 + i2
  {
    if i1 > 0 && i2 > 0 {
      var x, y := a[i1 - 1], b[i2 - 1];
      RawFromSumStep(bBig, a, b, i1, i2, c);
      RawFromSumValue(bBig, a, b, i1 - 1, i2 - 1, (x + y) / Base);
      CarryLimb(RawFrom(false, bBig, a, b, i1 - 1, i2 - 1, (x + y) / Base), RawFrom(false, bBig, a, b, i1, i2, c),
                ValTo(a, i1 - 1), ValTo(b, i2 - 1), x, y, c, ValTo(a, i1), ValTo(b, i2));
    } else {
      RawFromSumDone(bBig, a, b, i1, i2, c);
    }
  }

  /** `RawFromSumValue` once one operand is used up. */
  lemma RawFromSumDone(bBig: bool, a: seq<nat>, b: seq<nat>, i1: nat, i2: nat, c: nat)
    requires i1 <= |a| && i2 <= |b| && (i1 == 0 || i2 == 0) && Bounded(a) && Bounded(b) && c <= 1
    ensures Val(RawFrom(false, bBig, a, b, i1, i2, c)) == ValTo(a, i1) + ValTo(b, i2) + c
  {
    RawFromDone(false, bBig, a, b, i1, i2, c);
    if i1 > 0 {
      RawTailSumValue(a, i1, c);
    } else {
      RawTailSumValue(b, i2, c);
    }
  }

  /** The limb `c + (x + y) % BASE` pushed below a vector holding `u + v`
      and the carry `(x + y) / BASE`. */
  lemma CarryLimb(p: seq<nat>, r: seq<nat>, u: int, v: int, x: nat, y: nat, c: nat, A: int, B: int)
    requires Val(p) == u + v + (x + y) / Base && r == p + [c + (x + y) % Base]
    requires A == u * Base + x && B == v * Base + y
    ensures Val(r) == A + B + c
  {
    ValPush(p, c + (x + y) % Base);
    LimbCarryDiv(Val(p), u, v, x + y);
  }

  /** Setting the leading limb apart from the others. */
  lemma PushRest(p: seq<nat>, z: nat)
    requires |p| >= 1
    ensures (p + [z])[0] == p[0] && (p + [z])[1..] == p[1..] + [z]
    ensures Val((p + [z])[1..]) == Val(p[1..]) * Base + z
    ensures Bounded(p + [z]) ==> Bounded(p) && z < Base
  {
    assert (p + [z])[1..] == p[1..] + [z];
    ValPush(p[1..], z);
    if Bounded(p + [z]) {
      assert forall k :: 0 <= k < |p| ==> p[k] == (p + [z])[k];
      assert z == (p + [z])[|p|];
    }
  }

  /** `u + h * P == rest + w`, one limb further up. */
  lemma ShiftedLimb(u: int, h: int, P: int, rest: int, w: int)
    requires u + h * P == rest + w
    ensures u * Base + h * (Base * P) == rest * Base + w * Base
  {
    MulDistrib(u, h * P, Base);
    MulAssoc3(h, P, Base);
    MulDistrib(rest, w, Base);
  }

  /** With different signs, as long as no limb of the tail wrapped around,
      the tail `r` of the operand left over satisfies
      `v + r[0] * BASE^i == r[1..] + c`. */
  lemma {:induction false} RawTailDiffValue(v: seq<nat>, i: nat, c: nat)
    requires i <= |v| && Bounded(v) && c <= 1
    requires Bounded(RawTail(true, v, i, c))
    ensures var r := RawTail(true, v, i, c);
      ValTo(v, i) + r[0] * PowB(i) == Val(r[1..]) + c
  {
    if i > 0 {
      var p := RawTail(true, v, i - 1, 0);
      var z := Wrap(v[i - 1] as int - c);
      assert RawTail(true, v, i, c) == p + [z];
      PushRest(p, z);
      WrapSmall(v[i - 1] as int - c);
      RawTailDiffValue(v, i - 1, 0);
      ShiftedLimb(ValTo(v, i - 1), p[0], PowB(i - 1), Val(p[1..]), 0);
    }
  }

  /** The source names the operand it calls bigger in each subtraction
      step; swapping the operands and the flag gives the same vector. */
  lemma {:induction false} RawFromSwap(a: seq<nat>, b: seq<nat>, i1: nat, i2: nat, c: nat)
    requires i1 <= |a| && i2 <= |b|
    ensures RawFrom(true, true, a, b, i1, i2, c) == RawFrom(true, false, b, a, i2, i1, c)
    decreases i1 + i2
  {
    if i1 > 0 && i2 > 0 {
      RawFromSwap(a, b, i1 - 1, i2 - 1, if b[i2 - 1] < a[i1 - 1] then 1 else 0);
    }
  }

  /** One limb pair with different signs, `big` being the operand the source
      calls bigger; the limb difference itself never wraps. */
  lemma RawFromDiffStep(big: seq<nat>, small: seq<nat>, i: nat, j: nat, c: nat)
    requires 0 < i <= |big| && 0 < j <= |small| && Bounded(big) && Bounded(small)
    ensures var out := if big[i - 1] < small[j - 1] then 1 else 0;
      RawFrom(true, false, big, small, i, j, c)
      == RawFrom(true, false, big, small, i - 1, j - 1, out)
         + [Wrap(big[i - 1] + out * Base - small[j - 1] - c)]
  {
    var x, y := big[i - 1], small[j - 1];
    if x < y {
      WrapSmall(Base + x - y);
    } else {
      WrapSmall(x - y);
    }
  }

  /** One limb of a difference, with borrow `out` from the limbs above. */
  lemma LimbBorrowShift(vb: int, vs: int, h: int, P: int, rest: int, x: int, y: int, out: int, c: int, z: int,
                         A: int, S: int, PI: int, R: int)
    requires vb + h * P == rest + vs + out
    requires z == x + out * Base - y - c
    requires A == vb * Base + x && S == vs * Base + y && PI == Base * P && R == rest * Base + z
    ensures A + h * PI == R + S + c
  {
    ShiftedLimb(vb, h, P, rest + vs, out);
    MulDistrib(rest, vs, Base);
  }

  /** With different signs, as long as no limb wrapped around, the result
      vector `r` for the limbs `big[..i]` of the operand the source calls
      bigger and `small[..j]` of the other one satisfies
      `big + r[0] * BASE^i == r[1..] + small + c`. */
  lemma {:induction false} RawFromDiffValue(big: seq<nat>, small: seq<nat>, i: nat, j: nat, c: nat)
    requires j <= i <= |big| && j <= |small| && Bounded(big) && Bounded(small) && c <= 1
    requires Bounded(RawFrom(true, false, big, small, i, j, c))
    ensures var r := RawFrom(true, false, big, small, i, j, c);
      ValTo(big, i) + r[0] * PowB(i) == Val(r[1..]) + ValTo(small, j) + c
    decreases i
  {
    if j == 0 {
      RawTailDiffValue(big, i, c);
    } else {
      RawFromDiffLimb(big, small, i, j, c);
    }
  }

  /** The step of `RawFromDiffValue` for a limb pair. */
  lemma {:induction false} RawFromDiffLimb(big: seq<nat>, small: seq<nat>, i: nat, j: nat, c: nat)
    requires 0 < j <= i <= |big| && j <= |small| && Bounded(big) && Bounded(small) && c <= 1
    requires Bounded(RawFrom(true, false, big, small, i, j, c))
    ensures var r := RawFrom(true, false, big, small, i, j, c);
      ValTo(big, i) + r[0] * PowB(i) == Val(r[1..]) + ValTo(small, j) + c
    decreases i, 0
  {
    var r := RawFrom(true, false, big, small, i, j, c);
    var x, y := big[i - 1], small[j - 1];
    var out := if x < y then 1 else 0;
    var p := RawFrom(true, false, big, small, i - 1, j - 1, out);
    RawFromDiffSplit(big, small, i, j, c);
    RawFromDiffValue(big, small, i - 1, j - 1, out);
    PowBStep(i - 1, i);
    LimbBorrowShift(ValTo(big, i - 1), ValTo(small, j - 1), p[0], PowB(i - 1), Val(p[1..]), x, y, out, c,
                    x + out * Base - y - c, ValTo(big, i), ValTo(small, j), PowB(i), Val(r[1..]));
  }

  /** The result vector for a limb pair split into the vector for the limbs
      above and the limb itself, which did not wrap around. */
  lemma RawFromDiffSplit(big: seq<nat>, small: seq<nat>, i: nat, j: nat, c: nat)
    requires 0 < j <= i <= |big| && j <= |small| && Bounded(big) && Bounded(small) && c <= 1
    requires Bounded(RawFrom(true, false, big, small, i, j, c))
    ensures var x, y := big[i - 1], small[j - 1];
      var out := if x < y then 1 else 0;
      var p := RawFrom(true, false, big, small, i - 1, j - 1, out);
      var r := RawFrom(true, false, big, small, i, j, c);
      Bounded(p) && r[0] == p[0] && Val(r[1..]) == Val(p[1..]) * Base + (x + out * Base - y - c)
  {
    var r := RawFrom(true, false, big, small, i, j, c);
    var x, y := big[i - 1], small[j - 1];
    var out := if x < y then 1 else 0;
    var z := Wrap(x + out * Base - y - c);
    var p := RawFrom(true, false, big, small, i - 1, j - 1, out);
    RawFromDiffStep(big, small, i, j, c);
    PushRest(p, z);
    WrapSmall(x + out * Base - y - c);
  }

  /** With equal signs `operator+` as written has the exact value of the sum,
      though its limbs need not be canonical: a carry is added into the next
      limb once and never passed on, so a limb can reach the base but never
      exceed it. A zero result has its sign cleared. */
  lemma SameSignAsWrittenValue(a: BigInt, b: BigInt)
    requires a.neg == b.neg && |a.limbs| >= 1 && |b.limbs| >= 1
    requires Bounded(a.limbs) && Bounded(b.limbs)
    ensures IntVal(AddAsWritten(a, b)) == IntVal(a) + IntVal(b)
    ensures AtMostBase(AddAsWritten(a, b).limbs)
    ensures Val(AddAsWritten(a, b).limbs) == 0 ==> !AddAsWritten(a, b).neg
  {
    var raw := RawAdd(a, b);
    assert raw == RawFrom(false, SecondIsBigger(a, b), a.limbs, b.limbs, |a.limbs|, |b.limbs|, 0);
    RawFromSumValue(SecondIsBigger(a, b), a.limbs, b.limbs, |a.limbs|, |b.limbs|, 0);
    RawFromSumLimbs(SecondIsBigger(a, b), a.limbs, b.limbs, |a.limbs|, |b.limbs|, 0);
    TrimAtMostBase(raw);
    ZeroIsSingleLimb(TrimLeadingZeros(raw));
    assert SumSign(a, b) == a.neg;
    if TrimLeadingZeros(raw) == [0] {
      ValSingle(0);
    }
  }

  /** No limb above the base. */
  predicate AtMostBase(s: seq<nat>)
  {
    forall k :: 0 <= k < |s| ==> s[k] <= Base
  }

  /** With equal signs every limb of the result vector is at most the base. */
  lemma {:induction false} RawFromSumLimbs(bBig: bool, a: seq<nat>, b: seq<nat>, i1: nat, i2: nat, c: nat)
    requires i1 <= |a| && i2 <= |b| && Bounded(a) && Bounded(b) && c <= 1
    ensures AtMostBase(RawFrom(false, bBig, a, b, i1, i2, c))
    decreases i1 + i2
  {
    if i1 > 0 && i2 > 0 {
      var x, y := a[i1 - 1], b[i2 - 1];
      RawFromSumStep(bBig, a, b, i1, i2, c);
      RawFromSumLimbs(bBig, a, b, i1 - 1, i2 - 1, (x + y) / Base);
      AtMostBasePush(RawFrom(false, bBig, a, b, i1 - 1, i2 - 1, (x + y) / Base), c + (x + y) % Base);
    } else {
      RawFromDone(false, bBig, a, b, i1, i2, c);
      if i1 > 0 {
        RawTailSumLimbs(a, i1, c);
      } else {
        RawTailSumLimbs(b, i2, c);
      }
    }
  }

  /** The limbs `add_remaining_digits` writes with equal signs: the carry
      goes into one of them only, so none exceeds the base. */
  lemma {:induction false} RawTailSumLimbs(v: seq<nat>, i: nat, c: nat)
    requires i <= |v| && Bounded(v) && c <= 1
    ensures AtMostBase(RawTail(false, v, i, c))
  {
    if i > 0 {
      RawTailSumLimbs(v, i - 1, 0);
      WrapSmall(c + v[i - 1]);
      AtMostBasePush(RawTail(false, v, i - 1, 0), c + v[i - 1]);
    }
  }

  lemma AtMostBasePush(p: seq<nat>, z: nat)
    requires AtMostBase(p) && z <= Base
    ensures AtMostBase(p + [z])
  {
    assert forall k :: 0 <= k < |p| ==> (p + [z])[k] == p[k];
  }

  /** Erasing leading zeros keeps a suffix, so keeps the bound. */
  lemma {:induction false} TrimAtMostBase(s: seq<nat>)
    requires |s| >= 1 && AtMostBase(s)
    ensures AtMostBase(TrimLeadingZeros(s))
    decreases |s|
  {
    if s[0] == 0 && |s| > 1 {
      assert forall k :: 0 <= k < |s| - 1 ==> s[1..][k] == s[k + 1];
      TrimAtMostBase(s[1..]);
    }
  }

  /** A trimmed vector of value 0 is the single limb 0. */
  lemma ZeroIsSingleLimb(r: seq<nat>)
    requires |r| >= 1 && (|r| > 1 ==> r[0] != 0)
    ensures Val(r) == 0 ==> r == [0]
  {
    if |r| > 1 {
      ValLower(r);
      PowerPositive(Base, |r| - 1);
    } else {
      assert r == [r[0]];
      ValSingle(r[0]);
    }
  }

  /** With different signs and canonical operands, a result vector in which
      no limb overflowed holds the difference of the magnitudes. */
  lemma MixedSignRawValue(a: BigInt, b: BigInt)
    requires a.neg != b.neg && Addable(a, b) && Bounded(RawAdd(a, b))
    ensures SecondIsBigger(a, b) ==> Val(RawAdd(a, b)) == Val(b.limbs) - Val(a.limbs)
    ensures !SecondIsBigger(a, b) ==> Val(RawAdd(a, b)) == Val(a.limbs) - Val(b.limbs)
  {
    var bBig := SecondIsBigger(a, b);
    var r := RawAdd(a, b);
    var big, small := if bBig then b.limbs else a.limbs, if bBig then a.limbs else b.limbs;
    BiggerIsNotShorter(a, b);
    SecondIsBiggerSound(a, b);
    if bBig {
      RawFromSwap(a.limbs, b.limbs, |a.limbs|, |b.limbs|, 0);
    }
    assert r == RawFrom(true, false, big, small, |big|, |small|, 0);
    RawBorrowValue(big, small, r);
  }

  /** The vector of a subtraction whose bigger operand really is not smaller:
      no borrow is left at the top, and the value is the difference. */
  lemma RawBorrowValue(big: seq<nat>, small: seq<nat>, r: seq<nat>)
    requires |small| <= |big| && Bounded(big) && Bounded(small) && Val(small) <= Val(big)
    requires r == RawFrom(true, false, big, small, |big|, |small|, 0) && Bounded(r)
    ensures Val(r) == Val(big) - Val(small)
  {
    RawFromDiffValue(big, small, |big|, |small|, 0);
    NoBorrowLeft(Val(big), Val(small), PowB(|big|), r);
  }

  /** A bounded vector `r` one limb longer than `big` with
      `big + r[0] * P == r[1..] + small` and `small <= big` has no top limb. */
  lemma NoBorrowLeft(vb: nat, vs: nat, P: nat, r: seq<nat>)
    requires |r| >= 1 && Bounded(r) && P == PowB(|r| - 1) && vs <= vb
    requires vb + r[0] * P == Val(r[1..]) + vs
    ensures Val(r) == vb - vs
  {
    var rest := r[1..];
    assert Bounded(rest);
    ValUpper(rest);
    NoTopBorrow(vb, vs, r[0], P, Val(rest));
    assert r == [0] + rest;
    ValLeadingZero(rest);
  }

  /** `big + h * P == rest + small` with `rest < P` and `small <= big`
      leaves no room for a borrow `h` at the top. */
  lemma NoTopBorrow(vb: nat, vs: nat, h: nat, P: nat, rest: nat)
    requires vb + h * P == rest + vs && rest < P && vs <= vb
    ensures h == 0
  {
    if h != 0 {
      MulLe(1, h, P);
    }
  }

  /** `operator+` as written agrees with the intended addition whenever no
      limb of its result vector reaches the base or wraps around. */
  lemma AddAsWrittenAgrees(a: BigInt, b: BigInt)
    requires Addable(a, b) && Bounded(RawAdd(a, b))
    ensures AddAsWritten(a, b) == Sum(a, b)
  {
    var limbs := TrimLeadingZeros(RawAdd(a, b));
    if a.neg == b.neg {
      RawFromSumValue(SecondIsBigger(a, b), a.limbs, b.limbs, |a.limbs|, |b.limbs|, 0);
    } else {
      MixedSignRawValue(a, b);
    }
    SumSignCorrect(a, b, limbs);
    SumCorrect(a, b);
    NormalEqual(AddAsWritten(a, b), Sum(a, b));
  }

  // ---------------------------------------------------------------------
  // Two inputs on which `operator+` as written goes wrong

  /** A carry into a limb that already holds BASE - 1 is not passed on: the
      result keeps a limb equal to BASE. Its value is still right, but it is
      not the canonical number, so `==` tells it apart from the right sum. */
  lemma CarryNotPropagated()
    ensures AddAsWritten(BigInt(false, [1, MaxLimb, 1]), BigInt(false, [MaxLimb])) == BigInt(false, [1, Base, 0])
    ensures Sum(BigInt(false, [1, MaxLimb, 1]), BigInt(false, [MaxLimb])) == BigInt(false, [2, 0, 0])
    ensures !Bounded(AddAsWritten(BigInt(false, [1, MaxLimb, 1]), BigInt(false, [MaxLimb])).limbs)
  {
    var a, b := BigInt(false, [1, MaxLimb, 1]), BigInt(false, [MaxLimb]);
    assert RawTail(false, a.limbs, 1, 0) == [0, 1];
    assert RawTail(false, a.limbs, 2, 1) == [0, 1, Base];
    assert Wrap(a.limbs[2] + b.limbs[0]) == Base;
    assert RawFrom(false, SecondIsBigger(a, b), a.limbs, b.limbs, 2, 0, 1) == [0, 1, Base];
    assert RawAdd(a, b) == [0, 1, Base, 0];
    assert TrimLeadingZeros([0, 1, Base, 0]) == [1, Base, 0];
    assert AddMagnitudes(a.limbs, b.limbs, 1, 0, 1) == [0, 2];
    assert AddMagnitudes(a.limbs, b.limbs, 2, 0, 1) == [0, 2, 0];
    assert AddMagnitudes(a.limbs, b.limbs, 3, 1, 0) == [0, 2, 0, 0];
    assert TrimLeadingZeros([0, 2, 0, 0]) == [2, 0, 0];
    assert Sum(a, b) == BigInt(false, [2, 0, 0]);
    assert AddAsWritten(a, b).limbs[1] == Base;
  }

  /** A borrow taken from a zero limb wraps around to 2^64 - 1: 10^36 - 1
      comes out as a number above 10^36 + 2^64 * 10^18. */
  lemma BorrowNotPropagated()
    ensures AddAsWritten(BigInt(false, [1, 0, 0]), BigInt(true, [1])) == BigInt(false, [1, Word - 1, MaxLimb])
    ensures Sum(BigInt(false, [1, 0, 0]), BigInt(true, [1])) == BigInt(false, [MaxLimb, MaxLimb])
    ensures IntVal(AddAsWritten(BigInt(false, [1, 0, 0]), BigInt(true, [1]))) > PowB(2) + (Word - 1) * Base
  {
    BorrowAsWritten();
    BorrowIntended();
    var w := [1, Word - 1, MaxLimb];
    assert ValTo(w, 1) == 1;
    assert ValTo(w, 2) == Base + (Word - 1);
    assert Val(w) == (Base + (Word - 1)) * Base + MaxLimb;
    assert PowB(2) == Base * Base by {
      assert Power(Base, 2) == Base * Power(Base, 1);
    }
  }

  /** The result vector of `+[1, 0, 0] + -[1]` as written. */
  lemma BorrowAsWritten()
    ensures AddAsWritten(BigInt(false, [1, 0, 0]), BigInt(true, [1])) == BigInt(false, [1, Word - 1, MaxLimb])
  {
    var a, b := BigInt(false, [1, 0, 0]), BigInt(true, [1]);
    assert !SecondIsBigger(a, b);
    assert RawTail(true, a.limbs, 1, 0) == [0, 1];
    assert RawTail(true, a.limbs, 2, 1) == [0, 1, Word - 1];
    assert RawFrom(true, false, a.limbs, b.limbs, 2, 0, 1) == [0, 1, Word - 1];
    assert RawFrom(true, false, a.limbs, b.limbs, 3, 1, 0) == [0, 1, Word - 1, MaxLimb];
    assert RawAdd(a, b) == [0, 1, Word - 1, MaxLimb];
    assert TrimLeadingZeros([0, 1, Word - 1, MaxLimb]) == [1, Word - 1, MaxLimb];
  }

  /** The intended sum `+[1, 0, 0] + -[1]`. */
  lemma BorrowIntended()
    ensures Sum(BigInt(false, [1, 0, 0]), BigInt(true, [1])) == BigInt(false, [MaxLimb, MaxLimb])
  {
    var a, b := BigInt(false, [1, 0, 0]), BigInt(true, [1]);
    assert !SecondIsBigger(a, b);
    BorrowRuns();
    assert TrimLeadingZeros([0, MaxLimb, MaxLimb]) == [MaxLimb, MaxLimb];
  }

  /** The borrow out of the last limb of `BASE^2 - 1` runs through both zero
      limbs above it. */
  lemma BorrowRuns()
    ensures SubMagnitudes([1, 0, 0], [1], 3, 1, 0) == [0, MaxLimb, MaxLimb]
  {
    assert SubMagnitudes([1, 0, 0], [1], 1, 0, 1) == [0];
    assert SubMagnitudes([1, 0, 0], [1], 2, 0, 1) == [0, MaxLimb];
  }

}
