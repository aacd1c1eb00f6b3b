// Conversion between the decimal limbs and binary words (`dec2bin`,
// `bin2dec`) and the bitwise operators `&`, `|`, `^` and `~` built on it.

module Binary {
  import opened Arith
  import opened Limbs
  import opened Comparison
  import opened Addition
  import opened Halving
  import opened Division
  import opened Powers
  import opened Words

  // ---------------------------------------------------------------------
  // dec2bin

  /** Complement of every word, then one added to the last word alone,
      wrapping at 2^64: the negative branch of `dec2bin` as written. */
  function NegateAsWritten(w: seq<nat>): (r: seq<nat>)
    requires WordsBounded(w) && |w| >= 1
    ensures |r| == |w|
  {
    var c := Complement(w);
    c[..|c| - 1] + [(c[|c| - 1] + 1) % Word]
  }

  /** Two's complement negation in `|w|` words: complement, then add one
      with the carry passed on. */
  function Negate(w: seq<nat>): (r: seq<nat>)
    requires WordsBounded(w)
    ensures |r| == |w|
  {
    ComplementValue(w);
    Increment(Complement(w))
  }

  /** `dec2bin` as written: the words of |x|, most significant first, and
      for a negative `x` their negation with the carry of the last word
      lost. */
  function Dec2BinAsWritten(x: BigInt): seq<nat>
    requires Normal(x)
  {
    var n := Val(x.limbs);
    WordsValue(n);
    if x.neg then
      IsZeroOfNormal(x);
      NegateAsWritten(WordsOf(n))
    else WordsOf(n)
  }

  /** `dec2bin` as intended: the words of |x|, negated in two's complement
      over the same number of words when `x` is negative. */
  function Dec2Bin(x: BigInt): seq<nat>
    requires Normal(x)
  {
    var n := Val(x.limbs);
    WordsValue(n);
    if x.neg then Negate(WordsOf(n)) else WordsOf(n)
  }

  /** The words of `Dec2Bin(x)` fit, there are as many as |x| needs and none
      for 0, and they spell |x|, or 2^(64 k) - |x| when `x` is negative: the
      value of `x` modulo 2^(64 k). */
  lemma Dec2BinValue(x: BigInt)
    requires Normal(x)
    ensures var w := Dec2Bin(x);
      WordsBounded(w) && |w| == |WordsOf(Val(x.limbs))| && (|w| == 0 <==> IntVal(x) == 0)
      && BinVal(w) == (if x.neg then Power(Word, |w|) + IntVal(x) else IntVal(x))
  {
    var n := Val(x.limbs);
    var w := WordsOf(n);
    WordsValue(n);
    IsZeroOfNormal(x);
    if x.neg {
      ComplementValue(w);
      var c := Complement(w);
      IncrementValue(c);
      assert BinVal(c) + 1 != Power(Word, |w|);
    }
  }

  /** The carry lost by `NegateAsWritten` only matters when the last word is
      0: otherwise the two negations agree. */
  lemma NegateAgrees(w: seq<nat>)
    requires WordsBounded(w) && |w| >= 1 && w[|w| - 1] != 0
    ensures NegateAsWritten(w) == Negate(w)
  {
    var c := Complement(w);
    assert c[|c| - 1] + 1 < Word;
  }

  /** `dec2bin` as written and as intended agree on every number whose
      magnitude is not a multiple of 2^64. */
  lemma Dec2BinAgrees(x: BigInt)
    requires Normal(x) && Val(x.limbs) % Word != 0
    ensures Dec2BinAsWritten(x) == Dec2Bin(x)
  {
    var n := Val(x.limbs);
    WordsValue(n);
    if x.neg {
      NegateAgrees(WordsOf(n));
    }
  }

  /** -2^64: the words of the magnitude are [1, 0]; two's complement over two
      words is [2^64 - 1, 0], while the last-word increment of `dec2bin`
      wraps to 0 and leaves [2^64 - 2, 0]. */
  lemma CarryLostInDec2Bin()
    ensures var x := BigInt(true, [18, 446744073709551616]);
      Normal(x) && IntVal(x) == -(Word as int)
      && Dec2BinAsWritten(x) == [Word - 2, 0]
      && Dec2Bin(x) == [Word - 1, 0]
  {
    var x := BigInt(true, [18, 446744073709551616]);
    assert ValTo(x.limbs, 1) == 18;
    assert Val(x.limbs) == Word;
    assert WordsOf(1) == [1];
    assert WordsOf(Word) == [1, 0];
    var c := Complement([1, 0]);
    assert c == [Word - 2, Word - 1];
    assert Increment([Word - 2]) == [Word - 1];
    assert Increment(c) == [Word - 1, 0];
  }

  // ---------------------------------------------------------------------
  // bin2dec

  /** `bin2dec`: the words read as one unsigned binary number, as a
      non-negative `BigInteger`. */
  function Bin2Dec(w: seq<nat>): (r: BigInt)
  {
    BigInt(false, ToLimbs(BinVal(w)))
  }

  /** The result of `bin2dec` is natural and holds the value of the words. */
  lemma Bin2DecValue(w: seq<nat>)
    ensures Natural(Bin2Dec(w)) && IntVal(Bin2Dec(w)) == BinVal(w)
  {
  }

  /** A non-negative number survives the trip through binary and back. */
  lemma Dec2BinRoundTrip(x: BigInt)
    requires Normal(x) && !x.neg
    ensures Bin2Dec(Dec2Bin(x)) == x
  {
    Dec2BinValue(x);
    ToLimbsOfVal(x.limbs);
  }

  /** A negative number comes back as its two's complement over the words
      `dec2bin` gave it, a natural number. */
  lemma Dec2BinNegativeTrip(x: BigInt)
    requires Normal(x) && x.neg
    ensures IntVal(Bin2Dec(Dec2Bin(x))) == Power(Word, |Dec2Bin(x)|) + IntVal(x)
  {
    Dec2BinValue(x);
  }

  // ---------------------------------------------------------------------
  // &, |, ^ and ~

  /** `&`, `|` or `^`: both operands to binary, the word loop, back to
      decimal. */
  function BinaryOp(op: BitOp, a: BigInt, b: BigInt): (r: BigInt)
    requires Normal(a) && Normal(b)
  {
    Bin2Dec(Combine(op, Dec2Bin(a), Dec2Bin(b)))
  }

  /** On non-negative operands `&`, `|` and `^` are the bitwise operations
      on their values. */
  lemma BinaryOpValue(op: BitOp, a: BigInt, b: BigInt)
    requires Normal(a) && Normal(b) && !a.neg && !b.neg
    ensures Natural(BinaryOp(op, a, b))
    ensures IntVal(BinaryOp(op, a, b)) == Bitwise(op, Val(a.limbs), Val(b.limbs))
  {
    Dec2BinValue(a);
    Dec2BinValue(b);
    CombineValue(op, Dec2Bin(a), Dec2Bin(b));
  }

  /** `&`, `|` and `^` do not depend on the order of their operands, and
      never give a negative number. */
  lemma BinaryOpCommutes(op: BitOp, a: BigInt, b: BigInt)
    requires Normal(a) && Normal(b)
    ensures BinaryOp(op, a, b) == BinaryOp(op, b, a)
    ensures Natural(BinaryOp(op, a, b))
  {
    CombineCommutes(op, Dec2Bin(a), Dec2Bin(b));
  }

  /** 0 as an operand, where the word loops of `&`, `|` and `^` would index
      the empty `dec2bin(0)`: the result the model chooses is 0 for `&` and
      the other, non-negative, operand for `|` and `^`. */
  lemma BinaryOpZero(op: BitOp, a: BigInt)
    requires Normal(a) && !a.neg
    ensures BinaryOp(op, a, Zero) == if op == AndOp then Zero else a
  {
    BinaryOpValue(op, a, Zero);
    ValSingle(0);
    BitwiseZero(op, Val(a.limbs));
    var r := BinaryOp(op, a, Zero);
    if op == AndOp {
      NormalEqual(r, Zero);
    } else {
      NormalEqual(r, a);
    }
  }

  /** The words of 0 are empty, so the first pass of the word loops of `&`,
      `|`, `^` and `~` would index an empty vector. */
  lemma ZeroHasNoWords()
    ensures Dec2Bin(Zero) == [] && Dec2BinAsWritten(Zero) == []
  {
    ValSingle(0);
  }

  /** `~`: every word of the binary form complemented, read back unsigned. */
  function Not(a: BigInt): (r: BigInt)
    requires Normal(a)
  {
    Dec2BinValue(a);
    Bin2Dec(Complement(Dec2Bin(a)))
  }

  /** `~` of a positive number fills up its words: it is 2^(64 k) - 1 - a;
      `~` of a negative number undoes the two's complement: it is |a| - 1. */
  lemma NotValue(a: BigInt)
    requires Normal(a)
    ensures Natural(Not(a))
    ensures !a.neg ==> IntVal(Not(a)) == Power(Word, |Dec2Bin(a)|) - 1 - IntVal(a)
    ensures a.neg ==> IntVal(Not(a)) == -IntVal(a) - 1
  {
    Dec2BinValue(a);
    ComplementValue(Dec2Bin(a));
  }

  // ---------------------------------------------------------------------
  // The loops as written

  /** `dec2bin` as written: the words of |number| in the order the bit loop
      completes them, reversed, and for a negative number complemented
      with one added to the last word. */
  method Dec2BinLoop(number: BigInt) returns (result: seq<nat>)
    requires Normal(number)
    ensures result == Dec2BinAsWritten(number)
  {
    ghost var n := Val(number.limbs);
    var copy := Abs(number);
    var little := BitLoop(copy);
    result := Reversed(little);
    ReversedLittleWords(n);
    WordsValue(n);
    if number.neg {
      IsZeroOfNormal(number);
      result := ComplementEach(result);
      result := result[|result| - 1 := (result[|result| - 1] + 1) % Word];
    }
  }

  /** The loop of `dec2bin`: the bits of `copy` are peeled off with
      `divide_by_2` and or-ed into `binary` at position `index`; a word is
      pushed when it is full or the number is used up. The words come out
      least significant first. */
  method BitLoop(number: BigInt) returns (little: seq<nat>)
    requires Natural(number)
    ensures little == LittleWords(Val(number.limbs))
  {
    ghost var n := Val(number.limbs);
    var copy := number;
    var binary: nat := 0;
    var index: nat := 0;
    little := [];
    ghost var rest := n;
    ValSingle(1);
    var isZero := Equals(copy, Zero);
    while !isZero
      invariant Natural(copy) && index < 64 && binary < Power(2, index)
      invariant rest == Val(copy.limbs) * Power(2, index) + binary
      invariant LittleWords(n) == little + LittleWords(rest)
      invariant isZero <==> copy == Zero
      invariant isZero ==> index == 0 && binary == 0
      decreases Val(copy.limbs)
    {
      var next := index + 1;
      copy, binary := ShiftInBit(copy, binary, index, next);
      index := next;
      isZero := Equals(copy, Zero);
      IsZeroOfNormal(copy);
      if isZero || index == 64 {
        PushWord(rest, Val(copy.limbs), index, Power(2, index), binary);
        assert LittleWords(n) == (little + [binary]) + LittleWords(Val(copy.limbs));
        little := little + [binary];
        rest := Val(copy.limbs);
        binary := 0;
        index := 0;
      }
    }
  }

  /** One pass of the loop of `dec2bin` up to the push: the lowest bit of
      `copy` is or-ed into `binary` at position `index` and `copy` halved,
      which keeps what the two spell together. */
  method ShiftInBit(copy: BigInt, binary: nat, index: nat, next: nat) returns (half: BigInt, binary': nat)
    requires Natural(copy) && copy != Zero && binary < Power(2, index) && next == index + 1
    ensures Natural(half) && Val(half.limbs) < Val(copy.limbs) && binary' < Power(2, next)
    ensures Val(copy.limbs) * Power(2, index) + binary == Val(half.limbs) * Power(2, next) + binary'
    ensures Val(half.limbs) * Power(2, next) + binary' > 0
  {
    HalveNatural(copy);
    var bit: nat := copy.limbs[|copy.limbs| - 1] % 2;
    ghost var P := Power(2, index);
    var shifted: nat := bit * Power(2, index);
    OrFreshBit(binary, bit, index, P, shifted);
    binary' := Bitwise(OrOp, binary, shifted);
    half := DivideBy2(copy);
    BitLoopStep(Val(copy.limbs), Val(half.limbs), bit, index, next, P, Power(2, next), binary, binary',
                Val(copy.limbs) * P + binary);
  }

  /** The negative branch of `dec2bin`: `unit = ~unit` for every word. */
  method ComplementEach(w: seq<nat>) returns (r: seq<nat>)
    requires WordsBounded(w)
    ensures r == Complement(w)
  {
    r := w;
    var i := 0;
    while i < |r|
      invariant 0 <= i <= |r| == |w|
      invariant r[..i] == Complement(w)[..i] && r[i..] == w[i..]
    {
      assert r[i] == w[i];
      r := r[i := Word - 1 - r[i]];
      i := i + 1;
    }
  }

  /** `divide_by_2` of a non-zero natural: a natural, the lowest bit gone. */
  lemma HalveNatural(x: BigInt)
    requires Natural(x) && x != Zero
    ensures |x.limbs| >= 1 && Val(x.limbs) > 0 && Natural(Half(x))
    ensures Val(x.limbs) == 2 * Val(Half(x).limbs) + x.limbs[|x.limbs| - 1] % 2
  {
    IsZeroOfNormal(x);
    ValParity(x.limbs);
    HalfValue(x);
    HalfCanonical(x);
  }

  /** `binary |= bit << index`: the bit lands above every bit already set. */
  lemma OrFreshBit(binary: nat, bit: nat, index: nat, P: nat, shifted: nat)
    requires bit <= 1 && P == Power(2, index) && binary < P && shifted == bit * P
    ensures Bitwise(OrOp, binary, shifted) == binary + shifted
  {
    SplitBitwise(OrOp, 0, bit, binary, 0, index, P, binary, shifted);
    BitwiseZero(OrOp, bit);
    BitwiseCommutes(OrOp, 0, bit);
    BitwiseZero(OrOp, binary);
  }

  /** Moving the lowest bit of the number into `binary` keeps what the two
      spell together, and `binary` stays below the next power of two. */
  lemma BitLoopStep(c: nat, c': nat, bit: nat, index: nat, index': nat, P: nat, P': nat,
                    b: nat, b': nat, rest: int)
    requires c == 2 * c' + bit && bit <= 1 && index' == index + 1
    requires P == Power(2, index) && P' == Power(2, index') && b < P && b' == b + bit * P
    requires rest == c * P + b && c > 0
    ensures P' == 2 * P && b' < P' && rest == c' * P' + b' && rest > 0
  {
    PowerPositive(2, index);
    MulLe(1, c, P);
    Twice(c', P, P');
    MulDistrib(2 * c', bit, P);
    MulAssoc3(2, c', P);
  }

  /** A full word, or the last bits: `binary` is the next word of the
      little-endian vector and the rest continues with the number. */
  lemma PushWord(m: nat, c: nat, index: nat, P: nat, b: nat)
    requires m == c * P + b && P == Power(2, index) && b < P && index <= 64 && m > 0
    requires c == 0 || index == 64
    ensures LittleWords(m) == [b] + LittleWords(c)
  {
    WordIsPowerOfTwo();
    PowerMono(2, index, 64);
    if c == 0 {
      assert m == b && m < Word;
    } else {
      DivOfMulAdd(c, Word, b);
    }
  }

  /** `bin2dec` as written: `bit_index` runs down from `64 * size` and
      `unit_index` through each word from bit 63 to bit 0; for every set bit
      `pow(2, bit_index)` is added to `result`. The loop is a do-while whose
      first test, `bit_index != 0`, holds on a non-empty vector; on an empty
      one `binary.at(0)` throws, so the words must be non-empty. */
  method Bin2DecLoop(w: seq<nat>) returns (result: BigInt)
    requires 1 <= |w| && WordsBounded(w) && 64 * |w| < Base
    ensures result == Bin2Dec(w)
  {
    ghost var N := BinVal(w);
    result := Zero;
    var bitIndex: nat := 64 * |w|;
    var unitIndex: nat := 64;
    var index: nat := 0;
    ValSingle(0);
    BinValUpper(w);
    WordIsPowerOfTwo();
    PowerOfPower(2, 64, |w|);
    PowerPositive(2, bitIndex);
    DivOfMulAdd(0, Power(2, bitIndex), N);
    while bitIndex != 0
      invariant Natural(result) && index <= |w| && 1 <= unitIndex <= 64
      invariant bitIndex + 64 == 64 * (|w| - index) + unitIndex
      invariant Power(2, bitIndex) > 0
      invariant Val(result.limbs) == (N / Power(2, bitIndex)) * Power(2, bitIndex)
      decreases bitIndex
    {
      ghost var above := bitIndex;
      unitIndex := unitIndex - 1;
      bitIndex := bitIndex - 1;
      result := AddBit(w, result, index, unitIndex, bitIndex, above);
      if unitIndex == 0 {
        unitIndex := 64;
        index := index + 1;
      }
    }
    ToLimbsOfVal(result.limbs);
  }

  /** One pass of the loop of `bin2dec`: bit `unitIndex` of word `index` is
      bit `bitIndex` of the whole vector, and when it is set `2^bitIndex` is
      added, so that `result` holds the bits of the vector from `bitIndex`
      up. */
  method AddBit(w: seq<nat>, result: BigInt, index: nat, unitIndex: nat, bitIndex: nat, ghost above: nat)
      returns (r: BigInt)
    requires WordsBounded(w) && index < |w| && unitIndex < 64 && bitIndex < Base
    requires bitIndex == 64 * (|w| - 1 - index) + unitIndex && above == bitIndex + 1
    requires Natural(result) && Power(2, above) > 0
    requires Val(result.limbs) == (BinVal(w) / Power(2, above)) * Power(2, above)
    ensures Natural(r) && Power(2, bitIndex) > 0
    ensures Val(r.limbs) == (BinVal(w) / Power(2, bitIndex)) * Power(2, bitIndex)
  {
    WordBit(w, |w| - 1 - index, unitIndex, bitIndex, index);
    PowerStep(2, bitIndex, above);
    ghost var N, P, P2 := BinVal(w), Power(2, bitIndex), Power(2, above);
    FloorStep(N, P, P2);
    ghost var q: int, q2: int := N / P, N / P2;
    ghost var bit: int := q % 2;
    r := result;
    if (w[index] / Power(2, unitIndex)) % 2 == 1 {
      var e := FromMachineInt(bitIndex);
      PowerOfTwo(e);
      assert Val(e.limbs) == bitIndex;
      AddNatural(result, Pow(Two, e));
      r := Sum(result, Pow(Two, e));
      assert Val(r.limbs) == Val(result.limbs) + P;
    }
    AddBitValue(q, P, q2, P2, bit, Val(result.limbs), Val(r.limbs));
  }

  /** The arithmetic of `AddBit`. */
  lemma AddBitValue(q: int, P: int, q2: int, P2: int, bit: int, v: int, v': int)
    requires q * P == q2 * P2 + bit * P && v == q2 * P2 && 0 <= bit <= 1
    requires bit == 1 ==> v' == v + P
    requires bit == 0 ==> v' == v
    ensures v' == q * P
  {
  }

  /** The word loop of `operator&`, `operator|` and `operator^`: a result of
      `min` (for `&`) or `max` (for `|`, `^`) words, filled from the right
      with the operation on the words of both operands while both have
      words left, then, for `|` and `^`, with the words left over in the
      longer operand (`add_remaining_digits`). The do-while reads the last
      word of each operand before any test, so neither may be empty. */
  method CombineWords(op: BitOp, u: seq<nat>, v: seq<nat>) returns (result: seq<nat>)
    requires 1 <= |u| && 1 <= |v|
    ensures result == Combine(op, u, v)
  {
    var i1: nat, i2: nat, ri: nat;
    if op == AndOp {
      ri := if |u| < |v| then |u| else |v|;
    } else {
      ri := if |u| < |v| then |v| else |u|;
    }
    result := seq(ri, _ => 0);
    result, i1, i2, ri := CombinePairs(op, u, v, result);
    if op != AndOp {
      var tail := result[ri..];
      result, ri := AddRemainingDigits(i1, u, result, ri);
      result, ri := AddRemainingDigits(i2, v, result, ri);
      if i1 == 0 {
        assert u[..i1] + v[..i2] == v[..i2];
      } else {
        assert u[..i1] + v[..i2] == u[..i1];
      }
    }
    assert result[ri..] == result;
  }

  /** The do-while loop over the words both operands have, filling the
      result from the right until one operand is used up. */
  method CombinePairs(op: BitOp, u: seq<nat>, v: seq<nat>, start: seq<nat>)
      returns (result: seq<nat>, i1: nat, i2: nat, ri: nat)
    requires 1 <= |u| && 1 <= |v| && |start| == |Combine(op, u, v)|
    ensures i1 <= |u| && i2 <= |v| && |u| - i1 == |v| - i2 && (i1 == 0 || i2 == 0)
    ensures |result| == |start| && ri + (|u| - i1) == |result|
    ensures Combine(op, u, v) == Combine(op, u[..i1], v[..i2]) + result[ri..]
  {
    i1, i2, ri, result := |u|, |v|, |start|, start;
    assert u[..i1] == u && v[..i2] == v;
    while i1 != 0 && i2 != 0
      invariant 0 <= i1 <= |u| && 0 <= i2 <= |v| && |u| - i1 == |v| - i2
      invariant |result| == |start| && ri + (|u| - i1) == |result|
      invariant Combine(op, u, v) == Combine(op, u[..i1], v[..i2]) + result[ri..]
      decreases i1
    {
      ghost var j1, j2, rj, before := i1, i2, ri, result;
      i1, i2, ri := i1 - 1, i2 - 1, ri - 1;
      result := result[ri := Bitwise(op, u[i1], v[i2])];
      PairStep(op, u, v, i1, i2, j1, j2, before, ri, rj, result);
    }
  }

  /** One pass of the pair loop: the word written at `ri` is the last word
      of `Combine` on the prefixes the loop still has to do. */
  lemma PairStep(op: BitOp, u: seq<nat>, v: seq<nat>, i1: nat, i2: nat, j1: nat, j2: nat,
                 s: seq<nat>, ri: nat, rj: nat, s': seq<nat>)
    requires j1 == i1 + 1 <= |u| && j2 == i2 + 1 <= |v| && rj == ri + 1 <= |s|
    requires s' == s[ri := Bitwise(op, u[i1], v[i2])]
    ensures Combine(op, u[..i1], v[..i2]) + s'[ri..] == Combine(op, u[..j1], v[..j2]) + s[rj..]
  {
    assert u[..j1][..i1] == u[..i1];
    assert v[..j2][..i2] == v[..i2];
    assert s'[ri..] == [Bitwise(op, u[i1], v[i2])] + s[rj..];
  }

  /** `add_remaining_digits`: the first `index` words of `vec` copied, from
      the right, into the positions just below `ri`. */
  method AddRemainingDigits(index: nat, vec: seq<nat>, result0: seq<nat>, ri0: nat)
      returns (result: seq<nat>, ri: nat)
    requires index <= |vec| && index <= ri0 <= |result0|
    ensures ri == ri0 - index && |result| == |result0|
    ensures result[ri..] == vec[..index] + result0[ri0..]
  {
    result, ri := result0, ri0;
    var i := index;
    while i != 0
      invariant 0 <= i <= index && ri == ri0 - (index - i) && |result| == |result0|
      invariant result[ri..] == vec[i..index] + result0[ri0..]
    {
      i, ri := i - 1, ri - 1;
      var before := result;
      result := result[ri := vec[i]];
      assert result[ri..] == [vec[i]] + before[ri + 1..];
      assert vec[i..index] == [vec[i]] + vec[i + 1..index];
    }
  }

  /** The word loop of `operator~`: every word complemented, from the last
      to the first. The do-while reads the last word before any test, so
      the vector may not be empty. */
  method ComplementWords(w: seq<nat>) returns (result: seq<nat>)
    requires 1 <= |w| && WordsBounded(w)
    ensures result == Complement(w)
  {
    var index := |w|;
    result := seq(index, _ => 0);
    while index != 0
      invariant 0 <= index <= |w| == |result|
      invariant result[index..] == Complement(w)[index..]
    {
      index := index - 1;
      result := result[index := Word - 1 - w[index]];
    }
  }
}
