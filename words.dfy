// Binary words: the vectors of `uint64_t` that `dec2bin` produces and
// `bin2dec` reads back, most significant word first, and the bitwise
// operations on them.

module Words {
  import opened Arith
  import opened Limbs

  /** Every entry fits in a `uint64_t`. */
  predicate WordsBounded(w: seq<nat>)
  {
    forall i :: 0 <= i < |w| ==> w[i] < Word
  }

  /** Value of the first `n` words, most significant first. */
  function BinValTo(w: seq<nat>, n: nat): nat
    requires n <= |w|
  {
    if n == 0 then 0 else BinValTo(w, n - 1) * Word + w[n - 1]
  }

  /** Value of a word vector read as one unsigned binary number. */
  function BinVal(w: seq<nat>): nat
  {
    BinValTo(w, |w|)
  }

  lemma {:induction false} BinValToSame(s: seq<nat>, t: seq<nat>, n: nat)
    requires n <= |s| && n <= |t| && forall k :: 0 <= k < n ==> s[k] == t[k]
    ensures BinValTo(s, n) == BinValTo(t, n)
  {
    if n > 0 {
      BinValToSame(s, t, n - 1);
    }
  }

  lemma BinValPush(p: seq<nat>, z: nat)
    ensures BinVal(p + [z]) == BinVal(p) * Word + z
  {
    BinValToSame(p + [z], p, |p|);
  }

  /** Words written after a vector shift it up by one word each. */
  lemma {:induction false} BinValAppend(p: seq<nat>, q: seq<nat>)
    ensures BinVal(p + q) == BinVal(p) * Power(Word, |q|) + BinVal(q)
    decreases |q|
  {
    if |q| == 0 {
      assert p + q == p;
    } else {
      var q' := q[..|q| - 1];
      var z := q[|q| - 1];
      assert p + q == (p + q') + [z];
      assert q == q' + [z];
      BinValPush(p + q', z);
      BinValPush(q', z);
      BinValAppend(p, q');
      ShiftOneWord(BinVal(p), Power(Word, |q'|), BinVal(q'), z);
    }
  }

  /** The arithmetic of one step of `BinValAppend`. */
  lemma ShiftOneWord(x: nat, P: nat, y: nat, z: nat)
    ensures (x * P + y) * Word + z == x * (Word * P) + (y * Word + z)
  {
    MulDistrib(x * P, y, Word);
    MulAssoc3(x, P, Word);
  }

  /** A vector of `k` words is below 2^(64 k). */
  lemma {:induction false} BinValUpper(w: seq<nat>)
    requires WordsBounded(w)
    ensures BinVal(w) < Power(Word, |w|)
    decreases |w|
  {
    if |w| > 0 {
      var p := w[..|w| - 1];
      BinValToSame(w, p, |p|);
      BinValUpper(p);
      MulLe(BinVal(p) + 1, Power(Word, |p|), Word);
    }
  }

  /** The words of `n`, least significant first: the order in which the
      loop of `dec2bin` completes them. Zero has none. */
  function LittleWords(n: nat): (r: seq<nat>)
    decreases n
  {
    if n == 0 then [] else [n % Word] + LittleWords(n / Word)
  }

  /** `std::reverse`. */
  function Reversed(s: seq<nat>): (r: seq<nat>)
    ensures |r| == |s|
  {
    if |s| == 0 then [] else Reversed(s[1..]) + [s[0]]
  }

  /** The words of `n`, most significant first, with no leading zero word. */
  function WordsOf(n: nat): seq<nat>
    decreases n
  {
    if n == 0 then [] else WordsOf(n / Word) + [n % Word]
  }

  lemma {:induction false} ReversedLittleWords(n: nat)
    ensures Reversed(LittleWords(n)) == WordsOf(n)
    decreases n
  {
    if n > 0 {
      var l := LittleWords(n);
      assert l[1..] == LittleWords(n / Word);
      ReversedLittleWords(n / Word);
    }
  }

  /** `WordsOf(n)` spells `n`: its value is `n`, every entry fits a word, it is
      empty exactly for 0 and otherwise starts with a non-zero word. */
  lemma {:induction false} WordsValue(n: nat)
    ensures BinVal(WordsOf(n)) == n && WordsBounded(WordsOf(n))
    ensures |WordsOf(n)| == 0 <==> n == 0
    ensures n > 0 ==> WordsOf(n)[0] != 0
    decreases n
  {
    if n > 0 {
      WordsValue(n / Word);
      BinValPush(WordsOf(n / Word), n % Word);
      DivModSplit(n, Word);
      if n / Word > 0 {
        assert WordsOf(n)[0] == WordsOf(n / Word)[0];
      }
    }
  }

  // ---------------------------------------------------------------------
  // Bitwise operations on natural numbers

  /** The three binary word operations of `&`, `|` and `^`. */
  datatype BitOp = AndOp | OrOp | XorOp

  /** The operation on single bits. */
  function BitOf(op: BitOp, x: nat, y: nat): nat
    requires x <= 1 && y <= 1
  {
    match op
    case AndOp => x * y
    case OrOp => if x + y > 0 then 1 else 0
    case XorOp => (x + y) % 2
  }

  /** The operation applied bit by bit to two natural numbers. */
  function Bitwise(op: BitOp, x: nat, y: nat): nat
    decreases x + y
  {
    if x == 0 && y == 0 then 0 else 2 * Bitwise(op, x / 2, y / 2) + BitOf(op, x % 2, y % 2)
  }

  /** The low `k` bits and the rest go their separate ways: with `P = 2^k`
      and `a`, `b` below it, the operation on `x * P + a` and `y * P + b` is
      the operation on `x` and `y`, shifted, beside the one on `a` and `b`. */
  lemma {:induction false} SplitBitwise(op: BitOp, x: nat, y: nat, a: nat, b: nat, k: nat, P: nat, X: nat, Y: nat)
    requires P == Power(2, k) && a < P && b < P && X == x * P + a && Y == y * P + b
    ensures Bitwise(op, X, Y) == Bitwise(op, x, y) * P + Bitwise(op, a, b)
    decreases k
  {
    if k == 0 {
      assert a == 0 && b == 0 && X == x && Y == y;
    } else {
      var Q := Power(2, k - 1);
      assert P == 2 * Q;
      var ha, hb := a / 2, b / 2;
      var la, lb := a % 2, b % 2;
      HalfBelow(a, Q, P);
      HalfBelow(b, Q, P);
      var hX, hY := x * Q + ha, y * Q + hb;
      HalveShifted(x, Q, P, a, ha, la);
      HalveShifted(y, Q, P, b, hb, lb);
      BitStep(op, X, Y, hX, hY, la, lb);
      BitStep(op, a, b, ha, hb, la, lb);
      SplitBitwise(op, x, y, ha, hb, k - 1, Q, hX, hY);
      SplitStep(Bitwise(op, X, Y), Bitwise(op, hX, hY), Bitwise(op, ha, hb), BitOf(op, la, lb),
                Bitwise(op, a, b), Bitwise(op, x, y), Q, P);
    }
  }

  /** The arithmetic of one step of `SplitBitwise`. */
  lemma SplitStep(z: nat, zh: nat, w: nat, bit: nat, zab: nat, B: nat, Q: nat, P: nat)
    requires z == 2 * zh + bit && zh == B * Q + w && zab == 2 * w + bit && P == 2 * Q
    ensures z == B * P + zab
  {
    Twice(B, Q, P);
  }

  /** Half of a number below `2^k` is below `2^(k-1)`. */
  lemma HalfBelow(a: nat, Q: nat, P: nat)
    requires P == 2 * Q && a < P
    ensures a / 2 < Q
  {
  }

  /** One bit off the bottom of both operands. */
  lemma BitStep(op: BitOp, X: nat, Y: nat, hx: nat, hy: nat, lx: nat, ly: nat)
    requires lx <= 1 && ly <= 1 && X == 2 * hx + lx && Y == 2 * hy + ly
    ensures Bitwise(op, X, Y) == 2 * Bitwise(op, hx, hy) + BitOf(op, lx, ly)
  {
    DivOfMulAdd(hx, 2, lx);
    DivOfMulAdd(hy, 2, ly);
    assert X / 2 == hx && X % 2 == lx && Y / 2 == hy && Y % 2 == ly;
  }

  /** `x * P + a`, with `P` twice `Q`, is twice `x * Q + a / 2` plus the low bit of `a`. */
  lemma HalveShifted(x: nat, Q: nat, P: nat, a: nat, ha: nat, la: nat)
    requires P == 2 * Q && ha == a / 2 && la == a % 2
    ensures x * P + a == 2 * (x * Q + ha) + la
  {
    Twice(x, Q, P);
  }

  lemma Twice(x: nat, Q: nat, P: nat)
    requires P == 2 * Q
    ensures x * P == 2 * (x * Q)
  {
  }

  /** A zero operand: `&` gives 0, `|` and `^` give the other operand. */
  lemma {:induction false} BitwiseZero(op: BitOp, x: nat)
    ensures Bitwise(op, x, 0) == if op == AndOp then 0 else x
    decreases x
  {
    if x > 0 {
      BitwiseZero(op, x / 2);
    }
  }

  lemma {:induction false} BitwiseCommutes(op: BitOp, x: nat, y: nat)
    ensures Bitwise(op, x, y) == Bitwise(op, y, x)
    decreases x + y
  {
    if x != 0 || y != 0 {
      BitwiseCommutes(op, x / 2, y / 2);
    }
  }

  /** Operands of `k` bits give a result of `k` bits. */
  lemma {:induction false} BitwiseBound(op: BitOp, x: nat, y: nat, k: nat, P: nat)
    requires P == Power(2, k) && x < P && y < P
    ensures Bitwise(op, x, y) < P
    decreases k
  {
    if k > 0 && (x != 0 || y != 0) {
      var Q := Power(2, k - 1);
      assert P == 2 * Q;
      HalfBelow(x, Q, P);
      HalfBelow(y, Q, P);
      BitwiseBound(op, x / 2, y / 2, k - 1, Q);
    }
  }

  // ---------------------------------------------------------------------
  // The word loops of `&`, `|` and `^`

  /** The result vector of `&`, `|` or `^` on two word vectors: the words
      are combined pairwise from the right while both have words left; `&`
      stops there, keeping the shorter length, while `|` and `^` copy the
      words left over in the longer operand (`add_remaining_digits`). */
  function Combine(op: BitOp, u: seq<nat>, v: seq<nat>): (r: seq<nat>)
    ensures |r| == if op == AndOp then (if |u| < |v| then |u| else |v|)
                   else (if |u| < |v| then |v| else |u|)
    decreases |u| + |v|
  {
    if |u| == 0 || |v| == 0 then (if op == AndOp then [] else u + v)
    else Combine(op, u[..|u| - 1], v[..|v| - 1]) + [Bitwise(op, u[|u| - 1], v[|v| - 1])]
  }

  /** The word loop is the bitwise operation on the values the vectors
      spell, aligned at their least significant words, and its words fit. */
  lemma {:induction false} CombineValue(op: BitOp, u: seq<nat>, v: seq<nat>)
    requires WordsBounded(u) && WordsBounded(v)
    ensures BinVal(Combine(op, u, v)) == Bitwise(op, BinVal(u), BinVal(v))
    ensures WordsBounded(Combine(op, u, v))
    decreases |u| + |v|
  {
    WordIsPowerOfTwo();
    if |u| == 0 || |v| == 0 {
      BitwiseZero(op, BinVal(u));
      BitwiseZero(op, BinVal(v));
      BitwiseCommutes(op, BinVal(u), BinVal(v));
      if |u| == 0 {
        assert u + v == v;
      } else {
        assert u + v == u;
      }
    } else {
      var u', v' := u[..|u| - 1], v[..|v| - 1];
      var x, y := u[|u| - 1], v[|v| - 1];
      assert u == u' + [x] && v == v' + [y];
      CombineValue(op, u', v');
      BinValPush(u', x);
      BinValPush(v', y);
      var c := Combine(op, u', v');
      BinValPush(c, Bitwise(op, x, y));
      SplitBitwise(op, BinVal(u'), BinVal(v'), x, y, 64, Word, BinVal(u), BinVal(v));
      BitwiseBound(op, x, y, 64, Word);
    }
  }

  /** `&`, `|` and `^` on word vectors do not depend on the operand order. */
  lemma {:induction false} CombineCommutes(op: BitOp, u: seq<nat>, v: seq<nat>)
    ensures Combine(op, u, v) == Combine(op, v, u)
    decreases |u| + |v|
  {
    if |u| == 0 || |v| == 0 {
      if |u| == 0 {
        assert u + v == v && v + u == v;
      } else {
        assert u + v == u && v + u == u;
      }
    } else {
      CombineCommutes(op, u[..|u| - 1], v[..|v| - 1]);
      BitwiseCommutes(op, u[|u| - 1], v[|v| - 1]);
    }
  }

  /** `~` on a word vector: every word complemented. */
  function Complement(w: seq<nat>): (r: seq<nat>)
    requires WordsBounded(w)
    ensures |r| == |w|
  {
    seq(|w|, i requires 0 <= i < |w| => Word - 1 - w[i])
  }

  /** The complement of a vector of `k` words adds up with it to 2^(64 k) - 1. */
  lemma {:induction false} ComplementValue(w: seq<nat>)
    requires WordsBounded(w)
    ensures WordsBounded(Complement(w))
    ensures BinVal(Complement(w)) + BinVal(w) == Power(Word, |w|) - 1
    decreases |w|
  {
    var c := Complement(w);
    if |w| > 0 {
      var p := w[..|w| - 1];
      var x := w[|w| - 1];
      assert w == p + [x];
      assert Complement(p) == c[..|w| - 1];
      assert c == Complement(p) + [Word - 1 - x];
      ComplementValue(p);
      BinValPush(p, x);
      BinValPush(Complement(p), Word - 1 - x);
      var P := Power(Word, |p|);
      assert (BinVal(Complement(p)) + BinVal(p)) * Word == (P - 1) * Word;
      MulSub(P, 1, Word);
    }
  }

  // ---------------------------------------------------------------------
  // Adding one to a word vector

  /** One added to the last word, the carry running on into the words
      before it while they overflow; a carry out of the first word is
      dropped, as in fixed-width arithmetic. */
  function Increment(w: seq<nat>): (r: seq<nat>)
    requires WordsBounded(w)
    ensures |r| == |w|
  {
    if |w| == 0 then []
    else if w[|w| - 1] + 1 < Word then w[..|w| - 1] + [w[|w| - 1] + 1]
    else Increment(w[..|w| - 1]) + [0]
  }

  /** `Increment` adds one modulo 2^(64 k): its words fit, and its value is
      one more than before unless every word was full. */
  lemma {:induction false} IncrementValue(w: seq<nat>)
    requires WordsBounded(w)
    ensures WordsBounded(Increment(w))
    ensures BinVal(Increment(w)) == if BinVal(w) + 1 == Power(Word, |w|) then 0 else BinVal(w) + 1
    decreases |w|
  {
    if |w| > 0 {
      var p, x := w[..|w| - 1], w[|w| - 1];
      assert w == p + [x];
      BinValPush(p, x);
      BinValUpper(p);
      var P := Power(Word, |p|);
      assert Power(Word, |w|) == Word * P;
      if x + 1 < Word {
        BinValPush(p, x + 1);
        MulLe(BinVal(p) + 1, P, Word);
      } else {
        IncrementValue(p);
        BinValPush(Increment(p), 0);
        MulDistrib(BinVal(p), 1, Word);
      }
    }
  }

  // ---------------------------------------------------------------------
  // Reading single bits

  /** Bit `64 j + u` of the value is bit `u` of the `j`-th word from the
      right. */
  lemma WordBit(w: seq<nat>, j: nat, u: nat, b: nat, i: nat)
    requires WordsBounded(w) && j < |w| && u < 64 && b == 64 * j + u && i == |w| - 1 - j
    ensures Power(2, b) > 0 && Power(2, u) > 0
    ensures (BinVal(w) / Power(2, b)) % 2 == (w[i] / Power(2, u)) % 2
  {
    var k := |w| - j;
    var p, s := w[..k], w[k..];
    assert w == p + s;
    BinValAppend(p, s);
    BinValUpper(s);
    var A, U := Power(2, 64 * j), Power(2, u);
    WordIsPowerOfTwo();
    PowerOfPower(2, 64, j);
    PowerAdd(2, 64 * j, u);
    PowerPositive(2, 64 * j);
    PowerPositive(2, u);
    var N := BinVal(w);
    DivDiv(N, A, U);
    DivOfMulAdd(BinVal(p), A, BinVal(s));
    var p', x := p[..k - 1], p[k - 1];
    assert x == w[i];
    assert p == p' + [x];
    BinValPush(p', x);
    var V, H := Power(2, 64 - u), Power(2, 63 - u);
    PowerAdd(2, u, 64 - u);
    assert V == 2 * H;
    LowWordBit(BinVal(p'), x, U, V, H, Word);
  }

  /** The arithmetic of `WordBit` inside the word `x`. */
  lemma LowWordBit(y: nat, x: nat, U: nat, V: nat, H: nat, W: nat)
    requires U > 0 && V == 2 * H && W == U * V
    ensures ((y * W + x) / U) % 2 == (x / U) % 2
  {
    var m := y * V;
    assert y * W == m * U by {
      MulAssoc3(y, U, V);
    }
    DivAddMul(m, U, x);
    Twice(y, H, V);
    EvenPlus(m, y * H, x / U);
  }

  lemma EvenPlus(m: nat, h: nat, z: nat)
    requires m == 2 * h
    ensures (m + z) % 2 == z % 2
  {
  }

  /** The bits at and above position `b`, one more bit at a time. */
  lemma FloorStep(N: nat, P: nat, P2: nat)
    requires P > 0 && P2 == 2 * P
    ensures (N / P) * P == (N / P2) * P2 + ((N / P) % 2) * P
  {
    var q := N / P;
    DivDiv(N, P, 2);
    assert P * 2 == P2;
    assert q == 2 * (q / 2) + q % 2;
    MulDistrib(2 * (q / 2), q % 2, P);
    Twice(q / 2, P, P2);
    MulAssoc3(2, q / 2, P);
  }
}
