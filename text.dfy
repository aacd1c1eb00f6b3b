/** Decimal text in and out of a number: `check_number`, the string
    constructor with `parse`, and `operator<<`. */
module Text {
  import opened Arith
  import opened Limbs
  import opened Comparison

  datatype Option<T> = None | Some(value: T)

  // ---------------------------------------------------------------------
  // Digits and their values

  predicate IsDigit(c: char)
  {
    '0' <= c <= '9'
  }

  predicate AllDigits(t: string)
  {
    forall i :: 0 <= i < |t| ==> IsDigit(t[i])
  }

  /** `check_number`: the whole text matches `-?\d+`, an optional minus
      sign and at least one decimal digit. */
  predicate IsNumber(s: string)
  {
    (|s| >= 1 && AllDigits(s)) || (|s| >= 2 && s[0] == '-' && AllDigits(s[1..]))
  }

  /** The digits of a number's text, without its minus sign. */
  function Magnitude(s: string): (d: string)
    requires IsNumber(s)
    ensures |d| >= 1 && AllDigits(d)
    ensures d == if s[0] == '-' then s[1..] else s
  {
    if s[0] == '-' then s[1..] else s
  }

  function DigitValue(c: char): nat
    requires IsDigit(c)
  {
    c as int - '0' as int
  }

  function DigitChar(v: nat): (c: char)
    requires v < 10
    ensures IsDigit(c) && DigitValue(c) == v
  {
    ('0' as int + v) as char
  }

  /** The value of a digit string read in base 10, most significant first. */
  function Decimal(t: string): nat
    requires AllDigits(t)
  {
    if |t| == 0 then 0 else Decimal(t[..|t| - 1]) * 10 + DigitValue(t[|t| - 1])
  }

  lemma DecimalSame(t: string, u: string)
    requires AllDigits(t) && t == u
    ensures Decimal(t) == Decimal(u)
  {
  }

  /** Reading two digit strings one after the other. */
  lemma {:induction false} DecimalAppend(a: string, b: string)
    requires AllDigits(a) && AllDigits(b)
    ensures AllDigits(a + b) && Decimal(a + b) == Decimal(a) * Power(10, |b|) + Decimal(b)
    decreases |b|
  {
    if |b| == 0 {
      assert a + b == a;
    } else {
      var b' := b[..|b| - 1];
      DecimalAppend(a, b');
      assert (a + b)[..|a + b| - 1] == a + b';
      var P := Power(10, |b'|);
      PowerStep(10, |b'|, |b|);
      calc {
        Decimal(a + b);
        Decimal(a + b') * 10 + DigitValue(b[|b| - 1]);
        (Decimal(a) * P + Decimal(b')) * 10 + DigitValue(b[|b| - 1]);
        { MulAssoc3(Decimal(a), P, 10); }
        Decimal(a) * (10 * P) + Decimal(b);
      }
    }
  }

  /** `n` digits hold a value below 10^n. */
  lemma {:induction false} DecimalUpper(t: string)
    requires AllDigits(t)
    ensures Decimal(t) < Power(10, |t|)
  {
    if |t| > 0 {
      var t' := t[..|t| - 1];
      DecimalUpper(t');
      PowerStep(10, |t'|, |t|);
    }
  }

  /** Without a leading zero, `n` digits hold a value of at least 10^(n-1). */
  lemma {:induction false} DecimalLower(t: string)
    requires AllDigits(t) && |t| >= 1 && t[0] != '0'
    ensures Decimal(t) >= Power(10, |t| - 1) > 0
  {
    PowerPositive(10, |t| - 1);
    if |t| > 1 {
      var t' := t[..|t| - 1];
      DecimalLower(t');
      PowerStep(10, |t'| - 1, |t| - 1);
    }
  }

  /** Zeros in front of a digit string do not change its value. */
  lemma {:induction false} DecimalLeadingZeros(k: nat, t: string)
    requires AllDigits(t)
    ensures AllDigits(ZeroFill(k) + t) && Decimal(ZeroFill(k) + t) == Decimal(t)
    decreases k
  {
    DecimalAppend(ZeroFill(k), t);
    ZeroFillValue(k);
  }

  function ZeroFill(k: nat): (r: string)
    ensures |r| == k && AllDigits(r)
  {
    seq(k, _ => '0')
  }

  lemma {:induction false} ZeroFillValue(k: nat)
    ensures Decimal(ZeroFill(k)) == 0
  {
    if k > 0 {
      assert ZeroFill(k)[..k - 1] == ZeroFill(k - 1);
      ZeroFillValue(k - 1);
    }
  }

  // ---------------------------------------------------------------------
  // std::stoull and std::string::substr

  /** `std::string::substr(pos, count)`: at most `count` characters from
      `pos`, fewer when the text ends first. */
  function Substr(s: string, pos: nat, count: nat): (r: string)
    requires pos <= |s|
    ensures |r| == if count < |s| - pos then count else |s| - pos
  {
    if count < |s| - pos then s[pos..pos + count] else s[pos..]
  }

  /** `std::stoull` on a text matching `-?\d+`: `None` when the magnitude
      does not fit 64 bits (`std::out_of_range`); a minus sign negates the
      value modulo 2^64, as `strtoull` does. */
  function Stoull(t: string): (r: Option<nat>)
    requires IsNumber(t)
    ensures r.Some? ==> r.value < Word
  {
    var v := Decimal(Magnitude(t));
    if v >= Word then None
    else if t[0] == '-' then Some((Word - v) % Word)
    else Some(v)
  }

  /** A magnitude of at most 18 digits always fits 64 bits. */
  lemma StoullInRange(t: string)
    requires IsNumber(t) && |Magnitude(t)| <= 18
    ensures Stoull(t).Some?
    ensures t[0] != '-' ==> Stoull(t).value == Decimal(t)
  {
    DecimalUpper(Magnitude(t));
    PowerMono(10, |Magnitude(t)|, 18);
    BaseIsPowerOfTen();
    WordIsPowerOfTwo();
  }

  /** A slice of a number's text is a number's text when it either skips the
      sign or holds a digit after it. */
  lemma SliceIsNumber(s: string, i: nat, j: nat)
    requires IsNumber(s) && i < j <= |s|
    requires i == 0 && s[0] == '-' ==> j >= 2
    ensures IsNumber(s[i..j])
    ensures i > 0 || s[0] != '-' ==> AllDigits(s[i..j]) && Magnitude(s[i..j]) == s[i..j]
    ensures Magnitude(s[i..j]) == if i == 0 && s[0] == '-' then s[1..j] else s[i..j]
  {
    if s[0] == '-' {
      assert forall k :: 1 <= k < |s| ==> s[k] == s[1..][k - 1];
    }
  }

  // ---------------------------------------------------------------------
  // parse as written

  /** The count of the first `substr` of `parse`: `start - is_negative` in
      64-bit unsigned arithmetic, which wraps to 2^64 - 1 when `start` is 0. */
  function HeadCount(s: string): nat
    requires |s| >= 1
  {
    (|s| % 18 - (if s[0] == '-' then 1 else 0)) % Word
  }

  /** `integer_storage` after the first push of `parse`: the digits before
      the first full group of 18, skipping the sign; nothing when the count
      is 0; `None` when `stoull` throws, which ends the program since
      `parse` is `noexcept`. */
  function WrittenHead(s: string): (r: Option<seq<nat>>)
    requires IsNumber(s)
  {
    var sign := if s[0] == '-' then 1 else 0;
    var count := HeadCount(s);
    if count == 0 then Some([])
    else
      HeadIsNumber(s);
      match Stoull(Substr(s, sign, count))
      case None => None
      case Some(v) => Some([v])
  }

  lemma HeadIsNumber(s: string)
    requires IsNumber(s) && HeadCount(s) != 0
    ensures var sign := if s[0] == '-' then 1 else 0;
      IsNumber(Substr(s, sign, HeadCount(s))) && AllDigits(Substr(s, sign, HeadCount(s)))
  {
    var sign := if s[0] == '-' then 1 else 0;
    var t := Substr(s, sign, HeadCount(s));
    assert |t| >= 1;
    assert t == s[sign..sign + |t|];
    SliceIsNumber(s, sign, sign + |t|);
  }

  /** The group of 18 characters the loop of `parse` reads at `counter`. */
  function WrittenGroup(s: string, counter: nat): (t: string)
    requires IsNumber(s) && 18 * counter + 18 <= |s|
    ensures |t| == 18 && IsNumber(t) && |Magnitude(t)| <= 18
  {
    var index := |s| % 18 + counter * 18;
    SliceIsNumber(s, index, index + 18);
    Substr(s, index, 18)
  }

  /** `integer_storage` after `counter` turns of the loop of `parse`. */
  function WrittenStorage(s: string, counter: nat): Option<seq<nat>>
    requires IsNumber(s) && 18 * counter <= |s|
  {
    if counter == 0 then WrittenHead(s)
    else PushGroup(s, counter - 1, WrittenStorage(s, counter - 1))
  }

  /** One turn of the loop of `parse`: `stoull` of the group at `counter`
      pushed onto the storage. */
  function PushGroup(s: string, counter: nat, storage: Option<seq<nat>>): Option<seq<nat>>
    requires IsNumber(s) && 18 * counter + 18 <= |s|
  {
    match storage
    case None => None
    case Some(p) =>
      match Stoull(WrittenGroup(s, counter))
      case None => None
      case Some(v) => Some(p + [v])
  }

  /** Once `stoull` has thrown, `parse` has no result. */
  lemma {:induction false} WrittenHeadFails(s: string, n: nat)
    requires IsNumber(s) && 18 * n <= |s| && WrittenHead(s) == None
    ensures WrittenStorage(s, n) == None
  {
    if n > 0 {
      WrittenHeadFails(s, n - 1);
    }
  }

  /** `parse` as written: the sign from the first character, then the
      storage the head and the loop build; `None` when the program ends. */
  function ParseAsWritten(s: string): Option<BigInt>
    requires IsNumber(s)
  {
    match WrittenStorage(s, |s| / 18)
    case None => None
    case Some(storage) => Some(BigInt(s[0] == '-', storage))
  }

  /** `parse` as written, statement by statement. */
  method ParseLoop(number: string) returns (r: Option<BigInt>)
    requires IsNumber(number)
    ensures r == ParseAsWritten(number)
  {
    var len := |number|;
    var counter := 0;
    var start := len % 18;
    var neg := number[0] == '-';
    var head := PushHead(number);
    if head.None? {
      WrittenHeadFails(number, len / 18);
      return None;
    }
    var storage := head.value;
    var groups := len / 18;
    assert 18 * groups <= len;
    while counter < groups
      invariant counter <= groups
      invariant WrittenStorage(number, counter) == Some(storage)
    {
      storage := PushUnit(number, start, counter, storage);
      counter := counter + 1;
    }
    r := Some(BigInt(neg, storage));
  }

  /** The first push of `parse`, `None` when `stoull` throws. */
  method PushHead(number: string) returns (storage: Option<seq<nat>>)
    requires IsNumber(number)
    ensures storage == WrittenHead(number)
  {
    var start := |number| % 18;
    var sign := if number[0] == '-' then 1 else 0;
    var count := (start - sign) % Word;
    assert count == HeadCount(number);
    storage := Some([]);
    if count != 0 {
      HeadIsNumber(number);
      var first := Stoull(Substr(number, sign, count));
      if first.None? {
        return None;
      }
      storage := Some([first.value]);
    }
  }

  /** The body of the loop of `parse`: `stoull` of the 18 characters at
      `start + counter * 18` pushed onto the storage. */
  method PushUnit(number: string, start: nat, counter: nat, storage: seq<nat>) returns (storage': seq<nat>)
    requires IsNumber(number) && start == |number| % 18 && 18 * counter + 18 <= |number|
    requires WrittenStorage(number, counter) == Some(storage)
    ensures WrittenStorage(number, counter + 1) == Some(storage')
  {
    var index := start + counter * 18;
    var group := Substr(number, index, 18);
    assert group == WrittenGroup(number, counter);
    StoullInRange(group);
    var unit := Stoull(group);
    WrittenStep(number, counter, counter + 1, storage, unit.value);
    storage' := storage + [unit.value];
  }

  // ---------------------------------------------------------------------
  // parse as intended

  /** The values of `count` consecutive groups of 18 digits from `k`. */
  function Groups(d: string, k: nat, count: nat): (r: seq<nat>)
    requires AllDigits(d) && k + 18 * count <= |d|
    ensures |r| == count
  {
    seq(count, i requires 0 <= i < count => Decimal(d[k + 18 * i..k + 18 * i + 18]))
  }

  /** `parse` as evidently intended: the digits, without the sign, cut into
      groups of 18 from the right; the leftover digits in front, if any,
      make the first limb. */
  function Parse(s: string): BigInt
    requires IsNumber(s)
  {
    BigInt(s[0] == '-', GroupLimbs(Magnitude(s)))
  }

  /** The limbs of a digit string cut into groups of 18 from the right. */
  function GroupLimbs(d: string): seq<nat>
    requires AllDigits(d)
  {
    var k := |d| % 18;
    (if k != 0 then [Decimal(d[..k])] else []) + Groups(d, k, |d| / 18)
  }

  /** The limbs of the first `n` groups evaluate to the digits read so far. */
  lemma {:induction false} GroupsValue(d: string, k: nat, head: seq<nat>, n: nat)
    requires AllDigits(d) && k < 18 && k + 18 * n <= |d|
    requires Val(head) == Decimal(d[..k]) && Bounded(head)
    ensures Val(head + Groups(d, k, n)) == Decimal(d[..k + 18 * n])
    ensures Bounded(head + Groups(d, k, n))
  {
    if n == 0 {
      assert head + Groups(d, k, 0) == head;
    } else {
      GroupsValue(d, k, head, n - 1);
      GroupsValueStep(d, k, head, n - 1, n, k + 18 * (n - 1), k + 18 * n);
    }
  }

  /** One more group read: one more limb in base 10^18. */
  lemma GroupsValueStep(d: string, k: nat, head: seq<nat>, n: nat, n1: nat, e: nat, f: nat)
    requires AllDigits(d) && n1 == n + 1 && e == k + 18 * n && f == e + 18 && f <= |d|
    requires Val(head + Groups(d, k, n)) == Decimal(d[..e]) && Bounded(head + Groups(d, k, n))
    ensures Val(head + Groups(d, k, n1)) == Decimal(d[..f]) && Bounded(head + Groups(d, k, n1))
  {
    var p := head + Groups(d, k, n);
    var v := Decimal(d[e..f]);
    GroupsPush(d, k, n, n1, e);
    LimbsAssoc(head, Groups(d, k, n), [v]);
    ValPush(p, v);
    DecimalGroup(d, e, f);
    BoundedPush(p, v);
  }

  /** The leftover digits in front make at most one limb. */
  lemma HeadValue(d: string, k: nat, head: seq<nat>)
    requires AllDigits(d) && k < 18 && k <= |d|
    requires head == if k != 0 then [Decimal(d[..k])] else []
    ensures Val(head) == Decimal(d[..k]) && Bounded(head)
  {
    if k != 0 {
      ValSingle(Decimal(d[..k]));
      DecimalUpper(d[..k]);
      PowerMono(10, k, 18);
      BaseIsPowerOfTen();
    } else {
      assert d[..0] == "";
    }
  }

  /** Reading one more group of 18 digits is a step of base 10^18. */
  lemma DecimalGroup(d: string, e: nat, f: nat)
    requires AllDigits(d) && f == e + 18 && f <= |d|
    ensures Decimal(d[e..f]) < Base
    ensures Decimal(d[..f]) == Decimal(d[..e]) * Base + Decimal(d[e..f])
  {
    BaseIsPowerOfTen();
    DecimalUpper(d[e..f]);
    assert d[..f] == d[..e] + d[e..f];
    DecimalAppend(d[..e], d[e..f]);
  }

  /** `parse` gives limbs below 10^18 evaluating to the digits, the sign
      from a leading minus, and canonical limbs unless the digits have a
      leading zero; it does not normalise, so "-0" keeps its minus sign. */
  lemma ParseValue(s: string)
    requires IsNumber(s)
    ensures var r := Parse(s);
      |r.limbs| >= 1 && Bounded(r.limbs) && Val(r.limbs) == Decimal(Magnitude(s))
      && (r.neg <==> s[0] == '-')
      && (Magnitude(s)[0] != '0' || |Magnitude(s)| == 1 ==> Canonical(r.limbs))
  {
    var d := Magnitude(s);
    var k := |d| % 18;
    var head := if k != 0 then [Decimal(d[..k])] else [];
    HeadValue(d, k, head);
    GroupsValue(d, k, head, |d| / 18);
    assert d[..k + 18 * (|d| / 18)] == d;
    if d[0] != '0' {
      GroupLimbsLead(d);
    }
  }

  /** Digits without a leading zero give a first limb that is not 0. */
  lemma GroupLimbsLead(d: string)
    requires AllDigits(d) && |d| >= 1 && d[0] != '0'
    ensures |GroupLimbs(d)| >= 1 && GroupLimbs(d)[0] != 0
  {
    var k := |d| % 18;
    if k != 0 {
      DecimalLower(d[..k]);
    } else {
      DecimalLower(d[..18]);
      assert GroupLimbs(d)[0] == Decimal(d[0..18]);
    }
  }

  /** `parse` as written and as intended agree except on negative text whose
      length is a multiple of 18. */
  lemma ParseAgrees(s: string)
    requires IsNumber(s) && !(s[0] == '-' && |s| % 18 == 0)
    ensures ParseAsWritten(s) == Some(Parse(s))
  {
    var d := Magnitude(s);
    var k, q := |d| % 18, |d| / 18;
    var head := if k != 0 then [Decimal(d[..k])] else [];
    WrittenHeadAgrees(s, d, k, q, head);
    WrittenStorageAgrees(s, d, k, head, q);
  }

  /** Away from the wrap, `start` is the sign and the leftover digits in
      front, there are as many groups in the text as in the digits, and the
      first push of `parse` reads the leftover digits. */
  lemma WrittenHeadAgrees(s: string, d: string, k: nat, q: nat, head: seq<nat>)
    requires IsNumber(s) && !(s[0] == '-' && |s| % 18 == 0)
    requires d == Magnitude(s) && k == |d| % 18 && q == |d| / 18
    requires head == if k != 0 then [Decimal(d[..k])] else []
    ensures |d| == k + 18 * q && |s| / 18 == q && |s| % 18 == |s| - |d| + k
    ensures WrittenHead(s) == Some(head)
  {
    var sign := if s[0] == '-' then 1 else 0;
    assert k == |s| % 18 - sign;
    assert HeadCount(s) == k;
    if k != 0 {
      HeadIsNumber(s);
      var t := Substr(s, sign, k);
      assert t == d[..k];
      StoullInRange(t);
    }
  }

  /** Away from the wrap, each turn of the loop of `parse` reads the next
      group of the digits. */
  lemma {:induction false} WrittenStorageAgrees(s: string, d: string, k: nat, head: seq<nat>, n: nat)
    requires IsNumber(s) && d == Magnitude(s) && |s| % 18 == |s| - |d| + k
    requires k + 18 * n <= |d| && WrittenHead(s) == Some(head)
    ensures WrittenStorage(s, n) == Some(head + Groups(d, k, n))
  {
    if n == 0 {
      assert head + Groups(d, k, 0) == head;
    } else {
      WrittenStorageAgrees(s, d, k, head, n - 1);
      var g := WrittenGroup(s, n - 1);
      var e := k + 18 * (n - 1);
      GroupOfDigits(s, d, k, n - 1, e);
      StoullInRange(g);
      WrittenStep(s, n - 1, n, head + Groups(d, k, n - 1), Decimal(g));
      GroupsPush(d, k, n - 1, n, e);
      LimbsAssoc(head, Groups(d, k, n - 1), [Decimal(g)]);
    }
  }

  /** A turn of the loop of `parse` pushes the value of its group. */
  lemma WrittenStep(s: string, n: nat, n1: nat, p: seq<nat>, v: nat)
    requires IsNumber(s) && n1 == n + 1 && 18 * n1 <= |s|
    requires WrittenStorage(s, n) == Some(p) && Stoull(WrittenGroup(s, n)) == Some(v)
    ensures WrittenStorage(s, n1) == Some(p + [v])
  {
    WrittenStorageUnfold(s, n);
    PushGroupSome(s, n, p, v);
  }

  lemma WrittenStorageUnfold(s: string, n: nat)
    requires IsNumber(s) && 18 * n + 18 <= |s|
    ensures WrittenStorage(s, n + 1) == PushGroup(s, n, WrittenStorage(s, n))
  {
  }

  lemma PushGroupSome(s: string, n: nat, p: seq<nat>, v: nat)
    requires IsNumber(s) && 18 * n + 18 <= |s| && Stoull(WrittenGroup(s, n)) == Some(v)
    ensures PushGroup(s, n, Some(p)) == Some(p + [v])
  {
  }

  /** Away from the wrap, the group the loop reads is a group of the digits. */
  lemma GroupOfDigits(s: string, d: string, k: nat, n: nat, e: nat)
    requires IsNumber(s) && d == Magnitude(s) && |s| % 18 == |s| - |d| + k
    requires e == k + 18 * n && e + 18 <= |d|
    ensures 18 * n + 18 <= |s| && WrittenGroup(s, n) == d[e..e + 18]
  {
    var sign := |s| - |d|;
    assert WrittenGroup(s, n) == s[sign + e..sign + e + 18];
  }

  /** One more group. */
  lemma GroupsPush(d: string, k: nat, n: nat, n1: nat, e: nat)
    requires AllDigits(d) && n1 == n + 1 && e == k + 18 * n && k + 18 * n1 <= |d|
    ensures Groups(d, k, n1) == Groups(d, k, n) + [Decimal(d[e..e + 18])]
  {
  }

  lemma LimbsAssoc(a: seq<nat>, b: seq<nat>, c: seq<nat>)
    ensures a + (b + c) == (a + b) + c
  {
  }

  /** A negative text of 18 characters, such as "-12345678901234567", has
      `start` 0, so `start - is_negative` wraps: `parse` reads all 17 digits
      as a first limb, then the whole text, sign included, as a group, which
      `stoull` negates modulo 2^64. The intended result is the one limb. */
  lemma NegativeGroupAsWritten(s: string)
    requires IsNumber(s) && s[0] == '-' && |s| == 18
    ensures var v := Decimal(s[1..]);
      ParseAsWritten(s) == Some(BigInt(true, [v, (Word - v) % Word]))
      && Parse(s) == BigInt(true, [v])
      && ParseAsWritten(s) != Some(Parse(s))
  {
    var d := s[1..];
    var v := Decimal(d);
    assert HeadCount(s) == Word - 1;
    assert Substr(s, 1, Word - 1) == d;
    SliceIsNumber(s, 1, 18);
    StoullInRange(d);
    assert WrittenHead(s) == Some([v]);
    assert WrittenGroup(s, 0) == s;
    StoullInRange(s);
    assert Stoull(s) == Some((Word - v) % Word);
    WrittenStep(s, 0, 1, [v], (Word - v) % Word);
    assert |s| / 18 == 1;
    assert d[..17] == d && |d| % 18 == 17 && |d| / 18 == 0;
    assert GroupLimbs(d) == [v] + Groups(d, 17, 0);
    assert Magnitude(s) == d;
    assert [v] + [(Word - v) % Word] == [v, (Word - v) % Word];
  }

  // ---------------------------------------------------------------------
  // The string constructor

  /** `BigInteger(const std::string&)`: `check_number` throws
      `NumberFormatException` for text that is not `-?\d+`, otherwise
      `parse` fills the number. */
  function FromString(s: string): Result<BigInt>
  {
    if IsNumber(s) then Success(Parse(s)) else Failure(NumberFormat(s))
  }

  /** The constructor fails exactly on text `check_number` rejects, and
      otherwise holds the signed value of the digits. */
  lemma FromStringCorrect(s: string)
    ensures FromString(s).Failure? <==> !IsNumber(s)
    ensures FromString(s).Failure? ==> FromString(s).error == NumberFormat(s)
    ensures FromString(s).Success? ==>
      var x := FromString(s).value;
      Bounded(x.limbs) && |x.limbs| >= 1
      && IntVal(x) == if s[0] == '-' then -(Decimal(Magnitude(s)) as int) else Decimal(Magnitude(s))
  {
    if IsNumber(s) {
      ParseValue(s);
    }
  }

  // ---------------------------------------------------------------------
  // operator<<

  /** `os << unit` for a `uint64_t`: the decimal digits, no leading zero. */
  function NatText(n: nat): (r: string)
    ensures |r| >= 1 && AllDigits(r) && Decimal(r) == n
    ensures r[0] != '0' || |r| == 1
  {
    if n < 10 then [DigitChar(n)]
    else
      var p := NatText(n / 10);
      assert (p + [DigitChar(n % 10)])[..|p|] == p;
      p + [DigitChar(n % 10)]
  }

  /** A limb below 10^18 prints in at most 18 digits. */
  lemma NatTextLength(n: nat)
    requires n < Base
    ensures |NatText(n)| <= 18
  {
    var t := NatText(n);
    if |t| > 18 {
      DecimalLower(t);
      PowerMono(10, 18, |t| - 1);
      BaseIsPowerOfTen();
    }
  }

  /** `std::setw(width)` with fill '0' on the next output. */
  function Pad(t: string, width: nat): (r: string)
  {
    if |t| >= width then t else ZeroFill(width - |t|) + t
  }

  /** A limb below 10^18 printed with `setw(18)` and fill '0' is 18 digits
      that read back as the limb. */
  lemma PaddedLimb(n: nat)
    requires n < Base
    ensures |Pad(NatText(n), 18)| == 18 && AllDigits(Pad(NatText(n), 18))
    ensures Decimal(Pad(NatText(n), 18)) == n
  {
    NatTextLength(n);
    DecimalLeadingZeros(18 - |NatText(n)|, NatText(n));
  }

  /** The limbs after the first, each in 18 digits. */
  function PaddedText(limbs: seq<nat>): string
  {
    if |limbs| == 0 then ""
    else PaddedText(limbs[..|limbs| - 1]) + Pad(NatText(limbs[|limbs| - 1]), 18)
  }

  /** What the loop of `operator<<` writes for the limbs: the first limb
      while the width is still 0, each later one after `setw(18)`. */
  function Digits(limbs: seq<nat>): string
  {
    if |limbs| == 0 then "" else NatText(limbs[0]) + PaddedText(limbs[1..])
  }

  /** One more turn of the loop of `operator<<`. */
  lemma DigitsPush(limbs: seq<nat>, i: nat)
    requires i < |limbs|
    ensures Digits(limbs[..i + 1]) == Digits(limbs[..i]) + Pad(NatText(limbs[i]), if i == 0 then 0 else 18)
  {
    PrefixSnoc(limbs, i);
    if i == 0 {
      DigitsFirst(limbs[0]);
    } else {
      DigitsSnoc(limbs[..i], limbs[i]);
    }
  }

  lemma PrefixSnoc(limbs: seq<nat>, i: nat)
    requires i < |limbs|
    ensures limbs[..i + 1] == limbs[..i] + [limbs[i]]
    ensures i == 0 ==> limbs[..i] == []
  {
  }

  /** The first limb is written with the width still 0. */
  lemma DigitsFirst(x: nat)
    ensures Digits([x]) == Digits([]) + Pad(NatText(x), 0)
  {
    assert [x][1..] == [];
  }

  /** A limb after the first is written padded to 18 digits. */
  lemma DigitsSnoc(p: seq<nat>, x: nat)
    requires |p| >= 1
    ensures Digits(p + [x]) == Digits(p) + Pad(NatText(x), 18)
  {
    var q := p[1..];
    assert (p + [x])[1..] == q + [x];
    PaddedTextSnoc(q, x);
    StringAssoc(NatText(p[0]), PaddedText(q), Pad(NatText(x), 18));
  }

  lemma PaddedTextSnoc(q: seq<nat>, x: nat)
    ensures PaddedText(q + [x]) == PaddedText(q) + Pad(NatText(x), 18)
  {
    assert (q + [x])[..|q|] == q;
  }

  /** What `operator<<` sends to `std::cout`: the minus sign. */
  function ConsoleText(x: BigInt): string
  {
    if x.neg then "-" else ""
  }

  /** `operator<<` as written: the minus sign goes to `std::cout` (`cout`),
      each limb to the stream `os` with the width 18 set after it, and the
      fill and width put back at the end. The stream's width is taken to be
      0 on entry. */
  method Write(x: BigInt, os: string, cout: string) returns (os': string, cout': string)
    ensures cout' == cout + ConsoleText(x)
    ensures os' == os + Digits(x.limbs)
  {
    cout' := cout;
    if x.neg {
      cout' := cout' + "-";
    }
    os' := WriteLimbs(x.limbs, os);
  }

  /** The loop of `operator<<` over the limbs. */
  method WriteLimbs(limbs: seq<nat>, os: string) returns (os': string)
    ensures os' == os + Digits(limbs)
  {
    os' := os;
    var fill, width := ' ', 0;
    for i := 0 to |limbs|
      invariant os' == os + Digits(limbs[..i])
      invariant width == if i == 0 then 0 else 18
    {
      var piece := Pad(NatText(limbs[i]), width);
      DigitsPush(limbs, i);
      StringAssoc(os, Digits(limbs[..i]), piece);
      os' := os' + piece;
      fill, width := '0', 18;
    }
    assert limbs[..|limbs|] == limbs;
    fill, width := ' ', 0;
  }

  lemma StringAssoc(a: string, b: string, c: string)
    ensures (a + b) + c == a + (b + c)
  {
  }

  /** `operator<<` as evidently intended: the sign in the same stream as
      the digits. */
  function Render(x: BigInt): string
  {
    ConsoleText(x) + Digits(x.limbs)
  }

  /** Groups of 18 digits that start after a prefix. */
  lemma GroupsAfter(a: string, b: string, n: nat)
    requires AllDigits(a) && AllDigits(b) && 18 * n <= |b|
    ensures AllDigits(a + b) && Groups(a + b, |a|, n) == Groups(b, 0, n)
  {
    forall i | 0 <= i < n
      ensures (a + b)[|a| + 18 * i..|a| + 18 * i + 18] == b[18 * i..18 * i + 18]
    {
    }
  }

  /** The padded limbs read back, group by group, as the limbs. */
  lemma {:induction false} PaddedTextGroups(limbs: seq<nat>)
    requires Bounded(limbs)
    ensures |PaddedText(limbs)| == 18 * |limbs| && AllDigits(PaddedText(limbs))
    ensures Groups(PaddedText(limbs), 0, |limbs|) == limbs
  {
    var n := |limbs|;
    if n > 0 {
      var p, x := limbs[..n - 1], limbs[n - 1];
      SplitLast(limbs, p, x);
      PaddedTextGroups(p);
      PaddedLimb(x);
      PaddedStep(PaddedText(p), Pad(NatText(x), 18), p, x, n - 1, n, limbs);
    }
  }

  /** The last limb split off a bounded sequence of limbs. */
  lemma SplitLast(limbs: seq<nat>, p: seq<nat>, x: nat)
    requires Bounded(limbs) && |limbs| >= 1
    requires p == limbs[..|limbs| - 1] && x == limbs[|limbs| - 1]
    ensures Bounded(p) && x < Base && limbs == p + [x]
    ensures PaddedText(limbs) == PaddedText(p) + Pad(NatText(x), 18)
  {
  }

  /** One more padded limb read back as one more group. */
  lemma PaddedStep(u: string, t: string, p: seq<nat>, x: nat, m: nat, m1: nat, limbs: seq<nat>)
    requires AllDigits(u) && |u| == 18 * m && Groups(u, 0, m) == p
    requires AllDigits(t) && |t| == 18 && Decimal(t) == x && m1 == m + 1 && limbs == p + [x]
    ensures |u + t| == 18 * m1 && AllDigits(u + t) && Groups(u + t, 0, m1) == limbs
  {
    GroupsAppend(u, t, m, m1);
  }

  /** One more group of 18 digits after `m` whole groups. */
  lemma GroupsAppend(u: string, t: string, m: nat, m1: nat)
    requires AllDigits(u) && AllDigits(t) && |u| == 18 * m && |t| == 18 && m1 == m + 1
    ensures AllDigits(u + t) && Groups(u + t, 0, m1) == Groups(u, 0, m) + [Decimal(t)]
  {
    var d := u + t;
    assert forall i :: 0 <= i < |d| ==> IsDigit(d[i]);
    forall i | 0 <= i < m
      ensures d[18 * i..18 * i + 18] == u[18 * i..18 * i + 18]
    {
    }
    assert d[18 * m..18 * m + 18] == t;
  }

  /** The printed limbs read back as the limbs. */
  lemma DigitsGroups(ls: seq<nat>)
    requires |ls| >= 1 && Bounded(ls)
    ensures AllDigits(Digits(ls)) && |Digits(ls)| >= 1 && GroupLimbs(Digits(ls)) == ls
  {
    var m := |ls|;
    var A := NatText(ls[0]);
    var B := PaddedText(ls[1..]);
    NatTextLength(ls[0]);
    PaddedTextGroups(ls[1..]);
    assert Digits(ls) == A + B;
    GroupsAfter(A, B, m - 1);
    if |A| < 18 {
      ShortHeadGroups(A, B, m - 1);
    } else {
      FullHeadGroups(A, B, m - 1);
    }
    assert ls == [ls[0]] + ls[1..];
  }

  /** A first limb of fewer than 18 digits is read as the leftover in front. */
  lemma ShortHeadGroups(A: string, B: string, n: nat)
    requires AllDigits(A) && AllDigits(B) && 1 <= |A| < 18 && |B| == 18 * n
    requires AllDigits(A + B) && Groups(A + B, |A|, n) == Groups(B, 0, n)
    ensures GroupLimbs(A + B) == [Decimal(A)] + Groups(B, 0, n)
  {
    var d := A + B;
    assert |d| % 18 == |A| && |d| / 18 == n;
    assert d[..|A|] == A;
  }

  /** A first limb of 18 digits is read as the first group. */
  lemma FullHeadGroups(A: string, B: string, n: nat)
    requires AllDigits(A) && AllDigits(B) && |A| == 18 && |B| == 18 * n
    requires AllDigits(A + B) && Groups(A + B, |A|, n) == Groups(B, 0, n)
    ensures GroupLimbs(A + B) == [Decimal(A)] + Groups(B, 0, n)
  {
    var d := A + B;
    WholeGroups(|d|, n + 1);
    assert GroupLimbs(d) == Groups(d, 0, n + 1);
    GroupsFront(d, 0, n, n + 1, 18);
    assert d[0..18] == A;
  }

  /** A length of `m` whole groups. */
  lemma WholeGroups(len: nat, m: nat)
    requires len == 18 * m
    ensures len % 18 == 0 && len / 18 == m
  {
  }

  /** The first group split off. */
  lemma GroupsFront(d: string, k: nat, n: nat, n1: nat, k1: nat)
    requires AllDigits(d) && n1 == n + 1 && k1 == k + 18 && k + 18 * n1 <= |d|
    ensures Groups(d, k, n1) == [Decimal(d[k..k1])] + Groups(d, k1, n)
  {
    forall i | 0 <= i < n1
      ensures Groups(d, k, n1)[i] == ([Decimal(d[k..k1])] + Groups(d, k1, n))[i]
    {
      if i > 0 {
        assert k + 18 * i == k1 + 18 * (i - 1);
      }
    }
  }

  /** Printing and parsing back: the text of a normal number is accepted by
      `check_number` and `parse` rebuilds the number from it. */
  lemma RoundTrip(x: BigInt)
    requires Normal(x)
    ensures IsNumber(Render(x)) && Parse(Render(x)) == x
  {
    DigitsGroups(x.limbs);
    var d := Digits(x.limbs);
    var s := Render(x);
    if x.neg {
      assert s[1..] == d;
    } else {
      assert s == d;
    }
  }

  /** Because the sign goes to `std::cout`, what the stream receives reads
      back as the magnitude: for a negative number the sign is lost. */
  lemma SignLeavesStream(x: BigInt)
    requires Normal(x)
    ensures IsNumber(Digits(x.limbs)) && Parse(Digits(x.limbs)) == Abs(x)
    ensures x.neg ==> Parse(Digits(x.limbs)) != x && Parse(Render(x)) == x
  {
    RoundTrip(Abs(x));
    RoundTrip(x);
    assert Render(Abs(x)) == Digits(x.limbs);
  }
}
