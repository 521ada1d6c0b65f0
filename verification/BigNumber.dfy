/**
 The five-digit signed numbers of CFBigNumber.c, in base 10^9.
 */
module BigNumber {
  import opened Machine

  const LIMIT: nat := 1_000_000_000

  // ----- values -----

  /** The weight of digit i. */
  function Weight(i: nat): (w: nat)
    ensures w >= 1
  {
    if i == 0 then 1 else LIMIT * Weight(i - 1)
  }

  /** The value of the first n digits, the least significant first. */
  function Prefix(s: seq<nat>, n: nat): (v: nat)
    requires n <= |s|
  {
    if n == 0 then 0 else Prefix(s, n - 1) + s[n - 1] * Weight(n - 1)
  }

  predicate Canonical(s: seq<nat>) {
    |s| == 5 && forall i :: 0 <= i < 5 ==> s[i] < LIMIT
  }

  function Magnitude(s: seq<nat>): (v: nat)
    requires |s| == 5
  {
    Prefix(s, 5)
  }

  function Signed(sign: int, s: seq<nat>): (v: int)
    requires |s| == 5
  {
    if sign < 0 then 0 - Magnitude(s) else Magnitude(s)
  }

  lemma Weights()
    ensures Weight(0) == 1 && Weight(1) == LIMIT && Weight(2) == 1_000_000_000_000_000_000
    ensures Weight(3) == 1_000_000_000_000_000_000_000_000_000
    ensures Weight(4) == 1_000_000_000_000_000_000_000_000_000_000_000_000
    ensures Weight(5) == 1_000_000_000_000_000_000_000_000_000_000_000_000_000_000_000
  {
    assert Weight(1) == LIMIT * Weight(0);
    assert Weight(2) == LIMIT * Weight(1);
    assert Weight(3) == LIMIT * Weight(2);
    assert Weight(4) == LIMIT * Weight(3);
    assert Weight(5) == LIMIT * Weight(4);
  }

  lemma {:induction false} PrefixSame(s: seq<nat>, t: seq<nat>, n: nat)
    requires n <= |s| && n <= |t| && s[..n] == t[..n]
    ensures Prefix(s, n) == Prefix(t, n)
  {
    if n > 0 {
      assert s[n - 1] == s[..n][n - 1] == t[..n][n - 1] == t[n - 1];
      assert s[..n - 1] == s[..n][..n - 1] == t[..n][..n - 1] == t[..n - 1];
      PrefixSame(s, t, n - 1);
    }
  }

  /** Digits below the base never reach the next weight. */
  lemma {:induction false} PrefixBound(s: seq<nat>, n: nat)
    requires n <= |s| && forall i :: 0 <= i < n ==> s[i] < LIMIT
    ensures Prefix(s, n) < Weight(n)
  {
    if n > 0 {
      PrefixBound(s, n - 1);
      Scale(s[n - 1], LIMIT - 1, Weight(n - 1));
      assert Weight(n) == LIMIT * Weight(n - 1);
    }
  }

  lemma Scale(x: nat, y: nat, w: nat)
    requires x <= y
    ensures x * w <= y * w
  {
    assert y * w == x * w + (y - x) * w;
  }

  /** The most significant difference decides, as long as all digits are below the base. */
  lemma {:induction false} FirstDifference(s: seq<nat>, t: seq<nat>, i: nat, n: nat)
    requires i < n <= |s| && |t| == |s| && s[i] < t[i]
    requires forall j :: 0 <= j < n ==> s[j] < LIMIT
    requires forall j :: i < j < n ==> s[j] == t[j]
    ensures Prefix(s, n) < Prefix(t, n)
    decreases n
  {
    if i == n - 1 {
      PrefixBound(s, i);
      Scale(s[i] + 1, t[i], Weight(i));
      assert (s[i] + 1) * Weight(i) == s[i] * Weight(i) + Weight(i);
    } else {
      FirstDifference(s, t, i, n - 1);
    }
  }

  /** Numbers with all digits below the base are equal only digit by digit. */
  lemma {:induction false} DigitsUnique(s: seq<nat>, t: seq<nat>, n: nat)
    requires n <= |s| && |t| == |s| && Prefix(s, n) == Prefix(t, n)
    requires forall j :: 0 <= j < n ==> s[j] < LIMIT && t[j] < LIMIT
    ensures s[..n] == t[..n]
  {
    if n > 0 {
      if s[n - 1] < t[n - 1] {
        FirstDifference(s, t, n - 1, n);
      } else if t[n - 1] < s[n - 1] {
        FirstDifference(t, s, n - 1, n);
      } else {
        DigitsUnique(s, t, n - 1);
        assert s[..n] == s[..n - 1] + [s[n - 1]] && t[..n] == t[..n - 1] + [t[n - 1]];
      }
    }
  }

  lemma {:induction false} ZeroDigits(s: seq<nat>, n: nat)
    requires n <= |s|
    ensures Prefix(s, n) == 0 <==> forall i :: 0 <= i < n ==> s[i] == 0
  {
    if n > 0 {
      ZeroDigits(s, n - 1);
      Scale(1, if s[n - 1] > 0 then s[n - 1] else 1, Weight(n - 1));
    }
  }

  // ----- carry and borrow -----

  /** One step of addition, at any weight. */
  lemma AddStep(a: nat, b: nat, carry: nat, digit: nat, carry': nat, w: nat)
    requires carry <= 1 && carry' <= 1 && a + b + carry == digit + carry' * LIMIT
    ensures digit * w + carry' * (LIMIT * w) == a * w + b * w + carry * w
  {
    assert (a + b + carry) * w == a * w + b * w + carry * w;
    assert (digit + carry' * LIMIT) * w == digit * w + carry' * LIMIT * w;
    assert carry' * LIMIT * w == carry' * (LIMIT * w);
  }

  /** What the sum of two prefixes and the carry amount to. */
  ghost predicate Summed(a: seq<nat>, b: seq<nat>, r: seq<nat>, carry: nat, n: nat) {
    |a| == |b| == |r| == 5 && n <= 5 && carry <= 1 && Prefix(a, n) + Prefix(b, n) == Prefix(r, n) + carry * Weight(n)
  }

  lemma SumStep(a: seq<nat>, b: seq<nat>, r: seq<nat>, carry: nat, n: nat, digit: nat, carry': nat)
    requires Summed(a, b, r, carry, n) && n < 5 && carry' <= 1 && a[n] + b[n] + carry == digit + carry' * LIMIT
    ensures Summed(a, b, r[n := digit], carry', n + 1)
  {
    AddStep(a[n], b[n], carry, digit, carry', Weight(n));
    PrefixSame(r, r[n := digit], n);
  }

  /** Subtraction is the same with the result on the other side. */
  lemma DifferenceStep(big: seq<nat>, small: seq<nat>, r: seq<nat>, carry: nat, n: nat, digit: nat, carry': nat)
    requires |big| == 5 && Summed(small, r, big, carry, n) && n < 5 && carry' <= 1
    requires small[n] + digit + carry == big[n] + carry' * LIMIT
    ensures Summed(small, r[n := digit], big, carry', n + 1)
  {
    AddStep(small[n], digit, carry, big[n], carry', Weight(n));
    PrefixSame(r, r[n := digit], n);
  }

  // ----- numbers in place -----

  class BigNum {
    var sign: int
    var digits: seq<nat>

    ghost predicate Valid()
      reads this
    {
      (sign == 0 || sign == -1) && Canonical(digits)
    }

    /** The integer that the number stands for. */
    ghost function Value(): (v: int)
      requires |digits| == 5
      reads this
    {
      Signed(sign, digits)
    }

    constructor ()
      ensures Valid() && Value() == 0 && sign == 0
    {
      sign, digits := 0, [0, 0, 0, 0, 0];
      new;
      ZeroDigits(digits, 5);
    }
  }

  datatype Comparison = LessThan | EqualTo | GreaterThan

  function Order(x: int, y: int): Comparison {
    if x < y then LessThan else if x > y then GreaterThan else EqualTo
  }

  /** The loop from the most significant digit down, as _CFBigNumCompare and _CFBigNumAbsoluteLessThan run it. */
  method CompareDigits(a: seq<nat>, b: seq<nat>) returns (r: Comparison)
    requires Canonical(a) && Canonical(b)
    ensures r == Order(Magnitude(a), Magnitude(b))
    ensures (r.LessThan? <==> Magnitude(a) < Magnitude(b)) && (r.GreaterThan? <==> Magnitude(a) > Magnitude(b))
  {
    hide Prefix;
    var i := 5;
    while i > 0
      invariant 0 <= i <= 5 && forall j :: i <= j < 5 ==> a[j] == b[j]
    {
      i := i - 1;
      if a[i] < b[i] {
        FirstDifference(a, b, i, 5);
        return LessThan;
      }
      if a[i] > b[i] {
        FirstDifference(b, a, i, 5);
        return GreaterThan;
      }
    }
    assert a == b;
    return EqualTo;
  }

  /** _CFBigNumCompare: the order of the integers, except between the two zeros. */
  method Compare(a: BigNum, b: BigNum) returns (r: Comparison)
    requires a.Valid() && b.Valid()
    ensures r == Order(a.Value(), b.Value()) <==> !(a.Value() == 0 == b.Value() && a.sign != b.sign)
    ensures a.Value() == 0 == b.Value() && a.sign != b.sign ==> r == if a.sign < 0 then LessThan else GreaterThan
    ensures a.Value() < b.Value() ==> r == LessThan
    ensures a.Value() > b.Value() ==> r == GreaterThan
  {
    hide Prefix;
    if a.sign == b.sign {
      var d := CompareDigits(a.digits, b.digits);
      if a.sign < 0 && d != EqualTo {
        return if d.LessThan? then GreaterThan else LessThan;
      }
      return d;
    }
    return if a.sign < b.sign then LessThan else GreaterThan;
  }

  /** The sign of a negated number: zero keeps the one it has. */
  function NegatedSign(sign: int, value: int): int {
    if value == 0 then sign else -1 - sign
  }

  /** _CFBigNumNeg: zero keeps its sign. r and a may be the same number. */
  method Neg(r: BigNum, a: BigNum)
    requires a.Valid()
    modifies r
    ensures r.Valid() && r.Value() == -old(a.Value()) && r.digits == old(a.digits)
    ensures r.sign == NegatedSign(old(a.sign), old(a.Value()))
  {
    ZeroDigits(a.digits, 5);
    hide Prefix;
    r.sign, r.digits := a.sign, a.digits;
    var isZero, i := true, 0;
    while i < 5 && isZero
      invariant 0 <= i <= 5
      invariant isZero ==> forall j :: 0 <= j < i ==> r.digits[j] == 0
      invariant !isZero ==> exists j :: 0 <= j < 5 && r.digits[j] != 0
    {
      if r.digits[i] != 0 {
        isZero := false;
      }
      i := i + 1;
    }
    if !isZero {
      r.sign := r.sign * r.sign - 1;
    }
  }

  /** The same-sign loop of _CFBigNumAdd; a sum of exactly the base is not carried. */
  method AddDigits(a: seq<nat>, b: seq<nat>) returns (r: seq<nat>, carry: nat)
    requires Canonical(a) && Canonical(b)
    ensures |r| == 5 && carry <= 1 && Magnitude(a) + Magnitude(b) == Magnitude(r) + carry * Weight(5)
    ensures forall i :: 0 <= i < 5 ==> r[i] <= LIMIT && (r[i] == LIMIT <==> FillsDigit(a, b, i))
    ensures carry == 1 ==> Magnitude(r) > 0
  {
    hide Prefix, Weight;
    r, carry := [0, 0, 0, 0, 0], 0;
    SumStart(a, b, r);
    for i := 0 to 5
      invariant Summed(a, b, r, carry, i) && carry == CarryInto(a, b, i)
      invariant forall j :: 0 <= j < i ==> r[j] <= LIMIT && (r[j] == LIMIT <==> FillsDigit(a, b, j))
      invariant carry == 1 ==> i > 0 && r[i - 1] > 0
    {
      var result := (a[i] + b[i] + carry) % TWO32;
      var carry' := if result > LIMIT then 1 else 0;
      var digit := result - carry' * LIMIT;
      SumStep(a, b, r, carry, i, digit, carry');
      r, carry := r[i := digit], carry';
    }
    ZeroDigits(r, 5);
  }

  /** The carry that reaches digit i of a sum. */
  function CarryInto(a: seq<nat>, b: seq<nat>, i: nat): nat
    requires i <= 5 && |a| == |b| == 5
  {
    if i == 0 then 0 else if a[i - 1] + b[i - 1] + CarryInto(a, b, i - 1) > LIMIT then 1 else 0
  }

  /** A digit of the sum comes out as the base itself. */
  predicate FillsDigit(a: seq<nat>, b: seq<nat>, i: nat)
    requires i < 5 && |a| == |b| == 5
  {
    a[i] + b[i] + CarryInto(a, b, i) == LIMIT
  }

  /** Half the base twice is such a sum: its result is a digit that no parsed number has. */
  lemma FilledDigitExample()
    ensures Canonical([500_000_000, 0, 0, 0, 0]) && FillsDigit([500_000_000, 0, 0, 0, 0], [500_000_000, 0, 0, 0, 0], 0)
  {
  }

  lemma SumStart(a: seq<nat>, b: seq<nat>, r: seq<nat>)
    requires |a| == |b| == |r| == 5
    ensures Summed(a, b, r, 0, 0)
  {
  }

  /** The other loop: the larger minus the smaller magnitude never borrows at the end. */
  method SubtractDigits(big: seq<nat>, small: seq<nat>) returns (r: seq<nat>, carry: nat)
    requires Canonical(big) && Canonical(small) && Magnitude(small) <= Magnitude(big)
    ensures Canonical(r) && carry == 0 && Magnitude(r) == Magnitude(big) - Magnitude(small)
  {
    hide Prefix, Weight;
    r, carry := [0, 0, 0, 0, 0], 0;
    SumStart(small, r, big);
    for i := 0 to 5
      invariant Summed(small, r, big, carry, i)
      invariant Canonical(r)
    {
      var result := big[i] - small[i] - carry;
      var carry' := if result < 0 then 1 else 0;
      var digit: nat := result + carry' * LIMIT;
      DifferenceStep(big, small, r, carry, i, digit, carry');
      r, carry := r[i := digit], carry';
    }
    PrefixBound(r, 5);
    NoBorrow(small, r, big, carry);
  }

  lemma NoBorrow(small: seq<nat>, r: seq<nat>, big: seq<nat>, carry: nat)
    requires Summed(small, r, big, carry, 5) && Magnitude(small) <= Magnitude(big) && Prefix(r, 5) < Weight(5)
    ensures carry == 0
  {
  }

  /** _CFBigNumAdd: exact up to the carry out of the highest digit. r may be a or b. */
  method Add(r: BigNum, a: BigNum, b: BigNum) returns (carry: nat)
    requires a.Valid() && b.Valid()
    modifies r
    ensures (r.sign == 0 || r.sign == -1) && |r.digits| == 5 && carry <= 1
    ensures forall i :: 0 <= i < 5 ==> r.digits[i] <= LIMIT
    ensures old(a.Value()) + old(b.Value()) == r.Value() + (if r.sign < 0 then 0 - carry * Weight(5) else carry * Weight(5))
    ensures old(a.sign) != old(b.sign) ==> r.Valid() && carry == 0
    ensures r.sign < 0 && r.Value() == 0 <==> old(a.sign) < 0 && old(a.Value()) + old(b.Value()) == 0
    ensures r.Valid() <==> old(a.sign) != old(b.sign) || forall i :: 0 <= i < 5 ==> !FillsDigit(old(a.digits), old(b.digits), i)
  {
    hide Prefix, Weight, FillsDigit;
    SumRange(a.digits, b.digits);
    var s, t := a.sign, b.sign;
    if s == t {
      var digits;
      digits, carry := AddDigits(a.digits, b.digits);
      r.digits, r.sign := digits, s;
    } else {
      var c := CompareDigits(a.digits, b.digits);
      var digits;
      if c.LessThan? {
        digits, carry := SubtractDigits(b.digits, a.digits);
        r.digits, r.sign := digits, if t < 0 then -1 else 0;
      } else {
        digits, carry := SubtractDigits(a.digits, b.digits);
        r.digits, r.sign := digits, if s < 0 then -1 else 0;
      }
    }
  }

  lemma SumRange(a: seq<nat>, b: seq<nat>)
    requires Canonical(a) && Canonical(b)
    ensures Magnitude(a) < Weight(5) && Magnitude(b) < Weight(5)
  {
    PrefixBound(a, 5);
    PrefixBound(b, 5);
  }

  /** _CFBigNumSub, through the negation of b. */
  method Sub(r: BigNum, a: BigNum, b: BigNum) returns (carry: nat)
    requires a.Valid() && b.Valid()
    modifies r
    ensures (r.sign == 0 || r.sign == -1) && |r.digits| == 5 && carry <= 1
    ensures forall i :: 0 <= i < 5 ==> r.digits[i] <= LIMIT
    ensures old(a.Value()) - old(b.Value()) == r.Value() + (if r.sign < 0 then 0 - carry * Weight(5) else carry * Weight(5))
    ensures old(a.sign) != NegatedSign(old(b.sign), old(b.Value())) ==> carry == 0
    ensures r.sign < 0 && r.Value() == 0 <==> old(a.sign) < 0 && old(a.Value()) == old(b.Value())
    ensures r.Valid() <==>
      old(a.sign) != NegatedSign(old(b.sign), old(b.Value()))
      || forall i :: 0 <= i < 5 ==> !FillsDigit(old(a.digits), old(b.digits), i)
  {
    hide Prefix, Weight, FillsDigit;
    var nb := new BigNum();
    Neg(nb, b);
    carry := Add(r, a, nb);
  }

  /** 7 - 7 and -7 + 7 are both zero, with different signs, and comparing them reports an order. */
  method TwoZerosExample() returns (plus: BigNum, minus: BigNum, r: Comparison)
    ensures plus.Valid() && minus.Valid() && plus.Value() == 0 == minus.Value()
    ensures plus.sign == 0 && minus.sign == -1 && r == LessThan
  {
    var seven := new BigNum();
    var minusSeven := new BigNum();
    InitWithInt64(seven, 7);
    InitWithInt64(minusSeven, -7);
    hide Prefix, Weight, FillsDigit;
    plus := new BigNum();
    minus := new BigNum();
    var _ := Add(plus, seven, minusSeven);
    var _ := Add(minus, minusSeven, seven);
    r := Compare(minus, plus);
  }

  // ----- machine integers -----

  const TWO127: int := 0x8000_0000_0000_0000_0000_0000_0000_0000

  /** Two's complement wrap-around to 64 bits. */
  function Wrap64(x: int): (r: int)
    ensures -TWO63 <= r < TWO63
    ensures -TWO63 <= x < TWO63 ==> r == x
  {
    (x + TWO63) % (2 * TWO63) - TWO63
  }

  lemma WrapSteps64(x: int, y: int)
    ensures Wrap64(Wrap64(x) + y) == Wrap64(x + y) && Wrap64(-Wrap64(x)) == Wrap64(-x)
  {
    var m := 2 * TWO63;
    var a := x + TWO63;
    var q, r := a / m, a % m;
    assert (r + y) / m == (a + y) / m - q;
    assert (m - r) / m == (m - a) / m + q;
  }

  /** Two's complement wrap-around to 128 bits. */
  function Wrap128(x: int): (r: int)
    ensures -TWO127 <= r < TWO127
    ensures -TWO127 <= x < TWO127 ==> r == x
  {
    (x + TWO127) % (2 * TWO127) - TWO127
  }

  lemma WrapSteps128(x: int, y: int)
    ensures Wrap128(Wrap128(x) + y) == Wrap128(x + y) && Wrap128(-Wrap128(x)) == Wrap128(-x)
  {
    var m := 2 * TWO127;
    var a := x + TWO127;
    var q, r := a / m, a % m;
    assert (r + y) / m == (a + y) / m - q;
    assert (m - r) / m == (m - a) / m + q;
  }

  lemma PrefixFive(s: seq<nat>)
    requires |s| == 5
    ensures Magnitude(s) == s[0] + s[1] * Weight(1) + s[2] * Weight(2) + s[3] * Weight(3) + s[4] * Weight(4)
  {
    assert Prefix(s, 1) == s[0];
    assert Prefix(s, 2) == s[0] + s[1] * Weight(1);
    assert Prefix(s, 4) == Prefix(s, 2) + s[2] * Weight(2) + s[3] * Weight(3);
  }

  /** Repeated division splits a number into five digits. */
  method Split(x: nat) returns (digits: seq<nat>)
    requires x < Weight(5)
    ensures Canonical(digits) && Magnitude(digits) == x
  {
    Weights();
    hide Prefix, Weight;
    var rest := x;
    var dig4 := rest / Weight(4);
    rest := rest - dig4 * Weight(4);
    var dig3 := rest / Weight(3);
    rest := rest - dig3 * Weight(3);
    var dig2 := rest / Weight(2);
    rest := rest - dig2 * Weight(2);
    var dig1 := rest / LIMIT;
    digits := [rest - dig1 * LIMIT, dig1, dig2, dig3, dig4];
    PrefixFive(digits);
  }

  /** The unsigned 64-bit reading of a signed negation: at the least integer it wraps around to itself. */
  lemma Negated64(x: int)
    requires -TWO63 <= x < 0
    ensures Wrap64(-x) % TWO64 == -x
  {
  }

  lemma Negated128(x: int)
    requires -TWO127 <= x < 0
    ensures Wrap128(-x) % (2 * TWO127) == -x
  {
  }

  /** _CFBigNumInitWithInt64: exact on the whole range, and zero is unsigned. */
  method InitWithInt64(r: BigNum, x: int)
    requires -TWO63 <= x < TWO63
    modifies r
    ensures r.Valid() && r.Value() == x && (r.sign < 0 <==> x < 0)
  {
    Weights();
    hide Prefix, Weight;
    r.sign := 0;
    var unsigned: nat := x % TWO64;
    if x < 0 {
      r.sign := -1;
      unsigned := Wrap64(-x) % TWO64;
      Negated64(x);
    }
    hide Wrap64;
    var dig2 := unsigned / Weight(2);
    unsigned := unsigned - dig2 * Weight(2);
    var dig1 := unsigned / LIMIT;
    r.digits := [unsigned - dig1 * LIMIT, dig1, dig2, 0, 0];
    PrefixFive(r.digits);
  }

  /** _CFBigNumInitWithInt128. */
  method InitWithInt128(r: BigNum, x: int)
    requires -TWO127 <= x < TWO127
    modifies r
    ensures r.Valid() && r.Value() == x && (r.sign < 0 <==> x < 0)
  {
    Weights();
    hide Prefix, Weight;
    r.sign := 0;
    var unsigned: nat := x % (2 * TWO127);
    if x < 0 {
      r.sign := -1;
      unsigned := Wrap128(-x) % (2 * TWO127);
      Negated128(x);
    }
    hide Wrap128;
    var digits := Split(unsigned);
    r.digits := digits;
  }

  /** _CFBigNumGetInt64: sums three digits with wrap-around; exact whenever the value is an int64. */
  method GetInt64(num: BigNum) returns (x: int)
    requires num.Valid()
    ensures -TWO63 <= x < TWO63
    ensures -TWO63 <= num.Value() < TWO63 ==> x == num.Value()
  {
    Weights();
    PrefixFive(num.digits);
    hide Prefix, Weight;
    hide Wrap64;
    var d := num.digits;
    x := Wrap64(d[0] + d[1] * LIMIT);
    x := Wrap64(x + d[2] * Weight(2));
    WrapSteps64(d[0] + d[1] * LIMIT, d[2] * Weight(2));
    if num.sign < 0 {
      WrapSteps64(d[0] + d[1] * LIMIT + d[2] * Weight(2), 0);
      x := Wrap64(-x);
    }
    TopDigits(d);
  }

  /** A value below the weight of digit 3 has only three digits. */
  lemma TopDigits(d: seq<nat>)
    requires |d| == 5
    ensures Magnitude(d) < Weight(3) ==> d[3] == 0 == d[4]
  {
    Weights();
    PrefixFive(d);
  }

  /** _CFBigNumGetInt128. */
  method GetInt128(num: BigNum) returns (x: int)
    requires num.Valid()
    ensures -TWO127 <= x < TWO127
    ensures -TWO127 <= num.Value() < TWO127 ==> x == num.Value()
  {
    Weights();
    PrefixFive(num.digits);
    hide Prefix, Weight;
    hide Wrap128;
    var d := num.digits;
    ghost var s1, s2 := d[0] + d[1] * LIMIT, d[0] + d[1] * LIMIT + d[2] * Weight(2);
    ghost var s3 := s2 + d[3] * Weight(3);
    x := Wrap128(d[0] + d[1] * LIMIT);
    x := Wrap128(x + d[2] * Weight(2));
    WrapSteps128(s1, d[2] * Weight(2));
    x := Wrap128(x + d[3] * Weight(3));
    WrapSteps128(s2, d[3] * Weight(3));
    x := Wrap128(x + d[4] * Weight(4));
    WrapSteps128(s3, d[4] * Weight(4));
    if num.sign < 0 {
      WrapSteps128(s3 + d[4] * Weight(4), 0);
      x := Wrap128(-x);
    }
  }
}
