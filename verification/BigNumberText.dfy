/** Printing and parsing the numbers of CFBigNumber.c. */
module BigNumberText {
  import opened BigNumber

  // ----- decimal text -----

  predicate AllDigits(s: string) {
    forall i :: 0 <= i < |s| ==> '0' <= s[i] <= '9'
  }

  function Pow10(n: nat): (p: nat)
    ensures p >= 1
  {
    if n == 0 then 1 else 10 * Pow10(n - 1)
  }

  /** The number that decimal digits denote; none denote zero. */
  function Dec(s: string): (v: nat)
    requires AllDigits(s)
  {
    if s == [] then 0 else 10 * Dec(s[..|s| - 1]) + (s[|s| - 1] as int - '0' as int)
  }

  lemma {:induction false} DecConcat(x: string, y: string)
    requires AllDigits(x) && AllDigits(y)
    ensures AllDigits(x + y) && Dec(x + y) == Dec(x) * Pow10(|y|) + Dec(y)
    decreases |y|
  {
    if y == [] {
      assert x + y == x;
    } else {
      var y', c := y[..|y| - 1], y[|y| - 1];
      assert y == y' + [c] && x + y == (x + y') + [c];
      assert AllDigits(y') && '0' <= c <= '9';
      hide Dec, AllDigits;
      DecConcat(x, y');
      DecSnoc(y', c);
      DecSnoc(x + y', c);
      TimesTen(Dec(x), |y'|);
    }
  }

  lemma DecSnoc(s: string, c: char)
    requires AllDigits(s) && '0' <= c <= '9'
    ensures AllDigits(s + [c]) && Dec(s + [c]) == 10 * Dec(s) + (c as int - '0' as int)
  {
    assert (s + [c])[..|s|] == s;
  }

  lemma TimesTen(x: nat, n: nat)
    ensures x * Pow10(n + 1) == 10 * (x * Pow10(n))
  {
  }

  lemma {:induction false} DecBound(s: string)
    requires AllDigits(s)
    ensures Dec(s) < Pow10(|s|)
  {
    if s != [] {
      DecBound(s[..|s| - 1]);
    }
  }

  /** A first digit other than zero makes the number as large as its length says. */
  lemma {:induction false} DecLead(s: string)
    requires AllDigits(s) && s != [] && s[0] != '0'
    ensures Dec(s) >= Pow10(|s| - 1)
  {
    if |s| > 1 {
      DecLead(s[..|s| - 1]);
    }
  }

  /** The text without the zeros in front. */
  function Stripped(s: string): (r: string)
    ensures |r| <= |s|
  {
    if s != [] && s[0] == '0' then Stripped(s[1..]) else s
  }

  /** How many zeros are in front. */
  function Zeros(s: string): (n: nat)
    ensures n <= |s|
  {
    |s| - |Stripped(s)|
  }

  lemma {:induction false} StrippedShape(s: string)
    ensures Stripped(s) == s[Zeros(s)..]
    ensures forall i :: 0 <= i < Zeros(s) ==> s[i] == '0'
    ensures Zeros(s) < |s| ==> s[Zeros(s)] != '0'
  {
    if s != [] && s[0] == '0' {
      var t := s[1..];
      StrippedShape(t);
      assert Zeros(s) == Zeros(t) + 1;
      assert t[Zeros(t)..] == s[Zeros(s)..];
      forall i | 0 <= i < Zeros(s) ensures s[i] == '0' {
        if i > 0 {
          assert s[i] == t[i - 1];
        }
      }
    }
  }

  lemma {:induction false} DecZeros(s: string)
    requires forall i :: 0 <= i < |s| ==> s[i] == '0'
    ensures Dec(s) == 0
  {
    if s != [] {
      DecZeros(s[..|s| - 1]);
    }
  }

  lemma DecStripped(s: string)
    requires AllDigits(s)
    ensures AllDigits(Stripped(s)) && Dec(Stripped(s)) == Dec(s)
  {
    var n := Zeros(s);
    StrippedShape(s);
    assert s == s[..n] + s[n..];
    BehindZeros(s[..n], s[n..]);
  }

  /** Which strings denote a number below a power of ten: exactly those with few significant digits. */
  lemma SignificantDigits(s: string, n: nat)
    requires AllDigits(s)
    ensures Dec(s) < Pow10(n) <==> |Stripped(s)| <= n
  {
    hide Dec, AllDigits, Stripped, Pow10;
    var r := Stripped(s);
    StrippedShape(s);
    DecStripped(s);
    DecBound(r);
    if |r| <= n {
      Pow10Monotone(|r|, n);
    } else {
      DecLead(r);
      Pow10Monotone(n, |r| - 1);
    }
  }

  lemma {:induction false} Pow10Monotone(m: nat, n: nat)
    requires m <= n
    ensures Pow10(m) <= Pow10(n)
  {
    if m < n {
      Pow10Monotone(m, n - 1);
    }
  }

  /** Decimal digits padded with zeros to n places, as the format %09u gives them. */
  function Pad(d: nat, n: nat): (s: string)
    ensures |s| == n && AllDigits(s)
  {
    if n == 0 then [] else Pad(d / 10, n - 1) + [('0' as int + d % 10) as char]
  }

  lemma {:induction false} PadDec(d: nat, n: nat)
    requires d < Pow10(n)
    ensures Dec(Pad(d, n)) == d
  {
    if n > 0 {
      PadDec(d / 10, n - 1);
      assert Pad(d, n)[..n - 1] == Pad(d / 10, n - 1);
    }
  }

  lemma Pow10Nine()
    ensures Pow10(9) == LIMIT
  {
    assert Pow10(3) == 1000;
    assert Pow10(6) == 1000 * Pow10(3);
    assert Pow10(9) == 1000 * Pow10(6);
  }

  /** All five digits, the most significant first. */
  function Print45(d: seq<nat>): (s: string)
    requires |d| == 5
    ensures |s| == 45 && AllDigits(s)
  {
    Pad(d[4], 9) + Pad(d[3], 9) + Pad(d[2], 9) + Pad(d[1], 9) + Pad(d[0], 9)
  }

  lemma Print45Dec(d: seq<nat>)
    requires Canonical(d)
    ensures Dec(Print45(d)) == Magnitude(d)
  {
    Pow10Nine();
    Weights();
    PrefixFive(d);
    hide Prefix, Weight, Dec, Pow10, Pad;
    var p4, p3, p2, p1, p0 := Pad(d[4], 9), Pad(d[3], 9), Pad(d[2], 9), Pad(d[1], 9), Pad(d[0], 9);
    PadDec(d[4], 9);
    PadDec(d[3], 9);
    PadDec(d[2], 9);
    PadDec(d[1], 9);
    PadDec(d[0], 9);
    DecConcat(p4, p3);
    DecConcat(p4 + p3, p2);
    DecConcat(p4 + p3 + p2, p1);
    DecConcat(p4 + p3 + p2 + p1, p0);
  }

  // ----- the numeral of a number -----

  /** The usual decimal numeral: no zero in front, and "0" for zero. */
  function Numeral(n: nat): (s: string)
    ensures s != "" && AllDigits(s) && (s[0] == '0' ==> n == 0)
    ensures n == 0 ==> s == "0"
  {
    if n < 10 then [('0' as int + n) as char] else Numeral(n / 10) + [('0' as int + n % 10) as char]
  }

  lemma {:induction false} NumeralDec(n: nat)
    ensures Dec(Numeral(n)) == n
  {
    if n >= 10 {
      NumeralDec(n / 10);
      assert Numeral(n)[..|Numeral(n)| - 1] == Numeral(n / 10);
    } else {
      assert Numeral(n)[..0] == "";
    }
  }

  /** Digits without a zero in front are the numeral of the number they denote. */
  lemma {:induction false} NumeralUnique(s: string)
    requires AllDigits(s) && s != "" && (s[0] == '0' ==> s == "0")
    ensures s == Numeral(Dec(s))
  {
    var init, c := s[..|s| - 1], s[|s| - 1];
    assert s == init + [c] && '0' <= c <= '9' && AllDigits(init);
    if init == "" {
      OneDigit(c);
    } else {
      assert init[0] == s[0];
      hide *;
      NumeralUnique(init);
      LongerNumeral(init, c);
    }
  }

  lemma LongerNumeral(s: string, c: char)
    requires AllDigits(s) && s != "" && s[0] != '0' && '0' <= c <= '9' && s == Numeral(Dec(s))
    ensures AllDigits(s + [c]) && s + [c] == Numeral(Dec(s + [c]))
  {
    hide Numeral, AllDigits, Dec;
    DecLead(s);
    DecSnoc(s, c);
    NumeralSnoc(Dec(s), c);
  }

  lemma OneDigit(c: char)
    requires '0' <= c <= '9'
    ensures [c] == Numeral(Dec([c]))
  {
    assert Dec([c][..0]) == 0;
  }

  lemma NumeralSnoc(n: nat, c: char)
    requires n >= 1 && '0' <= c <= '9'
    ensures Numeral(10 * n + (c as int - '0' as int)) == Numeral(n) + [c]
  {
    var d := c as int - '0' as int;
    assert (10 * n + d) / 10 == n && (10 * n + d) % 10 == d;
  }

  /** Digits are the padded form of the number they denote. */
  lemma {:induction false} PadUnique(s: string)
    requires AllDigits(s)
    ensures s == Pad(Dec(s), |s|)
  {
    if s != "" {
      var init, c := s[..|s| - 1], s[|s| - 1];
      assert s == init + [c];
      PadUnique(init);
    }
  }

  /** The last places of a padded number are the number padded to those places. */
  lemma {:induction false} PadLow(d: nat, n: nat, m: nat)
    requires m <= n
    ensures Pad(d, n)[n - m..] == Pad(d, m)
  {
    if m > 0 {
      PadLow(d / 10, n - 1, m - 1);
      assert Pad(d, n)[n - m..] == Pad(d / 10, n - 1)[n - m..] + [('0' as int + d % 10) as char];
    }
  }

  /** The first `room` characters. */
  function FirstOf(s: string, room: nat): string {
    if |s| <= room then s else s[..room]
  }

  /**
   What a number looks like in `room` characters: its last places, padded with zeros, or
   its numeral, of which only the first characters are kept when it is longer.
   */
  function TextOf(n: nat, leadingZeros: bool, room: nat): string {
    if leadingZeros then Pad(n, room) else FirstOf(Numeral(n), room)
  }

  // ----- printing -----

  function SignText(sign: int, leadingPlus: bool): (s: string) {
    if sign < 0 then "-" else if leadingPlus then "+" else ""
  }

  lemma SignParts(sign: int, leadingPlus: bool)
    ensures |SignText(sign, leadingPlus)| == if sign < 0 || leadingPlus then 1 else 0
  {
  }

  /** _CFBigNumToCString, as the string left in a buffer of buflen characters. */
  method ToCString(v: BigNum, leadingZeros: bool, leadingPlus: bool, buflen: nat) returns (out: string)
    requires v.Valid() && buflen > |SignText(v.sign, leadingPlus)|
    ensures out == (if v.sign < 0 then "-" else if leadingPlus then "+" else "")
      + TextOf(Magnitude(v.digits), leadingZeros, buflen - 1 - |SignText(v.sign, leadingPlus)|)
  {
    assert |v.digits| == 5;
    SignParts(v.sign, leadingPlus);
    hide SignText, Printed, Print45, Stripped, AllDigits, TextOf, Prefix, Canonical;
    out := "";
    var rest := buflen;
    if v.sign < 0 {
      out, rest := "-", rest - 1;
    } else if leadingPlus {
      out, rest := "+", rest - 1;
    }
    PrintedText(v.digits, leadingZeros, rest - 1);
    var body := Body(v.digits, leadingZeros, rest);
    out := out + body;
  }

  method Body(digits: seq<nat>, leadingZeros: bool, buflen: nat) returns (out: string)
    requires |digits| == 5 && buflen >= 1
    ensures out == Printed(digits, leadingZeros, buflen - 1)
  {
    hide Print45, AllDigits;
    var tmp := Print45(digits);
    if leadingZeros {
      var tocopy := if 46 < buflen then 46 else buflen;
      out := seq(buflen - tocopy, _ => '0') + tmp[46 - tocopy..];
    } else {
      var s := SkipZeros(tmp);
      if s == 45 {
        AllZeros(tmp);
        s := s - 1;
      }
      hide Stripped;
      out := if |tmp[s..]| < buflen then tmp[s..] else tmp[s..][..buflen - 1];
    }
  }

  method SkipZeros(text: string) returns (s: nat)
    ensures s <= |text| && Stripped(text) == text[s..]
  {
    s := 0;
    while s < |text| && text[s] == '0'
      invariant s <= |text| && Stripped(text) == Stripped(text[s..])
    {
      assert text[s..][1..] == text[s + 1..];
      s := s + 1;
    }
  }

  lemma AllZeros(s: string)
    requires |s| > 0 && Stripped(s) == []
    ensures s[|s| - 1..] == "0"
  {
    StrippedShape(s);
    assert s[|s| - 1] == '0';
  }

  /** What is printed behind the sign when there is room for so many characters. */
  function Printed(d: seq<nat>, leadingZeros: bool, room: nat): (s: string)
    requires |d| == 5
    ensures |s| <= room && AllDigits(s)
  {
    var all := Print45(d);
    if leadingZeros then
      if room >= 45 then seq(room - 45, _ => '0') + all else all[45 - room..]
    else
      StrippedShape(all);
      var text := if Stripped(all) == [] then "0" else Stripped(all);
      if |text| <= room then text else text[..room]
  }

  /** What is printed is the text of the number. */
  lemma PrintedText(d: seq<nat>, leadingZeros: bool, room: nat)
    requires Canonical(d)
    ensures Printed(d, leadingZeros, room) == TextOf(Magnitude(d), leadingZeros, room)
  {
    Print45Dec(d);
    hide Print45, Canonical, Prefix, Pad, Numeral, Dec, AllDigits;
    if leadingZeros {
      PaddedText(d, room);
    } else {
      StrippedNumeral(Print45(d));
      hide Stripped;
    }
  }

  lemma PaddedText(d: seq<nat>, room: nat)
    requires |d| == 5
    ensures Printed(d, true, room) == Pad(Dec(Print45(d)), room)
  {
    hide Print45, Pad, Dec, AllDigits, Stripped;
    if room >= 45 {
      MoreZeros(Printed(d, true, room), Print45(d));
    } else {
      PadUnique(Print45(d));
      PadLow(Dec(Print45(d)), 45, room);
    }
  }

  lemma MoreZeros(s: string, all: string)
    requires AllDigits(s) && AllDigits(all) && |s| >= |all|
    requires s == seq(|s| - |all|, _ => '0') + all
    ensures s == Pad(Dec(all), |s|)
  {
    hide Dec, Pad, AllDigits;
    SameSignificant(s, all);
    PadUnique(s);
  }

  lemma StrippedNumeral(all: string)
    requires AllDigits(all)
    ensures (if Stripped(all) == [] then "0" else Stripped(all)) == Numeral(Dec(all))
  {
    StrippedShape(all);
    DecStripped(all);
    if Stripped(all) == [] {
      assert Dec([]) == 0;
    } else {
      NumeralUnique(Stripped(all));
    }
  }

  /** The printed text denotes the number exactly when its significant digits fit. */
  lemma PrintedValue(d: seq<nat>, leadingZeros: bool, room: nat)
    requires Canonical(d)
    ensures Dec(Printed(d, leadingZeros, room)) == Magnitude(d) <==> Magnitude(d) < Pow10(room)
  {
    hide Prefix, Pow10, Dec, Printed, Print45, Stripped, AllDigits;
    var s := Printed(d, leadingZeros, room);
    DecBound(s);
    Pow10Monotone(|s|, room);
    Print45Dec(d);
    SignificantDigits(Print45(d), room);
    if Magnitude(d) < Pow10(room) {
      PrintedWhole(d, leadingZeros, room);
    }
  }

  lemma PrintedWhole(d: seq<nat>, leadingZeros: bool, room: nat)
    requires |d| == 5 && |Stripped(Print45(d))| <= room
    ensures Dec(Printed(d, leadingZeros, room)) == Dec(Print45(d))
  {
    hide Dec, Print45, Stripped, AllDigits;
    var s, all := Printed(d, leadingZeros, room), Print45(d);
    DecStripped(all);
    if leadingZeros {
      SameSignificant(s, all);
    } else if Stripped(all) == [] {
      ZeroText(s, all);
    }
  }

  lemma ZeroText(s: string, all: string)
    requires AllDigits(all) && Stripped(all) == [] && (s == "0" || s == "")
    ensures Dec(s) == Dec(all)
  {
    hide Stripped, Dec, AllDigits;
    DecStripped(all);
    DecZeros(s);
    DecZeros(Stripped(all));
  }

  /** Zeros in front do not change what digits denote. */
  lemma SameSignificant(s: string, all: string)
    requires AllDigits(s) && AllDigits(all)
    requires |s| >= |all| ==> s[|s| - |all|..] == all && forall i :: 0 <= i < |s| - |all| ==> s[i] == '0'
    requires |s| < |all| ==> all[|all| - |s|..] == s && |Stripped(all)| <= |s|
    ensures Dec(s) == Dec(all)
  {
    if |s| >= |all| {
      var zeros := s[..|s| - |all|];
      assert s == zeros + all;
      BehindZeros(zeros, all);
    } else {
      var zeros := all[..|all| - |s|];
      assert all == zeros + s;
      StrippedShape(all);
      BehindZeros(zeros, s);
    }
  }

  lemma BehindZeros(zeros: string, s: string)
    requires AllDigits(s) && forall i :: 0 <= i < |zeros| ==> zeros[i] == '0'
    ensures AllDigits(zeros + s) && Dec(zeros + s) == Dec(s)
  {
    hide Dec;
    DecZeros(zeros);
    DecConcat(zeros, s);
  }

  // ----- parsing -----

  predicate HasSign(text: string) {
    text != [] && (text[0] == '-' || text[0] == '+')
  }

  /** The digits behind an optional sign. */
  function Unsigned(text: string): string {
    if HasSign(text) then text[1..] else text
  }

  /** _CFBigNumFromCString: nine characters to a digit, from the end. */
  method FromCString(r: BigNum, text: string)
    requires AllDigits(Unsigned(text)) && |Stripped(Unsigned(text))| <= 45
    modifies r
    ensures r.Valid() && Magnitude(r.digits) == Dec(Unsigned(text))
    ensures r.sign < 0 <==> text != [] && text[0] == '-'
  {
    hide Dec, Stripped, Prefix, AllDigits;
    r.sign, r.digits := 0, [0, 0, 0, 0, 0];
    var working := text;
    if text != [] && text[0] == '-' {
      r.sign := -1;
      working := working[1..];
    } else if text != [] && text[0] == '+' {
      working := working[1..];
    }
    DecStripped(working);
    var s := SkipZeros(working);
    working := working[s..];
    if |working| == 0 {
      NoDigits(working, r.digits);
      return;
    }
    var digits := ReadDigits(working);
    r.digits := digits;
  }

  lemma NoDigits(s: string, digits: seq<nat>)
    requires s == [] && digits == [0, 0, 0, 0, 0]
    ensures Dec(s) == 0 == Magnitude(digits)
  {
    ZeroDigits(digits, 5);
  }

  method ReadDigits(working: string) returns (digits: seq<nat>)
    requires AllDigits(working) && 0 < |working| <= 45
    ensures Canonical(digits) && Magnitude(digits) == Dec(working)
  {
    hide Dec, Prefix, Weight, Pow10;
    digits := [0, 0, 0, 0, 0];
    var length, cur := |working|, 0;
    ReadStart(working, digits);
    while cur + 1 < 5 && 9 < length
      invariant 0 <= cur < 5 && 0 < length <= 9 * (5 - cur) && length <= |working|
      invariant ReadSoFar(working, length, digits, cur)
    {
      var digit := Dec(working[length - 9..length]);
      ReadStep(working, length, digits, cur);
      digits := digits[cur := digit];
      length, cur := length - 9, cur + 1;
    }
    ReadLast(working, length, digits, cur);
    digits := digits[cur := Dec(working[..length])];
  }

  /** The digits read so far and the text that is left denote the number. */
  ghost predicate ReadSoFar(text: string, length: nat, digits: seq<nat>, cur: nat) {
    && AllDigits(text) && length <= |text| && Canonical(digits) && cur <= 5
    && (forall i :: cur <= i < 5 ==> digits[i] == 0)
    && Dec(text) == Prefix(digits, cur) + Dec(text[..length]) * Weight(cur)
  }

  lemma ReadStart(text: string, digits: seq<nat>)
    requires AllDigits(text) && digits == [0, 0, 0, 0, 0]
    ensures ReadSoFar(text, |text|, digits, 0)
  {
    assert text[..|text|] == text;
  }

  lemma ReadStep(text: string, length: nat, digits: seq<nat>, cur: nat)
    requires ReadSoFar(text, length, digits, cur) && 9 < length && cur < 5
    ensures ReadSoFar(text, length - 9, digits[cur := Dec(text[length - 9..length])], cur + 1)
  {
    var head, last := text[..length - 9], text[length - 9..length];
    assert text[..length] == head + last;
    assert AllDigits(head) && AllDigits(last);
    hide Dec, Pow10, AllDigits, Prefix;
    DecConcat(head, last);
    DecBound(last);
    Pow10Nine();
    PrefixSame(digits, digits[cur := Dec(last)], cur);
    ShiftStep(Dec(head), Dec(last), Weight(cur));
    PrefixNext(digits[cur := Dec(last)], cur);
  }

  lemma ShiftStep(head: nat, last: nat, w: nat)
    ensures (head * LIMIT + last) * w == last * w + head * (LIMIT * w)
  {
  }

  lemma PrefixNext(s: seq<nat>, n: nat)
    requires n < |s|
    ensures Prefix(s, n + 1) == Prefix(s, n) + s[n] * Weight(n) && Weight(n + 1) == LIMIT * Weight(n)
  {
  }

  lemma ReadLast(text: string, length: nat, digits: seq<nat>, cur: nat)
    requires ReadSoFar(text, length, digits, cur) && length <= 9 && cur < 5
    ensures Dec(text[..length]) < LIMIT
    ensures Magnitude(digits[cur := Dec(text[..length])]) == Dec(text)
  {
    DecBound(text[..length]);
    Pow10Monotone(length, 9);
    Pow10Nine();
    hide Dec, Pow10;
    var next := digits[cur := Dec(text[..length])];
    PrefixSame(digits, next, cur);
    ZeroTail(next, cur + 1, 5);
  }

  lemma {:induction false} ZeroTail(s: seq<nat>, m: nat, n: nat)
    requires m <= n <= |s| && forall i :: m <= i < n ==> s[i] == 0
    ensures Prefix(s, n) == Prefix(s, m)
  {
    if m < n {
      ZeroTail(s, m, n - 1);
    }
  }

  // ----- the round trip -----

  /** Parsing the printed form gives back sign and digits exactly when the significant digits fit in the buffer. */
  method PrintThenParse(v: BigNum, r: BigNum, leadingZeros: bool, leadingPlus: bool, buflen: nat)
    requires v.Valid() && v != r && buflen > |SignText(v.sign, leadingPlus)|
    modifies r
    ensures r.Valid() && r.sign == v.sign
    ensures r.digits == v.digits <==> Magnitude(v.digits) < Pow10(buflen - 1 - |SignText(v.sign, leadingPlus)|)
  {
    hide Pow10, Dec, Prefix, Printed, Stripped, Print45, AllDigits, Unsigned, TextOf;
    var text := ToCString(v, leadingZeros, leadingPlus, buflen);
    ghost var room := buflen - 1 - |SignText(v.sign, leadingPlus)|;
    PrintedText(v.digits, leadingZeros, room);
    PrintedValue(v.digits, leadingZeros, room);
    PrintedShape(v.digits, leadingZeros, room, v.sign, leadingPlus);
    FromCString(r, text);
    if Magnitude(r.digits) == Magnitude(v.digits) {
      DigitsUnique(r.digits, v.digits, 5);
      assert r.digits[..5] == r.digits && v.digits[..5] == v.digits;
    }
  }

  /** 12 in a buffer with room for one digit is printed as another number. */
  lemma ShortBufferExample(leadingZeros: bool)
    ensures Canonical([12, 0, 0, 0, 0]) && Magnitude([12, 0, 0, 0, 0]) == 12
    ensures Dec(Printed([12, 0, 0, 0, 0], leadingZeros, 1)) != 12
  {
    PrefixFive([12, 0, 0, 0, 0]);
    PrintedValue([12, 0, 0, 0, 0], leadingZeros, 1);
    assert Pow10(1) == 10 * Pow10(0);
    hide Printed, Dec, Prefix;
  }

  lemma PrintedShape(d: seq<nat>, leadingZeros: bool, room: nat, sign: int, leadingPlus: bool)
    requires Canonical(d)
    ensures var body := Printed(d, leadingZeros, room);
      var text := SignText(sign, leadingPlus) + body;
      Unsigned(text) == body && |Stripped(body)| <= 45 && (text != [] && text[0] == '-' <==> sign < 0)
  {
    hide Print45, Stripped, Printed;
    PrintedLength(d, leadingZeros, room);
    SignShape(Printed(d, leadingZeros, room), sign, leadingPlus);
  }

  lemma SignShape(body: string, sign: int, leadingPlus: bool)
    requires AllDigits(body)
    ensures var text := SignText(sign, leadingPlus) + body;
      Unsigned(text) == body && (text != [] && text[0] == '-' <==> sign < 0)
  {
  }

  lemma PrintedLength(d: seq<nat>, leadingZeros: bool, room: nat)
    requires |d| == 5
    ensures |Stripped(Printed(d, leadingZeros, room))| <= 45
  {
    hide Print45, AllDigits;
    var body := Printed(d, leadingZeros, room);
    if leadingZeros && room > 45 {
      StrippedBehindZeros(body, Print45(d));
    }
  }

  lemma StrippedBehindZeros(s: string, all: string)
    requires |s| >= |all| && s[|s| - |all|..] == all && forall i :: 0 <= i < |s| - |all| ==> s[i] == '0'
    ensures |Stripped(s)| <= |all|
  {
    StrippedShape(s);
    if Zeros(s) < |s| {
      assert s[Zeros(s)] != '0';
    }
  }
}
