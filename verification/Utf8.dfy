/**
 The UTF-8 converter of CFBuiltinConverters.c with flags 0: strict, without
 decomposition. Shifts and masks on non-negative values are written as
 division and remainder.
 */
module Utf8 {
  import opened Machine
  import opened Bytes

  // ----- scalar values and UTF-16 -----

  /** A Unicode scalar value: any code point that is not a surrogate. */
  type scalar = x: int | 0 <= x < 0xD800 || 0xDFFF < x <= 0x10FFFF

  predicate High(u: int) {
    0xD800 <= u <= 0xDBFF
  }

  predicate Low(u: int) {
    0xDC00 <= u <= 0xDFFF
  }

  /** One scalar value as UTF-16, section 2.1 of RFC 2781. */
  function Utf16(ch: scalar): (s: seq<unichar>)
    ensures |s| == 1 || |s| == 2
  {
    if ch < 0x1_0000 then [ch]
    else [(ch - 0x1_0000) / 0x400 + 0xD800, (ch - 0x1_0000) % 0x400 + 0xDC00]
  }

  /** The number of units of the scalar value at the start of a string; 0 if there is none. */
  function UnitCount(units: seq<unichar>): (n: nat)
    ensures n <= 2 && n <= |units|
  {
    if units == [] then 0
    else if High(units[0]) then (if |units| > 1 && Low(units[1]) then 2 else 0)
    else if Low(units[0]) then 0
    else 1
  }

  function FirstScalar(units: seq<unichar>): (ch: scalar)
    requires UnitCount(units) > 0
    ensures Utf16(ch) == units[..UnitCount(units)]
  {
    if UnitCount(units) == 1 then units[0]
    else
      var high: int, low: int := units[0], units[1];
      (high - 0xD800) * 0x400 + (low - 0xDC00) + 0x1_0000
  }

  /** Every surrogate is part of a pair. */
  predicate WellFormed(units: seq<unichar>)
    decreases |units|
  {
    units == [] || (UnitCount(units) > 0 && WellFormed(units[UnitCount(units)..]))
  }

  /** The pairs of greater scalar values come later in the order of units; all others are their own unit. */
  lemma Utf16Ordered(a: scalar, b: scalar)
    requires a < b
    ensures a < 0x1_0000 ==> Utf16(a) == [a]
    ensures a >= 0x1_0000 ==> High(Utf16(a)[0]) && Low(Utf16(a)[1])
    ensures a >= 0x1_0000 ==> Utf16(a)[0] < Utf16(b)[0] || (Utf16(a)[0] == Utf16(b)[0] && Utf16(a)[1] < Utf16(b)[1])
  {
  }

  // ----- one character in UTF-8 -----

  /** __CFUTF8BytesToWriteForCharacter */
  function BytesToWrite(ch: nat): nat {
    if ch < 0x80 then 1
    else if ch < 0x800 then 2
    else if ch < 0x1_0000 then 3
    else if ch < 0x20_0000 then 4
    else if ch < 0x400_0000 then 5
    else if ch <= 0x7FFF_FFFF then 6
    else 0
  }

  /** One scalar value as UTF-8, the table of section 3 of RFC 3629. */
  function Utf8Of(ch: scalar): (s: seq<byte>)
    ensures |s| == BytesToWrite(ch) && 1 <= |s| <= 4
  {
    if ch < 0x80 then [ch]
    else if ch < 0x800 then [0xC0 + ch / 64, 0x80 + ch % 64]
    else if ch < 0x1_0000 then [0xE0 + ch / 0x1000, 0x80 + ch / 64 % 64, 0x80 + ch % 64]
    else [0xF0 + ch / 0x4_0000, 0x80 + ch / 0x1000 % 64, 0x80 + ch / 64 % 64, 0x80 + ch % 64]
  }

  predicate Tail(b: int) {
    0x80 <= b <= 0xBF
  }

  /** UTF8-char of the grammar in section 4 of RFC 3629. */
  predicate Utf8Char(s: seq<byte>) {
    || (|s| == 1 && s[0] <= 0x7F)
    || (|s| == 2 && 0xC2 <= s[0] <= 0xDF && Tail(s[1]))
    || (|s| == 3 && Tail(s[2]) &&
        (|| (s[0] == 0xE0 && 0xA0 <= s[1] <= 0xBF)
         || (0xE1 <= s[0] <= 0xEC && Tail(s[1]))
         || (s[0] == 0xED && 0x80 <= s[1] <= 0x9F)
         || (0xEE <= s[0] <= 0xEF && Tail(s[1]))))
    || (|s| == 4 && Tail(s[2]) && Tail(s[3]) &&
        (|| (s[0] == 0xF0 && 0x90 <= s[1] <= 0xBF)
         || (0xF1 <= s[0] <= 0xF3 && Tail(s[1]))
         || (s[0] == 0xF4 && 0x80 <= s[1] <= 0x8F)))
  }

  /** The length a first byte announces, less one. */
  function TrailingBytes(b: byte): nat {
    if b < 0xC0 then 0 else if b < 0xE0 then 1 else if b < 0xF0 then 2 else if b < 0xF8 then 3 else if b < 0xFC then 4 else 5
  }

  /** __CFIsLegalUTF8 on a sequence of the announced length. */
  predicate IsLegal(s: seq<byte>)
    requires |s| >= 1
  {
    && |s| <= 4
    && (forall i :: 1 <= i < |s| ==> Tail(s[i]))
    && !(0x80 <= s[0] < 0xC2) && s[0] <= 0xF4
    && !(|s| > 1 && s[0] == 0xE0 && s[1] < 0xA0)
    && !(|s| > 1 && s[0] == 0xED && s[1] > 0x9F)
    && !(|s| > 1 && s[0] == 0xF0 && s[1] < 0x90)
    && !(|s| > 1 && s[0] == 0xF4 && s[1] > 0x8F)
  }

  /** The legality test accepts exactly the grammar. */
  lemma LegalIsGrammar(s: seq<byte>)
    requires |s| >= 1
    ensures Utf8Char(s) <==> |s| == TrailingBytes(s[0]) + 1 && IsLegal(s)
  {
    if Utf8Char(s) {
      assert forall i :: 1 <= i < |s| ==> Tail(s[i]);
    }
  }

  /** The decoder's accumulated code point, with the marker bits subtracted at the end. */
  function CodePoint(s: seq<byte>): int
    requires 1 <= |s| <= 4
  {
    var a: int := s[0];
    var b: int := if |s| > 1 then s[1] else 0;
    var c: int := if |s| > 2 then s[2] else 0;
    var d: int := if |s| > 3 then s[3] else 0;
    match |s|
    case 1 => a
    case 2 => a * 64 + b - 0x3080
    case 3 => (a * 64 + b) * 64 + c - 0xE_2080
    case _ => ((a * 64 + b) * 64 + c) * 64 + d - 0x3C8_2080
  }

  /** The six-bit groups of a number. */
  lemma Groups(a: nat, b: nat, c: nat, d: nat)
    requires b < 64 && c < 64 && d < 64
    ensures var n := ((a * 64 + b) * 64 + c) * 64 + d;
            n / 0x4_0000 == a && n / 0x1000 % 64 == b && n / 64 % 64 == c && n % 64 == d
            && n / 0x1000 == a * 64 + b && n / 64 == (a * 64 + b) * 64 + c
  {
    var n := ((a * 64 + b) * 64 + c) * 64 + d;
    assert n / 64 == (a * 64 + b) * 64 + c;
    assert n / 64 / 64 == a * 64 + b;
    assert n / 64 / 64 / 64 == a;
  }

  /** A sequence of the grammar is the encoding of its code point. */
  lemma CodePointScalar(s: seq<byte>)
    requires Utf8Char(s)
    ensures 0 <= CodePoint(s) < 0xD800 || 0xDFFF < CodePoint(s) <= 0x10FFFF
    ensures Utf8Of(CodePoint(s)) == s
  {
    if |s| == 2 {
      Groups(0, 0, s[0] - 0xC0, s[1] - 0x80);
    } else if |s| == 3 {
      CodePointScalar3(s);
    } else if |s| == 4 {
      CodePointScalar4(s);
    }
  }

  lemma CodePointScalar3(s: seq<byte>)
    requires Utf8Char(s) && |s| == 3
    ensures 0 <= CodePoint(s) < 0xD800 || 0xDFFF < CodePoint(s) <= 0x10FFFF
    ensures Utf8Of(CodePoint(s)) == s
  {
    Groups(0, s[0] - 0xE0, s[1] - 0x80, s[2] - 0x80);
  }

  lemma CodePointScalar4(s: seq<byte>)
    requires Utf8Char(s) && |s| == 4
    ensures 0 <= CodePoint(s) < 0xD800 || 0xDFFF < CodePoint(s) <= 0x10FFFF
    ensures Utf8Of(CodePoint(s)) == s
  {
    Groups(s[0] - 0xF0, s[1] - 0x80, s[2] - 0x80, s[3] - 0x80);
  }

  /** Every encoding is in the grammar, and has its code point. */
  lemma Utf8OfGrammar(ch: scalar)
    ensures Utf8Char(Utf8Of(ch)) && CodePoint(Utf8Of(ch)) == ch
  {
    SixBits(ch);
    hide Utf8Char;
    if ch >= 0x800 {
      LongGrammar(ch);
    } else {
      ShortGrammar(ch);
    }
  }

  lemma SixBits(ch: nat)
    ensures ch == ((ch / 0x4_0000 * 64 + ch / 0x1000 % 64) * 64 + ch / 64 % 64) * 64 + ch % 64
    ensures ch / 0x1000 == ch / 0x4_0000 * 64 + ch / 0x1000 % 64
    ensures ch / 64 == ch / 0x1000 * 64 + ch / 64 % 64
    ensures ch / 64 / 64 == ch / 0x1000 && ch / 64 / 64 / 64 == ch / 0x4_0000
  {
    assert ch / 64 / 64 == ch / 0x1000;
    assert ch / 0x1000 / 64 == ch / 0x4_0000;
  }

  lemma ShortGrammar(ch: scalar)
    requires ch < 0x800
    ensures Utf8Char(Utf8Of(ch))
  {
  }

  lemma LongGrammar(ch: scalar)
    requires ch >= 0x800
    ensures Utf8Char(Utf8Of(ch))
  {
  }

  // ----- encoding strings -----

  /** The UTF-8 form of the longest well-formed prefix of a string. */
  function EncodeAll(units: seq<unichar>): (s: seq<byte>)
    decreases |units|
  {
    if UnitCount(units) == 0 then []
    else Utf8Of(FirstScalar(units)) + EncodeAll(units[UnitCount(units)..])
  }

  function WellFormedLength(units: seq<unichar>): (n: nat)
    ensures n <= |units|
    ensures n == |units| <==> WellFormed(units)
    decreases |units|
  {
    if UnitCount(units) == 0 then 0 else UnitCount(units) + WellFormedLength(units[UnitCount(units)..])
  }

  datatype Encoded = Encoded(chars: nat, bytes: seq<byte>)

  /**
   Whether a call with `room` bytes left goes on with the first character: one byte
   is stored directly, and more only if they fit in the room as it is passed on, cut
   to 32 bits.
   */
  predicate Fits(units: seq<unichar>, room: nat) {
    UnitCount(units) > 0 && Taken(FirstScalar(units), room)
  }

  predicate Taken(ch: scalar, room: nat): (ok: bool)
    ensures ok ==> BytesToWrite(ch) <= room
  {
    if ch < 0x80 then room > 0 else BytesToWrite(ch) <= room % TWO32
  }

  /** What a call with `room` bytes does: units used and bytes written. */
  function EncodeBounded(units: seq<unichar>, room: nat): (e: Encoded)
    ensures e.chars <= |units| && |e.bytes| <= room
    decreases |units|
  {
    if !Fits(units, room) then Encoded(0, [])
    else
      var n, s := UnitCount(units), Utf8Of(FirstScalar(units));
      var rest := EncodeBounded(units[n..], room - |s|);
      Encoded(n + rest.chars, s + rest.bytes)
  }

  /** One step of every recursive function on strings. */
  lemma Steps(units: seq<unichar>, n: nat, ch: scalar)
    requires n == UnitCount(units) > 0 && ch == FirstScalar(units)
    ensures EncodeAll(units) == Utf8Of(ch) + EncodeAll(units[n..])
    ensures WellFormed(units) <==> WellFormed(units[n..])
    ensures units != []
  {
    hide Utf8Of, FirstScalar;
  }

  lemma BoundedStep(units: seq<unichar>, room: nat, n: nat, s: seq<byte>)
    requires Fits(units, room) && n == UnitCount(units) && s == Utf8Of(FirstScalar(units))
    ensures 0 < n <= |units| && |s| <= room
    ensures var rest := EncodeBounded(units[n..], room - |s|);
            EncodeBounded(units, room) == Encoded(n + rest.chars, s + rest.bytes)
  {
    hide FirstScalar;
  }

  lemma BoundedStop(units: seq<unichar>, room: nat)
    requires !Fits(units, room)
    ensures EncodeBounded(units, room) == Encoded(0, [])
  {
  }

  lemma EmptyEncoding()
    ensures EncodeAll([]) == [] && WellFormed([])
  {
  }

  /**
   A bounded call encodes exactly the units it reports, never splits a surrogate
   pair, and leaves the rest of the one-shot encoding to be produced from the rest
   of the string.
   */
  lemma {:induction false} BoundedIsPrefix(units: seq<unichar>, room: nat)
    ensures var e := EncodeBounded(units, room);
            && WellFormed(units[..e.chars])
            && e.bytes == EncodeAll(units[..e.chars])
            && EncodeAll(units) == e.bytes + EncodeAll(units[e.chars..])
    decreases |units|
  {
    hide *;
    if Fits(units, room) {
      FitsSome(units, room);
      var n, ch := UnitCount(units), FirstScalar(units);
      var s := Utf8Of(ch);
      BoundedStep(units, room, n, s);
      var tail := units[n..];
      var rest := EncodeBounded(tail, room - |s|);
      BoundedIsPrefix(tail, room - |s|);
      Steps(units, n, ch);
      Slices(units, n, rest.chars);
      PrefixScalar(units, n + rest.chars);
      Steps(units[..n + rest.chars], n, ch);
      assert (s + rest.bytes) + EncodeAll(units[n + rest.chars..]) == s + (rest.bytes + EncodeAll(units[n + rest.chars..]));
    } else {
      BoundedStop(units, room);
      EmptyEncoding();
      assert units[..0] == [] && units[0..] == units;
    }
  }

  lemma FitsSome(units: seq<unichar>, room: nat)
    requires Fits(units, room)
    ensures 0 < UnitCount(units) <= |units|
  {
  }

  /** Taking a prefix of a suffix, and a suffix of a suffix. */
  lemma Slices(units: seq<unichar>, n: nat, k: nat)
    requires n + k <= |units|
    ensures units[..n + k][n..] == units[n..][..k]
    ensures units[n..][k..] == units[n + k..]
  {
  }

  lemma PrefixScalar(units: seq<unichar>, k: nat)
    requires 0 < UnitCount(units) <= k <= |units|
    ensures UnitCount(units[..k]) == UnitCount(units) && FirstScalar(units[..k]) == FirstScalar(units)
  {
  }

  /**
   A bounded call stops only at the end, at an unpaired surrogate, or at a character
   that it does not take; in a buffer of fewer than 2^32 bytes that is one that does
   not fit.
   */
  lemma {:induction false} BoundedIsMaximal(units: seq<unichar>, room: nat)
    ensures var e := EncodeBounded(units, room); !Fits(units[e.chars..], room - |e.bytes|)
    ensures var e := EncodeBounded(units, room);
      room < TWO32 && UnitCount(units[e.chars..]) > 0 ==> room - |e.bytes| < BytesToWrite(FirstScalar(units[e.chars..]))
    decreases |units|
  {
    hide *;
    if Fits(units, room) {
      FitsSome(units, room);
      var n, s := UnitCount(units), Utf8Of(FirstScalar(units));
      BoundedStep(units, room, n, s);
      BoundedIsMaximal(units[n..], room - |s|);
      Slices(units, n, EncodeBounded(units[n..], room - |s|).chars);
    } else {
      BoundedStop(units, room);
      assert units[0..] == units;
      if room < TWO32 && UnitCount(units) > 0 {
        UncutRoom(units, room);
      }
    }
  }

  lemma UncutRoom(units: seq<unichar>, room: nat)
    requires !Fits(units, room) && room < TWO32 && UnitCount(units) > 0
    ensures room < BytesToWrite(FirstScalar(units))
  {
    hide FirstScalar;
  }

  /** A call gets anywhere exactly when it takes the first character. */
  lemma ProgressIff(units: seq<unichar>, room: nat)
    ensures EncodeBounded(units, room).chars > 0 <==> Fits(units, room)
  {
    hide FirstScalar, Utf8Of;
  }

  /** A room makes progress on every text exactly when at least four bytes of it are passed on. */
  lemma AlwaysProgress(room: nat)
    ensures (forall units :: WellFormed(units) && units != [] ==> EncodeBounded(units, room).chars > 0) <==> room % TWO32 >= 4
  {
    if room % TWO32 >= 4 {
      forall units | WellFormed(units) && units != [] ensures EncodeBounded(units, room).chars > 0 {
        Progress(units, room);
      }
    } else {
      var pair: seq<unichar> := [0xD800, 0xDC00];
      assert UnitCount(pair) == 2 && FirstScalar(pair) == 0x1_0000;
      assert WellFormed(pair[2..]);
      ProgressIff(pair, room);
    }
  }

  /** The smallest room above four bytes that is cut to nothing: 2^32 bytes do not take a two-byte character. */
  lemma CutRoomExample()
    ensures EncodeBounded([0x80], TWO32) == Encoded(0, []) && EncodeBounded([0x80], TWO32 - 1).chars == 1
  {
    ProgressIff([0x80], TWO32);
    ProgressIff([0x80], TWO32 - 1);
  }

  /** Repeated bounded calls, each continuing where the one before stopped, with a buffer of its own size. */
  function Resume(units: seq<unichar>, rooms: seq<nat>): (s: seq<byte>)
    decreases |rooms|
  {
    if rooms == [] then []
    else
      var e := EncodeBounded(units, rooms[0]);
      e.bytes + Resume(units[e.chars..], rooms[1..])
  }

  lemma {:induction false} WellFormedSuffix(units: seq<unichar>, room: nat)
    requires WellFormed(units)
    ensures WellFormed(units[EncodeBounded(units, room).chars..])
    decreases |units|
  {
    hide *;
    if Fits(units, room) {
      FitsSome(units, room);
      var n, ch := UnitCount(units), FirstScalar(units);
      var s := Utf8Of(ch);
      BoundedStep(units, room, n, s);
      Steps(units, n, ch);
      WellFormedSuffix(units[n..], room - |s|);
      Slices(units, n, EncodeBounded(units[n..], room - |s|).chars);
    } else {
      BoundedStop(units, room);
      assert units[0..] == units;
    }
  }

  lemma Progress(units: seq<unichar>, room: nat)
    requires WellFormed(units) && units != [] && room % TWO32 >= 4
    ensures EncodeBounded(units, room).chars > 0
  {
    hide FirstScalar, Utf8Of;
    ProgressIff(units, room);
  }

  /** With buffers of which at least four bytes are passed on, enough calls produce exactly the one-shot encoding. */
  lemma {:induction false} ResumeIsOneShot(units: seq<unichar>, rooms: seq<nat>)
    requires WellFormed(units) && |rooms| >= |units|
    requires forall i :: 0 <= i < |rooms| ==> rooms[i] % TWO32 >= 4
    ensures Resume(units, rooms) == EncodeAll(units)
    decreases |rooms|
  {
    if units == [] {
      ResumeNothing(rooms);
    } else {
      hide WellFormed, EncodeAll, EncodeBounded;
      var e := EncodeBounded(units, rooms[0]);
      BoundedIsPrefix(units, rooms[0]);
      WellFormedSuffix(units, rooms[0]);
      Progress(units, rooms[0]);
      ResumeIsOneShot(units[e.chars..], rooms[1..]);
    }
  }

  lemma {:induction false} ResumeNothing(rooms: seq<nat>)
    ensures Resume([], rooms) == []
    decreases |rooms|
  {
    if rooms != [] {
      ResumeNothing(rooms[1..]);
    }
  }

  /** Whatever the buffer sizes, repeated calls never produce anything but a prefix of the encoding. */
  lemma {:induction false} ResumeIsPrefix(units: seq<unichar>, rooms: seq<nat>)
    ensures Resume(units, rooms) <= EncodeAll(units)
    decreases |rooms|
  {
    hide EncodeAll, EncodeBounded;
    if rooms != [] {
      var e := EncodeBounded(units, rooms[0]);
      BoundedIsPrefix(units, rooms[0]);
      ResumeIsPrefix(units[e.chars..], rooms[1..]);
    }
  }

  // ----- decoding -----

  /** What the strict decoder accepts as one item: a character of the grammar, or a lone 0xA9. */
  predicate Item(s: seq<byte>) {
    Utf8Char(s) || s == [0xA9]
  }

  /** The length of the item at the start of the bytes, as the decoder's tests find it; 0 to stop. */
  function ItemLength(s: seq<byte>): (n: nat)
    ensures n <= |s| && n <= 4
  {
    if s == [] then 0
    else
      var extra := TrailingBytes(s[0]);
      if extra > |s| - 1 then 0
      else if extra > 3 || !IsLegal(s[..extra + 1]) then (if s[0] == 0xA9 then 1 else 0)
      else extra + 1
  }

  /** The tests of the decoder find exactly the items of the grammar. */
  lemma ItemFound(s: seq<byte>, n: nat)
    requires 0 < n <= |s|
    ensures ItemLength(s) == n <==> Item(s[..n])
  {
    LegalIsGrammar(s[..n]);
    var k := TrailingBytes(s[0]) + 1;
    if k <= |s| {
      LegalIsGrammar(s[..k]);
    }
    hide Utf8Char, IsLegal;
  }

  /** The units an item decodes to; a lone 0xA9 gives the replacement character. */
  function ItemUnits(s: seq<byte>): (u: seq<unichar>)
    requires Item(s)
    ensures |u| == 1 || |u| == 2
  {
    if s == [0xA9] then [0xFFFD]
    else
      CodePointScalar(s);
      Utf16(CodePoint(s))
  }

  datatype Decoded = Decoded(used: nat, units: seq<unichar>)

  function DecodeAll(s: seq<byte>): (d: Decoded)
    ensures d.used <= |s|
    decreases |s|
  {
    var n := ItemLength(s);
    if n == 0 then Decoded(0, [])
    else
      ItemFound(s, n);
      var rest := DecodeAll(s[n..]);
      Decoded(n + rest.used, ItemUnits(s[..n]) + rest.units)
  }

  /** A concatenation of items. */
  ghost predicate Text(s: seq<byte>)
    decreases |s|
  {
    s == [] || exists n :: 0 < n <= |s| && Item(s[..n]) && Text(s[n..])
  }

  lemma DecodeStep(s: seq<byte>, n: nat)
    requires n == ItemLength(s) > 0
    ensures Item(s[..n])
    ensures DecodeAll(s).used == n + DecodeAll(s[n..]).used
    ensures DecodeAll(s).units == ItemUnits(s[..n]) + DecodeAll(s[n..]).units
  {
    ItemFound(s, n);
    hide Item, ItemUnits, ItemLength;
  }

  lemma DecodeStop(s: seq<byte>)
    requires ItemLength(s) == 0
    ensures DecodeAll(s) == Decoded(0, [])
  {
  }

  lemma TextStep(s: seq<byte>, n: nat)
    requires 0 < n <= |s| && Item(s[..n])
    ensures Text(s[n..]) ==> Text(s)
  {
  }

  lemma ByteSlices(s: seq<byte>, n: nat, m: nat)
    requires n <= m <= |s|
    ensures s[..m][n..] == s[n..][..m - n] && s[..m][..n] == s[..n] && s[n..][m - n..] == s[m..]
  {
  }

  lemma {:induction false} DecodeConsumesText(s: seq<byte>)
    ensures Text(s[..DecodeAll(s).used])
    decreases |s|
  {
    hide *;
    var n := ItemLength(s);
    if n == 0 {
      DecodeStop(s);
      TextEmpty(s[..0]);
    } else {
      DecodeStep(s, n);
      DecodeConsumesText(s[n..]);
      var m := DecodeAll(s).used;
      ByteSlices(s, n, m);
      TextStep(s[..m], n);
    }
  }

  lemma TextEmpty(s: seq<byte>)
    requires s == []
    ensures Text(s)
  {
  }

  lemma {:induction false} TextIsConsumed(s: seq<byte>, m: nat)
    requires m <= |s| && Text(s[..m])
    ensures m <= DecodeAll(s).used
    decreases |s|
  {
    if m > 0 {
      var t := s[..m];
      var n :| 0 < n <= |t| && Item(t[..n]) && Text(t[n..]);
      ByteSlices(s, n, m);
      ItemFound(s, n);
      DecodeStep(s, n);
      hide *;
      TextIsConsumed(s[n..], m - n);
    }
  }

  /** The strict decoder consumes exactly the longest prefix that is a concatenation of items. */
  lemma DecodeConsumesLongest(s: seq<byte>)
    ensures Text(s[..DecodeAll(s).used])
    ensures forall m :: DecodeAll(s).used < m <= |s| ==> !Text(s[..m])
  {
    DecodeConsumesText(s);
    forall m | DecodeAll(s).used < m <= |s| ensures !Text(s[..m]) {
      if Text(s[..m]) {
        TextIsConsumed(s, m);
      }
    }
  }

  /** Decoding what has been encoded returns the same code units and uses every byte. */
  lemma {:induction false} EncodeThenDecode(units: seq<unichar>)
    requires WellFormed(units)
    ensures DecodeAll(EncodeAll(units)) == Decoded(|EncodeAll(units)|, units)
    decreases |units|
  {
    hide *;
    if units == [] {
      EmptyEncoding();
      ItemEmpty([]);
      DecodeStop([]);
    } else {
      WellFormedFirst(units);
      var n, ch := UnitCount(units), FirstScalar(units);
      var s, rest := Utf8Of(ch), EncodeAll(units[n..]);
      Steps(units, n, ch);
      EncodeThenDecode(units[n..]);
      Utf8OfGrammar(ch);
      FirstItem(s, rest, ch);
      DecodeStep(s + rest, |s|);
      assert (s + rest)[|s|..] == rest;
      assert units == units[..n] + units[n..];
    }
  }

  lemma WellFormedFirst(units: seq<unichar>)
    requires WellFormed(units) && units != []
    ensures 0 < UnitCount(units) <= |units|
  {
  }

  lemma FirstItem(s: seq<byte>, rest: seq<byte>, ch: scalar)
    requires s == Utf8Of(ch) && Utf8Char(s) && CodePoint(s) == ch
    ensures (s + rest)[..|s|] == s && ItemLength(s + rest) == |s| && ItemUnits(s) == Utf16(ch)
  {
    assert (s + rest)[..|s|] == s;
    ItemFound(s + rest, |s|);
  }

  /** Decoded strings are well formed. */
  lemma {:induction false} DecodedWellFormed(s: seq<byte>)
    ensures WellFormed(DecodeAll(s).units)
    decreases |s|
  {
    var n := ItemLength(s);
    if n > 0 {
      DecodeStep(s, n);
      DecodedWellFormed(s[n..]);
      ItemWellFormed(s[..n], DecodeAll(s[n..]).units);
    }
  }

  lemma ItemWellFormed(s: seq<byte>, rest: seq<unichar>)
    requires Item(s) && WellFormed(rest)
    ensures WellFormed(ItemUnits(s) + rest)
    ensures UnitCount(ItemUnits(s) + rest) == |ItemUnits(s)|
    ensures Utf16(FirstScalar(ItemUnits(s) + rest)) == ItemUnits(s)
  {
    var u := ItemUnits(s);
    assert (u + rest)[|u|..] == rest;
  }

  /** A concatenation of characters of the grammar alone, without lone 0xA9 bytes. */
  ghost predicate PureText(s: seq<byte>)
    decreases |s|
  {
    s == [] || (ItemLength(s) > 0 && s[0] != 0xA9 && PureText(s[ItemLength(s)..]))
  }

  lemma Utf16Injective(a: scalar, b: scalar)
    requires Utf16(a) == Utf16(b)
    ensures a == b
  {
  }

  /** Encoding what has been decoded restores the bytes, for text without lone 0xA9 bytes. */
  lemma {:induction false} DecodeThenEncode(s: seq<byte>)
    requires PureText(s)
    ensures DecodeAll(s).used == |s| && EncodeAll(DecodeAll(s).units) == s
    decreases |s|
  {
    hide *;
    if s == [] {
      ItemEmpty(s);
      DecodeStop(s);
      EmptyEncoding();
    } else {
      PureFirst(s);
      var n := ItemLength(s);
      DecodeStep(s, n);
      DecodeThenEncode(s[n..]);
      DecodedWellFormed(s[n..]);
      var item, rest := s[..n], DecodeAll(s[n..]).units;
      var u := ItemUnits(item);
      ItemWellFormed(item, rest);
      CodePointScalar(item);
      Utf16Injective(FirstScalar(u + rest), CodePoint(item));
      Steps(u + rest, |u|, CodePoint(item));
      assert (u + rest)[|u|..] == rest && s == item + s[n..];
    }
  }

  lemma ItemEmpty(s: seq<byte>)
    requires s == []
    ensures ItemLength(s) == 0
  {
  }

  lemma PureFirst(s: seq<byte>)
    requires PureText(s) && s != []
    ensures 0 < ItemLength(s) <= |s| && PureText(s[ItemLength(s)..])
    ensures Utf8Char(s[..ItemLength(s)])
    ensures 0 <= CodePoint(s[..ItemLength(s)]) < 0xD800 || 0xDFFF < CodePoint(s[..ItemLength(s)]) <= 0x10FFFF
    ensures ItemUnits(s[..ItemLength(s)]) == Utf16(CodePoint(s[..ItemLength(s)]))
  {
    ItemFound(s, ItemLength(s));
    CodePointScalar(s[..ItemLength(s)]);
  }

  // ----- decoding, item by item -----

  /** A lone 0xA9 stands for the replacement character; the encoding of a scalar value stands for its UTF-16 form. */
  ghost predicate StandsFor(item: seq<byte>, u: seq<unichar>) {
    (item == [0xA9] && u == [0xFFFD]) || exists ch: scalar :: Utf8Of(ch) == item && Utf16(ch) == u
  }

  /** The bytes split into items, and the units into what the items stand for, one after the other. */
  ghost predicate Decodes(s: seq<byte>, u: seq<unichar>)
    decreases |s|
  {
    if s == [] then u == []
    else exists n: nat, k: nat :: 0 < n <= |s| && k <= |u| && StandsFor(s[..n], u[..k]) && Decodes(s[n..], u[k..])
  }

  /** The items of the decoder are what stands for something, and it gives what they stand for. */
  lemma ItemStands(item: seq<byte>, u: seq<unichar>)
    ensures StandsFor(item, u) <==> Item(item) && ItemUnits(item) == u
  {
    if StandsFor(item, u) && item != [0xA9] {
      var ch: scalar :| Utf8Of(ch) == item && Utf16(ch) == u;
      Utf8OfGrammar(ch);
      hide Utf8Of, Utf8Char, Utf16, CodePoint;
    } else if item == [0xA9] {
      forall ch: scalar ensures Utf8Of(ch) != item {
        Utf8OfGrammar(ch);
      }
    } else if Item(item) && ItemUnits(item) == u {
      CodePointScalar(item);
      hide Utf8Of, Utf8Char, Utf16, CodePoint;
    }
  }

  /** All bytes decode to these units exactly when the items stand for them. */
  lemma {:induction false} DecodeMeaning(s: seq<byte>, u: seq<unichar>)
    ensures Decodes(s, u) <==> DecodeAll(s) == Decoded(|s|, u)
    decreases |s|
  {
    hide Item, ItemUnits, ItemLength, StandsFor;
    if s == [] {
      ItemEmpty(s);
      DecodeStop(s);
    } else {
      hide DecodeAll, Decodes;
      if Decodes(s, u) {
        ItemsDecode(s, u);
      }
      if DecodeAll(s) == Decoded(|s|, u) {
        DecodeMeansItems(s, u);
      }
    }
  }

  lemma {:induction false} ItemsDecode(s: seq<byte>, u: seq<unichar>)
    requires s != [] && Decodes(s, u)
    ensures DecodeAll(s) == Decoded(|s|, u)
    decreases |s|, 0
  {
    hide StandsFor, DecodeAll, Item, ItemUnits, ItemLength;
    var n: nat, k: nat :| 0 < n <= |s| && k <= |u| && StandsFor(s[..n], u[..k]) && Decodes(s[n..], u[k..]);
    hide Decodes;
    DecodeMeaning(s[n..], u[k..]);
    OneItem(s, u, n, k);
  }

  lemma OneItem(s: seq<byte>, u: seq<unichar>, n: nat, k: nat)
    requires 0 < n <= |s| && k <= |u| && StandsFor(s[..n], u[..k]) && DecodeAll(s[n..]) == Decoded(|s[n..]|, u[k..])
    ensures DecodeAll(s) == Decoded(|s|, u)
  {
    hide *;
    ItemStands(s[..n], u[..k]);
    ItemFound(s, n);
    DecodeStep(s, n);
    assert u == u[..k] + u[k..];
  }

  lemma {:induction false} DecodeMeansItems(s: seq<byte>, u: seq<unichar>)
    requires s != [] && DecodeAll(s) == Decoded(|s|, u)
    ensures Decodes(s, u)
    decreases |s|, 0
  {
    hide Item, ItemUnits, ItemLength, StandsFor, DecodeAll;
    var n := ItemLength(s);
    if n == 0 {
      DecodeStop(s);
    } else {
      DecodeStep(s, n);
      var k := |ItemUnits(s[..n])|;
      assert u[..k] == ItemUnits(s[..n]) && u[k..] == DecodeAll(s[n..]).units;
      ItemStands(s[..n], u[..k]);
      DecodeMeaning(s[n..], u[k..]);
    }
  }

  lemma {:induction false} UsedIsAll(s: seq<byte>)
    ensures DecodeAll(s[..DecodeAll(s).used]) == DecodeAll(s)
    decreases |s|
  {
    hide *;
    var n := ItemLength(s);
    if n == 0 {
      DecodeStop(s);
      ItemEmpty(s[..0]);
      DecodeStop(s[..0]);
    } else {
      DecodeStep(s, n);
      UsedIsAll(s[n..]);
      var m := DecodeAll(s).used;
      PrefixItem(s, n, m);
      ByteSlices(s, n, m);
      DecodeStep(s[..m], n);
    }
  }

  /** The bytes that the strict decoder uses split into items, and its units are what the items stand for. */
  lemma DecodesItems(s: seq<byte>)
    ensures Decodes(s[..DecodeAll(s).used], DecodeAll(s).units)
  {
    UsedIsAll(s);
    DecodeMeaning(s[..DecodeAll(s).used], DecodeAll(s).units);
    hide DecodeAll, Decodes;
  }

  /** A byte 0xA9 where an item starts is the replacement character, whatever follows it. */
  lemma LoneByte(s: seq<byte>)
    ensures DecodeAll([0xA9] + s) == Decoded(1 + DecodeAll(s).used, [0xFFFD] + DecodeAll(s).units)
  {
    var t := [0xA9] + s;
    assert t[..1] == [0xA9] && t[1..] == s;
    ItemFound(t, 1);
    DecodeStep(t, 1);
    hide DecodeAll, ItemLength;
  }

  /** The encodings of a greater scalar value come later in the order of bytes (section 1 of RFC 3629). */
  lemma Utf8Ordered(a: scalar, b: scalar)
    requires a < b
    ensures Before(Utf8Of(a), Utf8Of(b))
  {
    SixBits(a);
    SixBits(b);
    hide Utf8Of;
    FirstBytes(a);
    FirstBytes(b);
    if BytesToWrite(a) == BytesToWrite(b) {
      hide BytesToWrite;
      SameLengthOrdered(a, b);
    }
  }

  /** The ranges of the first byte. */
  lemma FirstBytes(ch: scalar)
    ensures |Utf8Of(ch)| == BytesToWrite(ch)
    ensures var b := Utf8Of(ch)[0];
      if ch < 0x80 then b < 0x80 else if ch < 0x800 then 0xC0 <= b < 0xE0 else if ch < 0x1_0000 then 0xE0 <= b < 0xF0 else 0xF0 <= b
  {
  }

  lemma SameLengthOrdered(a: scalar, b: scalar)
    requires a < b && BytesToWrite(a) == BytesToWrite(b)
    ensures Before(Utf8Of(a), Utf8Of(b))
  {
    SixBits(a);
    SixBits(b);
  }

  /** The first byte in which they differ is smaller. */
  predicate Before(s: seq<byte>, t: seq<byte>) {
    && s != [] && t != []
    && (s[0] < t[0] || (s[0] == t[0] && |s| > 1 && |t| > 1 && (s[1] < t[1] || (s[1] == t[1] && |s| > 2 && |t| > 2
        && (s[2] < t[2] || (s[2] == t[2] && |s| > 3 && |t| > 3 && s[3] < t[3]))))))
  }

  // ----- decoding into a buffer -----

  /**
   Decoding with room for a limited number of units. A surrogate pair that does not
   fit is dropped, but its bytes count as used.
   */
  function DecodeBounded(s: seq<byte>, room: nat): (d: Decoded)
    ensures d.used <= |s| && |d.units| <= room
    decreases |s|
  {
    var n := ItemLength(s);
    if room == 0 || n == 0 then Decoded(0, [])
    else
      ItemFound(s, n);
      var u := ItemUnits(s[..n]);
      if |u| > room then Decoded(n, [])
      else
        var rest := DecodeBounded(s[n..], room - |u|);
        Decoded(n + rest.used, u + rest.units)
  }

  /** The end of the buffer falls between the two units of a surrogate pair. */
  predicate SplitsPair(full: seq<unichar>, room: nat) {
    0 < room < |full| && High(full[room - 1])
  }

  lemma PrefixItem(s: seq<byte>, n: nat, m: nat)
    requires n == ItemLength(s) > 0 && n <= m <= |s|
    ensures ItemLength(s[..m]) == n
  {
    ItemFound(s, n);
    ItemFound(s[..m], n);
    ByteSlices(s, n, m);
    hide *;
  }

  lemma UnitsShape(item: seq<byte>)
    requires Item(item)
    ensures |ItemUnits(item)| == 1 ==> !High(ItemUnits(item)[0])
    ensures |ItemUnits(item)| == 2 ==> High(ItemUnits(item)[0]) && !High(ItemUnits(item)[1])
  {
  }

  lemma SplitsTail(u: seq<unichar>, rest: seq<unichar>, room: nat)
    requires 1 <= |u| <= 2 && |u| <= room && !High(u[|u| - 1])
    ensures SplitsPair(u + rest, room) <==> SplitsPair(rest, room - |u|)
  {
  }

  function Least(a: nat, b: nat): nat {
    if a < b then a else b
  }

  /** What a bounded decode produces, and what its used bytes decode to. */
  ghost predicate BoundedResult(s: seq<byte>, room: nat, d: Decoded) {
    var full := DecodeAll(s).units;
    && d.used <= |s|
    && (if SplitsPair(full, room)
        then d.units == full[..room - 1] && |DecodeAll(s[..d.used]).units| == room + 1
        else d.units == full[..Least(room, |full|)] && DecodeAll(s[..d.used]).units == d.units)
  }

  lemma {:induction false} BoundedDecode(s: seq<byte>, room: nat)
    ensures BoundedResult(s, room, DecodeBounded(s, room))
    decreases |s|
  {
    var n := ItemLength(s);
    if room == 0 || n == 0 {
      ItemEmpty(s[..0]);
      DecodeStop(s[..0]);
      if n == 0 {
        DecodeStop(s);
      }
    } else {
      BoundedDecodeStep(s, room, n);
    }
  }

  lemma DecodeBoundedUnfold(s: seq<byte>, room: nat, n: nat)
    requires n == ItemLength(s) > 0 && room > 0
    ensures Item(s[..n])
    ensures |ItemUnits(s[..n])| > room ==> DecodeBounded(s, room) == Decoded(n, [])
    ensures |ItemUnits(s[..n])| <= room ==>
              DecodeBounded(s, room).used == n + DecodeBounded(s[n..], room - |ItemUnits(s[..n])|).used
    ensures |ItemUnits(s[..n])| <= room ==>
              DecodeBounded(s, room).units == ItemUnits(s[..n]) + DecodeBounded(s[n..], room - |ItemUnits(s[..n])|).units
  {
    ItemFound(s, n);
    hide Item, ItemUnits, ItemLength;
  }

  lemma {:induction false} BoundedDecodeStep(s: seq<byte>, room: nat, n: nat)
    requires n == ItemLength(s) > 0 && room > 0
    ensures BoundedResult(s, room, DecodeBounded(s, room))
    decreases |s|, 0
  {
    hide ItemLength, ItemUnits, Item, DecodeAll, DecodeBounded;
    DecodeBoundedUnfold(s, room, n);
    DecodeStep(s, n);
    var u, tail := ItemUnits(s[..n]), s[n..];
    UnitsShape(s[..n]);
    if |u| > room {
      PrefixItem(s, n, n);
      DecodeStep(s[..n], n);
      assert s[..n][..n] == s[..n];
      ItemEmpty(s[..n][n..]);
      DecodeStop(s[..n][n..]);
    } else {
      hide SplitsPair;
      BoundedDecode(tail, room - |u|);
      var rest := DecodeBounded(tail, room - |u|);
      PrefixItem(s, n, n + rest.used);
      DecodeStep(s[..n + rest.used], n);
      ByteSlices(s, n, n + rest.used);
      SplitsTail(u, DecodeAll(tail).units, room);
      BoundedGlue(u, rest.units, DecodeAll(tail).units, room, DecodeAll(tail[..rest.used]).units);
    }
  }

  lemma BoundedGlue(u: seq<unichar>, out: seq<unichar>, full: seq<unichar>, room: nat, used: seq<unichar>)
    requires |u| <= room
    requires if SplitsPair(full, room - |u|) then out == full[..room - |u| - 1] && |used| == room - |u| + 1
             else out == full[..Least(room - |u|, |full|)] && used == out
    ensures if SplitsPair(full, room - |u|) then u + out == (u + full)[..room - 1] && |u + used| == room + 1
            else u + out == (u + full)[..Least(room, |u + full|)] && u + used == u + out
  {
  }

  /**
   A bounded decode accounts for every byte it reports as used exactly when the
   buffer does not end inside a surrogate pair of the full decoding.
   */
  lemma BoundedDecodeFaithful(s: seq<byte>, room: nat)
    ensures DecodeAll(s[..DecodeBounded(s, room).used]).units == DecodeBounded(s, room).units
       <==> !SplitsPair(DecodeAll(s).units, room)
  {
    BoundedDecode(s, room);
  }

  lemma {:induction false} BoundedUsesItems(s: seq<byte>, room: nat)
    ensures var used := DecodeBounded(s, room).used; DecodeAll(s[..used]).used == used
    decreases |s|
  {
    hide *;
    var n := ItemLength(s);
    if room == 0 || n == 0 {
      BoundedNothing(s, room);
      ItemEmpty(s[..0]);
      DecodeStop(s[..0]);
    } else {
      DecodeBoundedUnfold(s, room, n);
      var k := |ItemUnits(s[..n])|;
      var more := if k > room then 0 else DecodeBounded(s[n..], room - k).used;
      if k > room {
        ItemEmpty(s[n..][..0]);
        DecodeStop(s[n..][..0]);
      } else {
        BoundedUsesItems(s[n..], room - k);
      }
      PrefixItem(s, n, n + more);
      ByteSlices(s, n, n + more);
      DecodeStep(s[..n + more], n);
    }
  }

  lemma BoundedNothing(s: seq<byte>, room: nat)
    requires room == 0 || ItemLength(s) == 0
    ensures DecodeBounded(s, room) == Decoded(0, [])
  {
  }

  /**
   The units of a bounded decode are what the items of the used bytes stand for, exactly
   when the buffer does not end inside a surrogate pair of the full decoding.
   */
  lemma BoundedDecodesItems(s: seq<byte>, room: nat)
    ensures var d := DecodeBounded(s, room);
      Decodes(s[..d.used], d.units) <==> !SplitsPair(DecodeAll(s).units, room)
  {
    var d := DecodeBounded(s, room);
    BoundedDecodeFaithful(s, room);
    BoundedUsesItems(s, room);
    DecodeMeaning(s[..d.used], d.units);
    hide DecodeBounded, DecodeAll, Decodes, SplitsPair;
  }

  /** The smallest input that loses bytes: one supplementary character and one unit of room. */
  lemma SplitPairIsLost()
    ensures DecodeBounded([0xF0, 0x90, 0x80, 0x80], 1) == Decoded(4, [])
  {
    var s: seq<byte> := [0xF0, 0x90, 0x80, 0x80];
    assert s[..4] == s && Utf8Char(s);
    ItemFound(s, 4);
  }

  /** With room for everything nothing is lost. */
  lemma {:induction false} EnoughRoom(s: seq<byte>, room: nat)
    requires |DecodeAll(s).units| <= room
    ensures DecodeBounded(s, room) == DecodeAll(s)
    decreases |s|
  {
    var n := ItemLength(s);
    if n > 0 {
      DecodeStep(s, n);
      EnoughRoom(s[n..], room - |ItemUnits(s[..n])|);
      hide ItemLength, ItemUnits, Item, DecodeAll;
    }
  }
}
