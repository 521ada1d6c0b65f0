/** The UTF-8 converter as it runs: loops over source and destination positions, with buffers written in place. */
module Utf8Run {
  import opened Machine
  import opened Bytes
  import opened Utf8

  /** __CFToUTF8Core: the bytes of one character from the last to the first, if they fit in a 32-bit length. */
  method ToUtf8Core(ch: scalar, bytes: array<byte>, at: nat, maxByteLen: nat) returns (written: nat)
    requires maxByteLen < TWO32 && at + maxByteLen <= bytes.Length
    modifies bytes
    ensures written == if maxByteLen < BytesToWrite(ch) then 0 else BytesToWrite(ch)
    ensures bytes[..at] == old(bytes[..at]) && bytes[at + written..] == old(bytes[at + written..])
    ensures written > 0 ==> bytes[at..at + written] == Utf8Of(ch)
  {
    written := BytesToWrite(ch);
    if maxByteLen < written {
      return 0;
    }
    ByteParts(ch);
    hide Utf8Of, BytesToWrite, Shift6, Tail6, FirstByteMark;
    ghost var s := Utf8Of(ch);
    var rest: nat := ch;
    if written >= 4 {
      bytes[at + 3] := Tail6(rest);
      rest := Shift6(rest);
    }
    if written >= 3 {
      bytes[at + 2] := Tail6(rest);
      rest := Shift6(rest);
    }
    if written >= 2 {
      bytes[at + 1] := Tail6(rest);
      rest := Shift6(rest);
    }
    bytes[at] := rest + FirstByteMark(written);
    assert forall k :: 0 <= k < written ==> bytes[at + k] == s[k];
  }

  /** ch >> 6 */
  function Shift6(x: nat): nat {
    x / 64
  }

  /** (ch | byteMark) & byteMask: a continuation byte with the low six bits. */
  function Tail6(x: nat): byte {
    0x80 + x % 64
  }

  /** firstByteMark */
  function FirstByteMark(n: nat): nat {
    if n == 1 then 0 else if n == 2 then 0xC0 else if n == 3 then 0xE0 else 0xF0
  }

  /** The encoding by repeated shifts, for each length. */
  lemma ByteParts(ch: scalar)
    ensures var s, r1 := Utf8Of(ch), Shift6(ch);
      var r2 := Shift6(r1);
      var r3 := Shift6(r2);
      && |s| == BytesToWrite(ch) && 1 <= |s| <= 4
      && (|s| == 1 ==> ch + FirstByteMark(1) < 256 && s == [ch + FirstByteMark(1)])
      && (|s| == 2 ==> r1 + FirstByteMark(2) < 256 && s == [r1 + FirstByteMark(2), Tail6(ch)])
      && (|s| == 3 ==> r2 + FirstByteMark(3) < 256 && s == [r2 + FirstByteMark(3), Tail6(r1), Tail6(ch)])
      && (|s| == 4 ==> r3 + FirstByteMark(4) < 256 && s == [r3 + FirstByteMark(4), Tail6(r2), Tail6(r1), Tail6(ch)])
  {
    SixBits(ch);
  }

  /** The strict reading of one character: combines a pair, stops at an unpaired surrogate. */
  method NextScalar(units: seq<unichar>, pos: nat) returns (n: nat, ch: int)
    requires pos < |units|
    ensures n == UnitCount(units[pos..])
    ensures n > 0 ==> ch == FirstScalar(units[pos..])
  {
    ch := units[pos];
    n := 1;
    if ch >= 0xD800 {
      if ch <= 0xDBFF {
        if pos + 1 < |units| && 0xDC00 <= units[pos + 1] <= 0xDFFF {
          var low: int := units[pos + 1];
          ch := (ch - 0xD800) * 0x400 + (low - 0xDC00) + 0x1_0000;
          n := 2;
        } else {
          n := 0;
        }
      } else if ch <= 0xDFFF {
        n := 0;
      }
    }
  }

  /**
   __CFToUTF8. With maxByteLen 0 nothing is written and there is no limit; the
   results are then the sizes of the whole conversion.
   */
  method ToUtf8(units: seq<unichar>, bytes: array<byte>, maxByteLen: nat) returns (chars: nat, used: nat)
    requires maxByteLen <= bytes.Length
    modifies bytes
    ensures maxByteLen > 0 ==> used <= maxByteLen && Encoded(chars, bytes[..used]) == EncodeBounded(units, maxByteLen)
    ensures maxByteLen > 0 ==> bytes[used..] == old(bytes[used..])
    ensures maxByteLen == 0 ==> chars == WellFormedLength(units) && used == |EncodeAll(units)| && bytes[..] == old(bytes[..])
  {
    hide FirstScalar, Utf8Of, EncodeBounded, UnitCount, Fits, BytesToWrite, Continues, Counts;
    ghost var out: seq<byte> := [];
    ghost var was := bytes[..];
    chars, used := 0, 0;
    Start(units, maxByteLen);
    while chars < |units| && (maxByteLen == 0 || used < maxByteLen)
      invariant chars <= |units| && used == |out|
      invariant maxByteLen > 0 ==> used <= maxByteLen && bytes[..used] == out && Continues(units, maxByteLen, chars, out)
      invariant maxByteLen > 0 ==> bytes[used..] == was[used..]
      invariant maxByteLen == 0 ==> Counts(units, chars, used) && bytes[..] == old(bytes[..])
      decreases |units| - chars
    {
      var n, ch := NextScalar(units, chars);
      StopsAt(units[chars..], maxByteLen - used, n, ch);
      if n == 0 {
        break;
      }
      ghost var before := bytes[..];
      var written := PutScalar(ch, bytes, used, maxByteLen);
      if written == 0 {
        break;
      }
      if maxByteLen > 0 {
        assert before[used..][written..] == before[used + written..] && was[used..][written..] == was[used + written..];
        ContinuesStep(units, maxByteLen, chars, out, n, ch);
      } else {
        CountsStep(units, chars, used, n, ch);
      }
      out := out + Utf8Of(ch);
      chars, used := chars + n, used + written;
    }
    NothingLeft(units, chars, maxByteLen - used);
    if maxByteLen > 0 {
      ContinuesEnd(units, maxByteLen, chars, out);
    } else {
      CountsEnd(units, chars, used);
    }
  }

  /** One character: a single byte directly, more through the core with the room that is left, cut to 32 bits. */
  method PutScalar(ch: scalar, bytes: array<byte>, used: nat, maxByteLen: nat) returns (written: nat)
    requires maxByteLen <= bytes.Length && (maxByteLen > 0 ==> used < maxByteLen)
    modifies bytes
    ensures maxByteLen == 0 ==> written == |Utf8Of(ch)|
    ensures maxByteLen > 0 ==> written == if Taken(ch, maxByteLen - used) then |Utf8Of(ch)| else 0
    ensures maxByteLen > 0 && written > 0 ==> bytes[..used + written] == old(bytes[..used]) + Utf8Of(ch)
    ensures maxByteLen > 0 ==> bytes[..used] == old(bytes[..used]) && bytes[used + written..] == old(bytes[used + written..])
    ensures maxByteLen == 0 ==> bytes[..] == old(bytes[..])
  {
    if ch < 0x80 {
      if maxByteLen > 0 {
        bytes[used] := ch;
      }
      return 1;
    }
    if maxByteLen == 0 {
      return BytesToWrite(ch);
    }
    hide Utf8Of, BytesToWrite;
    written := ToUtf8Core(ch, bytes, used, (maxByteLen - used) % TWO32);
    assert bytes[..used + written] == bytes[..used] + bytes[used..used + written];
  }

  /** An unpaired surrogate stops the loop, and so does a character that is not taken. */
  lemma StopsAt(rest: seq<unichar>, room: int, n: nat, ch: int)
    requires n == UnitCount(rest) && (n > 0 ==> ch == FirstScalar(rest))
    ensures n == 0 ==> room < 0 || !Fits(rest, room)
    ensures n > 0 && room >= 0 && !Taken(ch, room) ==> !Fits(rest, room)
  {
    hide FirstScalar;
  }

  lemma NothingLeft(units: seq<unichar>, chars: nat, room: int)
    requires chars <= |units|
    ensures chars == |units| ==> UnitCount(units[chars..]) == 0
    ensures chars == |units| || room == 0 ==> room < 0 || !Fits(units[chars..], room)
  {
    hide FirstScalar;
  }

  lemma Start(units: seq<unichar>, room: nat)
    ensures Continues(units, room, 0, []) && Counts(units, 0, 0)
  {
    hide EncodeBounded;
    assert units[0..] == units;
    assert [] + EncodeBounded(units, room).bytes == EncodeBounded(units, room).bytes;
  }

  /** `chars` units are `used` bytes, and the sizes of the rest are still to come. */
  ghost predicate Counts(units: seq<unichar>, chars: nat, used: nat)
    requires chars <= |units|
  {
    && WellFormedLength(units) == chars + WellFormedLength(units[chars..])
    && |EncodeAll(units)| == used + |EncodeAll(units[chars..])|
  }

  lemma CountsStep(units: seq<unichar>, chars: nat, used: nat, n: nat, ch: scalar)
    requires chars <= |units| && Counts(units, chars, used)
    requires n == UnitCount(units[chars..]) > 0 && ch == FirstScalar(units[chars..])
    ensures chars + n <= |units| && Counts(units, chars + n, used + |Utf8Of(ch)|)
  {
    hide FirstScalar, Utf8Of;
    Slices(units, chars, n);
  }

  lemma CountsEnd(units: seq<unichar>, chars: nat, used: nat)
    requires chars <= |units| && Counts(units, chars, used) && UnitCount(units[chars..]) == 0
    ensures WellFormedLength(units) == chars && |EncodeAll(units)| == used
  {
  }

  /** After `chars` units the bytes `out` have been produced, and the rest is a bounded encoding of its own. */
  ghost predicate Continues(units: seq<unichar>, room: nat, chars: nat, out: seq<byte>)
    requires chars <= |units| && |out| <= room
  {
    var rest := EncodeBounded(units[chars..], room - |out|);
    EncodeBounded(units, room) == Encoded(chars + rest.chars, out + rest.bytes)
  }

  lemma ContinuesStep(units: seq<unichar>, room: nat, chars: nat, out: seq<byte>, n: nat, ch: scalar)
    requires chars <= |units| && |out| <= room && Continues(units, room, chars, out)
    requires n == UnitCount(units[chars..]) > 0 && ch == FirstScalar(units[chars..]) && Taken(ch, room - |out|)
    ensures chars + n <= |units| && |out + Utf8Of(ch)| <= room && Continues(units, room, chars + n, out + Utf8Of(ch))
  {
    hide FirstScalar, Utf8Of, EncodeBounded, Taken;
    var s := Utf8Of(ch);
    BoundedStep(units[chars..], room - |out|, n, s);
    Slices(units, chars, n);
    var rest := EncodeBounded(units[chars + n..], room - |out + s|);
    assert out + (s + rest.bytes) == (out + s) + rest.bytes;
  }

  lemma ContinuesEnd(units: seq<unichar>, room: nat, chars: nat, out: seq<byte>)
    requires chars <= |units| && |out| <= room && Continues(units, room, chars, out)
    ensures !Fits(units[chars..], room - |out|) ==> EncodeBounded(units, room) == Encoded(chars, out)
  {
    if !Fits(units[chars..], room - |out|) {
      BoundedStop(units[chars..], room - |out|);
      hide EncodeBounded;
    }
  }

  /** The number of bytes of a string, unpaired surrogates counted as three bytes each. */
  function EncodedLength(units: seq<unichar>): nat
    decreases |units|
  {
    if units == [] then 0
    else if UnitCount(units) == 2 then 4 + EncodedLength(units[2..])
    else BytesToWrite(units[0]) + EncodedLength(units[1..])
  }

  /** __CFToUTF8Len, with its 32-bit counter. */
  method ToUtf8Len(units: seq<unichar>) returns (bytesToWrite: nat)
    ensures bytesToWrite == Cut32(EncodedLength(units))
  {
    assert Cut32(0) == 0;
    hide EncodedLength, BytesToWrite, Cut32;
    bytesToWrite := 0;
    var pos := 0;
    ghost var total: nat := 0;
    assert units[0..] == units;
    while pos < |units|
      invariant pos <= |units| && bytesToWrite == Cut32(total)
      invariant EncodedLength(units) == total + EncodedLength(units[pos..])
    {
      LengthStep(units, pos);
      var ch: nat := units[pos];
      if High(ch) && pos + 1 < |units| && Low(units[pos + 1]) {
        var low: int := units[pos + 1];
        ch := (ch - 0xD800) * 0x400 + (low - 0xDC00) + 0x1_0000;
        FourBytes(ch);
        pos := pos + 1;
      }
      pos := pos + 1;
      CutAdd(total, BytesToWrite(ch));
      bytesToWrite := Cut32(bytesToWrite + BytesToWrite(ch));
      total := total + BytesToWrite(ch);
    }
    LengthEnd(units[pos..]);
  }

  /** The value of a 32-bit counter. */
  function Cut32(x: nat): nat {
    x % TWO32
  }

  lemma CutAdd(x: nat, y: nat)
    ensures Cut32(Cut32(x) + y) == Cut32(x + y)
  {
  }

  lemma LengthStep(units: seq<unichar>, pos: nat)
    requires pos < |units|
    ensures EncodedLength(units[pos..]) ==
              if High(units[pos]) && pos + 1 < |units| && Low(units[pos + 1]) then 4 + EncodedLength(units[pos + 2..])
              else BytesToWrite(units[pos]) + EncodedLength(units[pos + 1..])
  {
    assert units[pos..][1..] == units[pos + 1..];
    if pos + 1 < |units| {
      assert units[pos..][2..] == units[pos + 2..];
    }
  }

  lemma FourBytes(ch: nat)
    requires 0x1_0000 <= ch <= 0x10FFFF
    ensures BytesToWrite(ch) == 4
  {
  }

  lemma LengthEnd(units: seq<unichar>)
    requires units == []
    ensures EncodedLength(units) == 0
  {
  }

  /** The predicted length is the length of the encoding, for well-formed strings. */
  lemma {:induction false} LengthPredicted(units: seq<unichar>)
    requires WellFormed(units)
    ensures EncodedLength(units) == |EncodeAll(units)|
    decreases |units|
  {
    if units != [] {
      LengthPredicted(units[UnitCount(units)..]);
    }
  }

  /** The string with the replacement character for every unpaired surrogate. */
  function Mended(units: seq<unichar>): (r: seq<unichar>)
    decreases |units|
  {
    if units == [] then []
    else if UnitCount(units) == 0 then [0xFFFD] + Mended(units[1..])
    else units[..UnitCount(units)] + Mended(units[UnitCount(units)..])
  }

  /** `r` is the string with some unpaired surrogates replaced. */
  ghost predicate Mends(units: seq<unichar>, r: seq<unichar>) {
    && |r| == |units|
    && forall i :: 0 <= i < |units| ==> r[i] == units[i] || (r[i] == 0xFFFD && (High(units[i]) || Low(units[i])))
  }

  /** Nothing else is changed, and the result has no unpaired surrogates. */
  lemma {:induction false} MendedShape(units: seq<unichar>)
    ensures Mends(units, Mended(units)) && WellFormed(Mended(units))
    ensures WellFormed(units) ==> Mended(units) == units
    decreases |units|
  {
    if units != [] {
      var n := if UnitCount(units) == 0 then 1 else UnitCount(units);
      MendedShape(units[n..]);
      var first: seq<unichar> := if UnitCount(units) == 0 then [0xFFFD] else units[..n];
      var tail := Mended(units[n..]);
      assert Mended(units) == first + tail;
      assert UnitCount(first) == |first| && Mends(units[..n], first);
      hide Mended;
      MendedFirst(first, tail);
      assert units == units[..n] + units[n..];
      MendsJoin(units[..n], units[n..], first, tail);
    }
  }

  lemma MendsJoin(a: seq<unichar>, b: seq<unichar>, r: seq<unichar>, t: seq<unichar>)
    requires Mends(a, r) && Mends(b, t)
    ensures Mends(a + b, r + t)
  {
  }

  lemma MendedFirst(first: seq<unichar>, tail: seq<unichar>)
    requires UnitCount(first) == |first| > 0 && WellFormed(tail)
    ensures WellFormed(first + tail)
  {
    assert (first + tail)[|first|..] == tail;
  }

  /** For any string the predicted length is the length of its encoding with replacement characters for unpaired surrogates. */
  lemma {:induction false} LengthMended(units: seq<unichar>)
    ensures EncodedLength(units) == |EncodeAll(Mended(units))|
    decreases |units|
  {
    if units != [] {
      var n := if UnitCount(units) == 0 then 1 else UnitCount(units);
      LengthMended(units[n..]);
      var first: seq<unichar> := if UnitCount(units) == 0 then [0xFFFD] else units[..n];
      var tail := Mended(units[n..]);
      assert (first + tail)[n..] == tail && Mended(units) == first + tail;
    }
  }

  /** The counter of __CFToUTF8Len gives the length of the encoding exactly when that is below 2^32. */
  lemma PredictionExact(units: seq<unichar>)
    requires WellFormed(units)
    ensures Cut32(EncodedLength(units)) == |EncodeAll(units)| <==> |EncodeAll(units)| < TWO32
  {
    LengthPredicted(units);
  }

  lemma {:induction false} AsciiLength(units: seq<unichar>)
    requires forall i :: 0 <= i < |units| ==> units[i] < 0x80
    ensures WellFormed(units) && |EncodeAll(units)| == |units|
    decreases |units|
  {
    if units != [] {
      AsciiLength(units[1..]);
    }
  }

  /** 2^32 letters have 2^32 bytes, and the counter says none. */
  lemma LongTextExample()
    ensures var units: seq<unichar> := seq(TWO32, _ => 0x61);
      WellFormed(units) && |EncodeAll(units)| == TWO32 && Cut32(EncodedLength(units)) == 0
  {
    var units: seq<unichar> := seq(TWO32, _ => 0x61);
    AsciiLength(units);
    LengthPredicted(units);
    hide EncodeAll, EncodedLength, WellFormed;
  }

  /** __CFIsLegalUTF8: continuation bytes from the last to the second, then the first two bytes. */
  method IsLegalUtf8(s: seq<byte>) returns (legal: bool)
    requires |s| >= 1 && |s| == TrailingBytes(s[0]) + 1
    ensures legal == Utf8Char(s)
  {
    LegalIsGrammar(s);
    if |s| > 4 {
      return false;
    }
    var k := |s| - 1;
    while k > 0
      invariant 0 <= k < |s|
      invariant forall i :: k < i < |s| ==> Tail(s[i])
    {
      if !Tail(s[k]) {
        return false;
      }
      k := k - 1;
    }
    if 0x80 <= s[0] < 0xC2 || s[0] > 0xF4 {
      return false;
    }
    if (s[0] == 0xE0 && s[1] < 0xA0) || (s[0] == 0xED && s[1] > 0x9F) || (s[0] == 0xF0 && s[1] < 0x90) || (s[0] == 0xF4 && s[1] > 0x8F) {
      return false;
    }
    legal := true;
  }

  /** The code point of the item at `pos`; the replacement character for a lone 0xA9. */
  method NextItem(bytes: seq<byte>, pos: nat) returns (n: nat, ch: int)
    requires pos < |bytes|
    ensures n == ItemLength(bytes[pos..])
    ensures n > 0 ==> Item(bytes[pos..][..n]) && (0 <= ch < 0xD800 || 0xDFFF < ch <= 0x10FFFF) && ItemUnits(bytes[pos..][..n]) == Utf16(ch)
    ensures n > 0 ==> if bytes[pos] == 0xA9 then n == 1 && ch == 0xFFFD else bytes[pos..][..n] == Utf8Of(ch)
  {
    ghost var rest := bytes[pos..];
    var extra := TrailingBytes(bytes[pos]);
    ch := 0;
    if extra > |bytes| - pos - 1 {
      return 0, 0;
    }
    var item := bytes[pos..pos + extra + 1];
    assert item == rest[..extra + 1];
    var legal := IsLegalUtf8(item);
    LegalIsGrammar(item);
    ItemFound(rest, extra + 1);
    if extra > 3 || !legal {
      if bytes[pos] == 0xA9 {
        return 1, 0xFFFD;
      }
      return 0, 0;
    }
    CodePointScalar(item);
    hide *;
    ch := Accumulate(item);
    n := extra + 1;
    CharUnits(item);
  }

  lemma CharUnits(item: seq<byte>)
    requires Utf8Char(item)
    ensures 0 <= CodePoint(item) < 0xD800 || 0xDFFF < CodePoint(item) <= 0x10FFFF
    ensures Item(item) && ItemUnits(item) == Utf16(CodePoint(item))
  {
    CodePointScalar(item);
  }

  /** Shifts six bits for each byte, then subtracts the markers of all bytes at once. */
  method Accumulate(item: seq<byte>) returns (ch: int)
    requires Utf8Char(item)
    ensures ch == CodePoint(item)
  {
    ch := 0;
    var k := 0;
    while k < |item|
      invariant k <= |item|
      invariant k == 0 ==> ch == 0
      invariant k == 1 ==> ch == item[0]
      invariant k == 2 ==> ch == item[0] as int * 64 + item[1]
      invariant k == 3 ==> ch == (item[0] as int * 64 + item[1]) * 64 + item[2]
      invariant k == 4 ==> ch == ((item[0] as int * 64 + item[1]) * 64 + item[2]) * 64 + item[3]
    {
      ch := ch * 64 + item[k];
      k := k + 1;
    }
    ch := ch - [0, 0x3080, 0xE_2080, 0x3C8_2080][|item| - 1];
  }

  /** After `used` bytes the units `out` have been produced, and the rest is a bounded decode of its own. */
  ghost predicate Proceeds(bytes: seq<byte>, room: nat, used: nat, out: seq<unichar>)
    requires used <= |bytes| && |out| <= room
  {
    var rest := DecodeBounded(bytes[used..], room - |out|);
    DecodeBounded(bytes, room) == Decoded(used + rest.used, out + rest.units)
  }

  lemma ProceedsStep(bytes: seq<byte>, room: nat, used: nat, out: seq<unichar>, n: nat, u: seq<unichar>)
    requires used <= |bytes| && |out| < room && Proceeds(bytes, room, used, out)
    requires n == ItemLength(bytes[used..]) > 0 && Item(bytes[used..][..n]) && u == ItemUnits(bytes[used..][..n])
    ensures used + n <= |bytes|
    ensures |u| > room - |out| ==> DecodeBounded(bytes, room) == Decoded(used + n, out)
    ensures |u| <= room - |out| ==> Proceeds(bytes, room, used + n, out + u)
  {
    hide DecodeBounded, ItemLength, Item, ItemUnits;
    DecodeBoundedUnfold(bytes[used..], room - |out|, n);
    assert bytes[used..][n..] == bytes[used + n..];
    if |u| <= room - |out| {
      var rest := DecodeBounded(bytes[used + n..], room - |out| - |u|);
      assert out + (u + rest.units) == (out + u) + rest.units;
    }
  }

  lemma ProceedsEnd(bytes: seq<byte>, room: nat, used: nat, out: seq<unichar>)
    requires used <= |bytes| && |out| <= room && Proceeds(bytes, room, used, out)
    requires used == |bytes| || |out| == room || ItemLength(bytes[used..]) == 0
    ensures DecodeBounded(bytes, room) == Decoded(used, out)
  {
    assert DecodeBounded(bytes[used..], room - |out|) == Decoded(0, []);
    hide DecodeBounded;
  }

  /** Nothing decodes to more units than it has bytes. */
  lemma {:induction false} NotLonger(s: seq<byte>)
    ensures |DecodeAll(s).units| <= |s|
    decreases |s|
  {
    var n := ItemLength(s);
    if n > 0 {
      DecodeStep(s, n);
      ItemNotLonger(s[..n]);
      NotLonger(s[n..]);
      hide *;
    }
  }

  lemma ItemNotLonger(item: seq<byte>)
    requires Item(item)
    ensures |ItemUnits(item)| <= |item|
  {
    if item != [0xA9] {
      CodePointScalar(item);
    }
  }

  /**
   __CFFromUTF8 with flags 0. With maxCharLen 0 nothing is written and there is no
   limit. The source's later tests for surrogates and for values above 0x10FFFF
   cannot succeed on a legal sequence.
   */
  method FromUtf8(bytes: seq<byte>, characters: array<unichar>, maxCharLen: nat) returns (used: nat, count: nat)
    requires maxCharLen <= characters.Length
    modifies characters
    ensures maxCharLen > 0 ==> count <= maxCharLen && Decoded(used, characters[..count]) == DecodeBounded(bytes, maxCharLen)
    ensures maxCharLen == 0 ==> used == DecodeAll(bytes).used && count == |DecodeAll(bytes).units|
    ensures maxCharLen > 0 ==>
      used <= |bytes| && count <= maxCharLen &&
      (Decodes(bytes[..used], characters[..count]) <==> !SplitsPair(DecodeAll(bytes).units, maxCharLen))
  {
    BoundedDecodesItems(bytes, maxCharLen);
    hide Decodes, SplitsPair;
    hide DecodeBounded, DecodeAll, ItemLength, Item, ItemUnits;
    NotLonger(bytes);
    ghost var room := if maxCharLen == 0 then 2 * |bytes| + 2 else maxCharLen;
    ghost var out: seq<unichar> := [];
    EnoughRoom(bytes, 2 * |bytes| + 2);
    used, count := 0, 0;
    assert bytes[0..] == bytes;
    while used < |bytes| && (maxCharLen == 0 || count < maxCharLen)
      invariant used <= |bytes| && count == |out| <= room
      invariant maxCharLen > 0 ==> count <= maxCharLen && characters[..count] == out
      invariant maxCharLen == 0 ==> count <= 2 * used
      invariant Proceeds(bytes, room, used, out)
      decreases |bytes| - used
    {
      var n, ch := NextItem(bytes, used);
      if n == 0 {
        ProceedsEnd(bytes, room, used, out);
        return;
      }
      ghost var u := Utf16(ch);
      ProceedsStep(bytes, room, used, out, n, u);
      used := used + n;
      if maxCharLen > 0 {
        if ch < 0x1_0000 {
          characters[count] := ch;
        } else {
          if count + 2 > maxCharLen {
            return;
          }
          characters[count] := (ch - 0x1_0000) / 0x400 + 0xD800;
          characters[count + 1] := (ch - 0x1_0000) % 0x400 + 0xDC00;
        }
        assert characters[..count + |u|] == characters[..count] + u;
      }
      count := count + (if ch < 0x1_0000 then 1 else 2);
      out := out + u;
    }
    ProceedsEnd(bytes, room, used, out);
  }

  /** __CFFromUTF8Len with flags 0: the number of units FromUtf8 would produce. */
  method FromUtf8Len(bytes: seq<byte>) returns (count: nat)
    ensures count == |DecodeAll(bytes).units|
  {
    hide DecodeAll, ItemLength, Item, ItemUnits;
    count := 0;
    var pos := 0;
    assert bytes[0..] == bytes;
    while pos < |bytes|
      invariant pos <= |bytes|
      invariant |DecodeAll(bytes).units| == count + |DecodeAll(bytes[pos..]).units|
    {
      var n, ch := NextItem(bytes, pos);
      if n == 0 {
        DecodeStop(bytes[pos..]);
        return;
      }
      DecodeStep(bytes[pos..], n);
      assert bytes[pos..][n..] == bytes[pos + n..];
      pos := pos + n;
      count := count + (if ch < 0x1_0000 then 1 else 2);
    }
    ItemEmpty(bytes[pos..]);
    DecodeStop(bytes[pos..]);
  }
}
