/**
 Bytes and fixed-width integers as the binary property list codec uses them:
 big-endian fields, the byte-swapping routines of CFByteOrder.h and the sized
 integer reader of CFBinaryPList.c. Integer widths are explicit: a value of a C
 type of n bits is a natural number below 2^n.
 */
module Bytes {
  import opened Machine

  type byte = x: int | 0 <= x < 256

  /** A UTF-16 code unit. */
  type unichar = x: int | 0 <= x < 0x1_0000


  /** 256 to the power n. */
  function Pow256(n: nat): (r: nat)
    ensures r >= 1
  {
    if n == 0 then 1 else 256 * Pow256(n - 1)
  }

  lemma Pow256Values()
    ensures Pow256(1) == 256 && Pow256(2) == TWO16 && Pow256(4) == TWO32 && Pow256(8) == TWO64
  {
    assert Pow256(3) == 256 * Pow256(2);
    assert Pow256(5) == 256 * Pow256(4);
    assert Pow256(6) == 256 * Pow256(5);
    assert Pow256(7) == 256 * Pow256(6);
  }

  lemma {:induction false} Pow256Monotone(m: nat, n: nat)
    requires m <= n
    ensures Pow256(m) <= Pow256(n)
    decreases n - m
  {
    if m < n {
      Pow256Monotone(m, n - 1);
    }
  }

  /** The number written as `s`, most significant byte first. */
  function BigEndian(s: seq<byte>): (r: nat)
    ensures r < Pow256(|s|)
  {
    if s == [] then 0 else 256 * BigEndian(s[..|s| - 1]) + s[|s| - 1]
  }

  /** The low `width` bytes of n, most significant first. */
  function ToBigEndian(n: nat, width: nat): (s: seq<byte>)
    ensures |s| == width
  {
    if width == 0 then [] else ToBigEndian(n / 256, width - 1) + [n % 256]
  }

  lemma {:induction false} BigEndianRoundTrip(n: nat, width: nat)
    requires n < Pow256(width)
    ensures BigEndian(ToBigEndian(n, width)) == n
  {
    if width > 0 {
      BigEndianRoundTrip(n / 256, width - 1);
      var s := ToBigEndian(n, width);
      assert s[..|s| - 1] == ToBigEndian(n / 256, width - 1);
    }
  }

  /** The tail of a wide field is the narrow field of the same number. */
  lemma {:induction false} BigEndianSuffix(n: nat, width: nat, k: nat)
    requires k <= width
    ensures ToBigEndian(n, width)[width - k..] == ToBigEndian(n, k)
  {
    if k > 0 {
      BigEndianSuffix(n / 256, width - 1, k - 1);
      var s := ToBigEndian(n, width);
      assert s[width - k..] == ToBigEndian(n / 256, width - 1)[width - k..] + [n % 256];
    }
  }

  /** What an unsigned 64-bit accumulator holds after reading all of `s`. */
  function Sized(s: seq<byte>): (r: nat)
    ensures r < TWO64
  {
    BigEndian(s) % TWO64
  }

  lemma SizedSmall(s: seq<byte>)
    requires |s| <= 8
    ensures Sized(s) == BigEndian(s)
  {
    Pow256Monotone(|s|, 8);
    Pow256Values();
  }

  // ----- byte order (CFByteOrder.h), little-endian host -----

  /** The shift-and-mask expressions for 16 and 32 bits. */
  function SwapBits16(x: bv16): bv16 {
    ((x << 8) & 0xFF00) | ((x >> 8) & 0xFF)
  }

  function SwapBits32(x: bv32): bv32 {
    ((x & 0xFF) << 24) | ((x & 0xFF00) << 8) | ((x >> 8) & 0xFF00) | ((x >> 24) & 0xFF)
  }

  /** They reverse the bytes, as the swaps on numbers below do. */
  lemma ShiftMask16(x: bv16)
    ensures var r := SwapBits16(x); r & 0xFF == x >> 8 && r >> 8 == x & 0xFF
  {
  }

  lemma ShiftMask32(x: bv32)
    ensures var r := SwapBits32(x);
      && r & 0xFF == x >> 24 && (r >> 8) & 0xFF == (x >> 16) & 0xFF
      && (r >> 16) & 0xFF == (x >> 8) & 0xFF && r >> 24 == x & 0xFF
  {
  }

  function Swap16(x: nat): (r: nat)
    requires x < TWO16
    ensures r < TWO16
  {
    (x % 256) * 256 + x / 256
  }

  /** The number whose bytes, least significant first, are b0, b1, b2, b3. */
  function Word(b0: nat, b1: nat, b2: nat, b3: nat): nat {
    b0 + 256 * (b1 + 256 * (b2 + 256 * b3))
  }

  function Swap32(x: nat): (r: nat)
    requires x < TWO32
    ensures r < TWO32
  {
    Word(x / 0x100_0000, x / TWO16 % 256, x / 256 % 256, x % 256)
  }

  lemma WordBytes(b0: byte, b1: byte, b2: byte, b3: byte)
    ensures var w := Word(b0, b1, b2, b3);
            w < TWO32 && w % 256 == b0 && w / 256 % 256 == b1 && w / TWO16 % 256 == b2 && w / 0x100_0000 == b3
  {
    var w := Word(b0, b1, b2, b3);
    assert w / 256 == b1 + 256 * (b2 + 256 * b3);
    assert w / 256 / 256 == b2 + 256 * b3;
    assert w / 256 / 256 / 256 == b3;
    DivDiv(w, 256, 256);
    DivDiv(w, TWO16, 256);
  }

  lemma DivDiv(w: nat, a: nat, b: nat)
    requires (a == 256 || a == TWO16) && b == 256
    ensures w / a / b == w / (a * b)
  {
  }

  lemma SwapWord(b0: byte, b1: byte, b2: byte, b3: byte)
    ensures Word(b0, b1, b2, b3) < TWO32
    ensures Swap32(Word(b0, b1, b2, b3)) == Word(b3, b2, b1, b0)
  {
    WordBytes(b0, b1, b2, b3);
  }

  /** Byte k of a 32-bit word, the least significant first. */
  function ByteOf(x: bv32, k: nat): (b: nat)
    requires k < 4
    ensures b < 256
  {
    match k
    case 0 => (x & 0xFF) as bv8 as nat
    case 1 => ((x >> 8) & 0xFF) as bv8 as nat
    case 2 => ((x >> 16) & 0xFF) as bv8 as nat
    case _ => (x >> 24) as bv8 as nat
  }

  /** The number with the bytes of a word. */
  function NumberOf(x: bv32): nat {
    Word(ByteOf(x, 0), ByteOf(x, 1), ByteOf(x, 2), ByteOf(x, 3))
  }

  /** The shift-and-mask expression computes the swap of the number. */
  lemma SwapBitsIsSwap(x: bv32)
    ensures NumberOf(x) < TWO32 && NumberOf(SwapBits32(x)) == Swap32(NumberOf(x))
  {
    ShiftMask32(x);
    SwapWord(ByteOf(x, 0), ByteOf(x, 1), ByteOf(x, 2), ByteOf(x, 3));
    hide SwapBits32, Word, Swap32;
  }

  /** Both 32-bit halves swapped, and exchanged. */
  function Swap64(x: nat): (r: nat)
    requires x < TWO64
    ensures r < TWO64
  {
    Swap32(x % TWO32) * TWO32 + Swap32(x / TWO32)
  }

  /** The number a little-endian host loads from memory holding `s`. */
  function Load(s: seq<byte>): (r: nat)
    ensures r < Pow256(|s|)
  {
    if s == [] then 0 else s[0] + 256 * Load(s[1..])
  }

  /** The `width` bytes a little-endian host stores for x. */
  function Store(x: nat, width: nat): (s: seq<byte>)
    ensures |s| == width
  {
    if width == 0 then [] else [x % 256] + Store(x / 256, width - 1)
  }

  lemma {:induction false} LoadStore(x: nat, width: nat)
    requires x < Pow256(width)
    ensures Load(Store(x, width)) == x
  {
    if width > 0 {
      LoadStore(x / 256, width - 1);
      assert Store(x, width)[1..] == Store(x / 256, width - 1);
    }
  }

  lemma {:induction false} ToBigEndianOfBigEndian(s: seq<byte>)
    ensures ToBigEndian(BigEndian(s), |s|) == s
  {
    if s != [] {
      ToBigEndianOfBigEndian(s[..|s| - 1]);
      assert s == s[..|s| - 1] + [s[|s| - 1]];
    }
  }

  lemma LoadFour(s: seq<byte>)
    requires |s| >= 4
    ensures Load(s) == Word(s[0], s[1], s[2], s[3]) + TWO32 * Load(s[4..])
  {
    assert s[1..][1..] == s[2..] && s[2..][1..] == s[3..] && s[3..][1..] == s[4..];
    assert Load(s[3..]) == s[3] + 256 * Load(s[4..]);
    assert Load(s[2..]) == s[2] + 256 * Load(s[3..]);
    assert Load(s[1..]) == s[1] + 256 * Load(s[2..]);
  }

  lemma BigEndianFour(s: seq<byte>, n: nat)
    requires |s| == n + 4
    ensures BigEndian(s) == TWO32 * BigEndian(s[..n]) + Word(s[n + 3], s[n + 2], s[n + 1], s[n])
  {
    assert s[..n + 3][..n + 2] == s[..n + 2] && s[..n + 2][..n + 1] == s[..n + 1] && s[..n + 1][..n] == s[..n];
    assert BigEndian(s[..n + 1]) == 256 * BigEndian(s[..n]) + s[n];
    assert BigEndian(s[..n + 2]) == 256 * BigEndian(s[..n + 1]) + s[n + 1];
    assert BigEndian(s[..n + 3]) == 256 * BigEndian(s[..n + 2]) + s[n + 2];
  }

  lemma Halves(low: nat, high: nat)
    requires low < TWO32 && high < TWO32
    ensures var x := low + TWO32 * high; x < TWO64 && x % TWO32 == low && x / TWO32 == high
  {
  }

  lemma Swap64Halves(low: nat, high: nat)
    requires low < TWO32 && high < TWO32
    ensures low + TWO32 * high < TWO64
    ensures Swap64(low + TWO32 * high) == Swap32(low) * TWO32 + Swap32(high)
  {
    Halves(low, high);
  }

  /** Loading a word and swapping it reads the bytes in big-endian order, for each word size. */
  lemma SwapOfLoad2(s: seq<byte>)
    requires |s| == 2
    ensures Load(s) < TWO16 && Swap16(Load(s)) == BigEndian(s)
  {
    TwoBytesRead(s);
    var a: int, b: int := s[0], s[1];
    hide Load, BigEndian;
    assert Swap16(a + 256 * b) == 256 * a + b;
  }

  lemma TwoBytesRead(s: seq<byte>)
    requires |s| == 2
    ensures Load(s) == s[0] + 256 * (s[1] as int) && BigEndian(s) == 256 * (s[0] as int) + s[1]
  {
    assert s[1..][1..] == [] && Load(s[1..]) == s[1];
    assert s[..1][..0] == [] && BigEndian(s[..1]) == s[0];
  }

  lemma SwapOfLoad4(s: seq<byte>)
    requires |s| == 4
    ensures Load(s) < TWO32 && Swap32(Load(s)) == BigEndian(s)
  {
    LoadFour(s);
    BigEndianFour(s, 0);
    SwapWord(s[0], s[1], s[2], s[3]);
  }

  lemma LoadEight(s: seq<byte>)
    requires |s| == 8
    ensures Load(s) == Word(s[0], s[1], s[2], s[3]) + TWO32 * Word(s[4], s[5], s[6], s[7])
    ensures BigEndian(s) == TWO32 * Word(s[3], s[2], s[1], s[0]) + Word(s[7], s[6], s[5], s[4])
  {
    LoadFour(s);
    LoadFour(s[4..]);
    BigEndianFour(s, 4);
    BigEndianFour(s[..4], 0);
  }

  lemma SwapOfLoad8(s: seq<byte>)
    requires |s| == 8
    ensures Load(s) < TWO64 && Swap64(Load(s)) == BigEndian(s)
  {
    hide Swap32, Swap64, Word, Load, BigEndian;
    LoadEight(s);
    SwapWord(s[0], s[1], s[2], s[3]);
    SwapWord(s[4], s[5], s[6], s[7]);
    Swap64Halves(Word(s[0], s[1], s[2], s[3]), Word(s[4], s[5], s[6], s[7]));
  }

  lemma SwapTwice32(x: nat)
    requires x < TWO32
    ensures Swap32(Swap32(x)) == x
  {
    var b0, b1, b2, b3 := x % 256, x / 256 % 256, x / TWO16 % 256, x / 0x100_0000;
    DivDiv(x, 256, 256);
    DivDiv(x, TWO16, 256);
    assert x == Word(b0, b1, b2, b3);
    SwapWord(b3, b2, b1, b0);
  }

  lemma SwapTwice64(low: nat, high: nat)
    requires low < TWO32 && high < TWO32
    ensures low + TWO32 * high < TWO64
    ensures Swap64(Swap64(low + TWO32 * high)) == low + TWO32 * high
  {
    hide Swap32, Swap64;
    Swap64Halves(low, high);
    Swap64Halves(Swap32(high), Swap32(low));
    SwapTwice32(low);
    SwapTwice32(high);
  }

  /** Swapping and storing writes the big-endian field, for each word size. */
  lemma StoreOfSwap16(x: nat)
    requires x < TWO16
    ensures Store(Swap16(x), 2) == ToBigEndian(x, 2)
  {
    Pow256Values();
    SwapTwice16(x);
    hide Swap16, Pow256;
    StoreIsBigEndian(Swap16(x), x, 2);
  }

  lemma SwapTwice16(x: nat)
    requires x < TWO16
    ensures Swap16(x) < TWO16 && Swap16(Swap16(x)) == x
  {
    var b0, b1 := x % 256, x / 256;
    assert Swap16(x) == 256 * b0 + b1;
  }

  lemma StoreOfSwap32(x: nat)
    requires x < TWO32
    ensures Store(Swap32(x), 4) == ToBigEndian(x, 4)
  {
    Pow256Values();
    SwapTwice32(x);
    StoreIsBigEndian(Swap32(x), x, 4);
  }

  lemma StoreOfSwap64(x: nat)
    requires x < TWO64
    ensures Store(Swap64(x), 8) == ToBigEndian(x, 8)
  {
    Pow256Values();
    SwapTwice64(x % TWO32, x / TWO32);
    StoreIsBigEndian(Swap64(x), x, 8);
  }

  lemma StoreIsBigEndian(y: nat, x: nat, width: nat)
    requires width == 2 || width == 4 || width == 8
    requires y < Pow256(width)
    requires width == 2 ==> y < TWO16 && Swap16(y) == x
    requires width == 4 ==> y < TWO32 && Swap32(y) == x
    requires width == 8 ==> y < TWO64 && Swap64(y) == x
    ensures Store(y, width) == ToBigEndian(x, width)
  {
    var s := Store(y, width);
    LoadStore(y, width);
    if width == 2 {
      SwapOfLoad2(s);
    } else if width == 4 {
      SwapOfLoad4(s);
    } else {
      SwapOfLoad8(s);
    }
    ToBigEndianOfBigEndian(s);
  }

  /**
   _getSizedInt: three word-sized fast paths and a byte loop whose 64-bit
   accumulator drops high bytes. All of them read the same number.
   */
  method GetSizedInt(data: seq<byte>, valSize: byte) returns (r: nat)
    requires valSize <= |data|
    ensures r == Sized(data[..valSize])
  {
    ghost var field := data[..valSize];
    if valSize == 1 {
      SizedSmall(field);
      assert field[..0] == [];
      return data[0];
    } else if valSize == 2 {
      SwapOfLoad2(field);
      SizedSmall(field);
      return Swap16(Load(data[..2]));
    } else if valSize == 4 {
      SwapOfLoad4(field);
      SizedSmall(field);
      return Swap32(Load(data[..4]));
    } else if valSize == 8 {
      SwapOfLoad8(field);
      SizedSmall(field);
      return Swap64(Load(data[..8]));
    }
    r := 0;
    for idx := 0 to valSize
      invariant r == Sized(data[..idx])
    {
      assert data[..idx + 1][..idx] == data[..idx];
      WrapStep(BigEndian(data[..idx]), data[idx]);
      r := ((r * 256) % TWO64 + data[idx]) % TWO64;
    }
  }

  lemma WrapStep(n: nat, b: byte)
    ensures ((n % TWO64 * 256) % TWO64 + b) % TWO64 == (256 * n + b) % TWO64
  {
    var q := n / TWO64;
    assert n == q * TWO64 + n % TWO64;
    assert 256 * n + b == 256 * q * TWO64 + (n % TWO64 * 256 + b);
  }
}
