/**
 The buckets of the bit vector of CFBitVector.c: bits are numbered from the most significant end
 of each bucket, and ranges are worked on bucket by bucket with masks.
 */
module BitBuckets {
  import opened Machine

  // ----- one bucket -----

  /** The word with only bit i; bit 0 is the most significant. */
  function Place(i: nat): (p: bv8)
    requires i < 8
    ensures Single(p)
  {
    match i
    case 0 => 0x80
    case 1 => 0x40
    case 2 => 0x20
    case 3 => 0x10
    case 4 => 0x08
    case 5 => 0x04
    case 6 => 0x02
    case _ => 0x01
  }

  predicate Single(p: bv8) {
    p != 0 && p & (p - 1) == 0
  }

  function BitOf(b: bv8, i: nat): bool
    requires i < 8
  {
    b & Place(i) != 0
  }

  /** __CFBitBucketMask: ones from bottomBit to topBit. */
  function Mask(bottomBit: nat, topBit: nat): bv8
    requires bottomBit <= topBit < 8
  {
    (0xFF << (8 - topBit + bottomBit - 1)) >> bottomBit
  }

  lemma MaskBits(bottomBit: nat, topBit: nat, i: nat)
    requires bottomBit <= topBit < 8 && i < 8
    ensures BitOf(Mask(bottomBit, topBit), i) <==> bottomBit <= i <= topBit
  {
  }

  lemma AllBits(i: nat)
    requires i < 8
    ensures BitOf(0xFF, i) && !BitOf(0, i)
  {
  }

  /** Reading a single bit by shifting it down. */
  lemma ShiftedBit(b: bv8, i: nat)
    requires i < 8
    ensures (b >> (7 - i)) & 1 == if BitOf(b, i) then 1 else 0
  {
  }

  lemma ShiftedOne(i: nat)
    requires i < 8
    ensures (1 as bv8) << (7 - i) == Place(i)
  {
  }

  lemma PlaceBits(i: nat, j: nat)
    requires i < 8 && j < 8
    ensures BitOf(Place(i), j) <==> i == j
  {
  }

  lemma MergeAt(b: bv8, v: bv8, m: bv8, p: bv8)
    requires Single(p)
    ensures ((b & !m) | (v & m)) & p != 0 <==> if m & p != 0 then v & p != 0 else b & p != 0
  {
  }

  function Merged(b: bv8, v: bv8, m: bv8): bv8 {
    (b & !m) | (v & m)
  }

  lemma MergeBits(b: bv8, v: bv8, m: bv8, i: nat)
    requires i < 8
    ensures BitOf(Merged(b, v, m), i) == if BitOf(m, i) then BitOf(v, i) else BitOf(b, i)
  {
    MergeAt(b, v, m, Place(i));
  }

  lemma FlipAt(b: bv8, p: bv8)
    requires Single(p)
    ensures (0xFF ^ b) & p != 0 <==> b & p == 0
    ensures !b & p != 0 <==> b & p == 0
  {
  }

  lemma LogicAt(b: bv8, c: bv8, p: bv8)
    requires Single(p)
    ensures (b & c) & p != 0 <==> b & p != 0 && c & p != 0
    ensures (b | c) & p != 0 <==> b & p != 0 || c & p != 0
    ensures (b ^ c) & p != 0 <==> (b & p != 0) != (c & p != 0)
  {
  }

  // ----- mappers -----

  /** What a range operation does to the bits it covers; Count also adds up those with the value. */
  datatype Mapper = Zero | Ones | Flip | Count(value: bool)

  function Mapped(f: Mapper, b: bv8): bv8 {
    match f
    case Zero => 0
    case Ones => 0xFF
    case Flip => 0xFF ^ b
    case Count(_) => b
  }

  function MappedBit(f: Mapper, x: bool): bool {
    match f
    case Zero => false
    case Ones => true
    case Flip => !x
    case Count(_) => x
  }

  lemma MappedBits(f: Mapper, b: bv8, i: nat)
    requires i < 8
    ensures BitOf(Mapped(f, b), i) == MappedBit(f, BitOf(b, i))
  {
    FlipAt(b, Place(i));
    AllBits(i);
  }

  /** __CFNibbleBitCount */
  function Nibble(n: bv8): nat {
    if n == 0 then 0
    else if n == 1 || n == 2 || n == 4 || n == 8 then 1
    else if n == 7 || n == 11 || n == 13 || n == 14 then 3
    else if n == 15 then 4
    else 2
  }

  /** How many of the first n bits are set. */
  function Ones8(b: bv8, n: nat): nat
    requires n <= 8
  {
    if n == 0 then 0 else Ones8(b, n - 1) + One(BitOf(b, n - 1))
  }

  lemma NibbleHalf(n: bv8)
    requires n <= 0xF
    ensures Nibble(n) == One(n & 8 != 0) + One(n & 4 != 0) + One(n & 2 != 0) + One(n & 1 != 0)
  {
  }

  lemma HalvesAt(b: bv8)
    ensures (b & 0xF) <= 0xF && (b >> 4) <= 0xF && (b >> 4) & 0xF == b >> 4
    ensures (b & 0xF) & 8 == b & 8 && (b & 0xF) & 4 == b & 4 && (b & 0xF) & 2 == b & 2 && (b & 0xF) & 1 == b & 1
    ensures ((b >> 4) & 8 != 0) == (b & 0x80 != 0) && ((b >> 4) & 4 != 0) == (b & 0x40 != 0)
    ensures ((b >> 4) & 2 != 0) == (b & 0x20 != 0) && ((b >> 4) & 1 != 0) == (b & 0x10 != 0)
  {
  }

  /** The two table lookups count the bits of the bucket. */
  lemma NibblesCount(b: bv8)
    ensures Nibble(b & 0xF) + Nibble((b >> 4) & 0xF) == Ones8(b, 8)
  {
    HalvesAt(b);
    NibbleHalf(b & 0xF);
    NibbleHalf(b >> 4);
    Places(b);
    hide BitOf, Nibble;
    assert Ones8(b, 2) == Ones8(b, 1) + One(BitOf(b, 1)) == One(BitOf(b, 0)) + One(BitOf(b, 1));
    assert Ones8(b, 4) == Ones8(b, 3) + One(BitOf(b, 3)) == Ones8(b, 2) + One(BitOf(b, 2)) + One(BitOf(b, 3));
    assert Ones8(b, 6) == Ones8(b, 5) + One(BitOf(b, 5)) == Ones8(b, 4) + One(BitOf(b, 4)) + One(BitOf(b, 5));
    assert Ones8(b, 8) == Ones8(b, 7) + One(BitOf(b, 7)) == Ones8(b, 6) + One(BitOf(b, 6)) + One(BitOf(b, 7));
  }

  lemma Places(b: bv8)
    ensures BitOf(b, 0) == (b & 0x80 != 0) && BitOf(b, 1) == (b & 0x40 != 0)
    ensures BitOf(b, 2) == (b & 0x20 != 0) && BitOf(b, 3) == (b & 0x10 != 0)
    ensures BitOf(b, 4) == (b & 8 != 0) && BitOf(b, 5) == (b & 4 != 0)
    ensures BitOf(b, 6) == (b & 2 != 0) && BitOf(b, 7) == (b & 1 != 0)
  {
  }

  // ----- bits of a sequence of buckets -----

  function Bit(s: seq<bv8>, k: nat): bool
    requires k < 8 * |s|
  {
    BitOf(s[k / 8], k % 8)
  }

  /** How many bits of a range have a value. */
  function CountBits(s: seq<bv8>, lo: nat, hi: nat, value: bool): nat
    requires lo <= hi <= 8 * |s|
  {
    if lo == hi then 0 else CountBits(s, lo, hi - 1, value) + One(Bit(s, hi - 1) == value)
  }

  lemma {:induction false} CountSplit(s: seq<bv8>, lo: nat, mid: nat, hi: nat, value: bool)
    requires lo <= mid <= hi <= 8 * |s|
    ensures CountBits(s, lo, hi, value) == CountBits(s, lo, mid, value) + CountBits(s, mid, hi, value)
    decreases hi
  {
    if mid < hi {
      CountSplit(s, lo, mid, hi - 1, value);
    }
  }

  /** The bits of lo..hi were mapped, and no others changed. */
  ghost predicate MappedRange(before: seq<bv8>, after: seq<bv8>, lo: nat, hi: nat, f: Mapper) {
    && |after| == |before|
    && forall k :: 0 <= k < 8 * |before| ==>
      Bit(after, k) == if lo <= k < hi then MappedBit(f, Bit(before, k)) else Bit(before, k)
  }

  /** Mapping the bits under a mask extends a mapped range. */
  lemma ExtendRange(before: seq<bv8>, s: seq<bv8>, lo: nat, hi: nat, f: Mapper, j: nat, bottom: nat, top: nat, x: bv8)
    requires MappedRange(before, s, lo, hi, f) && j < |s| && bottom <= top < 8 && hi == 8 * j + bottom && lo <= hi
    requires x == Merged(s[j], Mapped(f, s[j]), Mask(bottom, top))
    ensures MappedRange(before, s[j := x], lo, 8 * j + top + 1, f)
  {
    hide Mask, BitOf, Mapped, MappedBit, Merged;
    var r := s[j := x];
    forall k | 0 <= k < 8 * |before|
      ensures Bit(r, k) == if lo <= k < 8 * j + top + 1 then MappedBit(f, Bit(before, k)) else Bit(before, k)
    {
      if k / 8 == j {
        var i := k % 8;
        MergeBits(s[j], Mapped(f, s[j]), Mask(bottom, top), i);
        MaskBits(bottom, top, i);
        MappedBits(f, s[j], i);
        assert Bit(s, k) == BitOf(s[j], i) && Bit(r, k) == BitOf(x, i);
      } else {
        assert Bit(r, k) == Bit(s, k);
      }
    }
  }

  lemma WholeBucket(b: bv8, v: bv8)
    ensures Merged(b, v, Mask(0, 7)) == v && Mask(0, 7) == 0xFF
  {
  }

  /** The bits that the counting mapper looks at. */
  function Wanted(value: bool, b: bv8, mask: bv8): bv8 {
    if value then b & mask else !b & mask
  }

  lemma WantedBits(value: bool, b: bv8, mask: bv8, i: nat)
    requires i < 8
    ensures BitOf(Wanted(value, b, mask), i) <==> BitOf(mask, i) && BitOf(b, i) == value
  {
    FlipAt(b, Place(i));
    LogicAt(b, mask, Place(i));
    LogicAt(!b, mask, Place(i));
  }

  lemma BitAt(s: seq<bv8>, j: nat, i: nat)
    requires j < |s| && i < 8
    ensures Bit(s, 8 * j + i) == BitOf(s[j], i)
  {
  }

  lemma {:induction false} WantedCount(s: seq<bv8>, j: nat, bottom: nat, top: nat, value: bool, n: nat)
    requires j < |s| && bottom <= top < 8 && n <= 8
    ensures Ones8(Wanted(value, s[j], Mask(bottom, top)), n) ==
      if n <= bottom then 0 else CountBits(s, 8 * j + bottom, 8 * j + if n <= top then n else top + 1, value)
  {
    hide Mask, BitOf, Wanted;
    if n > 0 {
      WantedCount(s, j, bottom, top, value, n - 1);
      WantedBits(value, s[j], Mask(bottom, top), n - 1);
      MaskBits(bottom, top, n - 1);
      BitAt(s, j, n - 1);
      hide Bit;
    }
  }

  /** __CFBitVectorCountBits: the loop over the nibbles of a bucket. */
  method CountMapper(b: bv8, mask: bv8, value: bool, count: nat) returns (r: nat)
    ensures r == count + Ones8(Wanted(value, b, mask), 8)
  {
    var val := Wanted(value, b, mask);
    NibblesCount(val);
    r := count + Nibble(val & 0xF);
    r := r + Nibble((val >> 4) & 0xF);
  }
}
