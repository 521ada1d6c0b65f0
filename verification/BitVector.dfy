/** The mutable bit vector of CFBitVector.c. */
module BitVector {
  import opened Machine
  import opened BitBuckets

  // ----- bucket by bucket -----

  lemma SameBits(b: bv8, c: bv8)
    requires forall i :: 0 <= i < 8 ==> BitOf(b, i) == BitOf(c, i)
    ensures b == c
  {
    Places(b);
    Places(c);
    assert forall i :: i in [0, 1, 2, 3, 4, 5, 6, 7] ==> BitOf(b, i) == BitOf(c, i);
  }

  lemma CountMapsNothing(before: seq<bv8>, after: seq<bv8>, lo: nat, hi: nat, value: bool)
    requires MappedRange(before, after, lo, hi, Count(value))
    ensures after == before
  {
    hide BitOf;
    forall j | 0 <= j < |before| ensures after[j] == before[j] {
      forall i | 0 <= i < 8 ensures BitOf(after[j], i) == BitOf(before[j], i) {
        assert Bit(after, 8 * j + i) == Bit(before, 8 * j + i);
      }
      SameBits(after[j], before[j]);
    }
  }

  /** How many bits of the range the context counts: none unless the mapper counts. */
  ghost function Tally(f: Mapper, s: seq<bv8>, lo: nat, hi: nat): nat
    requires lo <= hi <= 8 * |s|
  {
    if f.Count? then CountBits(s, lo, hi, f.value) else 0
  }

  lemma TallySplit(f: Mapper, s: seq<bv8>, lo: nat, mid: nat, hi: nat)
    requires lo <= mid <= hi <= 8 * |s|
    ensures Tally(f, s, lo, hi) == Tally(f, s, lo, mid) + Tally(f, s, mid, hi)
  {
    if f.Count? {
      CountSplit(s, lo, mid, hi, f.value);
    }
  }

  /** Maps the bits from bottom to top of bucket j, behind the range from lo that is already mapped. */
  method MapBucket(b: array<bv8>, j: nat, bottom: nat, top: nat, f: Mapper, count: nat, ghost before: seq<bv8>, ghost lo: nat)
    returns (r: nat)
    requires j < b.Length == |before| && bottom <= top < 8 && lo <= 8 * j + bottom
    requires MappedRange(before, b[..], lo, 8 * j + bottom, f)
    modifies b
    ensures MappedRange(before, b[..], lo, 8 * j + top + 1, f)
    ensures r == count + Tally(f, before, 8 * j + bottom, 8 * j + top + 1)
  {
    hide MappedRange, Mask, Merged, Mapped, CountBits, Ones8, Wanted;
    r := count;
    if f.Count? {
      CountMapsNothing(before, b[..], lo, 8 * j + bottom, f.value);
      WantedCount(before, j, bottom, top, f.value, 8);
      r := CountMapper(b[j], Mask(bottom, top), f.value, count);
    }
    var x := Merged(b[j], Mapped(f, b[j]), Mask(bottom, top));
    ghost var s := b[..];
    ExtendRange(before, s, lo, 8 * j + bottom, f, j, bottom, top, x);
    b[j] := x;
    assert b[..] == s[j := x];
  }

  /** Maps a whole bucket; no mask is needed to store it. */
  method MapFull(b: array<bv8>, j: nat, f: Mapper, count: nat, ghost before: seq<bv8>, ghost lo: nat)
    returns (r: nat)
    requires j < b.Length == |before| && lo <= 8 * j
    requires MappedRange(before, b[..], lo, 8 * j, f)
    modifies b
    ensures MappedRange(before, b[..], lo, 8 * j + 8, f)
    ensures r == count + Tally(f, before, 8 * j, 8 * j + 8)
  {
    hide MappedRange, Mask, Merged, Mapped, CountBits, Ones8, Wanted;
    var x := Mapped(f, b[j]);
    WholeBucket(b[j], x);
    r := count;
    if f.Count? {
      CountMapsNothing(before, b[..], lo, 8 * j, f.value);
      WantedCount(before, j, 0, 7, f.value, 8);
      r := CountMapper(b[j], 0xFF, f.value, count);
    }
    ghost var s := b[..];
    ExtendRange(before, s, lo, 8 * j, f, j, 0, 7, x);
    b[j] := x;
    assert b[..] == s[j := x];
  }

  lemma NothingMapped(s: seq<bv8>, lo: nat, f: Mapper)
    ensures MappedRange(s, s, lo, lo, f) && (lo <= 8 * |s| ==> Tally(f, s, lo, lo) == 0)
  {
  }

  /** __CFBitVectorInternalMap: up to a bucket boundary, then whole buckets, then the rest. */
  method InternalMap(b: array<bv8>, location: nat, length: nat, f: Mapper) returns (count: nat)
    requires location + length <= 8 * b.Length
    modifies b
    ensures MappedRange(old(b[..]), b[..], location, location + length, f)
    ensures count == Tally(f, old(b[..]), location, location + length)
  {
    ghost var s := b[..];
    NothingMapped(s, location, f);
    hide MappedRange, Tally;
    count := 0;
    if length == 0 {
      return;
    }
    var bucketIdx, bitOfBucket := location / 8, location % 8;
    assert 8 * bucketIdx + bitOfBucket == location;
    if bitOfBucket + length < 8 {
      count := MapBucket(b, bucketIdx, bitOfBucket, bitOfBucket + length - 1, f, count, s, location);
    } else {
      count := MapBucket(b, bucketIdx, bitOfBucket, 7, f, count, s, location);
      count := MapRest(b, bucketIdx + 1, length - (8 - bitOfBucket), f, count, s, location);
    }
  }

  /** Whole buckets from `first` on, and the bits behind them. */
  method MapRest(b: array<bv8>, first: nat, length: nat, f: Mapper, count: nat, ghost s: seq<bv8>, ghost lo: nat)
    returns (r: nat)
    requires 8 * first + length <= 8 * b.Length && b.Length == |s| && lo <= 8 * first
    requires MappedRange(s, b[..], lo, 8 * first, f) && count == Tally(f, s, lo, 8 * first)
    modifies b
    ensures MappedRange(s, b[..], lo, 8 * first + length, f)
    ensures r == Tally(f, s, lo, 8 * first + length)
  {
    hide MappedRange, Tally;
    var nBuckets, left := length / 8, length % 8;
    assert 8 * (first + nBuckets) + left == 8 * first + length;
    r := MapWhole(b, first, nBuckets, f, count, s, lo);
    if left != 0 {
      TallySplit(f, s, lo, 8 * (first + nBuckets), 8 * first + length);
      r := MapBucket(b, first + nBuckets, 0, left - 1, f, r, s, lo);
    }
  }

  /** The loop over whole buckets. */
  method MapWhole(b: array<bv8>, first: nat, n: nat, f: Mapper, count: nat, ghost s: seq<bv8>, ghost lo: nat)
    returns (r: nat)
    requires first + n <= b.Length == |s| && lo <= 8 * first && MappedRange(s, b[..], lo, 8 * first, f)
    requires count == Tally(f, s, lo, 8 * first)
    modifies b
    ensures MappedRange(s, b[..], lo, 8 * (first + n), f)
    ensures r == Tally(f, s, lo, 8 * (first + n))
  {
    hide MappedRange, Tally;
    r := count;
    for i := 0 to n
      invariant MappedRange(s, b[..], lo, 8 * (first + i), f)
      invariant r == Tally(f, s, lo, 8 * (first + i))
    {
      TallySplit(f, s, lo, 8 * (first + i), 8 * (first + i) + 8);
      r := MapFull(b, first + i, f, r, s, lo);
    }
  }

  // ----- the vector -----

  ghost function MappedSeq(s: seq<bool>, lo: nat, hi: nat, f: Mapper): (r: seq<bool>) {
    seq(|s|, k requires 0 <= k < |s| => if lo <= k < hi then MappedBit(f, s[k]) else s[k])
  }

  ghost function FirstBits(s: seq<bv8>, n: nat): (r: seq<bool>)
    requires n <= 8 * |s|
    ensures |r| == n
  {
    seq(n, k requires 0 <= k < n => Bit(s, k))
  }

  function Occurrences(s: seq<bool>, value: bool): nat {
    if s == [] then 0 else Occurrences(s[..|s| - 1], value) + One(s[|s| - 1] == value)
  }

  /** __CFBitVectorRoundUpCapacity */
  function RoundUpCapacity(capacity: nat): (r: nat)
    ensures capacity <= r && r % 64 == 0 && 64 <= r < capacity + 64 + One(capacity == 0)
  {
    ((if capacity == 0 then 1 else capacity) + 63) / 64 * 64
  }

  class MutableBitVector {
    var count: nat
    var capacity: nat
    var buckets: array<bv8>

    ghost predicate Valid()
      reads this
    {
      count <= capacity && buckets.Length == capacity / 8 + 1
    }

    ghost function Bits(): (s: seq<bool>)
      requires Valid()
      reads this, buckets
      ensures |s| == count
    {
      FirstBits(buckets[..], count)
    }

    constructor ()
      ensures Valid() && Bits() == [] && fresh(buckets)
    {
      var cap := RoundUpCapacity(0);
      count, capacity := 0, cap;
      buckets := new bv8[cap / 8 + 1](_ => 0);
    }

    /** A range operation maps exactly the bits of the range, and the counting one changes nothing. */
    method MapBits(location: nat, length: nat, f: Mapper) returns (n: nat)
      requires Valid() && location + length <= count
      modifies buckets
      ensures Valid() && Bits() == MappedSeq(old(Bits()), location, location + length, f)
      ensures f.Count? ==> n == Occurrences(old(Bits())[location..location + length], f.value) && buckets[..] == old(buckets[..])
    {
      hide FirstBits, MappedSeq, MappedRange, Bit, Tally, Occurrences;
      ghost var s := buckets[..];
      n := InternalMap(buckets, location, length, f);
      FirstBitsMapped(s, buckets[..], count, location, location + length, f);
      if f.Count? {
        TallyIsOccurrences(s, count, location, location + length, f);
        CountMapsNothing(s, buckets[..], location, location + length, f.value);
      }
    }

    /** CFBitVectorSetBits. */
    method SetBits(location: nat, length: nat, value: bool)
      requires Valid() && location + length <= count
      modifies buckets
      ensures Bits() == old(Bits())[..location] + seq(length, _ => value) + old(Bits())[location + length..]
    {
      var _ := MapBits(location, length, if value then Ones else Zero);
    }

    /** CFBitVectorFlipBits. */
    method FlipBits(location: nat, length: nat)
      requires Valid() && location + length <= count
      modifies buckets
      ensures |Bits()| == |old(Bits())|
      ensures forall k :: 0 <= k < count ==> Bits()[k] == ((location <= k < location + length) != old(Bits())[k])
    {
      var _ := MapBits(location, length, Flip);
    }

    /** CFBitVectorGetCountOfBit: counts by mapping, and leaves every bucket as it was. */
    method GetCountOfBit(location: nat, length: nat, value: bool) returns (n: nat)
      requires Valid() && location + length <= count
      modifies buckets
      ensures n == Occurrences(Bits()[location..location + length], value)
      ensures buckets[..] == old(buckets[..]) && Bits() == old(Bits())
    {
      n := MapBits(location, length, Count(value));
    }

    /** CFBitVectorGetBitAtIndex. */
    method GetBitAtIndex(idx: nat) returns (value: bool)
      requires Valid() && idx < count
      ensures value == Bits()[idx]
    {
      ShiftedBit(buckets[idx / 8], idx % 8);
      value := (buckets[idx / 8] >> (7 - idx % 8)) & 1 == 1;
    }

    /** CFBitVectorSetBitAtIndex. */
    method SetBitAtIndex(idx: nat, value: bool)
      requires Valid() && idx < count
      modifies buckets
      ensures Bits() == old(Bits())[idx := value]
    {
      var j, i := idx / 8, idx % 8;
      var one: bv8 := (1 as bv8) << (7 - i);
      ShiftedOne(i);
      hide Place, BitOf, Bit, WithBit;
      ghost var s := buckets[..];
      var x := WithBit(buckets[j], one, value);
      buckets[j] := x;
      assert buckets[..] == s[j := x];
      OneBit(s, buckets[..], count, idx, value);
    }

    /** CFBitVectorFlipBitAtIndex. */
    method FlipBitAtIndex(idx: nat)
      requires Valid() && idx < count
      modifies buckets
      ensures Bits() == old(Bits())[idx := !old(Bits())[idx]]
    {
      ghost var was := Bits()[idx];
      assert was == Bit(buckets[..], idx);
      var j, i := idx / 8, idx % 8;
      ShiftedOne(i);
      hide Place, BitOf, Bit, Flipped;
      ghost var s := buckets[..];
      var x := Flipped(buckets[j], (1 as bv8) << (7 - i));
      buckets[j] := x;
      assert buckets[..] == s[j := x];
      FlippedBit(s, buckets[..], count, idx);
    }

    /** __CFBitVectorGrow: storage for a new count; bits behind the old ones are whatever was there. */
    method Grow(numNewValues: nat)
      requires Valid()
      modifies this`capacity, this`buckets
      ensures Valid() && count + numNewValues <= capacity && Bits() == old(Bits()) && fresh(buckets)
    {
      var cap := RoundUpCapacity(count + numNewValues);
      var grown := new bv8[cap / 8 + 1];
      var n := if grown.Length < buckets.Length then grown.Length else buckets.Length;
      ghost var s := buckets[..];
      for i := 0 to n
        invariant buckets[..] == s && forall j :: 0 <= j < i ==> grown[j] == s[j]
      {
        grown[i] := buckets[i];
      }
      capacity, buckets := cap, grown;
      assert forall k :: 0 <= k < count ==> Bit(s, k) == Bit(grown[..], k);
    }

    /** CFBitVectorSetCount: new bits are zero, whatever the storage held. */
    method SetCount(n: nat)
      requires Valid()
      modifies this, buckets
      ensures Valid() && (buckets == old(buckets) || fresh(buckets))
      ensures Bits() == if n <= old(count) then old(Bits())[..n] else old(Bits()) + seq(n - old(count), _ => false)
    {
      var cnt := count;
      if cnt < n {
        Grow(n - cnt);
        ghost var s := buckets[..];
        var _ := InternalMap(buckets, cnt, n - cnt, Zero);
        count := n;
        ZeroedTail(s, buckets[..], cnt, n);
      } else {
        count := n;
      }
    }

    /** CFBitVectorSetAllBits: the last fragment by mapping, whole buckets by filling. */
    method SetAllBits(value: bool)
      requires Valid()
      modifies buckets
      ensures Bits() == seq(count, _ => value)
    {
      var nBuckets := count / 8;
      var leftover := count - nBuckets * 8;
      ghost var s := buckets[..];
      if 0 < leftover {
        var _ := InternalMap(buckets, nBuckets * 8, leftover, if value then Ones else Zero);
      }
      ghost var t := buckets[..];
      for j := 0 to nBuckets
        invariant forall i :: 0 <= i < j ==> buckets[i] == if value then 0xFF else 0
        invariant forall i :: j <= i < buckets.Length ==> buckets[i] == t[i]
      {
        buckets[j] := if value then 0xFF else 0;
      }
      AllSet(s, t, buckets[..], count, value);
    }
  }

  // ----- buckets and bits -----

  lemma FirstBitsMapped(s: seq<bv8>, r: seq<bv8>, n: nat, lo: nat, hi: nat, f: Mapper)
    requires MappedRange(s, r, lo, hi, f) && n <= 8 * |s|
    ensures FirstBits(r, n) == MappedSeq(FirstBits(s, n), lo, hi, f)
  {
    hide Bit, MappedBit;
  }

  lemma {:induction false} TallyIsOccurrences(s: seq<bv8>, n: nat, lo: nat, hi: nat, f: Mapper)
    requires f.Count? && lo <= hi <= n <= 8 * |s|
    ensures Tally(f, s, lo, hi) == Occurrences(FirstBits(s, n)[lo..hi], f.value)
    decreases hi
  {
    hide Bit;
    if lo < hi {
      TallyIsOccurrences(s, n, lo, hi - 1, f);
      assert FirstBits(s, n)[lo..hi][..hi - 1 - lo] == FirstBits(s, n)[lo..hi - 1];
    }
  }

  function WithBit(b: bv8, p: bv8, value: bool): bv8 {
    if value then b | p else b & !p
  }

  function Flipped(b: bv8, p: bv8): bv8 {
    b ^ p
  }

  lemma WithBitAt(b: bv8, i: nat, value: bool, j: nat)
    requires i < 8 && j < 8
    ensures BitOf(WithBit(b, Place(i), value), j) == if i == j then value else BitOf(b, j)
  {
    PlaceBits(i, j);
    LogicAt(b, Place(i), Place(j));
    LogicAt(b, !Place(i), Place(j));
    FlipAt(Place(i), Place(j));
  }

  lemma FlippedAt(b: bv8, i: nat, j: nat)
    requires i < 8 && j < 8
    ensures BitOf(Flipped(b, Place(i)), j) == ((i == j) != BitOf(b, j))
  {
    PlaceBits(i, j);
    LogicAt(b, Place(i), Place(j));
  }

  lemma OneBit(s: seq<bv8>, r: seq<bv8>, n: nat, idx: nat, value: bool)
    requires idx < n <= 8 * |s|
    requires r == s[idx / 8 := WithBit(s[idx / 8], Place(idx % 8), value)]
    ensures FirstBits(r, n) == FirstBits(s, n)[idx := value]
  {
    hide BitOf, WithBit, Place;
    forall k | 0 <= k < n ensures Bit(r, k) == if k == idx then value else Bit(s, k) {
      WithBitAt(s[idx / 8], idx % 8, value, k % 8);
    }
    hide Bit;
  }

  lemma FlippedBit(s: seq<bv8>, r: seq<bv8>, n: nat, idx: nat)
    requires idx < n <= 8 * |s| && r == s[idx / 8 := Flipped(s[idx / 8], Place(idx % 8))]
    ensures FirstBits(r, n) == FirstBits(s, n)[idx := !Bit(s, idx)]
  {
    hide BitOf, Place, Flipped;
    forall k | 0 <= k < n ensures Bit(r, k) == if k == idx then !Bit(s, k) else Bit(s, k) {
      FlippedAt(s[idx / 8], idx % 8, k % 8);
    }
    hide Bit;
  }

  lemma ZeroedTail(s: seq<bv8>, r: seq<bv8>, cnt: nat, n: nat)
    requires cnt <= n <= 8 * |s| && MappedRange(s, r, cnt, n, Zero)
    ensures FirstBits(r, n) == FirstBits(s, cnt) + seq(n - cnt, _ => false)
  {
    hide Bit;
  }

  lemma AllSet(s: seq<bv8>, t: seq<bv8>, r: seq<bv8>, n: nat, value: bool)
    requires n <= 8 * |s| && |t| == |s| == |r|
    requires n % 8 > 0 ==> MappedRange(s, t, n / 8 * 8, n, if value then Ones else Zero)
    requires forall i :: 0 <= i < n / 8 ==> r[i] == if value then 0xFF else 0
    requires forall i :: n / 8 <= i < |s| ==> r[i] == t[i]
    ensures FirstBits(r, n) == seq(n, _ => value)
  {
    forall k | 0 <= k < n ensures Bit(r, k) == value {
      if k / 8 < n / 8 {
        AllBits(k % 8);
      } else {
        assert Bit(r, k) == Bit(t, k);
      }
    }
  }
}
