/**
 The binary property list reader of CFBinaryPList.c on the bytes: trailer
 validation and one object without its children (`ParseAt`).
 */
module PlistReader {
  import opened Machine
  import opened Bytes
  import opened Plist

  const TRAILER_SIZE: nat := 32
  const UINT64_MAX: nat := TWO64 - 1

  /** The bytes of a file and the address they are mapped at. */
  datatype Image = Image(base: nat, bytes: seq<byte>)

  datatype Trailer = Trailer(offsetIntSize: byte, objectRefSize: byte, numObjects: nat, topObject: nat, offsetTableOffset: nat)

  /** A mapped buffer: its length is a CFIndex and no address in it wraps around. */
  predicate Mapped(img: Image) {
    |img.bytes| <= LONG_MAX && img.base + |img.bytes| < TWO64
  }

  /**
   The bounds test made before `cnt` bytes at `pos` are used: check_ptr_add must
   not overflow, and the last byte must not lie behind position `last`.
   */
  predicate Extent(img: Image, pos: nat, cnt: nat, last: nat): (ok: bool)
    requires Mapped(img) && last < |img.bytes|
    ensures ok <==> pos + cnt <= last + 1
  {
    img.base + pos + cnt <= UINT64_MAX && img.base + pos + cnt - 1 <= img.base + last
  }

  // ----- trailer -----

  function Field(img: Image, pos: nat, width: nat): (r: nat)
    requires pos + width <= |img.bytes|
    ensures r < TWO64
  {
    Sized(img.bytes[pos..pos + width])
  }

  function ReadTrailer(img: Image): (t: Trailer)
    requires |img.bytes| >= TRAILER_SIZE
  {
    var p := |img.bytes| - TRAILER_SIZE;
    Trailer(img.bytes[p + 6], img.bytes[p + 7], Field(img, p + 8, 8), Field(img, p + 16, 8), Field(img, p + 24, 8))
  }

  const MAGIC: seq<byte> := [0x62, 0x70, 0x6C, 0x69, 0x73, 0x74, 0x30]

  /** Every scalar test on the trailer, in the order of the source. */
  predicate TrailerFits(img: Image, t: Trailer)
    requires |img.bytes| >= TRAILER_SIZE + 9
  {
    && t.numObjects <= LONG_MAX
    && t.offsetTableOffset <= LONG_MAX
    && 1 <= t.numObjects
    && t.topObject < t.numObjects
    && 9 <= t.offsetTableOffset
    && t.offsetTableOffset < |img.bytes| - TRAILER_SIZE
    && 1 <= t.offsetIntSize
    && 1 <= t.objectRefSize
    && t.numObjects * t.offsetIntSize <= UINT64_MAX
    && 8 + (t.offsetTableOffset - 8) + t.numObjects * t.offsetIntSize + TRAILER_SIZE <= UINT64_MAX
    && |img.bytes| == 8 + (t.offsetTableOffset - 8) + t.numObjects * t.offsetIntSize + TRAILER_SIZE
    && (t.objectRefSize < 8 ==> t.numObjects < Pow256(t.objectRefSize))
    && (t.offsetIntSize < 8 ==> t.offsetTableOffset < Pow256(t.offsetIntSize))
    && img.base + 8 <= UINT64_MAX
    && img.base + t.offsetTableOffset <= UINT64_MAX
    && img.base + t.offsetTableOffset + (t.numObjects * t.offsetIntSize - 1) <= UINT64_MAX
  }

  lemma EntryInTable(k: nat, n: nat, w: nat)
    requires k < n
    ensures k * w + w <= n * w
  {
    assert (n - k - 1) * w >= 0;
    assert n * w == k * w + w + (n - k - 1) * w;
  }

  /** Where entry i of a table of `size`-byte entries stands. */
  function Slot(at: nat, i: nat, size: nat): nat {
    at + i * size
  }

  /** The offset stored in entry `ref` of the offset table. */
  function TableEntry(img: Image, t: Trailer, ref: nat): (r: nat)
    requires |img.bytes| >= TRAILER_SIZE + 9 && TrailerFits(img, t)
    requires ref < t.numObjects
  {
    EntryInTable(ref, t.numObjects, t.offsetIntSize);
    Field(img, Slot(t.offsetTableOffset, ref, t.offsetIntSize), t.offsetIntSize)
  }

  predicate TableOk(img: Image, t: Trailer)
    requires |img.bytes| >= TRAILER_SIZE + 9 && TrailerFits(img, t)
  {
    forall k :: 0 <= k < t.numObjects ==> TableEntry(img, t, k) <= t.offsetTableOffset - 1
  }

  /** What the rest of the reader trusts about a trailer that passed the check. */
  predicate Trusted(img: Image, t: Trailer) {
    Mapped(img) && |img.bytes| >= TRAILER_SIZE + 9 && TrailerFits(img, t) && TableOk(img, t)
  }

  /** __CFBinaryPlistGetTopLevelInfo: the trailer and the offset of the top object. */
  function TopLevelInfo(img: Image): (r: Option<(Trailer, nat)>)
    requires Mapped(img)
    ensures r.Some? ==> Trusted(img, r.value.0) && 8 <= r.value.1 < r.value.0.offsetTableOffset
  {
    if |img.bytes| < TRAILER_SIZE + 9 || img.bytes[..7] != MAGIC then None
    else
      var t := ReadTrailer(img);
      if !TrailerFits(img, t) || !TableOk(img, t) then None
      else
        var off := TableEntry(img, t, t.topObject);
        if off < 8 || t.offsetTableOffset <= off then None else Some((t, off))
  }

  // ----- one object -----

  /** The number of bytes of a big-endian integer with low marker nibble n. */
  function IntBytes(n: nat): (r: nat)
    requires n < 16
    ensures r >= 1
  {
    if n == 0 then 1 else 2 * IntBytes(n - 1)
  }

  /** _readInt: the count and the position after it. The size is passed on as one byte. */
  function ReadInt(img: Image, t: Trailer, pos: nat): (r: Option<(nat, nat)>)
    requires Trusted(img, t)
    ensures r.Some? ==> pos < r.value.1 <= t.offsetTableOffset && r.value.0 < TWO64
  {
    var last := t.offsetTableOffset - 1;
    if last < pos || img.bytes[pos] / 16 != 1 then None
    else
      var cnt := IntBytes(img.bytes[pos] % 16);
      if !Extent(img, pos + 1, cnt, last) then None
      else Some((Field(img, pos + 1, cnt % 256), pos + 1 + cnt))
  }

  /** The element count of a sized object and the position of its contents. */
  function ReadCount(img: Image, t: Trailer, off: nat): (r: Option<(nat, nat)>)
    requires Trusted(img, t) && off < t.offsetTableOffset
    ensures r.Some? ==> off < r.value.1 <= t.offsetTableOffset && r.value.0 <= LONG_MAX
  {
    var n := img.bytes[off] % 16;
    if n != 15 then Some((n, off + 1))
    else
      var r := ReadInt(img, t, off + 1);
      if r.None? || LONG_MAX < r.value.0 then None else r
  }

  /** _getOffsetOfRefAt: follows a reference through the offset table; UINT64_MAX when it has no target. */
  function OffsetOfRefAt(img: Image, t: Trailer, pos: nat): (r: nat)
    requires Trusted(img, t)
    ensures r < t.offsetTableOffset || r == UINT64_MAX
  {
    if pos < 8 || t.offsetTableOffset - t.objectRefSize < pos then UINT64_MAX
    else
      var ref := Field(img, pos, t.objectRefSize);
      if t.numObjects <= ref then UINT64_MAX else TableEntry(img, t, ref)
  }

  datatype Kind = KArray | KSet | KDict

  /** One object: a complete value, or a container given by the offsets it refers to. */
  datatype Shape = Leaf(value: LeafValue) | Refs(kind: Kind, offsets: seq<nat>)

  type LeafValue = v: Value | Primitive(v) witness VNull

  function Signed64(x: nat): (r: int64)
    requires x < TWO64
  {
    if x < TWO63 then x else x - TWO64
  }

  function Units(bytes: seq<byte>): (u: seq<unichar>)
    ensures |u| == |bytes| / 2
  {
    seq(|bytes| / 2, i requires 0 <= i < |bytes| / 2 => 256 * (bytes[2 * i] as int) + bytes[2 * i + 1])
  }

  function ParseInt(img: Image, t: Trailer, off: nat): (r: Option<Shape>)
    requires Trusted(img, t) && off < t.offsetTableOffset
  {
    var cnt := IntBytes(img.bytes[off] % 16);
    if !Extent(img, off + 1, cnt, t.offsetTableOffset - 1) || 16 < cnt then None
    else
      var n := Field(img, off + 1, cnt);
      Some(Leaf(if 8 < cnt then VInt128(0, n) else VInt(Signed64(n))))
  }

  function ParseReal(img: Image, t: Trailer, off: nat): (r: Option<Shape>)
    requires Trusted(img, t) && off < t.offsetTableOffset
  {
    var last := t.offsetTableOffset - 1;
    match img.bytes[off] % 16
    case 2 => if !Extent(img, off + 1, 4, last) then None else
      Pow256Values();
      SizedSmall(img.bytes[off + 1..off + 5]);
      Some(Leaf(VReal32(Field(img, off + 1, 4))))
    case 3 => if !Extent(img, off + 1, 8, last) then None else Some(Leaf(VReal64(Field(img, off + 1, 8))))
    case _ => None
  }

  function ParseUid(img: Image, t: Trailer, off: nat): (r: Option<Shape>)
    requires Trusted(img, t) && off < t.offsetTableOffset
  {
    var cnt := img.bytes[off] % 16 + 1;
    if !Extent(img, off + 1, cnt, t.offsetTableOffset - 1) then None
    else
      var n := Field(img, off + 1, cnt);
      if TWO32 <= n then None else Some(Leaf(VUid(n)))
  }

  /** Data and strings: a count followed by `unit` bytes for each element. */
  function ParseBytes(img: Image, t: Trailer, off: nat, unit: nat): (r: Option<seq<byte>>)
    requires Trusted(img, t) && off < t.offsetTableOffset && 1 <= unit <= 2
  {
    var c := ReadCount(img, t, off);
    if c.None? || !Extent(img, c.value.1, unit * c.value.0, t.offsetTableOffset - 1) then None
    else Some(img.bytes[c.value.1..c.value.1 + unit * c.value.0])
  }

  /** The offsets that n consecutive references lead to. */
  function RefOffsets(img: Image, t: Trailer, pos: nat, n: nat): (r: seq<nat>)
    requires Trusted(img, t)
    ensures |r| == n
    ensures forall i :: 0 <= i < n ==> r[i] == OffsetOfRefAt(img, t, Slot(pos, i, t.objectRefSize))
    ensures forall x :: x in r ==> x < t.offsetTableOffset || x == UINT64_MAX
  {
    seq(n, i requires 0 <= i < n => OffsetOfRefAt(img, t, Slot(pos, i, t.objectRefSize)))
  }

  /** Containers: a count followed by `groups` references for each element. */
  function ParseRefs(img: Image, t: Trailer, off: nat, groups: nat): (r: Option<seq<nat>>)
    requires Trusted(img, t) && off < t.offsetTableOffset && 1 <= groups <= 2
    ensures r.Some? && groups == 2 ==> |r.value| % 2 == 0
    ensures r.Some? ==> forall x :: x in r.value ==> x < t.offsetTableOffset || x == UINT64_MAX
  {
    var c := ReadCount(img, t, off);
    if c.None? then None
    else
      var n := if groups == 2 then 2 * c.value.0 else c.value.0;
      var size := Slot(0, n, t.objectRefSize);
      if size > UINT64_MAX || !Extent(img, c.value.1, size, t.offsetTableOffset - 1) || n * 8 > UINT64_MAX then None
      else Some(RefOffsets(img, t, c.value.1, n))
  }

  /** The object at `off` as far as it can be read without following a reference. */
  function ParseAt(img: Image, t: Trailer, off: nat): (r: Option<Shape>)
    requires Trusted(img, t)
    ensures r.Some? ==> 8 <= off < t.offsetTableOffset
    ensures r.Some? && r.value.Refs? ==> forall x :: x in r.value.offsets ==> x < t.offsetTableOffset || x == UINT64_MAX
    ensures r.Some? && r.value.Refs? && r.value.kind.KDict? ==> |r.value.offsets| % 2 == 0
  {
    if off < 8 || t.offsetTableOffset - 1 < off then None
    else
      var marker := img.bytes[off];
      match marker / 16
      case 0 =>
        if marker == 0x00 then Some(Leaf(VNull))
        else if marker == 0x08 then Some(Leaf(VBool(false)))
        else if marker == 0x09 then Some(Leaf(VBool(true)))
        else None
      case 1 => ParseInt(img, t, off)
      case 2 => ParseReal(img, t, off)
      case 3 => if marker != 0x33 || !Extent(img, off + 1, 8, t.offsetTableOffset - 1) then None
                else Some(Leaf(VDate(Field(img, off + 1, 8))))
      case 4 => var b := ParseBytes(img, t, off, 1); if b.None? then None else Some(Leaf(VData(b.value)))
      case 5 => var b := ParseBytes(img, t, off, 1); if b.None? then None else Some(Leaf(VString(b.value)))
      case 6 => var b := ParseBytes(img, t, off, 2); if b.None? then None else Some(Leaf(VString(Units(b.value))))
      case 8 => ParseUid(img, t, off)
      case 10 => var r := ParseRefs(img, t, off, 1); if r.None? then None else Some(Refs(KArray, r.value))
      case 12 => var r := ParseRefs(img, t, off, 1); if r.None? then None else Some(Refs(KSet, r.value))
      case 13 => var r := ParseRefs(img, t, off, 2); if r.None? then None else Some(Refs(KDict, r.value))
      case _ => None
  }

  /** The objects of a file by offset. */
  function ObjectsOf(img: Image, t: Trailer): (file: map<nat, Shape>)
    requires Trusted(img, t)
    ensures forall off: nat :: off in file <==> ParseAt(img, t, off).Some?
    ensures forall off: nat :: off in file ==> ParseAt(img, t, off) == Some(file[off])
  {
    map off: nat | 8 <= off < t.offsetTableOffset && ParseAt(img, t, off).Some? :: ParseAt(img, t, off).value
  }

  lemma TableEntryAt(img: Image, t: Trailer, k: nat)
    requires |img.bytes| >= TRAILER_SIZE + 9 && TrailerFits(img, t) && k < t.numObjects
    ensures var at := t.offsetTableOffset + k * t.offsetIntSize;
            at + t.offsetIntSize <= |img.bytes| && TableEntry(img, t, k) == Sized(img.bytes[at..at + t.offsetIntSize])
  {
    EntryInTable(k, t.numObjects, t.offsetIntSize);
  }

  /** The scan of the offset table: no entry may lie behind the objects. */
  method ScanTable(img: Image, t: Trailer) returns (ok: bool)
    requires |img.bytes| >= TRAILER_SIZE + 9 && TrailerFits(img, t)
    ensures ok <==> TableOk(img, t)
  {
    hide TrailerFits, TableEntry, Sized, Field;
    var idx := 0;
    var at := t.offsetTableOffset;
    while idx < t.numObjects
      invariant 0 <= idx <= t.numObjects
      invariant at == t.offsetTableOffset + idx * t.offsetIntSize
      invariant forall k :: 0 <= k < idx ==> TableEntry(img, t, k) <= t.offsetTableOffset - 1
    {
      TableEntryAt(img, t, idx);
      var entry := img.bytes[at..at + t.offsetIntSize];
      var off := GetSizedInt(entry, t.offsetIntSize);
      assert entry[..t.offsetIntSize] == entry;
      if t.offsetTableOffset - 1 < off {
        return false;
      }
      idx, at := idx + 1, at + t.offsetIntSize;
    }
    ok := true;
  }

  /** What a 64-bit register keeps. */
  function Low64(x: nat): (r: nat)
    ensures r < TWO64 && (x < TWO64 ==> r == x)
  {
    x % TWO64
  }

  /** __check_uint64_add_unsigned_unsigned: the sum modulo 2^64, and a flag that stays set once a sum overflows. */
  method CheckAdd(x: nat, y: nat, err: bool) returns (r: nat, err': bool)
    requires x < TWO64 && y < TWO64
    ensures r == Low64(x + y) && (err' <==> err || x + y > UINT64_MAX)
  {
    err' := err;
    if UINT64_MAX - y < x {
      err' := true;
    }
    r := Low64(x + y);
  }

  function Product(x: nat, y: nat): nat {
    x * y
  }

  /** __check_uint64_mul_unsigned_unsigned: the same for products. */
  method CheckMul(x: nat, y: nat, err: bool) returns (r: nat, err': bool)
    requires x < TWO64 && y < TWO64
    ensures r == Low64(Product(x, y)) && (err' <==> err || Product(x, y) > UINT64_MAX)
  {
    if x == 0 {
      return 0, err;
    }
    QuotientTest(UINT64_MAX, x, y);
    hide Product;
    err' := err;
    if UINT64_MAX / x < y {
      err' := true;
    }
    r := Low64(Product(x, y));
  }

  lemma QuotientTest(max: nat, x: nat, y: nat)
    requires x > 0
    ensures max / x < y <==> max < Product(x, y)
  {
    QuotientBounds(max, x);
    if max / x < y {
      ProductGrows(x, max / x + 1, y);
    } else {
      ProductGrows(x, y, max / x);
    }
    hide Product;
  }

  lemma QuotientBounds(max: nat, x: nat)
    requires x > 0
    ensures Product(x, max / x) <= max < Product(x, max / x + 1)
  {
  }

  lemma ProductGrows(x: nat, a: nat, b: nat)
    requires a <= b
    ensures Product(x, a) <= Product(x, b)
  {
    assert x * b == x * a + x * (b - a);
  }

  /** The tests that need no arithmetic. */
  predicate Plausible(t: Trailer, length: nat) {
    && t.numObjects <= LONG_MAX && t.offsetTableOffset <= LONG_MAX
    && 1 <= t.numObjects && t.topObject < t.numObjects
    && 9 <= t.offsetTableOffset && t.offsetTableOffset < length - TRAILER_SIZE
    && 1 <= t.offsetIntSize && 1 <= t.objectRefSize
  }

  /** The references reach all objects, and the offsets reach up to the table. */
  predicate WidthsSuffice(t: Trailer) {
    && (t.objectRefSize < 8 ==> t.numObjects < Pow256(t.objectRefSize))
    && (t.offsetIntSize < 8 ==> t.offsetTableOffset < Pow256(t.offsetIntSize))
  }

  lemma TrailerFitsParts(img: Image, t: Trailer)
    requires Mapped(img) && |img.bytes| >= TRAILER_SIZE + 9
    ensures var size := Product(t.numObjects, t.offsetIntSize);
      TrailerFits(img, t) <==>
        Plausible(t, |img.bytes|) && size <= UINT64_MAX && |img.bytes| == t.offsetTableOffset + size + TRAILER_SIZE && WidthsSuffice(t)
    ensures Plausible(t, |img.bytes|) ==> Product(t.numObjects, t.offsetIntSize) >= 1
  {
    hide Pow256;
  }

  /** The scalar tests of __CFBinaryPlistGetTopLevelInfo, with flagged 64-bit arithmetic: they decide TrailerFits. */
  method CheckTrailer(img: Image, t: Trailer) returns (ok: bool)
    requires Mapped(img) && |img.bytes| >= TRAILER_SIZE + 9
    requires t.numObjects < TWO64 && t.topObject < TWO64 && t.offsetTableOffset < TWO64
    ensures ok <==> TrailerFits(img, t)
  {
    TrailerFitsParts(img, t);
    hide Pow256, Product, Low64, TrailerFits;
    if LONG_MAX < t.numObjects || LONG_MAX < t.offsetTableOffset || t.numObjects < 1 || t.numObjects <= t.topObject {
      return false;
    }
    if t.offsetTableOffset < 9 || |img.bytes| - TRAILER_SIZE <= t.offsetTableOffset || t.offsetIntSize < 1 || t.objectRefSize < 1 {
      return false;
    }
    var offsetTableSize, err := CheckMul(t.numObjects, t.offsetIntSize, false);
    if err || offsetTableSize < 1 {
      return false;
    }
    var sizesFit := CheckSizes(|img.bytes|, t.offsetTableOffset, offsetTableSize);
    if !sizesFit {
      return false;
    }
    if t.objectRefSize < 8 && Pow256(t.objectRefSize) <= t.numObjects {
      return false;
    }
    if t.offsetIntSize < 8 && Pow256(t.offsetIntSize) <= t.offsetTableOffset {
      return false;
    }
    ok := CheckPointers(img.base, t.offsetTableOffset, offsetTableSize);
  }

  /** The header, the objects, the table and the trailer are the whole file, with no sum overflowing. */
  method CheckSizes(length: nat, offsetTableOffset: nat, offsetTableSize: nat) returns (ok: bool)
    requires length <= LONG_MAX && 8 <= offsetTableOffset < TWO64 && offsetTableSize < TWO64
    ensures ok <==> length == offsetTableOffset + offsetTableSize + TRAILER_SIZE
  {
    hide Low64;
    var tmpSum, err := CheckAdd(8, offsetTableOffset - 8, false);
    tmpSum, err := CheckAdd(tmpSum, offsetTableSize, err);
    tmpSum, err := CheckAdd(tmpSum, TRAILER_SIZE, err);
    ok := !err && length == tmpSum;
  }

  /** No address of the table overflows. */
  method CheckPointers(base: nat, offsetTableOffset: nat, offsetTableSize: nat) returns (ok: bool)
    requires base < TWO64 && offsetTableOffset < TWO64 && 1 <= offsetTableSize < TWO64
    ensures ok <==> base + 8 < TWO64 && base + offsetTableOffset + (offsetTableSize - 1) < TWO64
  {
    hide Low64;
    var first, err := CheckAdd(base, 8, false);
    first, err := CheckAdd(base, offsetTableOffset, err);
    first, err := CheckAdd(first, offsetTableSize - 1, err);
    ok := !err;
  }

  /** __CFBinaryPlistGetTopLevelInfo as it runs: scalar tests first, then a scan of the offset table. */
  method GetTopLevelInfo(img: Image) returns (r: Option<(Trailer, nat)>)
    requires Mapped(img)
    ensures r == TopLevelInfo(img)
  {
    hide TrailerFits, TableEntry, Sized, TableOk;
    if |img.bytes| < TRAILER_SIZE + 9 || img.bytes[..7] != MAGIC {
      return None;
    }
    var t := ReadTrailer(img);
    var ok := CheckTrailer(img, t);
    if !ok {
      return None;
    }
    ok := ScanTable(img, t);
    if !ok {
      return None;
    }
    var top := TopEntry(img, t);
    if top < 8 || t.offsetTableOffset <= top {
      return None;
    }
    r := Some((t, top));
  }

  function TopEntry(img: Image, t: Trailer): (r: nat)
    requires |img.bytes| >= TRAILER_SIZE + 9 && TrailerFits(img, t)
    ensures t.topObject < t.numObjects && r == TableEntry(img, t, t.topObject)
  {
    TableEntry(img, t, t.topObject)
  }
}
