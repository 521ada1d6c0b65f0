/**
 The binary property list format by itself: which bytes stand for which value, for every
 marker, stated over the bytes of the file with explicit constants. The reader accepts
 exactly this format, including everything the writer never produces: nulls, sets, UIDs of
 any width, strings with bytes above 127, and counts wider than they need to be.
 */
module PlistFormat {
  import opened Machine
  import opened Bytes
  import opened Plist
  import opened PlistReader
  import opened PlistDecode

  // ----- the format -----

  /** The big-endian number in `width` bytes, as far as 64 bits hold it. */
  function NumberAt(b: seq<byte>, at: nat, width: nat): (n: nat)
    requires at + width <= |b|
    ensures n < TWO64
  {
    BigEndian(b[at..at + width]) % TWO64
  }

  /** The widths of the integers with markers 0x10 to 0x1F. */
  const WIDTHS: seq<nat> := [1, 2, 4, 8, 16, 32, 64, 128, 256, 512, 1024, 2048, 4096, 8192, 16384, 32768]

  /** A marker byte followed by a field of `width` bytes that lies before the table. */
  predicate FieldAt(b: seq<byte>, end: nat, off: nat, marker: int, width: nat) {
    off + 1 + width <= end <= |b| && b[off] as int == marker
  }

  /**
   The object is of this kind and has n elements that start at `at`: the count is in the
   marker, or an integer behind it. An integer of 256 bytes or more is taken for 0.
   */
  predicate CountAt(b: seq<byte>, end: nat, off: nat, kind: nat, n: nat, at: nat) {
    || (n < 15 && FieldAt(b, end, off, 16 * kind + n, 0) && at == off + 1)
    || (&& FieldAt(b, end, off, 16 * kind + 15, 1) && 0x10 <= b[off + 1] < 0x20
        && var w := WIDTHS[b[off + 1] - 0x10];
        && at == off + 2 + w <= end
        && n == (if w < 256 then NumberAt(b, off + 2, w) else 0) <= LONG_MAX)
  }

  /** 0x10 to 0x13: an integer of 1, 2, 4 or 8 bytes; one of 8 bytes is in two's complement. */
  predicate IntAt(b: seq<byte>, end: nat, off: nat, i: int64) {
    && off < end <= |b| && 0x10 <= b[off] <= 0x13
    && var w := WIDTHS[b[off] - 0x10];
    && off + 1 + w <= end && NumberAt(b, off + 1, w) == if i < 0 then i + TWO64 else i
  }

  /** 0x80 to 0x8F: a number below 2^32 in 1 to 16 bytes. */
  predicate UidAt(b: seq<byte>, end: nat, off: nat, uid: uint32) {
    && off < end <= |b| && 0x80 <= b[off] <= 0x8F
    && var w := b[off] - 0x7F;
    && off + 1 + w <= end && NumberAt(b, off + 1, w) == uid
  }

  /** 0x4n and 0x5n: n elements of one byte each. */
  ghost predicate BytesAt(b: seq<byte>, end: nat, off: nat, kind: nat, u: seq<int>) {
    exists at: nat :: CountAt(b, end, off, kind, |u|, at) && at + |u| <= end && forall i :: 0 <= i < |u| ==> u[i] == b[at + i]
  }

  /** 0x6n: two bytes for each unit, the high one first. */
  ghost predicate UnitStringAt(b: seq<byte>, end: nat, off: nat, u: seq<unichar>) {
    exists at: nat :: CountAt(b, end, off, 0x6, |u|, at) && at + 2 * |u| <= end && UnitsFrom(b, at, u)
  }

  predicate UnitsFrom(b: seq<byte>, at: nat, u: seq<unichar>)
    requires at + 2 * |u| <= |b|
  {
    forall i :: 0 <= i < |u| ==> u[i] == 256 * (b[at + 2 * i] as int) + b[at + 2 * i + 1]
  }

  /** Objects that refer to no others. Of a 16-byte integer only the low half is kept. */
  ghost predicate LeafAt(b: seq<byte>, end: nat, off: nat, v: Value) {
    match v
    case VNull => FieldAt(b, end, off, 0x00, 0)
    case VBool(x) => FieldAt(b, end, off, if x then 0x09 else 0x08, 0)
    case VInt(i) => IntAt(b, end, off, i)
    case VInt128(high, low) => FieldAt(b, end, off, 0x14, 16) && high == 0 && low == NumberAt(b, off + 1, 16)
    case VReal32(bits) => FieldAt(b, end, off, 0x22, 4) && bits == NumberAt(b, off + 1, 4)
    case VReal64(bits) => FieldAt(b, end, off, 0x23, 8) && bits == NumberAt(b, off + 1, 8)
    case VDate(time) => FieldAt(b, end, off, 0x33, 8) && time == NumberAt(b, off + 1, 8)
    case VData(s) => BytesAt(b, end, off, 0x4, s)
    case VString(u) => BytesAt(b, end, off, 0x5, u) || UnitStringAt(b, end, off, u)
    case VUid(uid) => UidAt(b, end, off, uid)
    case _ => false
  }

  /** Where a reference leads: the entry of the offset table that it numbers, or nowhere. */
  function TargetAt(b: seq<byte>, t: Trailer, pos: nat): nat
    requires pos + t.objectRefSize <= |b|
  {
    var ref := NumberAt(b, pos, t.objectRefSize);
    var at := t.offsetTableOffset + ref * t.offsetIntSize;
    if ref < t.numObjects && at + t.offsetIntSize <= |b| then NumberAt(b, at, t.offsetIntSize) else UINT64_MAX
  }

  /** References one after the other lead to these offsets. */
  predicate TargetsFrom(b: seq<byte>, t: Trailer, at: nat, offsets: seq<nat>) {
    forall i :: 0 <= i < |offsets| ==>
      Slot(at, i, t.objectRefSize) + t.objectRefSize <= |b| && offsets[i] == TargetAt(b, t, Slot(at, i, t.objectRefSize))
  }

  /** A container of this kind with n elements: its references lie before the table, and an array of pointers holds them. */
  ghost predicate ContainerAt(b: seq<byte>, t: Trailer, off: nat, kind: nat, n: nat, offsets: seq<nat>) {
    exists at: nat :: CountAt(b, t.offsetTableOffset, off, kind, n, at) && RefsFrom(b, t, at, offsets)
  }

  ghost predicate RefsFrom(b: seq<byte>, t: Trailer, at: nat, offsets: seq<nat>) {
    && at + |offsets| * t.objectRefSize <= t.offsetTableOffset && |offsets| < 0x2000_0000_0000_0000
    && TargetsFrom(b, t, at, offsets)
  }

  /** One object: 0xAn is an array, 0xCn a set, 0xDn a dictionary with n keys and then n values. */
  ghost predicate ObjectAt(b: seq<byte>, t: Trailer, off: nat, shape: Shape) {
    && 8 <= off
    && match shape
       case Leaf(v) => LeafAt(b, t.offsetTableOffset, off, v)
       case Refs(KArray, offsets) => ContainerAt(b, t, off, 0xA, |offsets|, offsets)
       case Refs(KSet, offsets) => ContainerAt(b, t, off, 0xC, |offsets|, offsets)
       case Refs(KDict, offsets) => |offsets| % 2 == 0 && ContainerAt(b, t, off, 0xD, |offsets| / 2, offsets)
  }

  // ----- the reader on one object -----

  lemma WidthsAre(k: nat)
    requires k < 16
    ensures WIDTHS[k] == IntBytes(k)
  {
    if k > 0 {
      WidthsAre(k - 1);
    }
  }

  lemma FieldIs(img: Image, pos: nat, width: nat)
    requires pos + width <= |img.bytes|
    ensures Field(img, pos, width) == NumberAt(img.bytes, pos, width)
    ensures width == 0 ==> Field(img, pos, width) == 0
  {
  }

  lemma TableInside(img: Image, t: Trailer)
    requires Trusted(img, t)
    ensures t.offsetTableOffset <= |img.bytes| && 9 <= t.offsetTableOffset && Mapped(img) && t.offsetTableOffset <= LONG_MAX
  {
  }

  /** The widths that a byte can hold. */
  lemma WidthCut(k: nat)
    requires k < 16
    ensures WIDTHS[k] % 256 == if WIDTHS[k] < 256 then WIDTHS[k] else 0
  {
  }

  lemma IntMeaning(img: Image, t: Trailer, pos: nat, n: nat, at: nat)
    requires Trusted(img, t)
    ensures ReadInt(img, t, pos) == Some((n, at)) <==>
      && pos < t.offsetTableOffset && 0x10 <= img.bytes[pos] < 0x20
      && var w := WIDTHS[img.bytes[pos] - 0x10];
         at == pos + 1 + w <= t.offsetTableOffset && n == if w < 256 then NumberAt(img.bytes, pos + 1, w) else 0
  {
    TableInside(img, t);
    hide Trusted, Field, IntBytes, Mapped, NumberAt;
    if pos < t.offsetTableOffset && img.bytes[pos] / 16 == 1 {
      var k := img.bytes[pos] % 16;
      WidthsAre(k);
      WidthCut(k);
      var w := WIDTHS[k];
      if pos + 1 + w <= t.offsetTableOffset {
        FieldIs(img, pos + 1, w % 256);
      }
    }
  }

  lemma Nibbles(x: byte)
    ensures x as int == 16 * (x / 16) as int + (x % 16) as int && x % 16 < 16
  {
  }

  lemma CountMeaning(img: Image, t: Trailer, off: nat, n: nat, at: nat)
    requires Trusted(img, t) && off < t.offsetTableOffset
    ensures ReadCount(img, t, off) == Some((n, at)) <==> CountAt(img.bytes, t.offsetTableOffset, off, img.bytes[off] / 16, n, at)
  {
    TableInside(img, t);
    hide Trusted, ReadInt, ReadCount, NumberAt, WIDTHS, CountAt;
    if img.bytes[off] % 16 == 15 {
      LongCount(img, t, off, n, at);
    } else {
      ShortCount(img, t, off, n, at);
    }
  }

  lemma ShortCount(img: Image, t: Trailer, off: nat, n: nat, at: nat)
    requires Trusted(img, t) && off < t.offsetTableOffset <= |img.bytes| && img.bytes[off] % 16 != 15
    ensures ReadCount(img, t, off) == Some((n, at)) <==> CountAt(img.bytes, t.offsetTableOffset, off, img.bytes[off] / 16, n, at)
  {
    Nibbles(img.bytes[off]);
    hide Trusted, ReadInt, NumberAt, WIDTHS;
  }

  lemma LongCount(img: Image, t: Trailer, off: nat, n: nat, at: nat)
    requires Trusted(img, t) && off < t.offsetTableOffset <= |img.bytes| && img.bytes[off] % 16 == 15
    ensures ReadCount(img, t, off) == Some((n, at)) <==> CountAt(img.bytes, t.offsetTableOffset, off, img.bytes[off] / 16, n, at)
  {
    Nibbles(img.bytes[off]);
    IntMeaning(img, t, off + 1, n, at);
    hide Trusted, ReadInt, NumberAt, WIDTHS;
  }

  lemma CountKind(b: seq<byte>, end: nat, off: nat, kind: nat, n: nat, at: nat)
    requires CountAt(b, end, off, kind, n, at)
    ensures off < end <= |b| && b[off] / 16 == kind && at <= end
  {
    hide NumberAt, WIDTHS;
  }

  lemma BytesMeaning(img: Image, t: Trailer, off: nat, unit: nat, n: nat, at: nat)
    requires Trusted(img, t) && off < t.offsetTableOffset && 1 <= unit <= 2
    requires CountAt(img.bytes, t.offsetTableOffset, off, img.bytes[off] / 16, n, at)
    ensures at <= t.offsetTableOffset <= |img.bytes|
    ensures ParseBytes(img, t, off, unit) ==
      if at + unit * n <= t.offsetTableOffset then Some(img.bytes[at..at + unit * n]) else None
  {
    TableInside(img, t);
    CountMeaning(img, t, off, n, at);
    hide Trusted, CountAt, ReadCount;
  }

  /** Where the contents of a sized object are, when its count can be read. */
  lemma CountFound(img: Image, t: Trailer, off: nat) returns (n: nat, at: nat)
    requires Trusted(img, t) && off < t.offsetTableOffset && ReadCount(img, t, off).Some?
    ensures CountAt(img.bytes, t.offsetTableOffset, off, img.bytes[off] / 16, n, at)
  {
    n, at := ReadCount(img, t, off).value.0, ReadCount(img, t, off).value.1;
    CountMeaning(img, t, off, n, at);
  }

  lemma Counts(img: Image, t: Trailer, off: nat, unit: nat)
    requires Trusted(img, t) && off < t.offsetTableOffset && 1 <= unit <= 2 && ParseBytes(img, t, off, unit).Some?
    ensures ReadCount(img, t, off).Some?
  {
  }

  lemma SingleBytesMeaning(img: Image, t: Trailer, off: nat, u: seq<int>)
    requires Trusted(img, t) && off < t.offsetTableOffset
    ensures ParseBytes(img, t, off, 1).Some? && ParseBytes(img, t, off, 1).value == u <==>
            BytesAt(img.bytes, t.offsetTableOffset, off, (img.bytes[off] / 16) as int, u)
  {
    var b, end := img.bytes, t.offsetTableOffset;
    TableInside(img, t);
    hide Trusted, CountAt, ParseBytes, ReadCount, Mapped;
    if ParseBytes(img, t, off, 1).Some? {
      SingleBytesFound(img, t, off, ParseBytes(img, t, off, 1).value);
    }
    if BytesAt(b, end, off, (b[off] / 16) as int, u) {
      var at: nat :| CountAt(b, end, off, (b[off] / 16) as int, |u|, at) && at + |u| <= end && forall i :: 0 <= i < |u| ==> u[i] == b[at + i];
      BytesMeaning(img, t, off, 1, |u|, at);
      assert b[at..at + |u|] == u;
    }
  }

  lemma SingleBytesFound(img: Image, t: Trailer, off: nat, s: seq<byte>)
    requires Trusted(img, t) && off < t.offsetTableOffset && ParseBytes(img, t, off, 1) == Some(s)
    ensures BytesAt(img.bytes, t.offsetTableOffset, off, (img.bytes[off] / 16) as int, s)
  {
    TableInside(img, t);
    Counts(img, t, off, 1);
    hide Trusted, CountAt, ParseBytes, ReadCount, Mapped;
    var n, at := CountFound(img, t, off);
    BytesMeaning(img, t, off, 1, n, at);
    assert s == img.bytes[at..at + n];
  }

  lemma UnitStringMeaning(img: Image, t: Trailer, off: nat, u: seq<unichar>)
    requires Trusted(img, t) && off < t.offsetTableOffset && img.bytes[off] / 16 == 6
    ensures ParseBytes(img, t, off, 2).Some? && Units(ParseBytes(img, t, off, 2).value) == u <==>
            UnitStringAt(img.bytes, t.offsetTableOffset, off, u)
  {
    TableInside(img, t);
    hide Trusted, CountAt, ParseBytes, ReadCount, Units, UnitsFrom, Mapped;
    if ParseBytes(img, t, off, 2).Some? && Units(ParseBytes(img, t, off, 2).value) == u {
      UnitStringFound(img, t, off, u);
    }
    if UnitStringAt(img.bytes, t.offsetTableOffset, off, u) {
      UnitStringRead(img, t, off, u);
    }
  }

  lemma UnitStringRead(img: Image, t: Trailer, off: nat, u: seq<unichar>)
    requires Trusted(img, t) && off < t.offsetTableOffset && img.bytes[off] / 16 == 6
    requires UnitStringAt(img.bytes, t.offsetTableOffset, off, u)
    ensures ParseBytes(img, t, off, 2).Some? && Units(ParseBytes(img, t, off, 2).value) == u
  {
    TableInside(img, t);
    hide Trusted, CountAt, ParseBytes, ReadCount, Units, UnitsFrom, Mapped;
    var at: nat :| CountAt(img.bytes, t.offsetTableOffset, off, 0x6, |u|, at) && at + 2 * |u| <= t.offsetTableOffset
                   && UnitsFrom(img.bytes, at, u);
    BytesMeaning(img, t, off, 2, |u|, at);
    UnitsMeaning(img.bytes, at, |u|, u);
  }

  lemma UnitStringFound(img: Image, t: Trailer, off: nat, u: seq<unichar>)
    requires Trusted(img, t) && off < t.offsetTableOffset && img.bytes[off] / 16 == 6
    requires ParseBytes(img, t, off, 2).Some? && Units(ParseBytes(img, t, off, 2).value) == u
    ensures UnitStringAt(img.bytes, t.offsetTableOffset, off, u)
  {
    TableInside(img, t);
    Counts(img, t, off, 2);
    hide Trusted, CountAt, ParseBytes, ReadCount, Units, UnitsFrom, Mapped;
    var n, at := CountFound(img, t, off);
    BytesMeaning(img, t, off, 2, n, at);
    UnitsMeaning(img.bytes, at, n, u);
  }

  lemma UnitsMeaning(b: seq<byte>, at: nat, n: nat, u: seq<unichar>)
    requires at + 2 * n <= |b|
    ensures Units(b[at..at + 2 * n]) == u <==> |u| == n && UnitsFrom(b, at, u)
  {
    var s := b[at..at + 2 * n];
    forall i | 0 <= i < n ensures s[2 * i] == b[at + 2 * i] && s[2 * i + 1] == b[at + 2 * i + 1] {
    }
    forall i | 0 <= i < n ensures Units(s)[i] == 256 * (b[at + 2 * i] as int) + b[at + 2 * i + 1] {
    }
    if |u| == n && UnitsFrom(b, at, u) {
      assert Units(s) == u;
    }
  }

  /** A reference inside the objects leads where the format says. */
  lemma TargetMeaning(img: Image, t: Trailer, pos: nat)
    requires Trusted(img, t) && 8 <= pos && pos + t.objectRefSize <= t.offsetTableOffset
    ensures pos + t.objectRefSize <= |img.bytes| && OffsetOfRefAt(img, t, pos) == TargetAt(img.bytes, t, pos)
  {
    TableInside(img, t);
    FieldIs(img, pos, t.objectRefSize);
    var ref := Field(img, pos, t.objectRefSize);
    if ref < t.numObjects {
      TableEntryAt(img, t, ref);
    }
    hide Mapped, TrailerFits, TableOk, NumberAt, Sized;
  }

  lemma TargetsMeaning(img: Image, t: Trailer, at: nat, n: nat, offsets: seq<nat>)
    requires Trusted(img, t) && 8 <= at && at + n * t.objectRefSize <= t.offsetTableOffset
    ensures RefOffsets(img, t, at, n) == offsets <==> |offsets| == n && TargetsFrom(img.bytes, t, at, offsets)
  {
    forall i | 0 <= i < n
      ensures Slot(at, i, t.objectRefSize) + t.objectRefSize <= |img.bytes|
      ensures RefOffsets(img, t, at, n)[i] == TargetAt(img.bytes, t, Slot(at, i, t.objectRefSize))
    {
      EntryInTable(i, n, t.objectRefSize);
      hide Trusted, OffsetOfRefAt, TargetAt;
      TargetMeaning(img, t, Slot(at, i, t.objectRefSize));
    }
    hide Trusted, TargetAt, OffsetOfRefAt, Slot;
    if |offsets| == n && TargetsFrom(img.bytes, t, at, offsets) {
      assert RefOffsets(img, t, at, n) == offsets;
    }
  }

  lemma RefsMeaning(img: Image, t: Trailer, off: nat, groups: nat, n: nat, at: nat, offsets: seq<nat>)
    requires Trusted(img, t) && 8 <= off < t.offsetTableOffset && 1 <= groups <= 2
    requires CountAt(img.bytes, t.offsetTableOffset, off, img.bytes[off] / 16, n, at)
    ensures ParseRefs(img, t, off, groups) == Some(offsets) <==> |offsets| == groups * n && RefsFrom(img.bytes, t, at, offsets)
  {
    TableInside(img, t);
    CountMeaning(img, t, off, n, at);
    CountKind(img.bytes, t.offsetTableOffset, off, img.bytes[off] / 16, n, at);
    var m := groups * n;
    var size := Slot(0, m, t.objectRefSize);
    assert 8 <= at by {
      hide Trusted, NumberAt, WIDTHS;
    }
    hide Trusted, CountAt, ReadCount, TargetsFrom, RefOffsets;
    if at + size <= t.offsetTableOffset {
      TargetsMeaning(img, t, at, m, offsets);
    }
  }

  lemma CountsRefs(img: Image, t: Trailer, off: nat, groups: nat)
    requires Trusted(img, t) && off < t.offsetTableOffset && 1 <= groups <= 2 && ParseRefs(img, t, off, groups).Some?
    ensures ReadCount(img, t, off).Some?
  {
  }

  lemma ContainerMeaning(img: Image, t: Trailer, off: nat, groups: nat, n: nat, offsets: seq<nat>)
    requires Trusted(img, t) && 8 <= off < t.offsetTableOffset && 1 <= groups <= 2 && |offsets| == groups * n
    ensures ParseRefs(img, t, off, groups) == Some(offsets) <==>
            ContainerAt(img.bytes, t, off, (img.bytes[off] / 16) as int, n, offsets)
  {
    var kind: nat := (img.bytes[off] / 16) as int;
    if ParseRefs(img, t, off, groups) == Some(offsets) {
      ContainerFound(img, t, off, groups, n, offsets);
    }
    hide Trusted, CountAt, ParseRefs, ReadCount, RefsFrom;
    if ContainerAt(img.bytes, t, off, kind, n, offsets) {
      var at: nat :| CountAt(img.bytes, t.offsetTableOffset, off, kind, n, at) && RefsFrom(img.bytes, t, at, offsets);
      RefsMeaning(img, t, off, groups, n, at, offsets);
    }
  }

  lemma ContainerFound(img: Image, t: Trailer, off: nat, groups: nat, n: nat, offsets: seq<nat>)
    requires Trusted(img, t) && 8 <= off < t.offsetTableOffset && 1 <= groups <= 2 && |offsets| == groups * n
    requires ParseRefs(img, t, off, groups) == Some(offsets)
    ensures ContainerAt(img.bytes, t, off, (img.bytes[off] / 16) as int, n, offsets)
  {
    hide Trusted, CountAt, ParseRefs, ReadCount, RefsFrom;
    CountsRefs(img, t, off, groups);
    var m, at := CountFound(img, t, off);
    RefsMeaning(img, t, off, groups, m, at, offsets);
    SameFactor(groups, m, n);
  }

  lemma SameFactor(groups: nat, m: nat, n: nat)
    requires 1 <= groups <= 2 && groups * m == groups * n
    ensures m == n
  {
  }

  /** The kind of marker that each kind of object has. */
  predicate MarkerOf(x: byte, shape: Shape) {
    match shape
    case Leaf(v) => (match v
      case VNull => x == 0x00
      case VBool(_) => x == 0x08 || x == 0x09
      case VInt(_) => x / 16 == 1
      case VInt128(_, _) => x / 16 == 1
      case VReal32(_) => x == 0x22
      case VReal64(_) => x == 0x23
      case VDate(_) => x == 0x33
      case VData(_) => x / 16 == 4
      case VString(_) => x / 16 == 5 || x / 16 == 6
      case VUid(_) => x / 16 == 8
      case _ => false)
    case Refs(KArray, _) => x / 16 == 0xA
    case Refs(KSet, _) => x / 16 == 0xC
    case Refs(KDict, _) => x / 16 == 0xD
  }

  lemma ObjectMarker(b: seq<byte>, t: Trailer, off: nat, shape: Shape)
    requires ObjectAt(b, t, off, shape)
    ensures off < t.offsetTableOffset <= |b| && MarkerOf(b[off], shape)
  {
    hide NumberAt, CountAt, RefsFrom, UnitsFrom, WIDTHS;
    match shape {
      case Leaf(VData(s)) =>
        var at: nat :| CountAt(b, t.offsetTableOffset, off, 0x4, |s|, at);
        CountKind(b, t.offsetTableOffset, off, 0x4, |s|, at);
      case Leaf(VString(u)) =>
        var kind := if BytesAt(b, t.offsetTableOffset, off, 0x5, u) then 0x5 else 0x6;
        var at: nat :| CountAt(b, t.offsetTableOffset, off, kind, |u|, at);
        CountKind(b, t.offsetTableOffset, off, kind, |u|, at);
      case Refs(kind, offsets) =>
        var k := match kind case KArray => 0xA case KSet => 0xC case KDict => 0xD;
        var n := if kind.KDict? then |offsets| / 2 else |offsets|;
        var at: nat :| CountAt(b, t.offsetTableOffset, off, k, n, at);
        CountKind(b, t.offsetTableOffset, off, k, n, at);
      case _ =>
    }
  }

  lemma WidthRange(k: nat)
    requires k < 16
    ensures |WIDTHS| == 16 && WIDTHS[k] == IntBytes(k)
    ensures (WIDTHS[k] <= 8 <==> k <= 3) && (WIDTHS[k] <= 16 <==> k <= 4) && (k == 4 ==> WIDTHS[k] == 16)
  {
    WidthsAre(k);
  }

  lemma IntegerParsed(img: Image, t: Trailer, off: nat, k: nat)
    requires Trusted(img, t) && 8 <= off < t.offsetTableOffset && k < 16 && img.bytes[off] as int == 0x10 + k
    ensures t.offsetTableOffset <= |img.bytes|
    ensures ParseInt(img, t, off) ==
      if 16 < WIDTHS[k] || t.offsetTableOffset < off + 1 + WIDTHS[k] then None
      else
        var n := NumberAt(img.bytes, off + 1, WIDTHS[k]);
        Some(Leaf(if WIDTHS[k] == 16 then VInt128(0, n) else VInt(Signed64(n))))
  {
    TableInside(img, t);
    WidthRange(k);
    hide Trusted, NumberAt, Field, IntBytes, WIDTHS;
    assert img.bytes[off] % 16 == k;
    if off + 1 + WIDTHS[k] <= t.offsetTableOffset {
      FieldIs(img, off + 1, WIDTHS[k]);
    }
    hide Mapped;
  }

  /** Markers 0x10 to 0x13. */
  lemma SmallIntegers(img: Image, t: Trailer, off: nat, shape: Shape)
    requires Trusted(img, t) && 8 <= off < t.offsetTableOffset && 0x10 <= img.bytes[off] <= 0x13
    ensures ParseInt(img, t, off) == Some(shape) <==> ObjectAt(img.bytes, t, off, shape)
  {
    WidthRange(img.bytes[off] as int - 0x10);
    IntegerParsed(img, t, off, img.bytes[off] as int - 0x10);
    if shape.Leaf? && shape.value.VInt? {
      SmallInteger(img, t, off, shape.value.i);
    } else if ObjectAt(img.bytes, t, off, shape) {
      ObjectMarker(img.bytes, t, off, shape);
    }
    hide Trusted, Mapped, NumberAt, ParseInt, CountAt, BytesAt, UnitStringAt, ContainerAt, UidAt, IntAt, WIDTHS, IntBytes;
  }

  lemma SmallInteger(img: Image, t: Trailer, off: nat, i: int64)
    requires Trusted(img, t) && 8 <= off < t.offsetTableOffset && 0x10 <= img.bytes[off] <= 0x13
    ensures ParseInt(img, t, off) == Some(Leaf(VInt(i))) <==> IntAt(img.bytes, t.offsetTableOffset, off, i)
  {
    WidthRange(img.bytes[off] as int - 0x10);
    IntegerParsed(img, t, off, img.bytes[off] as int - 0x10);
    hide Trusted, Mapped, NumberAt, ParseInt, WIDTHS, IntBytes;
  }

  /** Markers 0x14 to 0x1F: an integer of 16 bytes, and wider ones that are refused. */
  lemma WideIntegers(img: Image, t: Trailer, off: nat, shape: Shape)
    requires Trusted(img, t) && 8 <= off < t.offsetTableOffset && 0x14 <= img.bytes[off] <= 0x1F
    ensures ParseInt(img, t, off) == Some(shape) <==> ObjectAt(img.bytes, t, off, shape)
  {
    WidthRange(img.bytes[off] as int - 0x10);
    IntegerParsed(img, t, off, img.bytes[off] as int - 0x10);
    if ObjectAt(img.bytes, t, off, shape) {
      ObjectMarker(img.bytes, t, off, shape);
    }
    hide Trusted, Mapped, NumberAt, ParseInt, CountAt, BytesAt, UnitStringAt, ContainerAt, UidAt, WIDTHS, IntBytes;
  }

  lemma RealsMeaning(img: Image, t: Trailer, off: nat, shape: Shape)
    requires Trusted(img, t) && 8 <= off < t.offsetTableOffset && img.bytes[off] / 16 == 2
    ensures ParseReal(img, t, off) == Some(shape) <==> ObjectAt(img.bytes, t, off, shape)
  {
    Nibbles(img.bytes[off]);
    TableInside(img, t);
    if off + 1 + 4 <= t.offsetTableOffset {
      FieldIs(img, off + 1, 4);
    }
    if off + 1 + 8 <= t.offsetTableOffset {
      FieldIs(img, off + 1, 8);
    }
    if ObjectAt(img.bytes, t, off, shape) {
      ObjectMarker(img.bytes, t, off, shape);
    }
    hide Trusted, NumberAt, Field, CountAt, BytesAt, UnitStringAt, ContainerAt, UidAt, IntAt, Mapped;
  }

  lemma UidsMeaning(img: Image, t: Trailer, off: nat, shape: Shape)
    requires Trusted(img, t) && 8 <= off < t.offsetTableOffset && img.bytes[off] / 16 == 8
    ensures ParseUid(img, t, off) == Some(shape) <==> ObjectAt(img.bytes, t, off, shape)
  {
    Nibbles(img.bytes[off]);
    TableInside(img, t);
    var w := img.bytes[off] % 16 + 1;
    if off + 1 + w as int <= t.offsetTableOffset {
      FieldIs(img, off + 1, w as int);
    }
    if ObjectAt(img.bytes, t, off, shape) {
      ObjectMarker(img.bytes, t, off, shape);
    }
    hide Trusted, NumberAt, Field, CountAt, BytesAt, UnitStringAt, ContainerAt, IntAt, Mapped;
  }

  /** Markers 0x0n. */
  lemma SingletonsMeaning(img: Image, t: Trailer, off: nat, shape: Shape)
    requires Trusted(img, t) && 8 <= off < t.offsetTableOffset && img.bytes[off] / 16 == 0
    ensures ParseAt(img, t, off) == Some(shape) <==> ObjectAt(img.bytes, t, off, shape)
  {
    Nibbles(img.bytes[off]);
    TableInside(img, t);
    if ObjectAt(img.bytes, t, off, shape) {
      ObjectMarker(img.bytes, t, off, shape);
    }
    hide Trusted, NumberAt, Field, CountAt, BytesAt, UnitStringAt, ContainerAt, UidAt, IntAt, Mapped;
    hide ParseInt, ParseReal, ParseBytes, ParseUid, ParseRefs, Units;
  }

  /** Markers 0x3n. */
  lemma DatesMeaning(img: Image, t: Trailer, off: nat, shape: Shape)
    requires Trusted(img, t) && 8 <= off < t.offsetTableOffset && img.bytes[off] / 16 == 3
    ensures ParseAt(img, t, off) == Some(shape) <==> ObjectAt(img.bytes, t, off, shape)
  {
    DateParsed(img, t, off);
    if ObjectAt(img.bytes, t, off, shape) {
      ObjectMarker(img.bytes, t, off, shape);
    }
    hide Trusted, ParseAt, NumberAt, CountAt, BytesAt, UnitStringAt, ContainerAt, UidAt, IntAt;
  }

  lemma DateParsed(img: Image, t: Trailer, off: nat)
    requires Trusted(img, t) && 8 <= off < t.offsetTableOffset && img.bytes[off] / 16 == 3
    ensures t.offsetTableOffset <= |img.bytes|
    ensures ParseAt(img, t, off) ==
      if FieldAt(img.bytes, t.offsetTableOffset, off, 0x33, 8) then Some(Leaf(VDate(NumberAt(img.bytes, off + 1, 8)))) else None
  {
    TableInside(img, t);
    if off + 1 + 8 <= t.offsetTableOffset {
      FieldIs(img, off + 1, 8);
    }
    hide Trusted, Mapped, NumberAt, Field, ParseInt, ParseReal, ParseBytes, ParseUid, ParseRefs, Units;
  }

  /** Markers 0x4n. */
  lemma DataMeaning(img: Image, t: Trailer, off: nat, shape: Shape)
    requires Trusted(img, t) && 8 <= off < t.offsetTableOffset && img.bytes[off] / 16 == 4
    ensures ParseAt(img, t, off) == Some(shape) <==> ObjectAt(img.bytes, t, off, shape)
  {
    TableInside(img, t);
    if ObjectAt(img.bytes, t, off, shape) {
      ObjectMarker(img.bytes, t, off, shape);
    }
    if shape.Leaf? && shape.value.VData? {
      SingleBytesMeaning(img, t, off, shape.value.bytes);
    }
    hide Trusted, NumberAt, Field, CountAt, BytesAt, UnitStringAt, ContainerAt, UidAt, IntAt, Mapped;
    hide ParseInt, ParseReal, ParseBytes, ParseUid, ParseRefs, Units;
  }

  /** Markers 0x5n and 0x6n. */
  lemma StringsMeaning(img: Image, t: Trailer, off: nat, shape: Shape)
    requires Trusted(img, t) && 8 <= off < t.offsetTableOffset && 5 <= img.bytes[off] / 16 <= 6
    ensures ParseAt(img, t, off) == Some(shape) <==> ObjectAt(img.bytes, t, off, shape)
  {
    TableInside(img, t);
    hide ParseInt, ParseReal, ParseBytes, ParseUid, ParseRefs, Units;
    if shape.Leaf? && shape.value.VString? {
      StringMeaning(img, t, off, shape.value.units);
    } else if ObjectAt(img.bytes, t, off, shape) {
      ObjectMarker(img.bytes, t, off, shape);
    }
    hide Trusted, NumberAt, Field, CountAt, BytesAt, UnitStringAt, ContainerAt, UidAt, IntAt, Mapped;
  }

  lemma StringMeaning(img: Image, t: Trailer, off: nat, u: seq<unichar>)
    requires Trusted(img, t) && 8 <= off < t.offsetTableOffset && 5 <= img.bytes[off] / 16 <= 6
    ensures ParseAt(img, t, off) == Some(Leaf(VString(u))) <==>
      BytesAt(img.bytes, t.offsetTableOffset, off, 0x5, u) || UnitStringAt(img.bytes, t.offsetTableOffset, off, u)
  {
    TableInside(img, t);
    SingleBytesMeaning(img, t, off, u);
    if img.bytes[off] / 16 == 6 {
      UnitStringMeaning(img, t, off, u);
    }
    StringMarkers(img.bytes, t.offsetTableOffset, off, u);
    hide Trusted, Mapped, BytesAt, UnitStringAt, ParseInt, ParseReal, ParseBytes, ParseUid, ParseRefs, Units;
  }

  lemma StringMarkers(b: seq<byte>, end: nat, off: nat, u: seq<unichar>)
    ensures BytesAt(b, end, off, 0x5, u) ==> off < end <= |b| && b[off] / 16 == 5
    ensures UnitStringAt(b, end, off, u) ==> off < end <= |b| && b[off] / 16 == 6
  {
    hide NumberAt, CountAt, UnitsFrom;
    if BytesAt(b, end, off, 0x5, u) {
      var at: nat :| CountAt(b, end, off, 0x5, |u|, at);
      CountKind(b, end, off, 0x5, |u|, at);
    }
    if UnitStringAt(b, end, off, u) {
      var at: nat :| CountAt(b, end, off, 0x6, |u|, at);
      CountKind(b, end, off, 0x6, |u|, at);
    }
  }

  /** Markers 0xAn and 0xCn. */
  lemma ListsMeaning(img: Image, t: Trailer, off: nat, shape: Shape)
    requires Trusted(img, t) && 8 <= off < t.offsetTableOffset && img.bytes[off] / 16 in {0xA, 0xC}
    ensures ParseAt(img, t, off) == Some(shape) <==> ObjectAt(img.bytes, t, off, shape)
  {
    TableInside(img, t);
    if ObjectAt(img.bytes, t, off, shape) {
      ObjectMarker(img.bytes, t, off, shape);
    }
    if shape.Refs? {
      ContainerMeaning(img, t, off, 1, |shape.offsets|, shape.offsets);
    }
    hide Trusted, ContainerAt, LeafAt, Mapped;
    hide ParseInt, ParseReal, ParseBytes, ParseUid, ParseRefs, Units;
  }

  /** Markers 0xDn. */
  lemma DictionariesMeaning(img: Image, t: Trailer, off: nat, shape: Shape)
    requires Trusted(img, t) && 8 <= off < t.offsetTableOffset && img.bytes[off] / 16 == 0xD
    ensures ParseAt(img, t, off) == Some(shape) <==> ObjectAt(img.bytes, t, off, shape)
  {
    TableInside(img, t);
    if ObjectAt(img.bytes, t, off, shape) {
      ObjectMarker(img.bytes, t, off, shape);
    }
    if shape.Refs? && |shape.offsets| % 2 == 0 {
      ContainerMeaning(img, t, off, 2, |shape.offsets| / 2, shape.offsets);
    }
    hide Trusted, ContainerAt, LeafAt, Mapped;
    hide ParseInt, ParseReal, ParseBytes, ParseUid, ParseRefs, Units;
  }

  /**
   The reader on one object: it takes an object off the bytes exactly when the format
   has that object there. Everything else, such as the markers 0x7n, 0x9n, 0xBn, 0xEn
   and 0xFn, is refused.
   */
  lemma ObjectMeaning(img: Image, t: Trailer, off: nat, shape: Shape)
    requires Trusted(img, t)
    ensures ParseAt(img, t, off) == Some(shape) <==> ObjectAt(img.bytes, t, off, shape)
  {
    TableInside(img, t);
    if ObjectAt(img.bytes, t, off, shape) {
      ObjectMarker(img.bytes, t, off, shape);
    }
    if 8 <= off < t.offsetTableOffset {
      ByMarker(img, t, off, shape);
    }
    hide Trusted, ObjectAt, Mapped, ParseInt, ParseReal, ParseBytes, ParseUid, ParseRefs, Units;
  }

  lemma ByMarker(img: Image, t: Trailer, off: nat, shape: Shape)
    requires Trusted(img, t) && 8 <= off < t.offsetTableOffset <= |img.bytes|
    requires ObjectAt(img.bytes, t, off, shape) ==> MarkerOf(img.bytes[off], shape)
    ensures ParseAt(img, t, off) == Some(shape) <==> ObjectAt(img.bytes, t, off, shape)
  {
    hide Trusted, ObjectAt, Mapped, ParseInt, ParseReal, ParseBytes, ParseUid, ParseRefs, Units;
    match img.bytes[off] / 16 {
      case 0 => SingletonsMeaning(img, t, off, shape);
      case 3 => DatesMeaning(img, t, off, shape);
      case 1 =>
        if img.bytes[off] <= 0x13 {
          SmallIntegers(img, t, off, shape);
        } else {
          WideIntegers(img, t, off, shape);
        }
      case 2 => RealsMeaning(img, t, off, shape);
      case 4 => DataMeaning(img, t, off, shape);
      case 5 | 6 => StringsMeaning(img, t, off, shape);
      case 8 => UidsMeaning(img, t, off, shape);
      case 10 | 12 => ListsMeaning(img, t, off, shape);
      case 13 => DictionariesMeaning(img, t, off, shape);
      case _ =>
    }
  }
}
