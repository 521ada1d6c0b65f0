/** Each encoding of the writer, found at some offset of a valid file, parses to the object it encodes. */
module PlistParsing {
  import opened Machine
  import opened Bytes
  import opened Plist
  import opened PlistReader
  import opened PlistWriter

  /** The bytes `s` stand at `off`. */
  ghost predicate Holds(img: Image, off: nat, s: seq<byte>) {
    off + |s| <= |img.bytes| && img.bytes[off..off + |s|] == s
  }

  lemma HoldsParts(img: Image, off: nat, a: seq<byte>, b: seq<byte>)
    requires Holds(img, off, a + b)
    ensures Holds(img, off, a) && Holds(img, off + |a|, b)
  {
    var s := img.bytes[off..off + |a| + |b|];
    assert s == a + b;
    assert a == s[..|a|] && b == s[|a|..];
    assert s[..|a|] == img.bytes[off..off + |a|];
    assert s[|a|..] == img.bytes[off + |a|..off + |a| + |b|];
  }

  lemma HoldsEnd(img: Image, off: nat, s: seq<byte>)
    requires Holds(img, off, s)
    ensures off + |s| <= |img.bytes|
  {
  }

  lemma HoldsByte(img: Image, off: nat, s: seq<byte>)
    requires Holds(img, off, s) && |s| >= 1
    ensures img.bytes[off] == s[0]
  {
    assert img.bytes[off..off + |s|][0] == s[0];
  }

  lemma FieldHeld(img: Image, pos: nat, n: nat, width: nat)
    requires Holds(img, pos, ToBigEndian(n, width)) && n < Pow256(width) && n < TWO64
    ensures Field(img, pos, width) == n
  {
    BigEndianRoundTrip(n, width);
  }

  lemma Fits(img: Image, t: Trailer, pos: nat, cnt: nat)
    requires Trusted(img, t) && pos + cnt <= t.offsetTableOffset
    ensures Extent(img, pos, cnt, t.offsetTableOffset - 1)
  {
  }

  lemma IntBytesValues()
    ensures IntBytes(0) == 1 && IntBytes(1) == 2 && IntBytes(2) == 4 && IntBytes(3) == 8 && IntBytes(4) == 16
  {
    assert IntBytes(1) == 2 * IntBytes(0);
    assert IntBytes(2) == 2 * IntBytes(1);
    assert IntBytes(3) == 2 * IntBytes(2);
    assert IntBytes(4) == 2 * IntBytes(3);
  }

  lemma IntHeld(img: Image, pos: nat, n: nat)
    requires n < TWO64 && Holds(img, pos, EncodeInt(n))
    ensures img.bytes[pos] == 0x10 + WidthCode(IntWidth(n)) && IntBytes(img.bytes[pos] % 16) == IntWidth(n)
    ensures Field(img, pos + 1, IntWidth(n)) == n
    ensures |EncodeInt(n)| == 1 + IntWidth(n)
  {
    var w := IntWidth(n);
    WidthRead(n);
    hide IntWidth, WidthCode, ToBigEndian, Field, Holds, IntBytes, Pow256;
    HoldsByte(img, pos, EncodeInt(n));
    HoldsParts(img, pos, [0x10 + WidthCode(w)], ToBigEndian(n, w));
    FieldHeld(img, pos + 1, n, w);
  }

  /** The marker of an integer tells its width. */
  lemma WidthRead(n: nat)
    requires n < TWO64
    ensures WidthCode(IntWidth(n)) < 4 && IntBytes((0x10 + WidthCode(IntWidth(n))) % 16) == IntWidth(n)
  {
    IntBytesValues();
  }

  lemma ReadIntHeld(img: Image, t: Trailer, pos: nat, n: nat)
    requires Trusted(img, t) && n < TWO64 && Holds(img, pos, EncodeInt(n))
    requires pos + |EncodeInt(n)| <= t.offsetTableOffset
    ensures ReadInt(img, t, pos) == Some((n, pos + |EncodeInt(n)|))
  {
    hide Extent, EncodeInt, Holds, Field, IntWidth;
    IntHeld(img, pos, n);
    Fits(img, t, pos + 1, IntWidth(n));
    hide Trusted;
  }

  lemma ReadCountHeld(img: Image, t: Trailer, off: nat, kind: nat, n: nat)
    requires Trusted(img, t) && kind < 16 && n <= LONG_MAX && Holds(img, off, EncodeHead(kind, n))
    requires off + |EncodeHead(kind, n)| <= t.offsetTableOffset
    ensures img.bytes[off] / 16 == kind
    ensures ReadCount(img, t, off) == Some((n, off + |EncodeHead(kind, n)|))
  {
    hide Trusted, Holds, EncodeInt, ReadInt, ReadCount;
    if n < 15 {
      ShortCountHeld(img, t, off, kind, n);
    } else {
      LongCountHeld(img, t, off, kind, n);
    }
  }

  lemma ShortCountHeld(img: Image, t: Trailer, off: nat, kind: nat, n: nat)
    requires Trusted(img, t) && off < t.offsetTableOffset && kind < 16 && n < 15 && Holds(img, off, [16 * kind + n])
    ensures img.bytes[off] / 16 == kind && ReadCount(img, t, off) == Some((n, off + 1))
  {
    HoldsByte(img, off, [16 * kind + n]);
    hide Trusted, Holds, ReadInt;
  }

  lemma LongCountHeld(img: Image, t: Trailer, off: nat, kind: nat, n: nat)
    requires Trusted(img, t) && kind < 16 && n <= LONG_MAX && Holds(img, off, [16 * kind + 15] + EncodeInt(n))
    requires off + 1 + |EncodeInt(n)| <= t.offsetTableOffset
    ensures img.bytes[off] / 16 == kind && ReadCount(img, t, off) == Some((n, off + 1 + |EncodeInt(n)|))
  {
    hide Trusted, Holds, ReadInt, EncodeInt;
    HoldsByte(img, off, [16 * kind + 15] + EncodeInt(n));
    HoldsParts(img, off, [16 * kind + 15], EncodeInt(n));
    ReadIntHeld(img, t, off + 1, n);
  }

  lemma HeldSlice(img: Image, at: nat, s: seq<byte>)
    requires Holds(img, at, s)
    ensures at + |s| <= |img.bytes| && img.bytes[at..at + |s|] == s
  {
  }

  lemma BytesHeld(img: Image, t: Trailer, off: nat, kind: nat, n: nat, unit: nat, s: seq<byte>)
    requires Trusted(img, t) && kind < 16 && n <= LONG_MAX && 1 <= unit <= 2 && |s| == unit * n
    requires Holds(img, off, EncodeHead(kind, n) + s) && off + |EncodeHead(kind, n) + s| <= t.offsetTableOffset
    ensures img.bytes[off] / 16 == kind
    ensures ParseBytes(img, t, off, unit) == Some(s)
  {
    hide Trusted, EncodeHead, ReadCount, Extent, Holds;
    HoldsParts(img, off, EncodeHead(kind, n), s);
    ReadCountHeld(img, t, off, kind, n);
    var at := off + |EncodeHead(kind, n)|;
    Fits(img, t, at, |s|);
    HeldSlice(img, at, s);
  }

  lemma {:induction false} EncodeRefsAt(refs: seq<nat>, size: nat, i: nat)
    requires i < |refs|
    ensures Slot(0, i, size) + size <= |EncodeRefs(refs, size)|
    ensures EncodeRefs(refs, size)[Slot(0, i, size)..Slot(0, i, size) + size] == ToBigEndian(refs[i], size)
    decreases |refs|
  {
    var init := refs[..|refs| - 1];
    assert |refs| * size == (|refs| - 1) * size + size;
    EntryInTable(i, |refs|, size);
    var s := EncodeRefs(refs, size);
    if i < |init| {
      EncodeRefsAt(init, size, i);
      var k := Slot(0, i, size);
      assert s[k..k + size] == EncodeRefs(init, size)[k..k + size];
    }
  }

  lemma HoldsSlice(img: Image, off: nat, s: seq<byte>, a: nat, b: nat)
    requires Holds(img, off, s) && a <= b <= |s|
    ensures Holds(img, off + a, s[a..b])
  {
    assert img.bytes[off + a..off + b] == img.bytes[off..off + |s|][a..b];
  }

  /** A container with `n` elements has `m` references, one or two for each element. */
  predicate Grouped(groups: nat, n: nat, m: nat) {
    (groups == 1 && m == n) || (groups == 2 && m == 2 * n)
  }

  lemma ParseRefsAt(img: Image, t: Trailer, off: nat, groups: nat, n: nat, m: nat, at: nat, size: nat)
    requires Trusted(img, t) && off < t.offsetTableOffset && ReadCount(img, t, off) == Some((n, at))
    requires Grouped(groups, n, m) && m * 8 < TWO64
    requires size == Slot(0, m, t.objectRefSize) && at + size <= t.offsetTableOffset
    ensures ParseRefs(img, t, off, groups) == Some(RefOffsets(img, t, at, m))
  {
    Fits(img, t, at, size);
    assert size < TWO64;
    hide Extent, ReadCount, Trusted, RefOffsets;
  }

  lemma RefsHeld(img: Image, t: Trailer, off: nat, kind: nat, n: nat, groups: nat, refs: seq<nat>)
    requires Trusted(img, t) && kind < 16 && 8 <= off
    requires Grouped(groups, n, |refs|) && |refs| * 8 < TWO64
    requires forall i :: 0 <= i < |refs| ==> refs[i] < t.numObjects && refs[i] < Pow256(t.objectRefSize)
    requires Holds(img, off, EncodeHead(kind, n) + EncodeRefs(refs, t.objectRefSize))
    requires off + |EncodeHead(kind, n) + EncodeRefs(refs, t.objectRefSize)| <= t.offsetTableOffset
    ensures img.bytes[off] / 16 == kind
    ensures ParseRefs(img, t, off, groups).Some?
    ensures var r := ParseRefs(img, t, off, groups).value;
            |r| == |refs| && forall i :: 0 <= i < |refs| ==> r[i] == TableEntry(img, t, refs[i])
  {
    hide Trusted, Holds, EncodeHead, EncodeRefs, ReadCount, ParseRefs, OffsetOfRefAt, TableEntry, RefOffsets;
    var size := t.objectRefSize;
    var s := EncodeRefs(refs, size);
    var at := off + |EncodeHead(kind, n)|;
    HoldsParts(img, off, EncodeHead(kind, n), s);
    ReadCountHeld(img, t, off, kind, n);
    assert |s| == Slot(0, |refs|, size);
    ParseRefsAt(img, t, off, groups, n, |refs|, at, |s|);
    RefsAt(img, t, at, refs);
  }

  /** References lead to the offsets that their numbers have in the offset table. */
  lemma RefsAt(img: Image, t: Trailer, at: nat, refs: seq<nat>)
    requires Trusted(img, t) && 8 <= at
    requires forall i :: 0 <= i < |refs| ==> refs[i] < t.numObjects && refs[i] < Pow256(t.objectRefSize)
    requires Holds(img, at, EncodeRefs(refs, t.objectRefSize))
    requires at + |EncodeRefs(refs, t.objectRefSize)| <= t.offsetTableOffset
    ensures forall i :: 0 <= i < |refs| ==> OffsetOfRefAt(img, t, Slot(at, i, t.objectRefSize)) == TableEntry(img, t, refs[i])
  {
    forall i | 0 <= i < |refs|
      ensures OffsetOfRefAt(img, t, Slot(at, i, t.objectRefSize)) == TableEntry(img, t, refs[i])
    {
      hide Holds, EncodeRefs, TableEntry, Slot, Pow256, Field;
      EntryHeld(img, at, refs, t.objectRefSize, i);
    }
  }

  lemma SlotShift(at: nat, i: nat, size: nat)
    ensures Slot(at, i, size) == at + Slot(0, i, size)
  {
  }

  lemma EntryHeld(img: Image, at: nat, refs: seq<nat>, size: nat, i: nat)
    requires i < |refs| && refs[i] < Pow256(size) && refs[i] < TWO64
    requires Holds(img, at, EncodeRefs(refs, size))
    ensures at <= Slot(at, i, size) && Slot(at, i, size) + size <= at + |EncodeRefs(refs, size)| <= |img.bytes|
    ensures Field(img, Slot(at, i, size), size) == refs[i]
  {
    hide *;
    SlotShift(at, i, size);
    EncodeRefsAt(refs, size, i);
    var k := Slot(0, i, size);
    HoldsEnd(img, at, EncodeRefs(refs, size));
    HoldsSlice(img, at, EncodeRefs(refs, size), k, k + size);
    FieldHeld(img, at + k, refs[i], size);
  }

  /** Unit i of a big-endian string. */
  lemma {:induction false} UnitsHeld(units: seq<unichar>)
    ensures Units(BigEndianUnits(units)) == units
  {
    if units != [] {
      var n := |units| - 1;
      var init := units[..n];
      var s := BigEndianUnits(units);
      UnitsHeld(init);
      TwoBytes(units[n]);
      forall i | 0 <= i < |units| ensures Units(s)[i] == units[i] {
        if i < n {
          assert Units(BigEndianUnits(init))[i] == init[i];
        }
      }
    }
  }

  lemma TwoBytes(u: unichar)
    ensures ToBigEndian(u, 2) == [u / 256, u % 256]
  {
    assert ToBigEndian(u / 256, 1) == [u / 256 % 256];
  }

  // ----- whole objects -----

  lemma IntObject(img: Image, t: Trailer, off: nat, i: int64)
    requires Trusted(img, t) && 8 <= off && Holds(img, off, EncodeInt(Unsigned64(i)))
    requires off + |EncodeInt(Unsigned64(i))| <= t.offsetTableOffset
    ensures ParseAt(img, t, off) == Some(Leaf(VInt(i)))
  {
    var n := Unsigned64(i);
    IntHeld(img, off, n);
    Fits(img, t, off + 1, IntWidth(n));
    hide Trusted, Extent, EncodeInt, Field, Holds, IntWidth;
    assert IntWidth(n) <= 8;
  }

  lemma Int128Object(img: Image, t: Trailer, off: nat, high: nat, low: uint64)
    requires Trusted(img, t) && 8 <= off && high < TWO64
    requires Holds(img, off, [0x14] + ToBigEndian(high, 8) + ToBigEndian(low, 8)) && off + 17 <= t.offsetTableOffset
    ensures ParseAt(img, t, off) == Some(Leaf(VInt128(0, low)))
  {
    hide Trusted, ToBigEndian, Extent, Field, Holds, IntBytes, Sized;
    Int128Field(img, off, high, low);
    Fits(img, t, off + 1, 16);
    IntBytesValues();
    assert ParseInt(img, t, off) == Some(Leaf(VInt128(0, low)));
    hide ParseInt;
  }

  lemma Int128Field(img: Image, off: nat, high: nat, low: nat)
    requires low < TWO64 && Holds(img, off, [0x14] + ToBigEndian(high, 8) + ToBigEndian(low, 8))
    ensures off + 17 <= |img.bytes| && img.bytes[off] == 0x14 && Field(img, off + 1, 16) == low
  {
    var h, l := ToBigEndian(high, 8), ToBigEndian(low, 8);
    assert [0x14] + h + l == [0x14] + (h + l);
    HoldsParts(img, off, [0x14], h + l);
    HoldsByte(img, off, [0x14]);
    LowHalf(h, low);
    hide ToBigEndian, Sized;
  }

  /** Only the low 64 bits of a 16-byte integer are kept. */
  lemma LowHalf(h: seq<byte>, low: nat)
    requires |h| == 8 && low < TWO64
    ensures Sized(h + ToBigEndian(low, 8)) == low
  {
    var l := ToBigEndian(low, 8);
    BigEndianRoundTrip(low, 8);
    Pow256Values();
    LowEight(h + l, 8);
    assert (h + l)[..8] == h && (h + l)[8..] == l;
    hide *;
    LowOf(BigEndian(h), low);
    SizedIs(h + l);
  }

  lemma SizedIs(s: seq<byte>)
    ensures Sized(s) == BigEndian(s) % TWO64
  {
  }

  lemma LowOf(high: nat, low: nat)
    requires low < TWO64
    ensures (TWO64 * high + low) % TWO64 == low
  {
  }

  lemma LowEight(s: seq<byte>, n: nat)
    requires |s| == n + 8
    ensures BigEndian(s) == TWO64 * BigEndian(s[..n]) + BigEndian(s[n..])
  {
    hide BigEndian, Word;
    BigEndianFour(s, n + 4);
    BigEndianFour(s[..n + 4], n);
    BigEndianFour(s[n..], 4);
    BigEndianFour(s[n..][..4], 0);
    assert s[..n + 4][..n] == s[..n] && s[n..][..4][..0] == [];
    BigEndianEmpty();
  }

  lemma BigEndianEmpty()
    ensures BigEndian([]) == 0
  {
  }

  /** Reals and dates: a fixed marker and a fixed-width field. */
  lemma FixedObject(img: Image, t: Trailer, off: nat, marker: byte, n: nat, width: nat)
    requires Trusted(img, t) && 8 <= off && (width == 4 || width == 8) && n < Pow256(width)
    requires Holds(img, off, [marker] + ToBigEndian(n, width)) && off + 1 + width <= t.offsetTableOffset
    ensures img.bytes[off] == marker && n < TWO64 && Field(img, off + 1, width) == n
    ensures Extent(img, off + 1, width, t.offsetTableOffset - 1)
  {
    Pow256Values();
    HoldsParts(img, off, [marker], ToBigEndian(n, width));
    HoldsByte(img, off, [marker]);
    FieldHeld(img, off + 1, n, width);
    Fits(img, t, off + 1, width);
  }

  lemma UidObject(img: Image, t: Trailer, off: nat, uid: uint32)
    requires Trusted(img, t) && 8 <= off
    requires Holds(img, off, [0x80 + IntWidth(uid) - 1] + ToBigEndian(uid, IntWidth(uid)))
    requires off + 1 + IntWidth(uid) <= t.offsetTableOffset
    ensures ParseAt(img, t, off) == Some(Leaf(VUid(uid)))
  {
    var w := IntWidth(uid);
    UidField(img, off, uid);
    Fits(img, t, off + 1, w);
    hide Trusted, Extent, Field, Holds, ToBigEndian, IntWidth, ParseAt, ParseUid;
    UidMarker(img, t, off);
    UidParses(img, t, off, w, uid);
  }

  lemma UidMarker(img: Image, t: Trailer, off: nat)
    requires Trusted(img, t) && 8 <= off < t.offsetTableOffset && img.bytes[off] / 16 == 8
    ensures ParseAt(img, t, off) == ParseUid(img, t, off)
  {
    hide Trusted, ParseUid, ParseInt, ParseReal, ParseBytes, ParseRefs, Extent, Field, Units;
  }

  lemma UidParses(img: Image, t: Trailer, off: nat, w: nat, uid: uint32)
    requires Trusted(img, t) && 8 <= off && off + 1 + w <= t.offsetTableOffset && 1 <= w <= 16
    requires img.bytes[off] == 0x80 + w - 1 && Field(img, off + 1, w) == uid
    requires Extent(img, off + 1, w, t.offsetTableOffset - 1)
    ensures ParseUid(img, t, off) == Some(Leaf(VUid(uid)))
  {
    hide Trusted, Extent, Field;
  }

  lemma UidField(img: Image, off: nat, uid: uint32)
    requires Holds(img, off, [0x80 + IntWidth(uid) - 1] + ToBigEndian(uid, IntWidth(uid)))
    ensures off + 1 + IntWidth(uid) <= |img.bytes| && 1 <= IntWidth(uid) <= 16
    ensures img.bytes[off] == 0x80 + IntWidth(uid) - 1 && Field(img, off + 1, IntWidth(uid)) == uid
  {
    var w := IntWidth(uid);
    Pow256Values();
    HoldsParts(img, off, [0x80 + w - 1], ToBigEndian(uid, w));
    HoldsByte(img, off, [0x80 + w - 1]);
    FieldHeld(img, off + 1, uid, w);
    hide Field, ToBigEndian;
  }
}
