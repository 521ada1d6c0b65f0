/** The binary property list format as CFBinaryPList.c writes it: object encodings and the file. */
module PlistWriter {
  import opened Machine
  import opened Bytes
  import opened Plist
  import opened PlistFlatten
  import ArrayDeque

  // ----- encodings -----

  /** The narrowest of 1, 2, 4 and 8 bytes that holds n. */
  function IntWidth(n: nat): (w: nat)
    requires n < TWO64
    ensures w in {1, 2, 4, 8} && n < Pow256(w)
    ensures forall v :: v in {1, 2, 4, 8} && n < Pow256(v) ==> w <= v
  {
    Pow256Values();
    if n <= 0xff then 1 else if n <= 0xffff then 2 else if n <= 0xffff_ffff then 4 else 8
  }

  function WidthCode(w: nat): (c: byte)
    requires w in {1, 2, 4, 8}
    ensures c < 4
  {
    if w == 1 then 0 else if w == 2 then 1 else if w == 4 then 2 else 3
  }

  function EncodeInt(n: nat): (s: seq<byte>)
    requires n < TWO64
  {
    [0x10 + WidthCode(IntWidth(n))] + ToBigEndian(n, IntWidth(n))
  }

  /** A marker with a count nibble, followed by the count itself when it is 15 or more. */
  function EncodeHead(kind: nat, n: nat): (s: seq<byte>)
    requires kind < 16 && n < TWO64
    ensures |s| >= 1
  {
    if n < 15 then [16 * kind + n] else [16 * kind + 15] + EncodeInt(n)
  }

  predicate Ascii(units: seq<unichar>) {
    forall i :: 0 <= i < |units| ==> units[i] < 128
  }

  function BigEndianUnits(units: seq<unichar>): (s: seq<byte>)
    ensures |s| == 2 * |units|
  {
    if units == [] then [] else BigEndianUnits(units[..|units| - 1]) + ToBigEndian(units[|units| - 1], 2)
  }

  function EncodeRefs(refs: seq<nat>, size: nat): (s: seq<byte>)
    ensures |s| == |refs| * size
  {
    if refs == [] then [] else
      assert |refs| * size == (|refs| - 1) * size + size;
      EncodeRefs(refs[..|refs| - 1], size) + ToBigEndian(refs[|refs| - 1], size)
  }

  function Unsigned64(i: int64): (n: nat)
    ensures n < TWO64
  {
    if i < 0 then i + TWO64 else i
  }

  /** The bytes of one object, given the numbers of the objects it refers to; a foreign object has none. */
  function EncodeObject(o: Obj, refs: seq<nat>, refSize: nat): (s: seq<byte>)
    ensures !o.node.Foreign? ==> |s| >= 1
  {
    match o.node
    case Bool(b) => [if b then 0x09 else 0x08]
    case Int(i) => EncodeInt(Unsigned64(i))
    case Int128(high, low) => [0x14] + ToBigEndian(Unsigned64(high), 8) + ToBigEndian(low, 8)
    case Real32(bits) => [0x22] + ToBigEndian(bits, 4)
    case Real64(bits) => [0x23] + ToBigEndian(bits, 8)
    case Date(time) => [0x33] + ToBigEndian(time, 8)
    case Data(bytes) => EncodeHead(4, |bytes|) + bytes
    case Str(units) =>
      if Ascii(units) then EncodeHead(5, |units|) + units
      else EncodeHead(6, |units|) + BigEndianUnits(units)
    case Uid(uid) => [0x80 + IntWidth(uid) - 1] + ToBigEndian(uid, IntWidth(uid))
    case Arr(elems) => EncodeHead(10, |elems|) + EncodeRefs(refs, refSize)
    case Dict(entries) => EncodeHead(13, |entries|) + EncodeRefs(refs, refSize)
    case Foreign => []
  }

  /** CFDictionaryGetValue on the object table: 0 for a missing key. */
  function Number(table: map<Obj, nat>, o: Obj): nat {
    if o in table then table[o] else 0
  }

  function Numbers(table: map<Obj, nat>, os: seq<Obj>): (refs: seq<nat>)
    ensures |refs| == |os|
  {
    seq(|os|, i requires 0 <= i < |os| => Number(table, os[i]))
  }

  // ----- the file -----

  /** The encodings of a list of objects, one after the other. */
  function Bodies(list: seq<Obj>, table: map<Obj, nat>, refSize: nat): seq<byte> {
    if list == [] then []
    else
      var last := list[|list| - 1];
      Bodies(list[..|list| - 1], table, refSize) + EncodeObject(last, Numbers(table, Children(last)), refSize)
  }

  lemma BodiesStep(list: seq<Obj>, table: map<Obj, nat>, refSize: nat, i: nat)
    requires i < |list|
    ensures Bodies(list[..i + 1], table, refSize)
         == Bodies(list[..i], table, refSize) + EncodeObject(list[i], Numbers(table, Children(list[i])), refSize)
  {
    assert list[..i + 1][..i] == list[..i];
  }

  /** The encodings of the first objects are a prefix of the encodings of all. */
  lemma {:induction false} BodiesPrefix(list: seq<Obj>, table: map<Obj, nat>, refSize: nat, i: nat)
    requires i <= |list|
    ensures Bodies(list[..i], table, refSize) <= Bodies(list, table, refSize)
    decreases |list|
  {
    if i == |list| {
      assert list[..i] == list;
    } else {
      var init := list[..|list| - 1];
      BodiesPrefix(init, table, refSize, i);
      assert init[..i] == list[..i];
    }
  }

  const HEADER: seq<byte> := [0x62, 0x70, 0x6C, 0x69, 0x73, 0x74, 0x30, 0x30]

  /** Where the object at position i of the list starts. */
  function Offset(list: seq<Obj>, table: map<Obj, nat>, refSize: nat, i: nat): (off: nat)
    requires i <= |list|
  {
    |HEADER| + |Bodies(list[..i], table, refSize)|
  }

  function Offsets(list: seq<Obj>, table: map<Obj, nat>, refSize: nat): (offs: seq<nat>)
    ensures |offs| == |list|
  {
    seq(|list|, i requires 0 <= i < |list| => Offset(list, table, refSize, i))
  }

  function EncodeTrailer(offsetSize: byte, refSize: byte, numObjects: nat, tableOffset: nat): (s: seq<byte>)
    ensures |s| == 32
  {
    [0, 0, 0, 0, 0, 0, offsetSize, refSize] + ToBigEndian(numObjects, 8) + ToBigEndian(0, 8) + ToBigEndian(tableOffset, 8)
  }

  /** The file for a flattened property list. */
  function EncodeFile(f: Flat): (s: seq<byte>)
    requires |f.list| < TWO64
    requires |HEADER| + |Bodies(f.list, f.table, IntWidth(|f.list|))| < TWO64
  {
    var refSize := IntWidth(|f.list|);
    var objects := HEADER + Bodies(f.list, f.table, refSize);
    var offsetSize := IntWidth(|objects|);
    objects
    + EncodeRefs(Offsets(f.list, f.table, refSize), offsetSize)
    + EncodeTrailer(offsetSize, refSize, |f.list|, |objects|)
  }

  predicate Writable(f: Flat) {
    forall o :: o in f.list ==> !o.node.Foreign?
  }

  /** No more listed objects than the array that holds them can grow to, and a file whose length is a CFIndex. */
  ghost predicate FitsFile(f: Flat) {
    && |f.list| <= ArrayDeque.MAX_APPENDED
    && |HEADER| + |Bodies(f.list, f.table, IntWidth(|f.list|))| <= LONG_MAX
    && |EncodeFile(f)| <= LONG_MAX
  }
}
