/**
 Writing a property list and reading the file back. `Reread` says for every
 object graph what comes back; it is the original value exactly for the graphs
 that are `Portable`.
 */
module PlistRoundTrip {
  import opened Machine
  import opened Bytes
  import opened Plist
  import opened PlistReader
  import opened PlistDecode
  import PlistFormat
  import opened PlistFile
  import opened PlistLimits
  import opened PlistMeaning
  import opened PlistFlatten
  import opened PlistWriter
  import opened PlistWrite
  import opened PlistDecoder
  import opened PlistParsing

  function KindOf(o: Obj): Kind {
    if o.node.Dict? then KDict else KArray
  }

  /** The value of an object that refers to no others, as the reader returns it: the high half of a 16-byte integer is lost. */
  function RereadLeaf(o: Obj): LeafValue
    requires IsLeaf(o)
  {
    if o.node.Int128? then VInt128(0, o.node.low) else ValueOf(o)
  }

  /** What the reader makes of a written object graph; nothing if some dictionary has a container as key. */
  function Reread(o: Obj): Option<Value>
    decreases o, 0
  {
    if IsLeaf(o) then Some(RereadLeaf(o))
    else
      var vs := RereadAll(o, 0);
      if vs.None? then None else Some(Assemble(KindOf(o), vs.value))
  }

  /** The number of children that are dictionary keys. */
  function KeysOf(o: Obj): nat {
    if o.node.Dict? then |o.node.entries| else 0
  }

  function RereadAll(o: Obj, i: nat): (r: Option<seq<Value>>)
    requires i <= |Children(o)|
    ensures r.Some? ==> |r.value| == |Children(o)| - i
    decreases o, 0, |Children(o)| - i
  {
    if i == |Children(o)| then Some([])
    else
      var v := Reread(Children(o)[i]);
      var rest := RereadAll(o, i + 1);
      if v.None? || rest.None? || (i < KeysOf(o) && !Primitive(v.value)) then None
      else Some([v.value] + rest.value)
  }

  // ----- a file map that holds a flattened graph -----

  /** What the file holds for one listed object. */
  function ShapeOf(o: Obj, f: Flat, offs: seq<nat>): Shape
    requires forall c :: c in Children(o) ==> c in f.table && f.table[c] < |offs|
  {
    if IsLeaf(o) then Leaf(RereadLeaf(o))
    else Refs(KindOf(o), seq(|Children(o)|, i requires 0 <= i < |Children(o)| => offs[f.table[Children(o)[i]]]))
  }

  /** Every listed object is in the file at its own offset. */
  ghost predicate HoldsGraph(file: File, f: Flat, offs: seq<nat>) {
    && Numbered(f) && ClosedFrom(f, 0) && |offs| == |f.list|
    && (forall i, j :: 0 <= i < j < |offs| ==> offs[i] != offs[j])
    && (forall i :: 0 <= i < |offs| ==> offs[i] in file)
    && (forall i :: 0 <= i < |offs| ==> file[offs[i]] == ShapeOf(f.list[i], f, offs))
  }

  /** Everything on the path is an object that properly contains `o`. */
  ghost predicate AncestorsOnly(f: Flat, offs: seq<nat>, path: Path, o: Obj)
    requires |offs| == |f.list|
  {
    forall x :: OnPath(path, x) ==> exists j :: 0 <= j < |offs| && offs[j] == x && o < f.list[j]
  }

  lemma ChildNumber(file: File, f: Flat, offs: seq<nat>, o: Obj, i: nat)
    requires HoldsGraph(file, f, offs) && o in f.table && i < |Children(o)|
    ensures Children(o)[i] in f.table && f.table[Children(o)[i]] < |offs|
  {
    assert Children(f.list[f.table[o]])[i] in f.table;
  }

  lemma ChildPath(file: File, f: Flat, offs: seq<nat>, path: Path, depth: nat, o: Obj, c: Obj)
    requires HoldsGraph(file, f, offs) && o in f.table && AncestorsOnly(f, offs, path, o) && c < o
    ensures AncestorsOnly(f, offs, Extend(path, depth, offs[f.table[o]]), c)
  {
    var off := offs[f.table[o]];
    forall x | OnPath(Extend(path, depth, off), x)
      ensures exists j :: 0 <= j < |offs| && offs[j] == x && c < f.list[j]
    {
      if x == off {
        assert c < f.list[f.table[o]];
      } else {
        var j :| 0 <= j < |offs| && offs[j] == x && o < f.list[j];
        assert c < f.list[j];
      }
    }
  }

  lemma OwnOffsetFree(file: File, f: Flat, offs: seq<nat>, path: Path, o: Obj)
    requires HoldsGraph(file, f, offs) && o in f.table && AncestorsOnly(f, offs, path, o)
    ensures !OnPath(path, offs[f.table[o]])
  {
    var off := offs[f.table[o]];
    forall j | 0 <= j < |offs| && offs[j] == off ensures j == f.table[o] {
    }
  }

  /** Decoding the offset of a listed object gives what rereading the object gives. */
  lemma {:induction false} DecodeHeld(file: File, f: Flat, offs: seq<nat>, o: Obj, path: Path, depth: nat)
    requires HoldsGraph(file, f, offs) && o in f.table && AncestorsOnly(f, offs, path, o)
    ensures Decode(file, offs[f.table[o]], path, depth) == Reread(o)
    decreases o, 0
  {
    HeldShape(file, f, offs, o);
    hide HoldsGraph, AncestorsOnly;
    var off := offs[f.table[o]];
    OwnOffsetFree(file, f, offs, path, o);
    if !IsLeaf(o) {
      DecodeHeldAll(file, f, offs, o, 0, path, depth);
      assert file[off].offsets[0..] == file[off].offsets;
    }
  }

  lemma HeldShape(file: File, f: Flat, offs: seq<nat>, o: Obj)
    requires HoldsGraph(file, f, offs) && o in f.table
    ensures f.table[o] < |offs| && offs[f.table[o]] in file
    ensures forall i :: 0 <= i < |Children(o)| ==> Children(o)[i] in f.table && f.table[Children(o)[i]] < |offs|
    ensures file[offs[f.table[o]]] == ShapeOf(o, f, offs)
    ensures !IsLeaf(o) ==> KeyCount(KindOf(o), file[offs[f.table[o]]].offsets) == KeysOf(o)
  {
    forall i | 0 <= i < |Children(o)| ensures Children(o)[i] in f.table && f.table[Children(o)[i]] < |offs| {
      ChildNumber(file, f, offs, o, i);
    }
  }

  lemma {:induction false} DecodeHeldAll(file: File, f: Flat, offs: seq<nat>, o: Obj, i: nat, path: Path, depth: nat)
    requires HoldsGraph(file, f, offs) && o in f.table && AncestorsOnly(f, offs, path, o) && !IsLeaf(o)
    requires i <= |Children(o)|
    requires f.table[o] < |offs| && offs[f.table[o]] in file && file[offs[f.table[o]]].Refs?
    requires |file[offs[f.table[o]]].offsets| == |Children(o)|
    ensures DecodeAll(file, file[offs[f.table[o]]].offsets[i..], if i < KeysOf(o) then KeysOf(o) - i else 0,
                      Extend(path, depth, offs[f.table[o]]), depth + 1) == RereadAll(o, i)
    decreases o, 0, |Children(o)| - i
  {
    hide HoldsGraph, AncestorsOnly;
    var off := offs[f.table[o]];
    var path' := Extend(path, depth, off);
    HeldShape(file, f, offs, o);
    if i < |Children(o)| {
      var c := Children(o)[i];
      var rest := file[off].offsets[i..];
      ChildPath(file, f, offs, path, depth, o, c);
      DecodeHeld(file, f, offs, c, path', depth + 1);
      DecodeHeldAll(file, f, offs, o, i + 1, path, depth);
      assert rest[0] == offs[f.table[c]];
      assert rest[1..] == file[off].offsets[i + 1..];
    }
  }

  // ----- the bytes of a written file -----

  lemma LeafParses(img: Image, t: Trailer, off: nat, o: Obj, refs: seq<nat>, size: nat)
    requires Trusted(img, t) && 8 <= off && IsLeaf(o) && !o.node.Foreign?
    requires Holds(img, off, EncodeObject(o, refs, size)) && off + |EncodeObject(o, refs, size)| <= t.offsetTableOffset
    ensures ParseAt(img, t, off) == Some(Leaf(RereadLeaf(o)))
  {
    hide Trusted, Holds, ParseBytes, ParseInt, ParseUid, Field, Extent, EncodeHead, EncodeInt, ToBigEndian, BigEndianUnits, IntWidth;
    Pow256Values();
    match o.node {
      case Bool(b) => HoldsByte(img, off, EncodeObject(o, refs, size));
      case Int(i) => IntObject(img, t, off, i);
      case Int128(high, low) => Int128Object(img, t, off, Unsigned64(high), low);
      case Real32(bits) => FixedObject(img, t, off, 0x22, bits, 4);
      case Real64(bits) => FixedObject(img, t, off, 0x23, bits, 8);
      case Date(time) => FixedObject(img, t, off, 0x33, time, 8);
      case Data(bytes) => BytesHeld(img, t, off, 4, |bytes|, 1, bytes);
      case Str(units) =>
        if Ascii(units) {
          BytesHeld(img, t, off, 5, |units|, 1, units);
        } else {
          UnitsHeld(units);
          BytesHeld(img, t, off, 6, |units|, 2, BigEndianUnits(units));
        }
      case Uid(uid) => UidObject(img, t, off, uid);
    }
  }

  lemma ContainerParses(img: Image, t: Trailer, off: nat, o: Obj, refs: seq<nat>)
    requires Trusted(img, t) && 8 <= off && !IsLeaf(o) && |refs| == |Children(o)|
    requires forall i :: 0 <= i < |refs| ==> refs[i] < t.numObjects && refs[i] < Pow256(t.objectRefSize)
    requires Holds(img, off, EncodeObject(o, refs, t.objectRefSize))
    requires off + |EncodeObject(o, refs, t.objectRefSize)| <= t.offsetTableOffset
    ensures ParseAt(img, t, off).Some? && ParseAt(img, t, off).value.Refs?
    ensures ParseAt(img, t, off).value.kind == KindOf(o) && |ParseAt(img, t, off).value.offsets| == |refs|
    ensures forall i :: 0 <= i < |refs| ==> ParseAt(img, t, off).value.offsets[i] == TableEntry(img, t, refs[i])
  {
    hide Holds, ParseRefs, EncodeHead, EncodeRefs, Pow256, TableEntry, TrailerFits;
    match o.node {
      case Arr(elems) => RefsHeld(img, t, off, 10, |elems|, 1, refs);
      case Dict(entries) => RefsHeld(img, t, off, 13, |entries|, 2, refs);
    }
  }

  function RefSize(f: Flat): (w: byte)
    requires |f.list| < TWO32
    ensures w == IntWidth(|f.list|) && 1 <= w <= 4
  {
    IntWidth(|f.list|)
  }

  function ObjectBytes(f: Flat): seq<byte>
    requires |f.list| < TWO32
  {
    HEADER + Bodies(f.list, f.table, RefSize(f))
  }

  function OffsetsOf(f: Flat): (offs: seq<nat>)
    requires |f.list| < TWO32
    ensures |offs| == |f.list|
  {
    Offsets(f.list, f.table, RefSize(f))
  }

  function TrailerOf(f: Flat): Trailer
    requires |f.list| < TWO32 && |ObjectBytes(f)| < TWO64
  {
    Trailer(IntWidth(|ObjectBytes(f)|), RefSize(f), |f.list|, 0, |ObjectBytes(f)|)
  }

  /** A mapped file that the writer has produced for `f`. */
  ghost predicate Written(img: Image, f: Flat) {
    Mapped(img) && FitsFile(f) && Writable(f) && |f.list| >= 1 && img.bytes == EncodeFile(f)
  }

  lemma FileParts(img: Image, f: Flat)
    requires Written(img, f)
    ensures |ObjectBytes(f)| < TWO64
    ensures var t := TrailerOf(f);
            && |img.bytes| == |ObjectBytes(f)| + |f.list| * t.offsetIntSize + 32
            && Holds(img, 0, ObjectBytes(f))
            && Holds(img, |ObjectBytes(f)|, EncodeRefs(OffsetsOf(f), t.offsetIntSize))
            && Holds(img, |img.bytes| - 32, EncodeTrailer(t.offsetIntSize, t.objectRefSize, t.numObjects, t.offsetTableOffset))
  {
    var t := TrailerOf(f);
    var a := ObjectBytes(f);
    var b := EncodeRefs(OffsetsOf(f), t.offsetIntSize);
    var c := EncodeTrailer(t.offsetIntSize, t.objectRefSize, t.numObjects, t.offsetTableOffset);
    hide Bodies, Offsets, EncodeRefs, IntWidth, EncodeTrailer, Holds;
    assert img.bytes == a + b + c;
    ThreeParts(img, a, b, c);
  }

  lemma ThreeParts(img: Image, a: seq<byte>, b: seq<byte>, c: seq<byte>)
    requires img.bytes == a + b + c
    ensures Holds(img, 0, a) && Holds(img, |a|, b) && Holds(img, |a| + |b|, c)
  {
    assert img.bytes[0..|a + b + c|] == a + b + c;
    HoldsParts(img, 0, a + b, c);
    HoldsParts(img, 0, a, b);
  }

  lemma TrailerRead(img: Image, t: Trailer)
    requires |img.bytes| >= 32 && t.numObjects < TWO64 && t.offsetTableOffset < TWO64 && t.topObject == 0
    requires Holds(img, |img.bytes| - 32, EncodeTrailer(t.offsetIntSize, t.objectRefSize, t.numObjects, t.offsetTableOffset))
    ensures ReadTrailer(img) == t
  {
    hide ToBigEndian, Field, Holds, Pow256, EncodeTrailer, ReadTrailer;
    var p := |img.bytes| - 32;
    TrailerParts(img, t, p);
    TrailerSizes(img, p, t.offsetIntSize, t.objectRefSize);
    WordHeld(img, p + 8, t.numObjects);
    WordHeld(img, p + 16, 0);
    WordHeld(img, p + 24, t.offsetTableOffset);
    TrailerFrom(img, t);
  }

  lemma TrailerParts(img: Image, t: Trailer, p: nat)
    requires Holds(img, p, EncodeTrailer(t.offsetIntSize, t.objectRefSize, t.numObjects, t.offsetTableOffset))
    ensures Holds(img, p, [0, 0, 0, 0, 0, 0, t.offsetIntSize, t.objectRefSize])
    ensures Holds(img, p + 8, ToBigEndian(t.numObjects, 8)) && Holds(img, p + 16, ToBigEndian(0, 8))
    ensures Holds(img, p + 24, ToBigEndian(t.offsetTableOffset, 8))
  {
    hide ToBigEndian, Holds;
    var a: seq<byte> := [0, 0, 0, 0, 0, 0, t.offsetIntSize, t.objectRefSize];
    FourWords(img, p, a, ToBigEndian(t.numObjects, 8), ToBigEndian(0, 8), ToBigEndian(t.offsetTableOffset, 8));
  }

  lemma TrailerFrom(img: Image, t: Trailer)
    requires |img.bytes| >= 32 && img.bytes[|img.bytes| - 26] == t.offsetIntSize && img.bytes[|img.bytes| - 25] == t.objectRefSize
    requires Field(img, |img.bytes| - 24, 8) == t.numObjects && Field(img, |img.bytes| - 16, 8) == t.topObject
    requires Field(img, |img.bytes| - 8, 8) == t.offsetTableOffset
    ensures ReadTrailer(img) == t
  {
    hide Field;
  }

  lemma FourWords(img: Image, p: nat, a: seq<byte>, b: seq<byte>, c: seq<byte>, d: seq<byte>)
    requires |a| == |b| == |c| == |d| == 8 && Holds(img, p, a + b + c + d)
    ensures Holds(img, p, a) && Holds(img, p + 8, b) && Holds(img, p + 16, c) && Holds(img, p + 24, d)
  {
    hide Holds;
    HoldsParts(img, p, a + b + c, d);
    HoldsParts(img, p, a + b, c);
    HoldsParts(img, p, a, b);
  }

  lemma WordHeld(img: Image, pos: nat, n: nat)
    requires n < TWO64 && Holds(img, pos, ToBigEndian(n, 8))
    ensures Field(img, pos, 8) == n
  {
    Pow256Values();
    FieldHeld(img, pos, n, 8);
  }

  lemma TrailerSizes(img: Image, p: nat, offsetIntSize: byte, objectRefSize: byte)
    requires Holds(img, p, [0, 0, 0, 0, 0, 0, offsetIntSize, objectRefSize])
    ensures img.bytes[p + 6] == offsetIntSize && img.bytes[p + 7] == objectRefSize
  {
    var a: seq<byte> := [0, 0, 0, 0, 0, 0, offsetIntSize, objectRefSize];
    assert img.bytes[p..p + 8] == a;
    assert img.bytes[p..p + 8][6] == a[6] && img.bytes[p..p + 8][7] == a[7];
  }

  lemma BodyAt(list: seq<Obj>, table: map<Obj, nat>, size: nat, k: nat)
    requires k < |list|
    ensures var s := EncodeObject(list[k], Numbers(table, Children(list[k])), size);
            var all, n := Bodies(list, table, size), |Bodies(list[..k], table, size)|;
            n + |s| == |Bodies(list[..k + 1], table, size)| <= |all| && all[n..n + |s|] == s
  {
    hide EncodeObject, Numbers, Bodies;
    BodiesStep(list, table, size, k);
    BodiesPrefix(list, table, size, k + 1);
    PrefixSlice(Bodies(list[..k], table, size), EncodeObject(list[k], Numbers(table, Children(list[k])), size), Bodies(list, table, size));
  }

  lemma PrefixSlice(a: seq<byte>, s: seq<byte>, all: seq<byte>)
    requires a + s <= all
    ensures |a| + |s| <= |all| && all[|a|..|a| + |s|] == s
  {
    assert all[|a|..|a| + |s|] == (a + s)[|a|..];
  }

  function EncodedAt(f: Flat, size: nat, k: nat): seq<byte>
    requires k < |f.list|
  {
    EncodeObject(f.list[k], Numbers(f.table, Children(f.list[k])), size)
  }

  lemma EncodedAtIs(f: Flat, size: nat, k: nat)
    requires k < |f.list|
    ensures EncodedAt(f, size, k) == EncodeObject(f.list[k], Numbers(f.table, Children(f.list[k])), size)
  {
  }

  lemma OffsetParts(f: Flat, k: nat, bodies: seq<byte>, n: nat)
    requires |f.list| < TWO32 && k < |f.list|
    requires bodies == Bodies(f.list, f.table, RefSize(f)) && n == |Bodies(f.list[..k], f.table, RefSize(f))|
    ensures ObjectBytes(f) == HEADER + bodies && |ObjectBytes(f)| == 8 + |bodies| && OffsetsOf(f)[k] == 8 + n
  {
  }

  lemma WrittenNative(img: Image, f: Flat, k: nat)
    requires Written(img, f) && k < |f.list|
    ensures |f.list| < TWO32 && Writable(f) && !f.list[k].node.Foreign?
  {
    assert f.list[k] in f.list;
  }

  /** Objects stand one after the other between the header and the offset table. */
  lemma ObjectAt(img: Image, f: Flat, k: nat, off: nat, s: seq<byte>)
    requires Written(img, f) && k < |f.list| < TWO32
    requires s == EncodedAt(f, RefSize(f), k) && off == OffsetsOf(f)[k]
    ensures 8 <= off && |s| >= 1 && off + |s| <= |ObjectBytes(f)| && Holds(img, off, s)
  {
    hide *;
    var bodies, n := Bodies(f.list, f.table, RefSize(f)), |Bodies(f.list[..k], f.table, RefSize(f))|;
    WrittenNative(img, f, k);
    Nonempty(f.list[k], Numbers(f.table, Children(f.list[k])), RefSize(f));
    FileParts(img, f);
    BodyAt(f.list, f.table, RefSize(f), k);
    OffsetParts(f, k, bodies, n);
    EncodedAtIs(f, RefSize(f), k);
    HoldsParts(img, 0, HEADER, bodies);
    HoldsSlice(img, 8, bodies, n, n + |s|);
  }

  lemma {:induction false} OffsetsIncrease(f: Flat, i: nat, j: nat)
    requires |f.list| < TWO32 && Writable(f) && i < j < |f.list|
    ensures OffsetsOf(f)[i] < OffsetsOf(f)[j]
    decreases j
  {
    var k := j - 1;
    hide Bodies, EncodeObject;
    if i < k {
      OffsetsIncrease(f, i, k);
    }
    assert f.list[k] in f.list;
    BodyAt(f.list, f.table, RefSize(f), k);
    Nonempty(f.list[k], Numbers(f.table, Children(f.list[k])), RefSize(f));
    assert f.list[..k + 1] == f.list[..j];
  }

  lemma Nonempty(o: Obj, refs: seq<nat>, size: nat)
    requires !o.node.Foreign?
    ensures |EncodeObject(o, refs, size)| >= 1
  {
  }

  lemma TrailerFitsWritten(img: Image, f: Flat)
    requires Written(img, f)
    ensures |ObjectBytes(f)| < TWO64 && |img.bytes| >= TRAILER_SIZE + 9
    ensures TrailerFits(img, TrailerOf(f))
  {
    var t := TrailerOf(f);
    FileParts(img, f);
    ObjectAt(img, f, 0, OffsetsOf(f)[0], EncodedAt(f, RefSize(f), 0));
    EntryInTable(0, t.numObjects, t.offsetIntSize);
    hide Written, Holds, EncodeFile, Bodies, Offsets, EncodeRefs, EncodeTrailer;
  }

  lemma TableWritten(img: Image, f: Flat)
    requires Written(img, f)
    ensures |ObjectBytes(f)| < TWO64 && |img.bytes| >= TRAILER_SIZE + 9 && TrailerFits(img, TrailerOf(f))
    ensures forall k :: 0 <= k < |f.list| ==> TableEntry(img, TrailerOf(f), k) == OffsetsOf(f)[k]
    ensures Trusted(img, TrailerOf(f))
  {
    var t := TrailerOf(f);
    TrailerFitsWritten(img, f);
    hide FitsFile, Writable, EncodeFile, EncodeTrailer, EncodeRefs, OffsetsOf, ObjectBytes, TrailerFits, Bodies, IntWidth;
    forall k | 0 <= k < |f.list|
      ensures TableEntry(img, t, k) == OffsetsOf(f)[k] && OffsetsOf(f)[k] <= t.offsetTableOffset - 1
    {
      EntryWritten(img, f, k);
    }
    hide TableEntry;
  }

  lemma EntryWritten(img: Image, f: Flat, k: nat)
    requires Written(img, f) && k < |f.list| && |ObjectBytes(f)| < TWO64
    requires |img.bytes| >= TRAILER_SIZE + 9 && TrailerFits(img, TrailerOf(f))
    ensures TableEntry(img, TrailerOf(f), k) == OffsetsOf(f)[k] <= TrailerOf(f).offsetTableOffset - 1
  {
    var t := TrailerOf(f);
    FileParts(img, f);
    ObjectAt(img, f, k, OffsetsOf(f)[k], EncodedAt(f, RefSize(f), k));
    hide Written, Holds, EncodeRefs, EncodeObject, EncodeTrailer, ObjectBytes, OffsetsOf, Slot, Pow256, TrailerFits;
    EntryHeld(img, t.offsetTableOffset, OffsetsOf(f), t.offsetIntSize, k);
  }

  /** Each listed object stands at its offset, and the offset table leads there. */
  ghost predicate Layout(img: Image, t: Trailer, f: Flat, offs: seq<nat>) {
    && Trusted(img, t) && |offs| == |f.list| == t.numObjects && |f.list| < Pow256(t.objectRefSize)
    && (forall k :: 0 <= k < |offs| ==> TableEntry(img, t, k) == offs[k])
    && (forall k :: 0 <= k < |offs| ==> Stands(img, t, f, k, offs[k]))
    && (forall i, j :: 0 <= i < j < |offs| ==> offs[i] != offs[j])
  }

  ghost predicate Stands(img: Image, t: Trailer, f: Flat, k: nat, off: nat)
    requires k < |f.list|
  {
    var s := EncodedAt(f, t.objectRefSize, k);
    8 <= off && off + |s| <= t.offsetTableOffset && Holds(img, off, s) && !f.list[k].node.Foreign?
  }

  lemma LayoutWritten(img: Image, f: Flat)
    requires Written(img, f)
    ensures |ObjectBytes(f)| < TWO64 && Layout(img, TrailerOf(f), f, OffsetsOf(f))
  {
    var t, offs := TrailerOf(f), OffsetsOf(f);
    TableWritten(img, f);
    assert |f.list| < TWO32 && Writable(f);
    hide Written, Trusted, TrailerFits, TableEntry, OffsetsOf, ObjectBytes, Holds, EncodeObject;
    forall i, j | 0 <= i < j < |offs| ensures offs[i] != offs[j] {
      OffsetsIncrease(f, i, j);
    }
    forall k | 0 <= k < |offs| ensures Stands(img, t, f, k, offs[k]) {
      assert f.list[k] in f.list;
      ObjectAt(img, f, k, offs[k], EncodedAt(f, RefSize(f), k));
    }
  }

  /** The numbers of an object's references are valid and lead to the objects referred to. */
  lemma NumbersFit(f: Flat, k: nat)
    requires Numbered(f) && ClosedFrom(f, 0) && k < |f.list|
    ensures forall i :: 0 <= i < |Children(f.list[k])| ==>
              var c := Children(f.list[k])[i]; c in f.table && Number(f.table, c) == f.table[c] < |f.list|
    ensures forall c :: c in Children(f.list[k]) ==> c in f.table && f.table[c] < |f.list|
  {
    forall i | 0 <= i < |Children(f.list[k])| ensures Children(f.list[k])[i] in f.table {
      assert Children(f.list[k])[i] in Children(f.list[k]);
    }
  }

  lemma ShapeWritten(img: Image, t: Trailer, f: Flat, offs: seq<nat>, k: nat, o: Obj, refs: seq<nat>)
    requires Trusted(img, t) && k < |f.list| == |offs| == t.numObjects && |f.list| < Pow256(t.objectRefSize)
    requires o == f.list[k] && refs == Numbers(f.table, Children(o))
    requires forall j :: 0 <= j < |offs| ==> TableEntry(img, t, j) == offs[j]
    requires Stands(img, t, f, k, offs[k])
    requires forall i :: 0 <= i < |refs| ==> refs[i] < |offs| && Children(o)[i] in f.table && refs[i] == f.table[Children(o)[i]]
    requires forall c :: c in Children(o) ==> c in f.table && f.table[c] < |offs|
    ensures ParseAt(img, t, offs[k]) == Some(ShapeOf(o, f, offs))
  {
    hide Trusted, Holds, EncodeObject, TableEntry, ParseAt, Pow256, Numbers, TrailerFits;
    if IsLeaf(o) {
      LeafParses(img, t, offs[k], o, refs, t.objectRefSize);
    } else {
      ContainerParses(img, t, offs[k], o, refs);
      assert ParseAt(img, t, offs[k]).value.offsets == ShapeOf(o, f, offs).offsets;
    }
  }

  /** A written file holds the whole flattened graph. */
  lemma FileHolds(img: Image, t: Trailer, f: Flat, offs: seq<nat>)
    requires Layout(img, t, f, offs) && Trusted(img, t) && Numbered(f) && ClosedFrom(f, 0)
    ensures HoldsGraph(ObjectsOf(img, t), f, offs)
  {
    var file := ObjectsOf(img, t);
    forall k | 0 <= k < |offs| ensures offs[k] in file && file[offs[k]] == ShapeOf(f.list[k], f, offs) {
      hide Trusted, ParseAt, Stands, Numbered, ClosedFrom;
      NumbersFit(f, k);
      ShapeWritten(img, t, f, offs, k, f.list[k], Numbers(f.table, Children(f.list[k])));
    }
  }

  lemma TopWritten(img: Image, f: Flat)
    requires Written(img, f) && |ObjectBytes(f)| < TWO64 && Trusted(img, TrailerOf(f))
    ensures TopLevelInfo(img) == Some((TrailerOf(f), OffsetsOf(f)[0]))
  {
    MagicWritten(img, f);
    FileParts(img, f);
    TrailerRead(img, TrailerOf(f));
    TableWritten(img, f);
    ObjectAt(img, f, 0, OffsetsOf(f)[0], EncodedAt(f, RefSize(f), 0));
    hide Written, OffsetsOf, ObjectBytes, TrailerFits, TableEntry, Holds, EncodeObject, EncodeTrailer, EncodeRefs, ReadTrailer, Trusted, TableOk;
    TopLevelIs(img, TrailerOf(f), OffsetsOf(f)[0]);
  }

  lemma MagicWritten(img: Image, f: Flat)
    requires Written(img, f) && |ObjectBytes(f)| < TWO64
    ensures |img.bytes| >= 7 && img.bytes[..7] == MAGIC
  {
    FileParts(img, f);
    HoldsSlice(img, 0, ObjectBytes(f), 0, 7);
    assert ObjectBytes(f)[0..7] == MAGIC;
  }

  lemma TopLevelIs(img: Image, t: Trailer, off: nat)
    requires Trusted(img, t) && img.bytes[..7] == MAGIC && ReadTrailer(img) == t && t.topObject < t.numObjects
    requires TableEntry(img, t, t.topObject) == off && 8 <= off < t.offsetTableOffset
    ensures TopLevelInfo(img) == Some((t, off))
  {
    hide TrailerFits, TableEntry, ReadTrailer, TableOk;
  }

  lemma ReadBack(root: Obj, img: Image)
    requires Written(img, Flattened(root, EMPTY))
    ensures Parse(img) == Reread(root)
  {
    var f := Flattened(root, EMPTY);
    FlattenRoot(root);
    LayoutWritten(img, f);
    FileHolds(img, TrailerOf(f), f, OffsetsOf(f));
    TopWritten(img, f);
    hide Written, Trusted, OffsetsOf, ObjectBytes, TopLevelInfo, HoldsGraph, Numbered, ClosedFrom;
    DecodeHeld(ObjectsOf(img, TrailerOf(f)), f, OffsetsOf(f), root, None, 0);
  }

  // ----- when the value survives -----

  lemma RereadPrimitive(o: Obj)
    ensures Reread(o).Some? ==> (Primitive(Reread(o).value) <==> IsLeaf(o))
  {
  }

  /** What comes back, by nodes: nothing if some key is a container, else the value without high halves. */
  lemma {:induction false} RereadMeaning(o: Obj)
    ensures Reread(o) == if LeafKeys(o) then Some(ValueOf(Lowered(o))) else None
    decreases o, 0
  {
    if !IsLeaf(o) {
      RereadMembers(o, 0);
      hide RereadAll;
      if o.node.Arr? {
        ArrayMeaning(o);
      } else {
        DictMeaning(o);
      }
    }
  }

  /** Child j can be read again: it is a leaf where a key is wanted, and so are the keys within it. */
  ghost predicate Readable(o: Obj, j: nat)
    requires j < |Children(o)|
  {
    LeafKeys(Children(o)[j]) && (j < KeysOf(o) ==> IsLeaf(Children(o)[j]))
  }

  ghost predicate AllReadable(o: Obj, i: nat) {
    forall j :: i <= j < |Children(o)| ==> Readable(o, j)
  }

  lemma ReadableStep(o: Obj, i: nat)
    requires i <= |Children(o)|
    ensures i == |Children(o)| ==> AllReadable(o, i)
    ensures i < |Children(o)| ==> (AllReadable(o, i) <==> Readable(o, i) && AllReadable(o, i + 1))
  {
    hide Readable, Children;
  }

  /** These are the values of the children from number i on, without high halves. */
  ghost predicate LowValues(o: Obj, i: nat, vs: seq<Value>) {
    && |vs| == |Children(o)| - i
    && forall j :: i <= j < |Children(o)| ==> vs[j - i] == ValueOf(Lowered(Children(o)[j]))
  }

  /** What comes back for the children from number i on. */
  lemma {:induction false} RereadMembers(o: Obj, i: nat)
    requires i <= |Children(o)|
    ensures RereadAll(o, i).Some? <==> AllReadable(o, i)
    ensures RereadAll(o, i).Some? ==> LowValues(o, i, RereadAll(o, i).value)
    decreases o, 0, |Children(o)| - i
  {
    ReadableStep(o, i);
    hide AllReadable;
    if i < |Children(o)| {
      RereadMeaning(Children(o)[i]);
      RereadMembers(o, i + 1);
      RereadChild(o, i);
      hide Reread, RereadAll, ValueOf, LeafKeys, Lowered, Children, LowValues, IsLeaf, Readable;
      if RereadAll(o, i + 1).Some? {
        LowValuesStep(o, i, RereadAll(o, i + 1).value);
      }
    }
  }

  lemma RereadChild(o: Obj, i: nat)
    requires i < |Children(o)|
    requires var c := Children(o)[i]; Reread(c) == if LeafKeys(c) then Some(ValueOf(Lowered(c))) else None
    ensures RereadAll(o, i) ==
      if Readable(o, i) && RereadAll(o, i + 1).Some? then Some([ValueOf(Lowered(Children(o)[i]))] + RereadAll(o, i + 1).value)
      else None
  {
    RereadPrimitive(Children(o)[i]);
    hide Reread, ValueOf, LeafKeys, Lowered, Children, IsLeaf, Primitive;
  }

  lemma LowValuesStep(o: Obj, i: nat, vs: seq<Value>)
    requires i < |Children(o)| && LowValues(o, i + 1, vs)
    ensures LowValues(o, i, [ValueOf(Lowered(Children(o)[i]))] + vs)
  {
    hide ValueOf, Lowered, Children;
  }

  lemma ArrayMeaning(o: Obj)
    requires o.node.Arr?
    requires RereadAll(o, 0).Some? <==> AllReadable(o, 0)
    requires RereadAll(o, 0).Some? ==> LowValues(o, 0, RereadAll(o, 0).value)
    ensures Reread(o) == if LeafKeys(o) then Some(ValueOf(Lowered(o))) else None
  {
    hide RereadAll;
    assert AllReadable(o, 0) <==> LeafKeys(o) by {
      forall j | 0 <= j < |Children(o)| ensures Readable(o, j) <==> LeafKeys(o.node.elems[j]) {
      }
    }
    if LeafKeys(o) {
      hide Readable, LeafKeys;
      assert RereadAll(o, 0).value == ValueOf(Lowered(o)).elems;
    }
  }

  lemma DictMeaning(o: Obj)
    requires o.node.Dict?
    requires RereadAll(o, 0).Some? <==> AllReadable(o, 0)
    requires RereadAll(o, 0).Some? ==> LowValues(o, 0, RereadAll(o, 0).value)
    ensures Reread(o) == if LeafKeys(o) then Some(ValueOf(Lowered(o))) else None
  {
    DictReadable(o);
    hide RereadAll, Readable, AllReadable, LeafKeys;
    if LeafKeys(o) {
      DictMembers(o, RereadAll(o, 0).value);
    }
  }

  /** The children of a dictionary are its keys and then its values. */
  lemma DictChildren(o: Obj, i: nat)
    requires o.node.Dict? && i < |o.node.entries|
    ensures |Children(o)| == 2 * |o.node.entries|
    ensures Children(o)[i] == o.node.entries[i].0 && Children(o)[|o.node.entries| + i] == o.node.entries[i].1
  {
  }

  lemma EntryReadable(o: Obj, i: nat)
    requires o.node.Dict? && i < |o.node.entries|
    ensures |Children(o)| == 2 * |o.node.entries|
    ensures Readable(o, i) <==> IsLeaf(o.node.entries[i].0)
    ensures Readable(o, |o.node.entries| + i) <==> LeafKeys(o.node.entries[i].1)
  {
    DictChildren(o, i);
    hide Children;
  }

  lemma DictReadable(o: Obj)
    requires o.node.Dict?
    ensures AllReadable(o, 0) <==> LeafKeys(o)
  {
    var entries := o.node.entries;
    var n := |entries|;
    assert |Children(o)| == 2 * n;
    if AllReadable(o, 0) {
      forall i | 0 <= i < n ensures IsLeaf(entries[i].0) && LeafKeys(entries[i].1) {
        EntryReadable(o, i);
        hide Children, Readable, IsLeaf;
      }
    }
    if LeafKeys(o) {
      forall j | 0 <= j < |Children(o)| ensures Readable(o, j) {
        EntryReadable(o, if j < n then j else j - n);
        hide Children, Readable, IsLeaf;
      }
    }
  }

  lemma DictMembers(o: Obj, vs: seq<Value>)
    requires o.node.Dict? && LowValues(o, 0, vs)
    ensures Assemble(KDict, vs) == ValueOf(Lowered(o))
  {
    LoweredDict(o);
    LowCount(o, vs);
    hide Children, ValueOf, Lowered;
    forall i | 0 <= i < |o.node.entries|
      ensures vs[i] == ValueOf(Lowered(o.node.entries[i].0)) && vs[|o.node.entries| + i] == ValueOf(Lowered(o.node.entries[i].1))
    {
      LowPair(o, vs, i);
    }
    hide LowValues;
    Halves(vs, ValueOf(Lowered(o)).keys, ValueOf(Lowered(o)).vals);
  }

  lemma LowCount(o: Obj, vs: seq<Value>)
    requires o.node.Dict? && LowValues(o, 0, vs)
    ensures |vs| == 2 * |o.node.entries|
  {
    hide ValueOf, Lowered;
  }

  lemma LowPair(o: Obj, vs: seq<Value>, i: nat)
    requires o.node.Dict? && i < |o.node.entries| && |vs| == 2 * |o.node.entries| && LowValues(o, 0, vs)
    ensures vs[i] == ValueOf(Lowered(o.node.entries[i].0)) && vs[|o.node.entries| + i] == ValueOf(Lowered(o.node.entries[i].1))
  {
    DictChildren(o, i);
    hide Children, ValueOf, Lowered;
  }

  lemma LoweredDict(o: Obj)
    requires o.node.Dict?
    ensures ValueOf(Lowered(o)).VDict?
    ensures var v, entries := ValueOf(Lowered(o)), o.node.entries;
      && |v.keys| == |v.vals| == |entries|
      && (forall i :: 0 <= i < |entries| ==> v.keys[i] == ValueOf(Lowered(entries[i].0)))
      && (forall i :: 0 <= i < |entries| ==> v.vals[i] == ValueOf(Lowered(entries[i].1)))
  {
  }

  lemma Halves(vs: seq<Value>, keys: seq<Value>, vals: seq<Value>)
    requires |keys| == |vals| && |vs| == 2 * |keys|
    requires forall i :: 0 <= i < |keys| ==> vs[i] == keys[i] && vs[|keys| + i] == vals[i]
    ensures vs[..|vs| / 2] == keys && vs[|vs| / 2..] == vals
  {
    forall j | 0 <= j < |vals| ensures vs[|keys| + j] == vals[j] {
    }
  }

  /** An object graph reads back as itself exactly when it is portable. */
  lemma RereadFaithful(o: Obj)
    ensures Reread(o) == Some(ValueOf(o)) <==> Portable(o)
  {
    RereadMeaning(o);
    LoweredValue(o);
    hide Reread, ValueOf, Lowered, LeafKeys, LowHalves;
  }

  /**
   Writing and the format: for every object graph the writer accepts, with shared
   objects, counts and field widths of any size, the bytes of the file stand for the
   value of the graph without high halves, and for nothing if some key is a container.
   */
  lemma RoundTrip(root: Obj, img: Image)
    requires Written(img, Flattened(root, EMPTY))
    ensures forall v :: FileDenotes(img.bytes, v) <==> LeafKeys(root) && v == ValueOf(Lowered(root))
    ensures Parse(img) == if LeafKeys(root) then Some(ValueOf(Lowered(root))) else None
  {
    ReadBack(root, img);
    RereadMeaning(root);
    hide Parse, Reread, Flattened, LeafKeys, Lowered, ValueOf, FileDenotes;
    forall v ensures FileDenotes(img.bytes, v) <==> Parse(img) == Some(v) {
      ParseMeaning(img, v);
    }
  }

  // ----- the bytes, without the reader -----

  lemma HeaderHeld(img: Image, f: Flat)
    requires |f.list| < TWO32 && Holds(img, 0, ObjectBytes(f))
    ensures |img.bytes| >= 8 && img.bytes[..8] == HEADER
  {
    hide Holds, Bodies;
    HoldsParts(img, 0, HEADER, Bodies(f.list, f.table, RefSize(f)));
    HeldSlice(img, 0, HEADER);
  }

  lemma HeaderFirst(f: Flat)
    requires |f.list| < TWO32
    ensures |ObjectBytes(f)| >= 8 && HEADER == [0x62, 0x70, 0x6C, 0x69, 0x73, 0x74, 0x30, 0x30]
  {
    hide Bodies;
  }

  lemma UnusedHeld(img: Image, p: nat, a: byte, b: byte)
    requires Holds(img, p, [0, 0, 0, 0, 0, 0, a, b])
    ensures p + 6 <= |img.bytes| && forall i :: p <= i < p + 6 ==> img.bytes[i] == 0
  {
    var s: seq<byte> := [0, 0, 0, 0, 0, 0, a, b];
    HeldSlice(img, p, s);
    assert forall i :: p <= i < p + 6 ==> img.bytes[i] == img.bytes[p..p + |s|][i - p];
  }

  /** A file starts with the eight bytes of "bplist00", and the six unused bytes of its trailer are 0. */
  lemma FrameWritten(img: Image, f: Flat)
    requires Written(img, f)
    ensures |img.bytes| >= 40 && img.bytes[..8] == [0x62, 0x70, 0x6C, 0x69, 0x73, 0x74, 0x30, 0x30]
    ensures forall i :: |img.bytes| - 32 <= i < |img.bytes| - 26 ==> img.bytes[i] == 0
  {
    FileParts(img, f);
    HeaderFirst(f);
    hide Written, Holds, ObjectBytes, OffsetsOf, EncodeTrailer, EncodeRefs, IntWidth;
    FrameHeld(img, f, TrailerOf(f));
  }

  lemma FrameHeld(img: Image, f: Flat, t: Trailer)
    requires |f.list| < TWO32 && |img.bytes| >= 40 && Holds(img, 0, ObjectBytes(f))
    requires Holds(img, |img.bytes| - 32, EncodeTrailer(t.offsetIntSize, t.objectRefSize, t.numObjects, t.offsetTableOffset))
    ensures img.bytes[..8] == HEADER
    ensures forall i :: |img.bytes| - 32 <= i < |img.bytes| - 26 ==> img.bytes[i] == 0
  {
    hide *;
    HeaderHeld(img, f);
    TrailerParts(img, t, |img.bytes| - 32);
    UnusedHeld(img, |img.bytes| - 32, t.offsetIntSize, t.objectRefSize);
  }

  lemma InGraph(file: File, f: Flat, offs: seq<nat>, k: nat)
    requires HoldsGraph(file, f, offs) && k < |offs|
    ensures offs[k] in file && f.list[k] in f.table && file[offs[k]] == ShapeOf(f.list[k], f, offs)
  {
  }

  /** The count in a marker; 15 where the count follows the marker. */
  function LowNibble(n: nat): nat {
    if n < 15 then n else 15
  }

  /** The first byte of every kind of object. */
  predicate Marked(x: byte, node: Node) {
    match node
    case Bool(b) => x == if b then 0x09 else 0x08
    case Int(i) => x == if 0 <= i < 0x100 then 0x10 else if 0 <= i < 0x1_0000 then 0x11 else if 0 <= i < 0x1_0000_0000 then 0x12 else 0x13
    case Int128(_, _) => x == 0x14
    case Real32(_) => x == 0x22
    case Real64(_) => x == 0x23
    case Date(_) => x == 0x33
    case Data(bytes) => x as int == 0x40 + LowNibble(|bytes|)
    case Str(units) => x as int == (if forall i :: 0 <= i < |units| ==> units[i] < 128 then 0x50 else 0x60) + LowNibble(|units|)
    case Uid(uid) => x == if uid < 0x100 then 0x80 else if uid < 0x1_0000 then 0x81 else 0x83
    case Arr(elems) => x as int == 0xA0 + LowNibble(|elems|)
    case Dict(entries) => x as int == 0xD0 + LowNibble(|entries|)
    case Foreign => false
  }

  lemma MarkerWritten(img: Image, f: Flat, size: byte, k: nat, off: nat)
    requires k < |f.list| && Holds(img, off, EncodedAt(f, size, k)) && !f.list[k].node.Foreign?
    ensures off < |img.bytes| && Marked(img.bytes[off], f.list[k].node)
  {
    var s := EncodedAt(f, size, k);
    EncodedAtIs(f, size, k);
    FirstByte(f.list[k], Numbers(f.table, Children(f.list[k])), size);
    hide EncodedAt, EncodeObject, Marked, Holds;
    HoldsByte(img, off, s);
    HoldsEnd(img, off, s);
  }

  lemma FirstByte(o: Obj, refs: seq<nat>, size: nat)
    requires !o.node.Foreign?
    ensures |EncodeObject(o, refs, size)| >= 1 && Marked(EncodeObject(o, refs, size)[0], o.node)
  {
    hide ToBigEndian, EncodeRefs, BigEndianUnits;
    Pow256Values();
  }

  /**
   Every listed object stands in the file, in the format, at the offset that the table
   has for it. Its marker tells its kind and count, with the narrowest integers, and a
   string has one byte for each unit exactly when all its units are below 128.
   */
  lemma ObjectsWritten(root: Obj, img: Image, k: nat)
    requires Written(img, Flattened(root, EMPTY)) && k < |Flattened(root, EMPTY).list|
    ensures var f := Flattened(root, EMPTY); var o := f.list[k];
      && |ObjectBytes(f)| < TWO64 && OffsetsOf(f)[k] < |img.bytes| && Marked(img.bytes[OffsetsOf(f)[k]], o.node)
      && (IsLeaf(o) ==> PlistFormat.ObjectAt(img.bytes, TrailerOf(f), OffsetsOf(f)[k], Leaf(RereadLeaf(o))))
  {
    var f := Flattened(root, EMPTY);
    var o, off := f.list[k], OffsetsOf(f)[k];
    FlattenRoot(root);
    LayoutWritten(img, f);
    FileHolds(img, TrailerOf(f), f, OffsetsOf(f));
    hide Written, Trusted, OffsetsOf, ObjectBytes, Flattened, Numbered, ClosedFrom, Holds, EncodeHead, Marked, PlistFormat.ObjectAt;
    InGraph(ObjectsOf(img, TrailerOf(f)), f, OffsetsOf(f), k);
    InFile(img, TrailerOf(f), off, ShapeOf(o, f, OffsetsOf(f)));
    assert Stands(img, TrailerOf(f), f, k, off);
    MarkerWritten(img, f, TrailerOf(f).objectRefSize, k, off);
  }

  // ----- where the objects of a written file land -----

  /** An object that is entered in the object table starts at one of the two substitute words. */
  ghost predicate LandsOnSubstitute(f: Flat)
    requires |f.list| < TWO32 && |ObjectBytes(f)| < TWO64 && Numbered(f)
  {
    exists o :: o in f.table && !o.node.Bool? && Substitute(OffsetsOf(f)[f.table[o]])
  }

  /** Following references in a written file is following references of the objects. */
  lemma {:induction false} PartReached(file: File, f: Flat, offs: seq<nat>, x: Obj, o: Obj)
    requires HoldsGraph(file, f, offs) && o in f.table && PartOf(x, o)
    ensures x in f.table && f.table[x] < |offs| && f.table[o] < |offs|
    ensures Reaches(file, offs[f.table[o]], offs[f.table[x]])
    decreases o
  {
    HeldShape(file, f, offs, o);
    if x == o {
      ReachesSelf(file, offs[f.table[o]]);
    } else {
      var i :| 0 <= i < |Children(o)| && PartOf(x, Children(o)[i]);
      var c := Children(o)[i];
      PartReached(file, f, offs, x, c);
      ChildEdge(file, f, offs, o, i);
      ReachesStep(file, offs[f.table[o]], offs[f.table[c]], offs[f.table[x]]);
    }
  }

  lemma ChildEdge(file: File, f: Flat, offs: seq<nat>, o: Obj, i: nat)
    requires HoldsGraph(file, f, offs) && o in f.table && i < |Children(o)|
    ensures f.table[o] < |offs| && Children(o)[i] in f.table && f.table[Children(o)[i]] < |offs|
    ensures Edge(file, offs[f.table[o]], offs[f.table[Children(o)[i]]])
  {
    HeldShape(file, f, offs, o);
    hide HoldsGraph;
    var shape := file[offs[f.table[o]]];
    assert shape.offsets[i] == offs[f.table[Children(o)[i]]];
  }

  /** Only offsets of numbered objects are reached. */
  lemma {:induction false} ReachedIsNumbered(file: File, f: Flat, offs: seq<nat>, o: Obj, w: seq<nat>) returns (x: Obj)
    requires HoldsGraph(file, f, offs) && o in f.table && f.table[o] < |offs|
    requires Walk(file, w) && w[0] == offs[f.table[o]]
    ensures x in f.table && f.table[x] < |offs| && offs[f.table[x]] == w[|w| - 1]
    decreases |w|
  {
    if |w| == 1 {
      x := o;
    } else {
      WalkTail(file, w);
      HeldShape(file, f, offs, o);
      var offsets := file[w[0]].offsets;
      var i :| 0 <= i < |offsets| && offsets[i] == w[1];
      x := ReachedIsNumbered(file, f, offs, Children(o)[i], w[1..]);
    }
  }

  /** An object that refers to no others, or a container that can be created again. */
  predicate Recreatable(o: Obj) {
    IsLeaf(o) || Creatable(KindOf(o), |Children(o)|)
  }

  /** All containers of a graph can be created again: arrays have fewer than 2^29 - 4 elements, dictionaries fit in a table. */
  ghost predicate AllRecreatable(root: Obj) {
    forall x :: PartOf(x, root) ==> Recreatable(x)
  }

  /** When the object at the offset of a numbered object is refused. */
  lemma NumberedRefused(file: File, f: Flat, offs: seq<nat>, o: Obj)
    requires HoldsGraph(file, f, offs) && o in f.table && !o.node.Foreign?
    ensures f.table[o] < |offs|
    ensures Refused(file, offs[f.table[o]]) <==> (!o.node.Bool? && Substitute(offs[f.table[o]])) || !Recreatable(o)
  {
    HeldShape(file, f, offs, o);
    hide HoldsGraph, Creatable, Substitute;
  }

  /** Parsing a written file does not come to an end exactly when an object lands on a substitute word or cannot be created again. */
  lemma WrittenEnds(root: Obj, img: Image)
    requires Written(img, Flattened(root, EMPTY))
    ensures var f := Flattened(root, EMPTY);
      |ObjectBytes(f)| < TWO64 && Numbered(f) && (ParseEnds(img) <==> LandsOnSubstitute(f) || !AllRecreatable(root))
  {
    var f := Flattened(root, EMPTY);
    FlattenRoot(root);
    LayoutWritten(img, f);
    FileHolds(img, TrailerOf(f), f, OffsetsOf(f));
    TopWritten(img, f);
    LargestTable(|f.list|);
    forall o | o in f.table ensures !o.node.Foreign? {
      assert f.list[f.table[o]] == o;
    }
    hide Written, Trusted, OffsetsOf, ObjectBytes, TopLevelInfo, HoldsGraph, Numbered, ClosedFrom, Flattened;
    hide Refused, Substitute, PartOf, TableTakes, Recreatable;
    HeldTrips(ObjectsOf(img, TrailerOf(f)), f, OffsetsOf(f), root);
  }

  lemma HeldTrips(file: File, f: Flat, offs: seq<nat>, root: Obj)
    requires HoldsGraph(file, f, offs) && root in f.table && f.table[root] < |offs|
    requires forall x :: x in f.table <==> PartOf(x, root)
    requires forall x :: x in f.table ==> !x.node.Foreign?
    ensures forall o :: o in f.table ==> f.table[o] < |offs|
    ensures Trips(file, offs[f.table[root]]) <==>
      (exists o :: o in f.table && !o.node.Bool? && Substitute(offs[f.table[o]])) || !AllRecreatable(root)
  {
    hide HoldsGraph, Refused, Substitute, PartOf, Reaches, Recreatable;
    forall o | o in f.table
      ensures f.table[o] < |offs|
      ensures Refused(file, offs[f.table[o]]) <==> (!o.node.Bool? && Substitute(offs[f.table[o]])) || !Recreatable(o)
    {
      NumberedRefused(file, f, offs, o);
    }
    forall o | o in f.table ensures Reaches(file, offs[f.table[root]], offs[f.table[o]]) {
      PartReached(file, f, offs, o, root);
    }
    if Trips(file, offs[f.table[root]]) {
      var s: nat :| Refused(file, s) && Reaches(file, offs[f.table[root]], s);
      var x := ReachedBy(file, f, offs, root, s);
    }
  }

  lemma ReachedBy(file: File, f: Flat, offs: seq<nat>, o: Obj, s: nat) returns (x: Obj)
    requires HoldsGraph(file, f, offs) && o in f.table && f.table[o] < |offs| && Reaches(file, offs[f.table[o]], s)
    ensures x in f.table && f.table[x] < |offs| && offs[f.table[x]] == s
  {
    var w :| Walk(file, w) && w[0] == offs[f.table[o]] && w[|w| - 1] == s;
    x := ReachedIsNumbered(file, f, offs, o, w);
  }

  /**
   The law of the format: the reader returns what was written, for exactly the portable
   graphs all of whose containers can be created again and none of whose objects lands
   on a substitute word.
   */
  lemma WriteThenRead(root: Obj, img: Image)
    requires Written(img, Flattened(root, EMPTY))
    ensures var f := Flattened(root, EMPTY);
      && |ObjectBytes(f)| < TWO64 && Numbered(f)
      && (Returns(img, ValueOf(root)) <==> Portable(root) && AllRecreatable(root) && !LandsOnSubstitute(f))
  {
    hide Parse, Flattened, Portable, AllRecreatable, LandsOnSubstitute, ParseEnds, Numbered, ObjectBytes, Reread, ValueOf;
    ReadBack(root, img);
    RereadFaithful(root);
    WrittenEnds(root, img);
  }

  /**
   The program itself: flatten, write, check the trailer and decode with the object
   table. The same law holds of it.
   */
  method WriteAndRead(root: Obj, streamIsData: bool, base: nat) returns (length: nat, r: Outcome<Value>)
    requires FitsFile(Flattened(root, EMPTY)) && base + |EncodeFile(Flattened(root, EMPTY))| < TWO64
    ensures var f := Flattened(root, EMPTY);
      Writable(f) ==> length > 0 && |ObjectBytes(f)| < TWO64 && Numbered(f)
    ensures var f := Flattened(root, EMPTY);
      Writable(f) ==> (r == Done(Some(ValueOf(root))) <==> Portable(root) && AllRecreatable(root) && !LandsOnSubstitute(f))
    ensures Writable(Flattened(root, EMPTY)) && r.Done? ==> r.result == if LeafKeys(root) then Some(ValueOf(Lowered(root))) else None
    ensures !Writable(Flattened(root, EMPTY)) ==> length == 0 && r == Done(None)
  {
    hide LeafKeys, Lowered, FileDenotes;
    hide Returns, Parse, Flattened, EncodeFile, Bodies, ValueOf, Portable, AllRecreatable, LandsOnSubstitute, ParseEnds, Numbered, ObjectBytes;
    var stream;
    length, stream := BinaryPlistWrite(root, streamIsData);
    r := Done(None);
    RootListed(root);
    if length > 0 {
      r := TryParse(Image(base, stream));
      WriteThenRead(root, Image(base, stream));
      RoundTrip(root, Image(base, stream));
    }
  }

  /** A 16-byte integer with a high half is written, and comes back without it. */
  lemma HighHalfIsLost()
    ensures var o := Obj(0, Int128(1, 5));
      Writable(Flattened(o, EMPTY)) && Reread(o) == Some(VInt128(0, 5)) && ValueOf(o) == VInt128(1, 5)
  {
    var o := Obj(0, Int128(1, 5));
    assert Flattened(o, EMPTY) == Append(o, EMPTY);
  }

  /** A dictionary whose key is an array is written, and is refused when it is read. */
  lemma ArrayKeyIsRefused()
    ensures var o := Obj(0, Dict([(Obj(1, Arr([])), Obj(2, Bool(true)))]));
      Writable(Flattened(o, EMPTY)) && Reread(o) == None
  {
    var key, value := Obj(1, Arr([])), Obj(2, Bool(true));
    var o := Obj(0, Dict([(key, value)]));
    assert Children(o) == [key, value];
    FlattenedTwo(o, key, value);
    RereadFirstKey(o);
  }

  lemma FlattenedTwo(o: Obj, a: Obj, b: Obj)
    requires o.node.Dict? && Children(o) == [a, b] && Children(a) == [] && Children(b) == []
    requires !Uniqued(a) && !Uniqued(b) && !a.node.Foreign? && !b.node.Foreign?
    ensures Writable(Flattened(o, EMPTY))
  {
    var f := Append(o, EMPTY);
    var g := Append(a, f);
    var h := Append(b, g);
    FlattenedAlone(a, f);
    FlattenedAlone(b, g);
    hide Append;
    assert FlattenChildren(o, 2, h) == h;
    assert FlattenChildren(o, 1, g) == h;
    assert FlattenChildren(o, 0, f) == h;
    AppendedThree(o, a, b);
  }

  lemma AppendedThree(o: Obj, a: Obj, b: Obj)
    ensures Append(b, Append(a, Append(o, EMPTY))).list == [o, a, b]
  {
  }

  lemma FlattenedAlone(o: Obj, f: Flat)
    requires Children(o) == [] && !Uniqued(o)
    ensures Flattened(o, f) == Append(o, f)
  {
  }

  lemma RereadFirstKey(o: Obj)
    requires o.node.Dict? && |Children(o)| > 0 && KeysOf(o) > 0 && !IsLeaf(Children(o)[0])
    ensures Reread(o) == None
  {
    RereadPrimitive(Children(o)[0]);
  }

  lemma RootListed(root: Obj)
    requires FitsFile(Flattened(root, EMPTY))
    ensures |Flattened(root, EMPTY).list| >= 1 && |EncodeFile(Flattened(root, EMPTY))| > 0
  {
    FlattenRoot(root);
    hide Flattened, Numbered, ClosedFrom, Bodies, Offsets;
  }
}
