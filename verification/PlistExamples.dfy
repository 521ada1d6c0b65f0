/** Example files: one dictionary byte by byte, files with a value for which the reader does not come to an end, and one of these that the writer produces. */
module PlistExamples {
  import opened Machine
  import opened Bytes
  import opened Plist
  import opened PlistReader
  import opened PlistLimits
  import opened PlistDecoder
  import opened PlistFile
  import opened PlistMeaning
  import opened PlistFlatten
  import opened PlistWriter
  import opened PlistParsing
  import opened PlistRoundTrip

  // ----- files by their parts -----

  /** A file of these objects and this offset table, mapped at address 0. */
  function Assembled(objects: seq<byte>, table: seq<byte>, t: Trailer): Image {
    Image(0, HEADER + objects + table + EncodeTrailer(t.offsetIntSize, t.objectRefSize, t.numObjects, t.offsetTableOffset))
  }

  /** The trailer describes the parts, and all entries of the table are `off`. */
  ghost predicate Describes(t: Trailer, objects: seq<byte>, table: seq<byte>, off: nat) {
    && t.topObject == 0 && 1 <= t.numObjects < TWO32 && 1 <= |objects| < TWO32
    && t.offsetTableOffset == 8 + |objects| && (t.offsetIntSize == 1 || t.offsetIntSize == 4) && t.objectRefSize == 4
    && |table| == Product(t.numObjects, t.offsetIntSize) && |table| < TWO63 - TWO63 / 2
    && t.offsetTableOffset < Pow256(t.offsetIntSize) && t.numObjects < Pow256(4)
    && 8 <= off < t.offsetTableOffset
    && forall k :: 0 <= k < t.numObjects ==> EntryIs(table, k, t.offsetIntSize, off)
  }

  predicate EntryIs(table: seq<byte>, k: nat, size: nat, off: nat) {
    var at := Slot(0, k, size);
    at + size <= |table| ==> Sized(table[at..at + size]) == off
  }

  lemma AssembledParts(objects: seq<byte>, table: seq<byte>, t: Trailer, off: nat)
    requires Describes(t, objects, table, off)
    ensures var img := Assembled(objects, table, t);
      && Mapped(img) && |img.bytes| == t.offsetTableOffset + |table| + 32 && img.bytes[..7] == MAGIC
      && Holds(img, 8, objects) && Holds(img, t.offsetTableOffset, table)
      && Holds(img, |img.bytes| - 32, EncodeTrailer(t.offsetIntSize, t.objectRefSize, t.numObjects, t.offsetTableOffset))
  {
    var img := Assembled(objects, table, t);
    var trailer := EncodeTrailer(t.offsetIntSize, t.objectRefSize, t.numObjects, t.offsetTableOffset);
    hide Sized, EncodeTrailer;
    assert img.bytes[..7] == HEADER[..7];
    ThreeParts(img, HEADER + objects, table, trailer);
    HoldsParts(img, 0, HEADER, objects);
  }

  lemma AssembledFits(objects: seq<byte>, table: seq<byte>, t: Trailer, off: nat)
    requires Describes(t, objects, table, off)
    ensures var img := Assembled(objects, table, t);
      Mapped(img) && |img.bytes| >= TRAILER_SIZE + 9 && TrailerFits(img, t)
  {
    var img := Assembled(objects, table, t);
    AssembledParts(objects, table, t, off);
    TrailerFitsParts(img, t);
    hide Assembled, TrailerFits, Product, Holds, EncodeTrailer, Sized;
  }

  /** The reader trusts such a file, and finds its top object at `off`. */
  lemma AssembledInfo(objects: seq<byte>, table: seq<byte>, t: Trailer, off: nat)
    requires Describes(t, objects, table, off)
    ensures var img := Assembled(objects, table, t);
      Mapped(img) && Trusted(img, t) && TopLevelInfo(img) == Some((t, off)) && Holds(img, 8, objects)
  {
    var img := Assembled(objects, table, t);
    AssembledParts(objects, table, t, off);
    AssembledFits(objects, table, t, off);
    forall k | 0 <= k < t.numObjects ensures TableEntry(img, t, k) == off {
      EntryHeldAt(img, t, table, k, off, objects);
    }
    hide Assembled, TrailerFits, TableEntry, Product, Describes;
    TrailerRead(img, t);
    TopLevelIs(img, t, off);
  }

  lemma EntryHeldAt(img: Image, t: Trailer, table: seq<byte>, k: nat, off: nat, objects: seq<byte>)
    requires Describes(t, objects, table, off) && Mapped(img) && |img.bytes| >= TRAILER_SIZE + 9 && TrailerFits(img, t)
    requires Holds(img, t.offsetTableOffset, table) && k < t.numObjects
    ensures TableEntry(img, t, k) == off
  {
    var size := t.offsetIntSize;
    var at := Slot(0, k, size);
    TableEntryAt(img, t, k);
    EntryInTable(k, t.numObjects, size);
    assert EntryIs(table, k, size, off);
    HoldsSlice(img, t.offsetTableOffset, table, at, at + size);
    HeldSlice(img, t.offsetTableOffset + at, table[at..at + size]);
    hide TrailerFits, TableEntry, Sized;
  }

  // ----- more objects than a table can be made for -----

  const MANY: nat := 3241355161

  /** One boolean, which more than three billion entries of the offset table refer to. */
  function CrowdedTrailer(): Trailer {
    Trailer(1, 4, MANY, 0, 9)
  }

  function CrowdedFile(): Image {
    Assembled([0x08], seq(MANY, _ => 8), CrowdedTrailer())
  }

  /** The file denotes false and nothing in it is refused, but the object table cannot be made. */
  lemma CrowdedExample()
    ensures Mapped(CrowdedFile()) && Parse(CrowdedFile()) == Some(VBool(false)) && ParseEnds(CrowdedFile())
    ensures Trusted(CrowdedFile(), CrowdedTrailer()) && !Trips(ObjectsOf(CrowdedFile(), CrowdedTrailer()), 8)
  {
    var t, table: seq<byte> := CrowdedTrailer(), seq(MANY, _ => 8);
    CrowdedDescribed(table);
    AssembledInfo([0x08], table, t, 8);
    LargestTable(MANY);
    BooleanAt(CrowdedFile(), t);
  }

  lemma CrowdedDescribed(table: seq<byte>)
    requires table == seq(MANY, _ => 8)
    ensures Describes(CrowdedTrailer(), [0x08], table, 8)
  {
    Pow256Values();
    SizedOne(8);
    forall k: nat | k < MANY ensures EntryIs(table, k, 1, 8) {
      assert table[k..k + 1] == [8];
    }
    hide Sized;
  }

  lemma SizedOne(b: byte)
    ensures Sized([b]) == b
  {
    assert [b][..0] == [];
  }

  lemma BooleanAt(img: Image, t: Trailer)
    requires Mapped(img) && Trusted(img, t) && TopLevelInfo(img) == Some((t, 8)) && Holds(img, 8, [0x08])
    ensures Parse(img) == Some(VBool(false)) && !Trips(ObjectsOf(img, t), 8)
  {
    HoldsByte(img, 8, [0x08]);
    assert ParseAt(img, t, 8) == Some(Leaf(VBool(false))) by {
      InsideObjects(img, t);
    }
    hide Trusted, ParseAt, TopLevelInfo;
    TripsNowhere(ObjectsOf(img, t), 8);
  }

  lemma InsideObjects(img: Image, t: Trailer)
    requires Trusted(img, t)
    ensures 9 <= t.offsetTableOffset
  {
  }

  // ----- an object at a substitute word -----

  const WORD: nat := 0xa5baadb9

  function SubstituteTrailer(): Trailer {
    Trailer(4, 4, 1, 0, WORD + |EncodeInt(7)|)
  }

  /** The number 7 at the offset 0xa5baadb9. */
  function SubstituteFile(): Image {
    Assembled(seq(WORD - 8, _ => 0) + EncodeInt(7), ToBigEndian(WORD, 4), SubstituteTrailer())
  }

  /** The file denotes 7, but entering it in the object table ends the program. */
  lemma SubstituteExample()
    ensures Mapped(SubstituteFile()) && Parse(SubstituteFile()) == Some(VInt(7)) && ParseEnds(SubstituteFile())
  {
    var t := SubstituteTrailer();
    var pad: seq<byte> := seq(WORD - 8, _ => 0);
    SubstituteDescribed(pad);
    AssembledInfo(pad + EncodeInt(7), ToBigEndian(WORD, 4), t, WORD);
    var img := SubstituteFile();
    HoldsParts(img, 8, pad, EncodeInt(7));
    SevenAt(img, t);
  }

  lemma SevenAt(img: Image, t: Trailer)
    requires Mapped(img) && Trusted(img, t) && TopLevelInfo(img) == Some((t, WORD))
    requires Holds(img, WORD, EncodeInt(7)) && WORD + |EncodeInt(7)| <= t.offsetTableOffset
    ensures Parse(img) == Some(VInt(7)) && ParseEnds(img)
  {
    hide Trusted, ParseAt, TopLevelInfo, EncodeInt, Holds, TableTakes, Trips;
    IntObject(img, t, WORD, 7);
    TripsSelf(ObjectsOf(img, t), WORD);
  }

  lemma SubstituteDescribed(pad: seq<byte>)
    requires pad == seq(WORD - 8, _ => 0)
    ensures Describes(SubstituteTrailer(), pad + EncodeInt(7), ToBigEndian(WORD, 4), WORD)
  {
    Pow256Values();
    SevenLength();
    BigEndianRoundTrip(WORD, 4);
    var table := ToBigEndian(WORD, 4);
    hide ToBigEndian, EncodeInt, BigEndian, Pow256;
    assert table[0..4] == table;
    SizedSmall(table);
    assert EntryIs(table, 0, 4, WORD);
    hide Sized;
  }

  lemma SevenLength()
    ensures |EncodeInt(7)| == 2
  {
  }

  // ----- an array that cannot be created again -----

  const LENGTH: nat := 0x2000_0000

  function SharedString(): Obj {
    Obj(1, Str([]))
  }

  /** 2^29 references to one empty string. */
  function HugeArray(): Obj {
    Obj(0, Arr(seq(LENGTH, _ => SharedString())))
  }

  function HugeFlat(): Flat {
    Append(SharedString(), Append(HugeArray(), EMPTY))
  }

  /** The writer lists two objects and writes the file, and the graph is portable, but the reader cannot create the array. */
  lemma HugeArrayExample()
    ensures Flattened(HugeArray(), EMPTY) == HugeFlat()
    ensures FitsFile(HugeFlat()) && Writable(HugeFlat())
    ensures Portable(HugeArray()) && !AllRecreatable(HugeArray())
  {
    HugeFlattened();
    HugeFits();
    HugePortable();
    hide Portable, Flattened, HugeFlat, FitsFile;
    TransferBlockFits(LENGTH);
    assert PartOf(HugeArray(), HugeArray());
  }

  lemma HugePortable()
    ensures Portable(HugeArray())
  {
    assert LeafKeys(SharedString()) && LowHalves(SharedString());
  }

  lemma HugeFlattened()
    ensures Flattened(HugeArray(), EMPTY) == HugeFlat()
    ensures HugeFlat().list == [HugeArray(), SharedString()] && Writable(HugeFlat())
  {
    var o := HugeArray();
    var f := Append(o, EMPTY);
    assert Children(SharedString()) == [] && Children(o)[0] == SharedString();
    assert Flattened(SharedString(), f) == HugeFlat();
    SharedSkipped(o, 1, HugeFlat());
  }

  /** References to a string that is listed already add nothing. */
  lemma {:induction false} SharedSkipped(o: Obj, i: nat, f: Flat)
    requires i <= |Children(o)| && SharedString() in f.uniquing && forall j :: 0 <= j < |Children(o)| ==> Children(o)[j] == SharedString()
    ensures FlattenChildren(o, i, f) == f
    decreases |Children(o)| - i
  {
    if i < |Children(o)| {
      SharedSkipped(o, i + 1, f);
    }
  }

  lemma HeadBound(kind: nat, n: nat)
    requires kind < 16 && n < TWO64
    ensures |EncodeHead(kind, n)| <= 10
  {
    hide ToBigEndian;
  }

  lemma HugeFits()
    ensures FitsFile(HugeFlat())
  {
    HugeFlattened();
    var f := HugeFlat();
    var o, w := HugeArray(), SharedString();
    hide Flattened, HugeFlat, HugeArray, Word;
    HugeBodies(f);
    WidthBound();
    hide Bodies, IntWidth, Offsets;
  }

  lemma WidthBound()
    ensures IntWidth(2) == 1
  {
  }

  lemma HugeBodies(f: Flat)
    requires f.list == [HugeArray(), SharedString()]
    ensures |Bodies(f.list, f.table, 1)| <= LENGTH + 20
  {
    var o, w := HugeArray(), SharedString();
    assert f.list[..1] == [o] && [o][..0] == [];
    HeadBound(10, LENGTH);
    HeadBound(5, 0);
    var refs := Numbers(f.table, Children(o));
    assert |EncodeObject(o, refs, 1)| <= LENGTH + 10 by {
      hide EncodeHead;
    }
    assert |EncodeObject(w, Numbers(f.table, Children(w)), 1)| <= 10 by {
      hide EncodeHead;
    }
    hide EncodeObject, Numbers;
    assert Bodies([o], f.table, 1) == Bodies([], f.table, 1) + EncodeObject(o, refs, 1);
    assert Bodies([], f.table, 1) == [];
  }

  // ----- a dictionary, byte by byte -----

  /** The dictionary with "a" for 1 and "b" for 2. */
  function Pairs(): Obj {
    Obj(0, Dict([(Obj(1, Str([0x61])), Obj(3, Int(1))), (Obj(2, Str([0x62])), Obj(4, Int(2)))]))
  }

  /** Its file: header, five objects, offset table, trailer. */
  const PAIRS_FILE: seq<byte> :=
    [0x62, 0x70, 0x6C, 0x69, 0x73, 0x74, 0x30, 0x30]
    + ([0xD2, 1, 2, 3, 4] + [0x51, 0x61] + [0x51, 0x62] + [0x10, 1] + [0x10, 2])
    + [8, 13, 15, 17, 19]
    + ([0, 0, 0, 0, 0, 0, 1, 1] + [0, 0, 0, 0, 0, 0, 0, 5] + [0, 0, 0, 0, 0, 0, 0, 0] + [0, 0, 0, 0, 0, 0, 0, 21])

  function PairsList(): (list: seq<Obj>) {
    [Pairs(), Obj(1, Str([0x61])), Obj(2, Str([0x62])), Obj(3, Int(1)), Obj(4, Int(2))]
  }

  /** The dictionary is written as these 58 bytes, which stand for the dictionary with "a" for 1 and "b" for 2. */
  lemma PairsExample(v: Value)
    ensures FitsFile(Flattened(Pairs(), EMPTY)) && EncodeFile(Flattened(Pairs(), EMPTY)) == PAIRS_FILE
    ensures FileDenotes(PAIRS_FILE, v) <==> v == VDict([VString([0x61]), VString([0x62])], [VInt(1), VInt(2)])
  {
    PairsFlattened();
    PairsMeaning();
    hide Flattened, Pairs, LeafKeys, Lowered, ValueOf, PairsList, FileDenotes, Lists, EncodeFile, FitsFile;
    PairsEncoded(Flattened(Pairs(), EMPTY));
    PairsWritten(Flattened(Pairs(), EMPTY));
    RoundTrip(Pairs(), Image(0, PAIRS_FILE));
  }

  lemma PairsMeaning()
    ensures LeafKeys(Pairs())
    ensures ValueOf(Lowered(Pairs())) == VDict([VString([0x61]), VString([0x62])], [VInt(1), VInt(2)])
  {
  }

  lemma FlattenedLeaf(o: Obj, f: Flat)
    requires Children(o) == [] && o !in f.uniquing
    ensures Flattened(o, f) == Append(o, f)
  {
  }

  /** These are the objects in the order of their numbers. */
  ghost predicate Lists(f: Flat, list: seq<Obj>) {
    && f.list == list && (forall o :: o in f.uniquing ==> o in list)
    && (forall o :: o in f.table <==> o in list)
    && (forall i :: 0 <= i < |list| ==> list[i] in f.table && f.table[list[i]] == i)
  }

  ghost predicate NoRepeats(list: seq<Obj>) {
    forall i, j :: 0 <= i < j < |list| ==> list[i] != list[j]
  }

  lemma ListsMore(f: Flat, list: seq<Obj>, i: nat)
    requires NoRepeats(list) && i < |list| < 10 && Lists(f, list[..i])
    ensures Lists(Append(list[i], f), list[..i + 1]) && list[i] !in f.uniquing
  {
    var o, init := list[i], list[..i];
    assert list[..i + 1] == init + [o];
    assert o !in init;
    hide NoRepeats;
  }

  ghost predicate LeavesBehind(o: Obj, list: seq<Obj>) {
    && |list| == |Children(o)| + 1
    && forall j :: 0 <= j < |Children(o)| ==> Children(o)[j] == list[j + 1] && Children(Children(o)[j]) == []
  }

  /** Distinct children that refer to nothing are listed in order, behind their container. */
  lemma {:induction false} LeavesListed(o: Obj, i: nat, f: Flat, list: seq<Obj>)
    requires NoRepeats(list) && |list| < 10 && LeavesBehind(o, list) && i <= |Children(o)| && Lists(f, list[..i + 1])
    ensures Lists(FlattenChildren(o, i, f), list)
    decreases |Children(o)| - i
  {
    hide Children, Lists, Append, Flattened, NoRepeats;
    if i == |Children(o)| {
      assert list[..i + 1] == list;
    } else {
      assert Children(o)[i] == list[i + 1];
      ListsMore(f, list, i + 1);
      FlattenedLeaf(list[i + 1], f);
      LeavesListed(o, i + 1, Append(list[i + 1], f), list);
    }
  }

  lemma PairsFlattened()
    ensures Lists(Flattened(Pairs(), EMPTY), PairsList())
  {
    PairsChildren();
    assert Lists(EMPTY, PairsList()[..0]);
    hide Append, Children, Pairs, PairsList, NoRepeats, Lists, LeavesBehind;
    ListsMore(EMPTY, PairsList(), 0);
    LeavesListed(Pairs(), 0, Append(Pairs(), EMPTY), PairsList());
  }

  lemma PairsChildren()
    ensures |PairsList()| == 5 && PairsList()[0] == Pairs() && NoRepeats(PairsList()) && LeavesBehind(Pairs(), PairsList())
    ensures Pairs().node.Dict?
  {
  }

  lemma PairsWritten(f: Flat)
    requires Lists(f, PairsList()) && FitsFile(f) && EncodeFile(f) == PAIRS_FILE
    ensures Written(Image(0, PAIRS_FILE), f)
  {
    hide FitsFile, EncodeFile;
  }

  lemma PairsEncoded(f: Flat)
    requires Lists(f, PairsList())
    ensures FitsFile(f) && EncodeFile(f) == PAIRS_FILE
  {
    WidthBound();
    PairsBodies(f);
    PairsTable(f);
    PairsTrailer();
    hide Bodies, IntWidth, Offsets, EncodeTrailer, EncodeRefs;
    assert |f.list| == 5;
  }

  lemma PairsNumbers(f: Flat)
    requires Lists(f, PairsList())
    ensures |f.list| == 5 && Numbers(f.table, Children(f.list[0])) == [1, 2, 3, 4]
  {
    PairsChildren();
    hide Children;
    assert forall j :: 0 <= j < 4 ==> Children(f.list[0])[j] == f.list[j + 1];
    hide PairsList;
  }

  lemma PairsObjects(table: map<Obj, nat>)
    requires Numbers(table, Children(PairsList()[0])) == [1, 2, 3, 4]
    ensures EncodeObject(PairsList()[0], Numbers(table, Children(PairsList()[0])), 1) == [0xD2, 1, 2, 3, 4]
    ensures EncodeObject(PairsList()[1], Numbers(table, Children(PairsList()[1])), 1) == [0x51, 0x61]
    ensures EncodeObject(PairsList()[2], Numbers(table, Children(PairsList()[2])), 1) == [0x51, 0x62]
    ensures EncodeObject(PairsList()[3], Numbers(table, Children(PairsList()[3])), 1) == [0x10, 1]
    ensures EncodeObject(PairsList()[4], Numbers(table, Children(PairsList()[4])), 1) == [0x10, 2]
  {
    hide EncodeRefs, Numbers, ToBigEndian, Children;
    OneByteRefs([1, 2, 3, 4]);
    OneByte(1);
    OneByte(2);
    PairsLeaves(table);
    hide BigEndianUnits, EncodeInt;
  }

  lemma PairsLeaves(table: map<Obj, nat>)
    ensures EncodeObject(PairsList()[1], Numbers(table, Children(PairsList()[1])), 1) == [0x51, 0x61]
    ensures EncodeObject(PairsList()[2], Numbers(table, Children(PairsList()[2])), 1) == [0x51, 0x62]
    ensures EncodeObject(PairsList()[3], Numbers(table, Children(PairsList()[3])), 1) == [0x10, 1]
    ensures EncodeObject(PairsList()[4], Numbers(table, Children(PairsList()[4])), 1) == [0x10, 2]
  {
    hide EncodeRefs, Numbers, ToBigEndian, Children;
    OneByte(1);
    OneByte(2);
  }

  lemma NextBody(list: seq<Obj>, table: map<Obj, nat>, i: nat, before: seq<byte>, s: seq<byte>)
    requires i < |list| && Bodies(list[..i], table, 1) == before && EncodeObject(list[i], Numbers(table, Children(list[i])), 1) == s
    ensures Bodies(list[..i + 1], table, 1) == before + s
  {
    hide *;
    BodiesStep(list, table, 1, i);
  }

  lemma NoBodies(list: seq<Obj>, table: map<Obj, nat>)
    ensures Bodies(list[..0], table, 1) == []
  {
    assert list[..0] == [];
  }

  /** Five encodings one after the other. */
  lemma FiveBodies(list: seq<Obj>, table: map<Obj, nat>, a: seq<byte>, b: seq<byte>, c: seq<byte>, d: seq<byte>, e: seq<byte>)
    requires |list| == 5
    requires EncodeObject(list[0], Numbers(table, Children(list[0])), 1) == a
    requires EncodeObject(list[1], Numbers(table, Children(list[1])), 1) == b
    requires EncodeObject(list[2], Numbers(table, Children(list[2])), 1) == c
    requires EncodeObject(list[3], Numbers(table, Children(list[3])), 1) == d
    requires EncodeObject(list[4], Numbers(table, Children(list[4])), 1) == e
    ensures Bodies(list[..0], table, 1) == [] && Bodies(list[..1], table, 1) == a && Bodies(list[..2], table, 1) == a + b
    ensures Bodies(list[..3], table, 1) == a + b + c && Bodies(list[..4], table, 1) == a + b + c + d
    ensures Bodies(list, table, 1) == a + b + c + d + e
  {
    hide Bodies, EncodeObject, Numbers, Children;
    NoBodies(list, table);
    NextBody(list, table, 0, [], a);
    assert [] + a == a;
    NextBody(list, table, 1, a, b);
    NextBody(list, table, 2, a + b, c);
    NextBody(list, table, 3, a + b + c, d);
    NextBody(list, table, 4, a + b + c + d, e);
    assert list[..5] == list;
  }

  lemma PairsBodies(f: Flat)
    requires Lists(f, PairsList())
    ensures |f.list| == 5 && |Bodies(f.list[..0], f.table, 1)| == 0 && |Bodies(f.list[..1], f.table, 1)| == 5
    ensures |Bodies(f.list[..2], f.table, 1)| == 7 && |Bodies(f.list[..3], f.table, 1)| == 9
    ensures |Bodies(f.list[..4], f.table, 1)| == 11
    ensures Bodies(f.list, f.table, 1) == [0xD2, 1, 2, 3, 4] + [0x51, 0x61] + [0x51, 0x62] + [0x10, 1] + [0x10, 2]
  {
    PairsNumbers(f);
    SameList(f);
    hide Bodies, EncodeObject, Numbers, Children, PairsList, Lists;
    PairsObjects(f.table);
    FiveBodies(f.list, f.table, [0xD2, 1, 2, 3, 4], [0x51, 0x61], [0x51, 0x62], [0x10, 1], [0x10, 2]);
  }

  lemma SameList(f: Flat)
    requires Lists(f, PairsList())
    ensures f.list == PairsList()
  {
    hide PairsList;
  }

  lemma FiveOffsets(list: seq<Obj>, table: map<Obj, nat>)
    requires |list| == 5 && |Bodies(list[..0], table, 1)| == 0 && |Bodies(list[..1], table, 1)| == 5
    requires |Bodies(list[..2], table, 1)| == 7 && |Bodies(list[..3], table, 1)| == 9 && |Bodies(list[..4], table, 1)| == 11
    ensures EncodeRefs(Offsets(list, table, 1), 1) == [8, 13, 15, 17, 19]
  {
    hide Bodies, EncodeRefs;
    var offs := Offsets(list, table, 1);
    assert offs == [8, 13, 15, 17, 19];
    hide Offsets;
    OneByteRefs(offs);
  }

  lemma PairsTable(f: Flat)
    requires Lists(f, PairsList())
    ensures EncodeRefs(Offsets(f.list, f.table, 1), 1) == [8, 13, 15, 17, 19]
  {
    PairsBodies(f);
    hide *;
    FiveOffsets(f.list, f.table);
  }

  lemma {:induction false} OneByteRefs(refs: seq<nat>)
    requires forall i :: 0 <= i < |refs| ==> refs[i] < 256
    ensures EncodeRefs(refs, 1) == refs
  {
    if refs != [] {
      OneByteRefs(refs[..|refs| - 1]);
      OneByte(refs[|refs| - 1]);
    }
  }

  lemma OneByte(n: nat)
    requires n < 256
    ensures ToBigEndian(n, 1) == [n]
  {
  }

  lemma PairsTrailer()
    ensures EncodeTrailer(1, 1, 5, 21) ==
      [0, 0, 0, 0, 0, 0, 1, 1] + [0, 0, 0, 0, 0, 0, 0, 5] + [0, 0, 0, 0, 0, 0, 0, 0] + [0, 0, 0, 0, 0, 0, 0, 21]
  {
    SmallWord(5);
    SmallWord(0);
    SmallWord(21);
  }

  lemma SmallWord(n: nat)
    requires n < 256
    ensures ToBigEndian(n, 8) == [0, 0, 0, 0, 0, 0, 0, n]
  {
    ZeroBytes(7);
    LastByte(n, 7);
    hide ToBigEndian;
  }

  lemma LastByte(n: nat, w: nat)
    requires n < 256
    ensures ToBigEndian(n, w + 1) == ToBigEndian(0, w) + [n]
  {
    assert n / 256 == 0 && n % 256 == n;
    assert ToBigEndian(n, w + 1) == ToBigEndian(n / 256, w) + [n % 256];
    hide ToBigEndian;
  }

  lemma {:induction false} ZeroBytes(w: nat)
    ensures ToBigEndian(0, w) == seq(w, i => 0)
  {
    if w > 0 {
      ZeroBytes(w - 1);
    }
  }
}
