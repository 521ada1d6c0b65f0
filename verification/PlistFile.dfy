/**
 Whole files by their bytes: which files are property lists, and which value each of
 them denotes. The reader's trailer check and its decode decide exactly this.
 */
module PlistFile {
  import opened Machine
  import opened Bytes
  import opened Plist
  import opened PlistReader
  import opened PlistDecode
  import opened PlistFormat

  /** The last 32 bytes: six that are not read, two widths and three 64-bit numbers. */
  predicate TrailerAt(b: seq<byte>, t: Trailer) {
    && |b| >= 41
    && var p := |b| - 32;
    && t.offsetIntSize == b[p + 6] && t.objectRefSize == b[p + 7]
    && t.numObjects == BigEndian(b[p + 8..p + 16])
    && t.topObject == BigEndian(b[p + 16..p + 24])
    && t.offsetTableOffset == BigEndian(b[p + 24..p + 32])
  }

  /** Entry k of the offset table. */
  function EntryAt(b: seq<byte>, t: Trailer, k: nat): (off: nat)
    requires t.offsetTableOffset + k * t.offsetIntSize + t.offsetIntSize <= |b|
  {
    NumberAt(b, t.offsetTableOffset + k * t.offsetIntSize, t.offsetIntSize)
  }

  /** Objects, offset table and trailer are the whole file. */
  predicate Fills(b: seq<byte>, t: Trailer) {
    1 <= t.numObjects && 9 <= t.offsetTableOffset && |b| == t.offsetTableOffset + t.numObjects * t.offsetIntSize + 32
  }

  /** The references can number every object, and the offsets can reach up to the table. */
  predicate WideEnough(t: Trailer) {
    && 1 <= t.offsetIntSize && 1 <= t.objectRefSize
    && (t.objectRefSize < 8 ==> t.numObjects < Pow256(t.objectRefSize))
    && (t.offsetIntSize < 8 ==> t.offsetTableOffset < Pow256(t.offsetIntSize))
  }

  /** Every object starts before the table. */
  predicate EntriesBefore(b: seq<byte>, t: Trailer)
    requires Fills(b, t)
  {
    forall k :: 0 <= k < t.numObjects ==> EntryBefore(b, t, k)
  }

  predicate EntryBefore(b: seq<byte>, t: Trailer, k: nat)
    requires Fills(b, t) && k < t.numObjects
  {
    EntryInTable(k, t.numObjects, t.offsetIntSize);
    EntryAt(b, t, k) < t.offsetTableOffset
  }

  /** A file whose seven first bytes are those of "bplist0" and whose trailer describes it, with its top object at `top`. */
  predicate FileAt(b: seq<byte>, t: Trailer, top: nat) {
    && TrailerAt(b, t) && Fills(b, t) && WideEnough(t) && EntriesBefore(b, t)
    && Magic(b)
    && t.topObject < t.numObjects
    && (EntryInTable(t.topObject, t.numObjects, t.offsetIntSize); 8 <= top == EntryAt(b, t, t.topObject))
  }

  predicate Magic(b: seq<byte>)
    requires |b| >= 41
  {
    && b[0] == 'b' as int && b[1] == 'p' as int && b[2] == 'l' as int && b[3] == 'i' as int
    && b[4] == 's' as int && b[5] == 't' as int && b[6] == '0' as int
  }

  /** The bytes at `off` stand for `v`. */
  ghost predicate Denotes(b: seq<byte>, t: Trailer, off: nat, v: Value)
    decreases v
  {
    match v
    case VArray(elems) =>
      exists offsets: seq<nat> :: ObjectAt(b, t, off, Refs(KArray, offsets)) && |offsets| == |elems| &&
        forall i :: 0 <= i < |elems| ==> Denotes(b, t, offsets[i], elems[i])
    case VSet(members) =>
      exists offsets: seq<nat> :: ObjectAt(b, t, off, Refs(KSet, offsets)) && |offsets| == |members| &&
        forall i :: 0 <= i < |members| ==> Denotes(b, t, offsets[i], members[i])
    case VDict(keys, vals) =>
      |keys| == |vals| &&
      exists offsets: seq<nat> :: ObjectAt(b, t, off, Refs(KDict, offsets)) && |offsets| == 2 * |keys| &&
        forall i :: 0 <= i < |keys| ==>
          Primitive(keys[i]) && Denotes(b, t, offsets[i], keys[i]) && Denotes(b, t, offsets[|keys| + i], vals[i])
    case _ => ObjectAt(b, t, off, Leaf(v))
  }

  /** The file stands for `v`. */
  ghost predicate FileDenotes(b: seq<byte>, v: Value) {
    exists t, top: nat :: FileAt(b, t, top) && Denotes(b, t, top, v)
  }

  lemma InFile(img: Image, t: Trailer, off: nat, shape: Shape)
    requires Trusted(img, t)
    ensures off in ObjectsOf(img, t) && ObjectsOf(img, t)[off] == shape <==> ObjectAt(img.bytes, t, off, shape)
  {
    ObjectMeaning(img, t, off, shape);
    hide Trusted, ParseAt, ObjectAt;
  }

  // ----- the decode against the bytes -----

  /** What unfolds from the references of a container, member by member, with primitive keys. */
  ghost predicate Unfolds(kind: Kind, offsets: seq<nat>, v: Value) {
    && v == Assemble(kind, Members(v)) && |Members(v)| == |offsets|
    && forall i :: 0 <= i < KeyCount(kind, offsets) ==> Primitive(Members(v)[i])
  }

  ghost predicate AllDenote(b: seq<byte>, t: Trailer, offsets: seq<nat>, vs: seq<Value>)
    requires |offsets| == |vs|
  {
    forall i :: 0 <= i < |vs| ==> Denotes(b, t, offsets[i], vs[i])
  }

  ghost predicate AllRepresent(file: File, offsets: seq<nat>, vs: seq<Value>)
    requires |offsets| == |vs|
  {
    forall i :: 0 <= i < |vs| ==> Represents(file, offsets[i], vs[i])
  }

  lemma RepresentsParts(file: File, off: nat, v: Value, kind: Kind, offsets: seq<nat>)
    requires off in file && file[off] == Refs(kind, offsets)
    ensures Represents(file, off, v) <==> Unfolds(kind, offsets, v) && AllRepresent(file, offsets, Members(v))
  {
    hide Members, Primitive;
  }

  lemma DenotesParts(b: seq<byte>, t: Trailer, off: nat, v: Value) returns (kind: Kind, offsets: seq<nat>)
    requires Denotes(b, t, off, v) && !Primitive(v)
    ensures ObjectAt(b, t, off, Refs(kind, offsets)) && Unfolds(kind, offsets, v) && AllDenote(b, t, offsets, Members(v))
  {
    hide ObjectAt;
    match v {
      case VArray(elems) =>
        kind := KArray;
        offsets :| ObjectAt(b, t, off, Refs(KArray, offsets)) && |offsets| == |elems| &&
          forall i :: 0 <= i < |elems| ==> Denotes(b, t, offsets[i], elems[i]);
      case VSet(members) =>
        kind := KSet;
        offsets :| ObjectAt(b, t, off, Refs(KSet, offsets)) && |offsets| == |members| &&
          forall i :: 0 <= i < |members| ==> Denotes(b, t, offsets[i], members[i]);
      case VDict(keys, vals) =>
        kind := KDict;
        offsets := DictParts(b, t, off, keys, vals);
    }
  }

  lemma DictParts(b: seq<byte>, t: Trailer, off: nat, keys: seq<Value>, vals: seq<Value>) returns (offsets: seq<nat>)
    requires Denotes(b, t, off, VDict(keys, vals))
    ensures var v := VDict(keys, vals);
      ObjectAt(b, t, off, Refs(KDict, offsets)) && Unfolds(KDict, offsets, v) && AllDenote(b, t, offsets, Members(v))
  {
    hide ObjectAt, AllDenote, Unfolds, Primitive;
    offsets :| ObjectAt(b, t, off, Refs(KDict, offsets)) && |offsets| == 2 * |keys| &&
      forall i :: 0 <= i < |keys| ==>
        Primitive(keys[i]) && Denotes(b, t, offsets[i], keys[i]) && Denotes(b, t, offsets[|keys| + i], vals[i]);
    hide Denotes;
    assert |keys| == |vals|;
    KeysUnfold(offsets, keys, vals);
    PairsDenote(b, t, offsets, keys, vals);
  }

  lemma KeysUnfold(offsets: seq<nat>, keys: seq<Value>, vals: seq<Value>)
    requires |keys| == |vals| && |offsets| == 2 * |keys| && forall i :: 0 <= i < |keys| ==> Primitive(keys[i])
    ensures Unfolds(KDict, offsets, VDict(keys, vals))
  {
    hide Primitive;
    var all := keys + vals;
    assert all[..|keys|] == keys && all[|keys|..] == vals;
  }

  lemma PairsDenote(b: seq<byte>, t: Trailer, offsets: seq<nat>, keys: seq<Value>, vals: seq<Value>)
    requires |keys| == |vals| && |offsets| == 2 * |keys|
    requires forall i :: 0 <= i < |keys| ==> Denotes(b, t, offsets[i], keys[i]) && Denotes(b, t, offsets[|keys| + i], vals[i])
    ensures AllDenote(b, t, offsets, keys + vals)
  {
    hide Denotes;
    forall j | 0 <= j < 2 * |keys| ensures Denotes(b, t, offsets[j], (keys + vals)[j]) {
      if j >= |keys| {
        assert Denotes(b, t, offsets[|keys| + (j - |keys|)], vals[j - |keys|]);
      }
    }
  }

  lemma DenotesFromParts(b: seq<byte>, t: Trailer, off: nat, v: Value, kind: Kind, offsets: seq<nat>)
    requires ObjectAt(b, t, off, Refs(kind, offsets)) && Unfolds(kind, offsets, v) && AllDenote(b, t, offsets, Members(v))
    requires kind.KDict? ==> |offsets| % 2 == 0
    ensures Denotes(b, t, off, v)
  {
    hide ObjectAt;
    match v {
      case VArray(elems) =>
        hide Denotes;
        ListFromParts(b, t, off, KArray, elems, offsets);
      case VSet(members) =>
        hide Denotes;
        ListFromParts(b, t, off, KSet, members, offsets);
      case VDict(keys, vals) =>
        hide Denotes;
        DictFromParts(b, t, off, keys, vals, offsets);
    }
  }

  lemma ListFromParts(b: seq<byte>, t: Trailer, off: nat, kind: Kind, vs: seq<Value>, offsets: seq<nat>)
    requires ObjectAt(b, t, off, Refs(kind, offsets)) && |offsets| == |vs| && AllDenote(b, t, offsets, vs) && !kind.KDict?
    ensures Denotes(b, t, off, if kind.KArray? then VArray(vs) else VSet(vs))
  {
    hide ObjectAt;
  }

  lemma DictFromParts(b: seq<byte>, t: Trailer, off: nat, keys: seq<Value>, vals: seq<Value>, offsets: seq<nat>)
    requires ObjectAt(b, t, off, Refs(KDict, offsets)) && |offsets| % 2 == 0
    requires Unfolds(KDict, offsets, VDict(keys, vals)) && AllDenote(b, t, offsets, keys + vals)
    ensures Denotes(b, t, off, VDict(keys, vals))
  {
    hide Denotes, ObjectAt;
    assert |offsets| == |keys + vals| && |keys| == |vals|;
    forall i | 0 <= i < |keys|
      ensures Primitive(keys[i]) && Denotes(b, t, offsets[i], keys[i]) && Denotes(b, t, offsets[|keys| + i], vals[i])
    {
      EntryFromParts(b, t, keys, vals, offsets, i);
    }
    hide AllDenote, Unfolds, Primitive;
    DictDenotes(b, t, off, keys, vals, offsets);
  }

  lemma EntryFromParts(b: seq<byte>, t: Trailer, keys: seq<Value>, vals: seq<Value>, offsets: seq<nat>, i: nat)
    requires |offsets| == 2 * |keys| && |keys| == |vals| && i < |keys|
    requires Unfolds(KDict, offsets, VDict(keys, vals)) && AllDenote(b, t, offsets, keys + vals)
    ensures Primitive(keys[i]) && Denotes(b, t, offsets[i], keys[i]) && Denotes(b, t, offsets[|keys| + i], vals[i])
  {
    hide Denotes;
    assert (keys + vals)[i] == keys[i] && (keys + vals)[|keys| + i] == vals[i];
  }

  lemma DictDenotes(b: seq<byte>, t: Trailer, off: nat, keys: seq<Value>, vals: seq<Value>, offsets: seq<nat>)
    requires ObjectAt(b, t, off, Refs(KDict, offsets)) && |offsets| == 2 * |keys| && |keys| == |vals|
    requires forall i :: 0 <= i < |keys| ==>
      Primitive(keys[i]) && Denotes(b, t, offsets[i], keys[i]) && Denotes(b, t, offsets[|keys| + i], vals[i])
    ensures Denotes(b, t, off, VDict(keys, vals))
  {
    hide ObjectAt;
  }

  lemma PairedOffsets(img: Image, t: Trailer, off: nat, shape: Shape)
    requires Trusted(img, t) && ObjectAt(img.bytes, t, off, shape)
    ensures shape.Refs? && shape.kind.KDict? ==> |shape.offsets| % 2 == 0
  {
    hide *;
    InFile(img, t, off, shape);
  }

  /** A value unfolds from an offset exactly where the bytes stand for it. */
  lemma {:induction false} DenotesMeaning(img: Image, t: Trailer, off: nat, v: Value)
    requires Trusted(img, t)
    ensures Represents(ObjectsOf(img, t), off, v) <==> Denotes(img.bytes, t, off, v)
    decreases v
  {
    if Primitive(v) {
      LeafDenotes(img, t, off, v);
    } else {
      hide Trusted, ObjectsOf, ObjectAt, Represents, Denotes, AllRepresent, AllDenote, Unfolds, Primitive;
      var file := ObjectsOf(img, t);
      if Denotes(img.bytes, t, off, v) {
        var kind, offsets := DenotesParts(img.bytes, t, off, v);
        InFile(img, t, off, Refs(kind, offsets));
        SizeOf(kind, offsets, v);
        MembersMeaning(img, t, offsets, v);
        RepresentsParts(file, off, v, kind, offsets);
      }
      if Represents(file, off, v) {
        var kind, offsets := ContainerParts(file, off, v);
        InFile(img, t, off, Refs(kind, offsets));
        SizeOf(kind, offsets, v);
        MembersMeaning(img, t, offsets, v);
        PairedOffsets(img, t, off, Refs(kind, offsets));
        DenotesFromParts(img.bytes, t, off, v, kind, offsets);
      }
    }
  }

  lemma SizeOf(kind: Kind, offsets: seq<nat>, v: Value)
    requires Unfolds(kind, offsets, v)
    ensures |Members(v)| == |offsets|
  {
  }

  lemma ContainerParts(file: File, off: nat, v: Value) returns (kind: Kind, offsets: seq<nat>)
    requires Represents(file, off, v) && !Primitive(v)
    ensures off in file && file[off] == Refs(kind, offsets) && Unfolds(kind, offsets, v) && AllRepresent(file, offsets, Members(v))
  {
    kind, offsets := file[off].kind, file[off].offsets;
    RepresentsParts(file, off, v, kind, offsets);
  }

  lemma {:induction false} MembersMeaning(img: Image, t: Trailer, offsets: seq<nat>, v: Value)
    requires Trusted(img, t) && |offsets| == |Members(v)|
    ensures AllRepresent(ObjectsOf(img, t), offsets, Members(v)) <==> AllDenote(img.bytes, t, offsets, Members(v))
    decreases v, 0
  {
    hide Trusted, ObjectsOf, Represents, Denotes;
    forall i | 0 <= i < |offsets|
      ensures Represents(ObjectsOf(img, t), offsets[i], Members(v)[i]) <==> Denotes(img.bytes, t, offsets[i], Members(v)[i])
    {
      DenotesMeaning(img, t, offsets[i], Members(v)[i]);
    }
    hide Members;
  }

  lemma LeafDenotes(img: Image, t: Trailer, off: nat, v: Value)
    requires Trusted(img, t) && Primitive(v)
    ensures Represents(ObjectsOf(img, t), off, v) <==> Denotes(img.bytes, t, off, v)
  {
    InFile(img, t, off, Leaf(v));
    hide Trusted, ObjectsOf, ObjectAt;
  }

  // ----- the trailer check against the bytes -----

  lemma WordMeaning(img: Image, pos: nat)
    requires pos + 8 <= |img.bytes|
    ensures Field(img, pos, 8) == BigEndian(img.bytes[pos..pos + 8])
  {
    SizedSmall(img.bytes[pos..pos + 8]);
  }

  lemma TrailerMeaning(img: Image, t: Trailer)
    requires |img.bytes| >= 41
    ensures ReadTrailer(img) == t <==> TrailerAt(img.bytes, t)
  {
    var p := |img.bytes| - 32;
    WordMeaning(img, p + 8);
    WordMeaning(img, p + 16);
    WordMeaning(img, p + 24);
    hide Field, BigEndian, Pow256;
  }

  lemma FitsMeaning(img: Image, t: Trailer)
    requires Mapped(img) && |img.bytes| >= 41
    ensures TrailerFits(img, t) <==> Fills(img.bytes, t) && WideEnough(t) && t.topObject < t.numObjects
  {
    TrailerFitsParts(img, t);
    if 1 <= t.numObjects && 1 <= t.offsetIntSize {
      SomeProduct(t.numObjects, t.offsetIntSize);
    }
    hide TrailerFits, Pow256;
  }

  lemma SomeProduct(n: nat, w: nat)
    requires n >= 1 && w >= 1
    ensures n * w >= n && n * w >= 1
  {
  }

  lemma EntryMeaning(img: Image, t: Trailer, k: nat)
    requires |img.bytes| >= 41 && TrailerFits(img, t) && Fills(img.bytes, t) && k < t.numObjects
    ensures t.offsetTableOffset + k * t.offsetIntSize + t.offsetIntSize <= |img.bytes|
    ensures TableEntry(img, t, k) == EntryAt(img.bytes, t, k)
  {
    TableEntryAt(img, t, k);
    hide TrailerFits, TableEntry, BigEndian;
  }

  lemma EntriesMeaning(img: Image, t: Trailer)
    requires |img.bytes| >= 41 && TrailerFits(img, t) && Fills(img.bytes, t)
    ensures TableOk(img, t) <==> EntriesBefore(img.bytes, t)
  {
    forall k | 0 <= k < t.numObjects ensures TableEntry(img, t, k) <= t.offsetTableOffset - 1 <==> EntryBefore(img.bytes, t, k) {
      EntryMeaning(img, t, k);
      hide TrailerFits, TableEntry, EntryAt;
    }
    hide TrailerFits, TableEntry, EntryBefore, Fills;
  }

  lemma MagicMeaning(b: seq<byte>)
    requires |b| >= 41
    ensures b[..7] == MAGIC <==> Magic(b)
  {
    if Magic(b) {
      assert b[..7] == MAGIC;
    } else {
      assert forall i :: 0 <= i < 7 ==> b[..7][i] == b[i];
    }
  }

  lemma TopBefore(img: Image, t: Trailer)
    requires |img.bytes| >= 41 && TrailerFits(img, t)
    ensures t.topObject < t.numObjects
    ensures TableOk(img, t) ==> TableEntry(img, t, t.topObject) < t.offsetTableOffset
  {
    hide TableEntry;
  }

  /** The trailer check decides which bytes are a file, and finds its top object. */
  lemma TopLevelMeaning(img: Image, t: Trailer, top: nat)
    requires Mapped(img)
    ensures TopLevelInfo(img) == Some((t, top)) <==> FileAt(img.bytes, t, top)
  {
    hide TrailerFits, TableEntry, TableOk, ReadTrailer, BigEndian, Fills, WideEnough, EntriesBefore, EntryAt, Mapped;
    if |img.bytes| >= 41 {
      TrailerMeaning(img, t);
      MagicMeaning(img.bytes);
      FitsMeaning(img, t);
      if TrailerFits(img, t) {
        EntriesMeaning(img, t);
        EntryMeaning(img, t, t.topObject);
        TopBefore(img, t);
      }
    }
  }
}
