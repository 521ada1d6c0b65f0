/** The writer as it runs: a write buffer in front of a byte sink, and the loops that feed it. */
module PlistWrite {
  import opened Machine
  import opened Bytes
  import opened Plist
  import opened PlistFlatten
  import opened PlistWriter

  const BUFFER_SIZE: nat := 8160

  class WriteBuffer {
    /** Everything delivered to the data object or stream. */
    var stream: seq<byte>
    const streamIsData: bool
    var written: nat
    var used: nat
    const buffer: array<byte>

    /** All bytes handed to the buffer so far. */
    ghost var emitted: seq<byte>

    /** The true position in the file is `written + used`. */
    ghost predicate Valid()
      reads this, buffer
    {
      && buffer.Length == BUFFER_SIZE && used < BUFFER_SIZE && written == |stream|
      && emitted == stream + buffer[..used]
    }

    function Position(): (pos: nat)
      requires Valid()
      reads this, buffer
      ensures pos == |emitted|
    {
      written + used
    }

    constructor (streamIsData: bool)
      ensures Valid() && fresh(buffer) && emitted == []
    {
      this.streamIsData := streamIsData;
      stream, emitted, written, used := [], [], 0, 0;
      buffer := new byte[BUFFER_SIZE](_ => 0);
    }

    /** writeBytes without errors: a data object takes everything at once, a stream may take any part of it. */
    method WriteBytes(bytes: seq<byte>)
      requires written == |stream|
      modifies this`stream, this`written
      ensures stream == old(stream) + bytes && written == |stream|
    {
      if |bytes| == 0 {
        return;
      }
      if streamIsData {
        stream := stream + bytes;
        written := written + |bytes|;
      } else {
        var rest := bytes;
        while 0 < |rest|
          invariant written == |stream| && stream + rest == old(stream) + bytes
          decreases |rest|
        {
          var ret: nat :| 1 <= ret <= |rest|;
          stream := stream + rest[..ret];
          written := written + ret;
          rest := rest[ret..];
        }
      }
    }

    /** bufferFlush */
    method Flush()
      requires Valid()
      modifies this`stream, this`written, this`used
      ensures Valid() && used == 0 && emitted == stream
    {
      WriteBytes(buffer[..used]);
      used := 0;
    }

    /** memmove into the buffer */
    method Copy(at: nat, bytes: seq<byte>)
      requires at + |bytes| <= buffer.Length
      modifies buffer
      ensures buffer[..at] == old(buffer[..at]) && buffer[at..at + |bytes|] == bytes
    {
      forall i | 0 <= i < |bytes| {
        buffer[at + i] := bytes[i];
      }
    }

    /** bufferWrite: whatever the sizes, exactly the given bytes are added to what has been emitted. */
    method Write(bytes: seq<byte>)
      requires Valid()
      modifies this, buffer
      ensures Valid() && emitted == old(emitted) + bytes
    {
      if |bytes| == 0 {
        return;
      }
      if BUFFER_SIZE <= |bytes| {
        WriteThrough(bytes);
      } else {
        WriteBuffered(bytes);
      }
    }

    /** Bytes that would not fit in the buffer go out behind it. */
    method WriteThrough(bytes: seq<byte>)
      requires Valid()
      modifies this`stream, this`written, this`used, this`emitted
      ensures Valid() && emitted == old(emitted) + bytes
    {
      emitted := emitted + bytes;
      WriteBytes(buffer[..used]);
      used := 0;
      WriteBytes(bytes);
    }

    /** Fewer bytes fill the buffer, and turn it over when it is full. */
    method WriteBuffered(bytes: seq<byte>)
      requires Valid() && |bytes| < BUFFER_SIZE
      modifies this`stream, this`written, this`used, this`emitted, buffer
      ensures Valid() && emitted == old(emitted) + bytes
    {
      var copyLen := if |bytes| < BUFFER_SIZE - used then |bytes| else BUFFER_SIZE - used;
      ghost var head, rest := bytes[..copyLen], bytes[copyLen..];
      assert bytes == head + rest;
      Fill(bytes[..copyLen]);
      assert emitted + rest == old(emitted) + bytes;
      if used == BUFFER_SIZE {
        TurnOver(bytes[copyLen..]);
      }
    }

    /** Puts bytes behind those in the buffer, up to its end. */
    method Fill(bytes: seq<byte>)
      requires Valid() && used + |bytes| <= BUFFER_SIZE
      modifies this`used, this`emitted, buffer
      ensures buffer.Length == BUFFER_SIZE && used == old(used) + |bytes|
      ensures emitted == old(emitted) + bytes == stream + buffer[..used]
    {
      ghost var head := buffer[..used];
      Copy(used, bytes);
      assert buffer[..used + |bytes|] == head + bytes;
      used := used + |bytes|;
      emitted := emitted + bytes;
    }

    /** A full buffer goes out, and the rest of the bytes starts the next one. */
    method TurnOver(rest: seq<byte>)
      requires buffer.Length == BUFFER_SIZE == used && written == |stream| && |rest| < BUFFER_SIZE
      requires emitted == stream + buffer[..used]
      modifies this`stream, this`written, this`used, this`emitted, buffer
      ensures Valid() && emitted == old(emitted) + rest
    {
      emitted := emitted + rest;
      WriteBytes(buffer[..]);
      Copy(0, rest);
      used := |rest|;
    }

    /** The last `width` bytes of n in memory after a swap to big-endian order. */
    method WriteWord(n: nat, width: nat)
      requires Valid() && n < TWO64 && width <= 8
      modifies this, buffer
      ensures Valid() && emitted == old(emitted) + ToBigEndian(n, width)
    {
      var source := Store(Swap64(n), 8);
      StoreOfSwap64(n);
      BigEndianSuffix(n, 8, width);
      Write(source[8 - width..]);
    }

    /** _appendInt */
    method AppendInt(n: nat)
      requires Valid() && n < TWO64
      modifies this, buffer
      ensures Valid() && emitted == old(emitted) + EncodeInt(n)
    {
      var nbytes := if n <= 0xff then 1 else if n <= 0xffff then 2 else if n <= 0xffff_ffff then 4 else 8;
      assert nbytes == IntWidth(n);
      hide IntWidth, ToBigEndian, WidthCode, Valid;
      Write([0x10 + WidthCode(nbytes)]);
      WriteWord(n, nbytes);
    }

    /** A marker with its count nibble, and the count when the nibble is 15. */
    method AppendHead(kind: nat, n: nat)
      requires Valid() && kind < 16 && n < TWO64
      modifies this, buffer
      ensures Valid() && emitted == old(emitted) + EncodeHead(kind, n)
    {
      hide Valid, EncodeInt;
      Write([16 * kind + (if n < 15 then n else 15)]);
      if 15 <= n {
        AppendInt(n);
      }
    }

    /** _appendString */
    method AppendString(units: Counted<unichar>)
      requires Valid()
      modifies this, buffer
      ensures Valid()
      ensures emitted == old(emitted) + (if Ascii(units) then EncodeHead(5, |units|) + units
                                             else EncodeHead(6, |units|) + BigEndianUnits(units))
    {
      if Ascii(units) {
        AppendHead(5, |units|);
        Write(units);
      } else {
        AppendHead(6, |units|);
        var chars := SwapUnits(units);
        Write(chars);
      }
    }

    /** A reference: the last refSize bytes of a swapped 32-bit number. */
    method WriteRef(refnum: nat, refSize: nat)
      requires Valid() && refnum < TWO32 && refSize <= 4
      modifies this, buffer
      ensures Valid() && emitted == old(emitted) + ToBigEndian(refnum, refSize)
    {
      var source := Store(Swap32(refnum), 4);
      StoreOfSwap32(refnum);
      BigEndianSuffix(refnum, 4, refSize);
      Write(source[4 - refSize..]);
    }

    /** The references of a container. */
    method AppendRefs(list: seq<Obj>, objtable: map<Obj, nat>, refSize: nat)
      requires Valid() && refSize <= 4
      requires forall o :: o in objtable ==> objtable[o] < TWO32
      modifies this, buffer
      ensures Valid() && emitted == old(emitted) + EncodeRefs(Numbers(objtable, list), refSize)
    {
      hide Valid, ToBigEndian, EncodeRefs;
      ghost var before := emitted;
      NoRefs(objtable, refSize);
      var idx2 := 0;
      while idx2 < |list|
        invariant idx2 <= |list| && Valid()
        invariant emitted == before + EncodeRefs(Numbers(objtable, list[..idx2]), refSize)
      {
        MoreRefs(list, objtable, refSize, idx2);
        WriteRef(Number(objtable, list[idx2]), refSize);
        idx2 := idx2 + 1;
      }
      assert list[..|list|] == list;
    }

    /** _appendNumber and dates: a marker and a fixed-width big-endian field, except for integers. */
    method AppendNumber(node: Node)
      requires Valid() && (node.Int? || node.Int128? || node.Real32? || node.Real64? || node.Date?)
      modifies this, buffer
      ensures Valid() && emitted == old(emitted) + EncodeObject(Obj(0, node), [], 0)
    {
      hide Valid, ToBigEndian, EncodeInt;
      match node {
        case Int(i) => AppendInt(Unsigned64(i));
        case Int128(high, low) =>
          Write([0x14]);
          WriteWord(Unsigned64(high), 8);
          WriteWord(low, 8);
        case Real32(bits) =>
          Write([0x22]);
          WriteWord(bits, 4);
        case Real64(bits) =>
          Write([0x23]);
          WriteWord(bits, 8);
        case Date(time) =>
          Write([0x33]);
          WriteWord(time, 8);
      }
    }

    /** _appendUID */
    method AppendUid(uid: uint32)
      requires Valid()
      modifies this, buffer
      ensures Valid() && emitted == old(emitted) + EncodeObject(Obj(0, Uid(uid)), [], 0)
    {
      hide Valid, ToBigEndian;
      var nbytes := if uid <= 0xff then 1 else if uid <= 0xffff then 2 else 4;
      Write([0x80 + nbytes - 1]);
      WriteWord(uid, nbytes);
    }

    /** _appendObject; false for a foreign object. */
    method AppendObject(o: Obj, objtable: map<Obj, nat>, refSize: nat) returns (success: bool)
      requires Valid() && refSize <= 4
      requires forall x :: x in objtable ==> objtable[x] < TWO32
      modifies this, buffer
      ensures Valid() && success == !o.node.Foreign?
      ensures emitted == old(emitted) + EncodeObject(o, Numbers(objtable, Children(o)), refSize)
    {
      hide Valid, ToBigEndian, EncodeInt, EncodeHead, EncodeRefs, Numbers;
      success := true;
      match o.node {
        case Bool(b) => Write([if b then 0x09 else 0x08]);
        case Data(bytes) =>
          AppendHead(4, |bytes|);
          Write(bytes);
        case Str(units) => AppendString(units);
        case Uid(uid) => AppendUid(uid);
        case Arr(elems) =>
          AppendHead(10, |elems|);
          AppendRefs(Children(o), objtable, refSize);
        case Dict(entries) =>
          AppendHead(13, |entries|);
          AppendRefs(Children(o), objtable, refSize);
        case Foreign => success := false;
        case _ => AppendNumber(o.node);
      }
    }
  }

  lemma NoRefs(table: map<Obj, nat>, size: nat)
    ensures EncodeRefs(Numbers(table, []), size) == []
  {
  }

  lemma MoreRefs(list: seq<Obj>, table: map<Obj, nat>, size: nat, i: nat)
    requires i < |list|
    ensures EncodeRefs(Numbers(table, list[..i + 1]), size)
         == EncodeRefs(Numbers(table, list[..i]), size) + ToBigEndian(Number(table, list[i]), size)
  {
    assert Numbers(table, list[..i + 1])[..i] == Numbers(table, list[..i]);
  }

  /** Swaps every 16-bit unit to big-endian order in memory. */
  method SwapUnits(units: seq<unichar>) returns (chars: seq<byte>)
    ensures chars == BigEndianUnits(units)
  {
    chars := [];
    var idx2 := 0;
    while idx2 < |units|
      invariant idx2 <= |units| && chars == BigEndianUnits(units[..idx2])
    {
      StoreOfSwap16(units[idx2]);
      assert units[..idx2 + 1][..idx2] == units[..idx2];
      chars := chars + Store(Swap16(units[idx2]), 2);
      idx2 := idx2 + 1;
    }
    assert units[..|units|] == units;
  }

  /** _byteCount: shifts a mask until the count lies below it, then rounds the size up. */
  method ByteCount(count: nat) returns (size: nat)
    requires count < TWO64
    ensures size == IntWidth(count) && 1 <= size <= 8
  {
    Pow256Values();
    size := 0;
    while size < 8 && count / Pow256(size) != 0
      invariant 0 <= size <= 8
      invariant size > 0 ==> count >= Pow256(size - 1)
    {
      BelowPower(count, Pow256(size));
      size := size + 1;
    }
    if size < 8 {
      BelowPower(count, Pow256(size));
    }
    ghost var needed := size;
    while size != 1 && size != 2 && size != 4 && size != 8 && size <= 8
      invariant needed <= size <= 8
      invariant needed <= 1 ==> size <= 1
      invariant needed <= 2 ==> size <= 2
      invariant needed <= 4 ==> size <= 4
      decreases 9 - size
    {
      size := size + 1;
    }
    WidthFromBytes(count, needed, size);
  }

  lemma BelowPower(n: nat, p: nat)
    requires p >= 1
    ensures n / p == 0 <==> n < p
  {
  }

  lemma WidthFromBytes(count: nat, needed: nat, size: nat)
    requires count < TWO64 && needed <= size <= 8 && size in {1, 2, 4, 8}
    requires needed < 8 ==> count < Pow256(needed)
    requires needed > 0 ==> count >= Pow256(needed - 1)
    requires needed <= 1 ==> size <= 1
    requires needed <= 2 ==> size <= 2
    requires needed <= 4 ==> size <= 4
    ensures size == IntWidth(count)
  {
    Pow256Values();
    Pow256Monotone(needed, size);
    if needed > 1 {
      Pow256Monotone(1, needed - 1);
    }
    if needed > 2 {
      Pow256Monotone(2, needed - 1);
    }
    if needed > 4 {
      Pow256Monotone(4, needed - 1);
    }
  }

  /** The object loop of __CFBinaryPlistWrite: records where each object starts, stops at a foreign object. */
  method WriteObjects(buf: WriteBuffer, f: Flat, refSize: nat, offsets: array<nat>) returns (success: bool)
    requires buf.Valid() && buf.emitted == HEADER && refSize <= 4
    requires offsets.Length == |f.list| && offsets as object != buf.buffer
    requires forall x :: x in f.table ==> f.table[x] < TWO32
    modifies buf, buf.buffer, offsets
    ensures buf.Valid() && success == Writable(f)
    ensures success ==> buf.emitted == HEADER + Bodies(f.list, f.table, refSize)
    ensures success ==> offsets[..] == Offsets(f.list, f.table, refSize)
  {
    hide EncodeObject, Numbers, Bodies, WriteBuffer.Valid;
    ghost var offs := Offsets(f.list, f.table, refSize);
    assert f.list[..0] == [];
    BodiesEmpty(f.table, refSize);
    var idx := 0;
    while idx < |f.list|
      invariant idx <= |f.list| && buf.Valid()
      invariant buf.emitted == HEADER + Bodies(f.list[..idx], f.table, refSize)
      invariant forall j :: 0 <= j < idx ==> offsets[j] == offs[j]
      invariant forall j :: 0 <= j < idx ==> !f.list[j].node.Foreign?
    {
      offsets[idx] := buf.Position();
      BodiesStep(f.list, f.table, refSize, idx);
      success := buf.AppendObject(f.list[idx], f.table, refSize);
      if !success {
        assert f.list[idx] in f.list;
        return false;
      }
      idx := idx + 1;
    }
    assert f.list[..|f.list|] == f.list;
    success := true;
  }

  lemma BodiesEmpty(table: map<Obj, nat>, refSize: nat)
    ensures Bodies([], table, refSize) == []
  {
  }

  /** The offset table: each offset in the last offsetIntSize bytes of a swapped 64-bit number. */
  method WriteOffsets(buf: WriteBuffer, offsets: array<nat>, size: nat)
    requires buf.Valid() && size <= 8 && offsets as object != buf.buffer
    requires forall i :: 0 <= i < offsets.Length ==> offsets[i] < TWO64
    modifies buf, buf.buffer
    ensures buf.Valid() && buf.emitted == old(buf.emitted) + EncodeRefs(offsets[..], size)
  {
    ghost var before, offs := buf.emitted, offsets[..];
    var idx := 0;
    while idx < offsets.Length
      invariant idx <= offsets.Length && buf.Valid()
      invariant buf.emitted == before + EncodeRefs(offs[..idx], size)
      invariant offsets[..] == offs
    {
      assert offs[..idx + 1][..idx] == offs[..idx];
      buf.WriteWord(offsets[idx], size);
      idx := idx + 1;
    }
    assert offs[..|offs|] == offs;
  }

  /**
   __CFBinaryPlistWrite: the returned length is 0, or that of the whole file, which
   is then exactly what the stream has received.
   */
  method BinaryPlistWrite(root: Obj, streamIsData: bool) returns (length: nat, stream: seq<byte>)
    requires FitsFile(Flattened(root, EMPTY))
    ensures var f := Flattened(root, EMPTY);
            if Writable(f) then stream == EncodeFile(f) && length == |stream| else length == 0
  {
    hide Numbered, ClosedFrom, IntWidth, WriteBuffer.Valid, Bodies, Offsets, EncodeFile;
    var flattener := new Flattener();
    flattener.Flatten(root);
    var f := Flat(flattener.list, flattener.table, flattener.uniquing);
    FlattenRoot(root);
    NumbersSmall(f);
    var offsets := new nat[|f.list|];
    var buf := new WriteBuffer(streamIsData);
    buf.Write(HEADER);
    assert [] + HEADER == HEADER;
    var refSize := ByteCount(|f.list|);
    SmallWidth(|f.list|);
    var success := WriteObjects(buf, f, refSize, offsets);
    if !success {
      return 0, buf.stream;
    }
    length := FinishFile(buf, f, refSize, offsets);
    stream := buf.stream;
  }

  /** Everything after the objects: the offset table, the trailer and the final flush. */
  method FinishFile(buf: WriteBuffer, f: Flat, refSize: byte, offsets: array<nat>) returns (length: nat)
    requires |f.list| < TWO32 && |HEADER| + |Bodies(f.list, f.table, refSize)| < TWO64 && refSize == IntWidth(|f.list|)
    requires buf.Valid() && buf.emitted == HEADER + Bodies(f.list, f.table, refSize)
    requires offsets[..] == Offsets(f.list, f.table, refSize) && offsets as object != buf.buffer
    modifies buf, buf.buffer
    ensures buf.stream == EncodeFile(f) && length == |buf.stream|
  {
    hide IntWidth, WriteBuffer.Valid, Bodies;
    var cnt := |f.list|;
    var tableOffset := buf.Position();
    var offsetSize := ByteCount(tableOffset);
    OffsetsSmall(f, refSize);
    assert forall i :: 0 <= i < offsets.Length ==> offsets[i] in offsets[..];
    WriteOffsets(buf, offsets, offsetSize);
    length := tableOffset + cnt * offsetSize;
    WriteTrailer(buf, offsetSize, refSize, cnt, tableOffset);
    buf.Flush();
    length := length + 32;
  }

  method WriteTrailer(buf: WriteBuffer, offsetSize: byte, refSize: byte, cnt: nat, tableOffset: nat)
    requires buf.Valid() && cnt < TWO64 && tableOffset < TWO64
    modifies buf, buf.buffer
    ensures buf.Valid() && buf.emitted == old(buf.emitted) + EncodeTrailer(offsetSize, refSize, cnt, tableOffset)
  {
    StoreOfSwap64(cnt);
    StoreOfSwap64(0);
    StoreOfSwap64(tableOffset);
    buf.Write([0, 0, 0, 0, 0, 0, offsetSize, refSize]
              + Store(Swap64(cnt), 8) + Store(Swap64(0), 8) + Store(Swap64(tableOffset), 8));
  }

  lemma NumbersSmall(f: Flat)
    requires Numbered(f) && |f.list| < TWO32
    ensures forall x :: x in f.table ==> f.table[x] < TWO32
  {
  }

  lemma SmallWidth(cnt: nat)
    requires cnt < TWO32
    ensures IntWidth(cnt) <= 4
  {
  }

  lemma OffsetsSmall(f: Flat, refSize: nat)
    requires |HEADER| + |Bodies(f.list, f.table, refSize)| < TWO64
    ensures forall off :: off in Offsets(f.list, f.table, refSize) ==> off < TWO64
  {
    forall i | 0 <= i < |f.list| ensures Offset(f.list, f.table, refSize, i) < TWO64 {
      BodiesPrefix(f.list, f.table, refSize, i);
    }
  }
}
