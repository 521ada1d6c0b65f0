# CoreFoundation (CF-1151.16): packed representations and the objects they stand for

CoreFoundation keeps property lists, arrays, dictionaries, bags, strings, heaps,
numbers and bit vectors in fast or packed forms. This project models those forms as
the C code builds and changes them, and proves for all inputs and all runs that they
agree with the simple mathematical objects they stand for. Where the code does not
meet a property on every input, the property is stated with the exact condition under
which it holds, and an input that breaks it is given.

- **Binary property lists** (`CFBinaryPList.c`, `CFByteOrder.h`): `Bytes`, `Plist`,
  `PlistMeaning`, `PlistReader`, `PlistFormat`, `PlistFile`, `PlistDecode`,
  `PlistLimits`, `PlistDecoder`, `PlistFlatten`, `PlistWriter`, `PlistWrite`,
  `PlistParsing`, `PlistRoundTrip`, `PlistExamples`. An in-memory object carries its
  address, so that equality of objects is identity, as the callbacks without equal and
  hash make it for the object table and the uniquing set. What things mean is defined
  apart from how they are read and written: `PlistMeaning` gives the value of an object
  graph by its nodes, and `PlistFormat` and `PlistFile` say which bytes stand for which
  value. The reader is specified twice: `PlistDecode` is the plain recursion over the
  reference graph of a file, and `PlistDecoder` is the recursion as it runs, with a
  mutable path set and with or without a mutable object table; the second is proved to
  compute the first, and the first to decide the format. The main laws are `RoundTrip`,
  that the bytes written stand for the value of the graph, `WriteThenRead` and, for the
  running program, `WriteAndRead`.
- **Converters** (`CFBuiltinConverters.c`): `Utf8`, `Utf8Run`. The grammar is that of
  section 4 of RFC 3629, with the single 0xA9 bytes that the decoder lets pass. What a
  decode produces is stated item by item (`DecodeMeaning`): an item is the encoding of a
  scalar value, or a lone 0xA9 for the replacement character.
- **Arrays** (`CFArray.c`): `ArrayDeque`, `ArrayOrder`, `ArrayRuns`. The buckets are an array, memmove
  is a loop in the direction that the overlap needs, and every change refines a change
  of a sequence. A ledger of retains and releases is kept beside it.
- **Hash storage** (`CFBasicHash.c`, `CFBasicHashFindBucket.m`): `HashSlots`,
  `HashModel`, `HashSizes`, `HashTable`, `HashOrdered`, `HashRuns`. Raw value, key and
  count words are arrays; zero and all-ones mark free buckets, and two substitute words
  stand for them. Probing is linear, which is what dictionaries, sets and bags use.
  A table refines a finite map, a multiset, or an order of keys; what an operation changes
  is stated key by key (`Adds`, `Replaces`, `Sets`, `Removes`).
- **Heaps** (`CFBinaryHeap.c`): `BinaryHeap`.
- **Numbers** (`CFBigNumber.c`): `BigNumber`, `BigNumberText`.
- **Bit vectors** (`CFBitVector.c`): `BitBuckets`, `BitVector`.

`dafny verify dfyconfig.toml` checks the whole project.

`Machine` holds the integer widths that all parts share.

Where code and comments differ, the code is followed. Where the code does not meet a
property on every input, these are the conditions and the inputs:

- The reader keeps only the low 64 bits of a 16-byte integer, and refuses a dictionary
  whose key is a container although the writer writes it (`PlistRoundTrip.RereadFaithful`,
  `PlistRoundTrip.HighHalfIsLost`, `PlistRoundTrip.ArrayKeyIsRefused`).
- The object table and the path set are hash tables, which end the program on the keys
  0xa7baadb1 and 0xa5baadb9, and here the keys are offsets; and the table is made for all
  objects of a file, which ends the program above 3241355160 of them
  (`PlistDecoder.TryParse`, `PlistExamples.SubstituteExample`,
  `PlistExamples.CrowdedExample`).
- The reader computes the block of an array in 32 bits, which is wrong from 2^29 - 4
  elements on (`PlistRoundTrip.WriteThenRead`, `PlistExamples.HugeArrayExample`).
- The object list is an array that is appended to, and that stops at 2^30 - 2^13 + 1
  objects (`ArrayDeque.AppendAffordable`).
- The encoder passes the remaining room on as a 32-bit number, so that a buffer of 2^32
  bytes takes nothing but ASCII (`Utf8.AlwaysProgress`, `Utf8.CutRoomExample`).
- The length prediction counts in 32 bits, and is wrong for encodings of 2^32 bytes or more
  (`Utf8Run.PredictionExact`, `Utf8Run.LongTextExample`).
- A decode into a buffer that ends inside a surrogate pair reports the four bytes as used
  and loses them (`Utf8.BoundedDecodeFaithful`, `Utf8.SplitPairIsLost`).
- A digit of a sum can be the base itself, because the carry test is `>`
  (`BigNumber.AddDigits`, `BigNumber.FilledDigitExample`); later arithmetic is stated for
  digits below the base.
- A sum of zero has a minus sign exactly when the first operand has one, and comparing
  the two zeros does not report equality (`BigNumber.Add`, `BigNumber.Compare`,
  `BigNumber.TwoZerosExample`).
- Printing into a short buffer silently loses digits (`BigNumberText.PrintThenParse`,
  `BigNumberText.ShortBufferExample`).
- At a count of LONG_MAX, adding to and removing from a bag do nothing
  (`HashModel.RunIsBagRun`, `HashModel.ClampedExample`).
- An order of 0xa5baadb9 keys cannot take another one, because the last position would be
  stored as a substitute word (`HashOrdered.AddIntValueAndInc`,
  `HashOrdered.LastUnnumbered`).

## Model

| member | source | states |
|---|---|---|
| `Bytes.BigEndianRoundTrip` | CF-1151.16/CFBinaryPList.c:239-283 | every number that fits a width is restored from its big-endian bytes |
| `Bytes.ToBigEndianOfBigEndian` | CF-1151.16/CFBinaryPList.c:239-283 | every byte string is restored from the number it denotes |
| `Bytes.SwapOfLoad2` | CF-1151.16/CFByteOrder.h:66-74 | loading two bytes in host order and swapping reads them big-endian |
| `Bytes.SwapOfLoad4` | CF-1151.16/CFByteOrder.h:76-84 | the same for four bytes, with the swap written on the bytes of the number |
| `Bytes.SwapOfLoad8` | CF-1151.16/CFByteOrder.h:86-99 | the same for eight bytes, for the swap built from two halves |
| `Bytes.ShiftMask16` | CF-1151.16/CFByteOrder.h:66-74 | the shift-and-mask expression on 16-bit words reverses the bytes |
| `Bytes.ShiftMask32` | CF-1151.16/CFByteOrder.h:76-84 | the shift-and-mask expression on 32-bit words reverses the bytes |
| `Bytes.SwapBitsIsSwap` | CF-1151.16/CFByteOrder.h:76-84 | the number with the bytes of the swapped 32-bit word is the swap of the number with the bytes of the word |
| `Bytes.SwapTwice32` | CF-1151.16/CFByteOrder.h:76-84 | swapping twice is the identity |
| `Bytes.SwapTwice64` | CF-1151.16/CFByteOrder.h:86-99 | swapping twice is the identity |
| `Bytes.StoreOfSwap64` | CF-1151.16/CFByteOrder.h:151-159 | storing a swapped word leaves the big-endian bytes in memory |
| `Bytes.LoadStore` | CF-1151.16/CFByteOrder.h:121-159 | a stored word is loaded again unchanged |
| `Bytes.GetSizedInt` | CF-1151.16/CFBinaryPList.c:735-757 | the three swap fast paths and the byte loop agree: all give the big-endian number modulo 2^64, for every size byte |
| `PlistReader.ScanTable` | CF-1151.16/CFBinaryPList.c:832-838 | the scan accepts exactly the offset tables whose entries all lie before the table |
| `PlistReader.CheckAdd` | CF-1151.16/CFBinaryPList.c:64-68 | the sum modulo 2^64, with the error flag set exactly from the first overflow on |
| `PlistReader.CheckMul` | CF-1151.16/CFBinaryPList.c:70-75 | the product modulo 2^64; the quotient test sets the flag exactly when it overflows |
| `PlistReader.CheckTrailer` | CF-1151.16/CFBinaryPList.c:780-830 | the scalar tests with flagged 64-bit arithmetic accept exactly the trailers that fit the file as mathematical integers |
| `PlistReader.GetTopLevelInfo` | CF-1151.16/CFBinaryPList.c:759-847 | the flagged scalar tests and the table scan decide exactly the declarative trailer condition, and return the offset of the top object |
| `PlistReader.TopLevelInfo` | CF-1151.16/CFBinaryPList.c:759-847 | an accepted trailer is trusted: the table ends where the trailer starts, widths hold all numbers, every entry and the top offset lie among the objects |
| `PlistReader.Extent` | CF-1151.16/CFBinaryPList.c:64-80 | the overflow-checked test is the mathematical bound, with no address wrap-around |
| `PlistReader.ReadInt` | CF-1151.16/CFBinaryPList.c:855-869 | a count that is read lies wholly before the offset table |
| `PlistReader.ReadCount` | CF-1151.16/CFBinaryPList.c:1190-1203 | the contents of a sized object start behind its marker and before the table, and the count is a CFIndex |
| `PlistReader.OffsetOfRefAt` | CF-1151.16/CFBinaryPList.c:872-886 | a reference leads to an offset before the table or to UINT64_MAX |
| `PlistReader.ParseAt` | CF-1151.16/CFBinaryPList.c:1079-1462 | what is read lies among the objects, references lead inside or nowhere, and dictionaries have as many keys as values; which bytes are read as which object is stated by PlistFormat.ObjectMeaning |
| `PlistReader.ObjectsOf` | CF-1151.16/CFBinaryPList.c:1061-1559 | the objects of a file by offset are exactly those that can be read |
| `PlistFormat.ObjectMeaning` | CF-1151.16/CFBinaryPList.c:1079-1462 | the reader takes an object off the bytes exactly when the format has it there, for every marker: nulls, booleans, integers of 1, 2, 4, 8 and 16 bytes, reals, dates, data, byte and unit strings, UIDs of 1 to 16 bytes, arrays, sets and dictionaries, with short and long counts; all other markers are refused |
| `PlistFormat.CountMeaning` | CF-1151.16/CFBinaryPList.c:1190-1203 | a count is the low nibble of the marker, or the integer behind it when that is 15, which is 0 from 256 bytes on |
| `PlistFormat.UidsMeaning` | CF-1151.16/CFBinaryPList.c:1280-1298 | markers 0x80 to 0x8F: a UID of 1 to 16 bytes is its number, and is refused from 2^32 on |
| `PlistFormat.ListsMeaning` | CF-1151.16/CFBinaryPList.c:1299-1437 | markers 0xAn and 0xCn: an array or a set, of the offsets that its references lead to in the table |
| `PlistFormat.DictionariesMeaning` | CF-1151.16/CFBinaryPList.c:1439-1462 | markers 0xDn: a dictionary, all keys before all values |
| `PlistFormat.TargetMeaning` | CF-1151.16/CFBinaryPList.c:872-886 | a reference leads to the table entry that it numbers, or nowhere |
| `PlistFile.TopLevelMeaning` | CF-1151.16/CFBinaryPList.c:759-847 | the trailer check accepts exactly the bytes that start with "bplist0" and whose big-endian trailer fields, table and objects fill the file, and finds the top object |
| `PlistDecode.DecodeMeaning` | CF-1151.16/CFBinaryPList.c:1061-1559 | decoding gives a value exactly when the offset unfolds to that value and cannot reach the path set; the depth at which the path set starts does not matter |
| `PlistFile.DenotesMeaning` | CF-1151.16/CFBinaryPList.c:1061-1559 | a value unfolds from an offset exactly when the bytes stand for it, member by member: arrays and sets in the order of their references, dictionaries with key i and value i from references i and n + i, and no container as key |
| `PlistDecoder.ParseMeaning` | CF-1151.16/CFBinaryPList.c:1566-1608 | a file is parsed to a value exactly when its bytes stand for that value |
| `PlistDecode.DecodeAccepts` | CF-1151.16/CFBinaryPList.c:1073-1078 | decoding succeeds exactly when everything reachable is well formed, no cycle is reachable and the path set is not |
| `PlistDecode.DecodeSound` | CF-1151.16/CFBinaryPList.c:1061-1559 | a decoded value is the unfolding of its offset, which cannot reach the path set |
| `PlistDecode.DecodeComplete` | CF-1151.16/CFBinaryPList.c:1061-1559 | every unfolding that avoids the path set is decoded, at any depth |
| `PlistDecode.RepresentsUnique` | CF-1151.16/CFBinaryPList.c:1061-1559 | an offset unfolds to at most one value |
| `PlistDecode.RepresentedAcyclic` | CF-1151.16/CFBinaryPList.c:1073-1078 | only acyclic parts of the reference graph have a value |
| `PlistDecode.StackShape` | CF-1151.16/CFBinaryPList.c:1323-1328 | in every call stack the path set appears below depth 16 and then holds one distinct table offset for each further level |
| `PlistDecode.DepthBound` | CF-1151.16/CFBinaryPList.c:1323-1328 | every call stack from the top of a reference graph is at most 17 deep plus the number of distinct targets |
| `PlistDecode.FileTargets` | CF-1151.16/CFBinaryPList.c:872-886 | every reference of a file that leads to an object leads to an entry of the offset table |
| `PlistDecode.FileDepthBound` | CF-1151.16/CFBinaryPList.c:1061-1078 | on any bytes that pass the trailer check, every sequence of open activations is at most 17 long plus the number of distinct table offsets |
| `PlistDecoder.Decoder.CreateObject` | CF-1151.16/CFBinaryPList.c:1061-1073 | with or without an object table, at any depth and path set, the run gives the success and value of the plain decode, or ends the program; it ends only where an object that is reached is refused, or the table or the path set would have to hold more entries than any table can; with a table a success proves that neither was the case; it keeps the table right, restores the path set, decodes each listed offset at most once, and its open activations obey the depth bound |
| `PlistDecoder.Decoder.CreateLeaf` | CF-1151.16/CFBinaryPList.c:1084-1298 | the same for objects without references |
| `PlistDecoder.Decoder.CreateContainer` | CF-1151.16/CFBinaryPList.c:1323-1559 | the same for arrays, sets and dictionaries, around the loop over their references |
| `PlistDecoder.Decoder.FinishContainer` | CF-1151.16/CFBinaryPList.c:1390-1437 | a container whose members are decoded is created, taken off the path set and entered, unless its constructor or the table refuses it |
| `PlistDecoder.Decoder.EnterTable` | CF-1151.16/CFBasicHash.c:1364-1376 | the object table refuses exactly the two substitute words and a new entry for which it has no size |
| `PlistDecoder.Decoder.CreateMembers` | CF-1151.16/CFBinaryPList.c:1377-1389 | the loop over the references decodes all of them or fails as the plain decode does |
| `PlistDecoder.Decoder.PushPath` | CF-1151.16/CFBinaryPList.c:1323-1328 | the path set grows by the container, and is created below depth 15; it refuses exactly the two substitute words and a new entry for which it has no size |
| `PlistDecoder.Decoder.PopPath` | CF-1151.16/CFBinaryPList.c:1428-1432 | the container leaves the path set, and a set made for it goes |
| `PlistDecoder.TableAvoids` | CF-1151.16/CFBinaryPList.c:1073-1078 | no entry of the table can reach a container that is still being decoded |
| `PlistDecoder.TableEnters` | CF-1151.16/CFBinaryPList.c:1433-1435 | entering a decoded object keeps the table right |
| `PlistDecoder.TableHolds` | CF-1151.16/CFBinaryPList.c:1063-1073 | an entry of the table has everything listed that it reaches in the table |
| `PlistDecoder.TableSuffices` | CF-1151.16/CFBinaryPList.c:1581 | a table made for all objects of a file is never full |
| `PlistLimits.LargestTable` | CF-1151.16/CFBasicHash.c:702-708 | a table can be made for exactly up to 3241355160 entries |
| `PlistLimits.TransferBlockFits` | CF-1151.16/CFArray.c:420-436 | the 32-bit block size is right for exactly the arrays of fewer than 2^29 - 4 values |
| `PlistLimits.TripsNowhere` | CF-1151.16/CFBinaryPList.c:1377-1437 | a decode gets past everything unless the object itself or a reference is refused |
| `PlistLimits.EndsParent` | CF-1151.16/CFBinaryPList.c:1377-1389 | what ends the decode of a reference ends the decode of the container |
| `PlistLimits.SmallFilesTripNowhere` | CF-1151.16/CFBinaryPList.c:1124 | no file whose objects end before offset 2^29 - 4 has a refused object |
| `PlistDecoder.DecodeBothWays` | CF-1151.16/CFBinaryPList.c:1063-1078 | decoding with and without an object table agree whenever both come to an end; both do, with the value of the plain decode, unless something is refused; from the top, an offset with a value ends the run with a table exactly when something is |
| `PlistDecoder.TryParse` | CF-1151.16/CFBinaryPList.c:1566-1608 | a table for all objects of the file, and the decode: the value that the bytes of the file stand for, or nothing if they stand for none, or the end of the program; a file that has a value ends it exactly when it has more than 3241355160 objects or reaches a refused one |
| `PlistExamples.CrowdedExample` | CF-1151.16/CFBinaryPList.c:1581 | a file of one boolean with 3241355161 entries in its offset table denotes false, and parsing it ends the program |
| `PlistExamples.SubstituteExample` | CF-1151.16/CFBinaryPList.c:1124 | a file with the number 7 at offset 0xa5baadb9 denotes 7, and parsing it ends the program |
| `PlistFlatten.AddValue` | CF-1151.16/CFBinaryPList.c:564-566 | an object that has a number keeps it |
| `PlistFlatten.AppendKeeps` | CF-1151.16/CFBinaryPList.c:550-566 | appending keeps numbers and list entries matched and uniqued objects listed once |
| `PlistFlatten.FlattenKeeps` | CF-1151.16/CFBinaryPList.c:543-585 | flattening any object keeps the numbering, numbers all references of what it lists and lists only parts of the object |
| `PlistFlatten.FlattenRoot` | CF-1151.16/CFBinaryPList.c:610-637 | exactly the parts of the root are numbered, each number leads back to its object, all references are numbered, and the root is number 0, also with shared and re-appended containers; strings, numbers, dates and data are listed once |
| `PlistFlatten.ListedOften` | CF-1151.16/CFBinaryPList.c:550-566 | booleans, UIDs and containers are listed as often as they occur in the graph |
| `PlistFlatten.Flattener.Flatten` | CF-1151.16/CFBinaryPList.c:543-585 | the run over the three collections computes the specified flattening |
| `PlistWriter.IntWidth` | CF-1151.16/CFBinaryPList.c:329-350 | the width is the narrowest of 1, 2, 4 and 8 that holds the number |
| `PlistWriter.BodiesPrefix` | CF-1151.16/CFBinaryPList.c:659-675 | the objects written so far are a prefix of the file |
| `PlistWrite.WriteBuffer.WriteBytes` | CF-1151.16/CFBinaryPList.c:169-205 | exactly the given bytes reach the data object or the stream, however the stream splits them |
| `PlistWrite.WriteBuffer.Flush` | CF-1151.16/CFBinaryPList.c:207-210 | after a flush everything emitted has been delivered |
| `PlistWrite.WriteBuffer.Write` | CF-1151.16/CFBinaryPList.c:212-237 | exactly the given bytes are added, for every size, and written + used stays the true position |
| `PlistWrite.WriteBuffer.Position` | CF-1151.16/CFBinaryPList.c:659-675 | written + used is the number of bytes emitted |
| `PlistWrite.WriteBuffer.AppendInt` | CF-1151.16/CFBinaryPList.c:329-350 | emits the marker and the big-endian bytes of the narrowest width |
| `PlistWrite.WriteBuffer.AppendUid` | CF-1151.16/CFBinaryPList.c:352-371 | emits the marker with width less one and the big-endian value |
| `PlistWrite.WriteBuffer.AppendString` | CF-1151.16/CFBinaryPList.c:373-404 | emits ASCII strings as bytes and all others as big-endian units |
| `PlistWrite.WriteBuffer.AppendNumber` | CF-1151.16/CFBinaryPList.c:408-454 | emits the fixed markers and fields of numbers and dates |
| `PlistWrite.WriteBuffer.AppendObject` | CF-1151.16/CFBinaryPList.c:456-541 | emits the encoding of any object with the numbers of its references, and fails exactly on a foreign object |
| `PlistWrite.ByteCount` | CF-1151.16/CFBinaryPList.c:589-606 | the mask loop and the rounding give the narrowest adequate width |
| `PlistWrite.WriteObjects` | CF-1151.16/CFBinaryPList.c:659-675 | the object loop emits all objects, records the true offset of each, and stops exactly at a foreign object |
| `PlistWrite.BinaryPlistWrite` | CF-1151.16/CFBinaryPList.c:610-707 | the stream has received exactly the file of the flattened graph and its length is returned, or 0 is returned; what the bytes of that file stand for is stated by PlistRoundTrip.RoundTrip |
| `PlistParsing.ReadCountHeld` | CF-1151.16/CFBinaryPList.c:855-869 | a written count is read back, also when it is 15 or more |
| `PlistParsing.Int128Object` | CF-1151.16/CFBinaryPList.c:1098-1122 | of a 16-byte integer the low 64 bits are read back |
| `PlistParsing.UidObject` | CF-1151.16/CFBinaryPList.c:1280-1298 | a written UID is read back |
| `PlistRoundTrip.LeafParses` | CF-1151.16/CFBinaryPList.c:1084-1298 | the encoding of every object without references is read back |
| `PlistRoundTrip.ContainerParses` | CF-1151.16/CFBinaryPList.c:1299-1559 | the encoding of every container is read back as the table offsets of its references |
| `PlistRoundTrip.TableWritten` | CF-1151.16/CFBinaryPList.c:654-692 | a written file passes the trailer check and its table holds the offsets of the objects, at every offset and reference width |
| `PlistRoundTrip.DecodeHeld` | CF-1151.16/CFBinaryPList.c:1061-1559 | decoding a listed object of a written file gives what rereading the object gives, whatever the depth |
| `PlistRoundTrip.RoundTrip` | CF-1151.16/CFBinaryPList.c:610-1559 | for every object graph that the object list can hold and that can be written, the written bytes stand for the value of the graph with the high halves of 16-byte integers set to 0, and for nothing exactly when some key is a container; the value is defined on the nodes of the graph, with value i at key i |
| `PlistRoundTrip.RereadMeaning` | CF-1151.16/CFBinaryPList.c:1061-1559 | what comes back, by the nodes of the graph alone: nothing if some key is a container, else the value without high halves |
| `PlistMeaning.LoweredValue` | CF-1151.16/CFBinaryPList.c:1112-1118 | setting high halves to 0 leaves the value alone exactly where none is used |
| `PlistRoundTrip.ObjectsWritten` | CF-1151.16/CFBinaryPList.c:456-541 | every listed object stands in the written file, in the format, where the table says; its first byte is the marker of its kind and count, the narrowest for integers and UIDs, and 0x5n for a string exactly when all units are below 128 |
| `PlistRoundTrip.FrameWritten` | CF-1151.16/CFBinaryPList.c:652-692 | a written file starts with the eight bytes of "bplist00", and the six unused bytes of its trailer are 0 |
| `PlistExamples.PairsExample` | CF-1151.16/CFBinaryPList.c:610-692 | the dictionary with "a" for 1 and "b" for 2 is written as 58 given bytes, and these stand for exactly that dictionary |
| `PlistRoundTrip.RereadFaithful` | CF-1151.16/CFBinaryPList.c:1098-1122 | a graph rereads as itself exactly when no 16-byte integer uses its high half and no dictionary key is a container |
| `PlistRoundTrip.HighHalfIsLost` | CF-1151.16/CFBinaryPList.c:1112-1118 | a 16-byte integer with high half 1 is written and comes back with 0 |
| `PlistRoundTrip.ArrayKeyIsRefused` | CF-1151.16/CFBinaryPList.c:1512-1532 | a dictionary with an array as key is written and refused when read |
| `PlistRoundTrip.WriteThenRead` | CF-1151.16/CFBinaryPList.c:610-1559 | the reader returns the value of the graph for exactly the graphs without high halves and without containers as keys, whose arrays have fewer than 2^29 - 4 elements and whose dictionaries fit in a table, and none of whose objects, booleans apart, starts at a substitute word; shared objects and all counts and widths included |
| `PlistRoundTrip.WrittenEnds` | CF-1151.16/CFBinaryPList.c:1566-1608 | parsing a written file ends the program exactly when an object starts at a substitute word or a container cannot be created again |
| `PlistExamples.HugeArrayExample` | CF-1151.16/CFArray.c:420-436 | an array of 2^29 references to one string lists two objects, is written and rereads as itself, and cannot be created again |
| `PlistRoundTrip.WriteAndRead` | CF-1151.16/CFBinaryPList.c:610-1608 | the same law for the running writer and the running reader together; any other graph comes back without its high halves, or as nothing when some key is a container, or ends the program |
| `Utf8.LegalIsGrammar` | CF-1151.16/CFBuiltinConverters.c:999-1011 | the legality test accepts exactly the grammar in section 4 of RFC 3629 |
| `Utf8.Utf8OfGrammar` | CF-1151.16/CFBuiltinConverters.c:913-944 | every encoding is in the grammar and has its code point |
| `Utf8.Utf8Ordered` | CF-1151.16/CFBuiltinConverters.c:913-944 | encodings are in the order of their scalar values |
| `Utf8.Utf16Ordered` | CF-1151.16/CFBuiltinConverters.c:1080-1099 | scalar values below 2^16 are their own unit, and the pairs of the others are in their order |
| `Utf8.CodePointScalar` | CF-1151.16/CFBuiltinConverters.c:1047-1058 | every sequence of the grammar is the encoding of its code point, which is a scalar value |
| `Utf8.BoundedIsPrefix` | CF-1151.16/CFBuiltinConverters.c:946-986 | with any buffer, the bytes are the encoding of exactly the units reported, no surrogate pair is split, and the rest encodes to the rest |
| `Utf8.BoundedIsMaximal` | CF-1151.16/CFBuiltinConverters.c:946-986 | a call stops only at the end, at an unpaired surrogate or at a character it does not take; in a buffer below 2^32 bytes that is one that does not fit |
| `Utf8.ProgressIff` | CF-1151.16/CFBuiltinConverters.c:923-976 | a call makes progress exactly when the first character is one byte and there is room, or fits in the room modulo 2^32 |
| `Utf8.AlwaysProgress` | CF-1151.16/CFBuiltinConverters.c:976 | a buffer makes progress on every text exactly when its size modulo 2^32 is at least 4 |
| `Utf8.CutRoomExample` | CF-1151.16/CFBuiltinConverters.c:923-976 | U+0080 is not taken in a buffer of 2^32 bytes, and is in one of 2^32 - 1 |
| `Utf8.ResumeIsOneShot` | CF-1151.16/CFBuiltinConverters.c:946-986 | repeated calls concatenate to the one-shot encoding, for buffers of any sizes that are at least 4 modulo 2^32 |
| `Utf8.ResumeIsPrefix` | CF-1151.16/CFBuiltinConverters.c:946-986 | repeated calls with any buffers at all produce a prefix of the one-shot encoding |
| `Utf8.ItemFound` | CF-1151.16/CFBuiltinConverters.c:1025-1045 | the decoder recognises exactly the sequences of the grammar and single 0xA9 bytes |
| `Utf8.DecodeConsumesLongest` | CF-1151.16/CFBuiltinConverters.c:1013-1106 | the strict decoder consumes exactly the longest prefix made of such items |
| `Utf8.DecodeMeaning` | CF-1151.16/CFBuiltinConverters.c:1013-1106 | all bytes decode to these units exactly when the bytes split into items that stand for them: the encoding of a scalar value for its UTF-16 form, and a lone 0xA9 for U+FFFD |
| `Utf8.DecodesItems` | CF-1151.16/CFBuiltinConverters.c:1013-1106 | the bytes used split into items, and the units are what these stand for |
| `Utf8.LoneByte` | CF-1151.16/CFBuiltinConverters.c:1035-1038 | 0xA9 in front of any bytes gives U+FFFD in front of what they decode to |
| `Utf8.DecodedWellFormed` | CF-1151.16/CFBuiltinConverters.c:1080-1099 | decoded strings have no unpaired surrogates |
| `Utf8.EncodeThenDecode` | CF-1151.16/CFBuiltinConverters.c:885-1106 | every well-formed string is decoded again from its encoding, using all bytes |
| `Utf8.DecodeThenEncode` | CF-1151.16/CFBuiltinConverters.c:885-1106 | every byte string of the grammar is encoded again from its decoding |
| `Utf8.BoundedDecodeFaithful` | CF-1151.16/CFBuiltinConverters.c:1080-1099 | a bounded decode accounts for all bytes it reports as used exactly when the buffer does not end inside a surrogate pair |
| `Utf8.BoundedDecodesItems` | CF-1151.16/CFBuiltinConverters.c:1080-1099 | the units of a bounded decode are what the items of the used bytes stand for, exactly when the buffer does not end inside a surrogate pair |
| `Utf8.SplitPairIsLost` | CF-1151.16/CFBuiltinConverters.c:1093 | one supplementary character and one unit of room: four bytes used, nothing produced |
| `Utf8.EnoughRoom` | CF-1151.16/CFBuiltinConverters.c:1013-1106 | with room for everything a bounded decode is the full decode |
| `Utf8Run.ToUtf8Core` | CF-1151.16/CFBuiltinConverters.c:923-944 | writes the encoding of one character and nothing else, or nothing where it does not fit in the 32-bit length |
| `Utf8Run.PutScalar` | CF-1151.16/CFBuiltinConverters.c:957-980 | takes a character exactly when the specification does, with the remaining room cut to 32 bits |
| `Utf8Run.ToUtf8` | CF-1151.16/CFBuiltinConverters.c:946-986 | the loop over the buffer computes the bounded encoding and touches no other byte, or computes the sizes of the whole conversion when the limit is 0 |
| `Utf8Run.ToUtf8Len` | CF-1151.16/CFBuiltinConverters.c:1108-1123 | the loop computes the predicted length modulo 2^32 |
| `Utf8Run.LengthPredicted` | CF-1151.16/CFBuiltinConverters.c:1108-1123 | the prediction is the length of the encoding, for well-formed strings |
| `Utf8Run.LengthMended` | CF-1151.16/CFBuiltinConverters.c:1108-1123 | for any string the prediction is the length of the encoding with U+FFFD for every unpaired surrogate |
| `Utf8Run.PredictionExact` | CF-1151.16/CFBuiltinConverters.c:1108-1123 | for well-formed strings the counter is right exactly when the encoding is shorter than 2^32 bytes |
| `Utf8Run.LongTextExample` | CF-1151.16/CFBuiltinConverters.c:1108-1123 | 2^32 letters: the counter says 0 |
| `Utf8Run.IsLegalUtf8` | CF-1151.16/CFBuiltinConverters.c:999-1011 | the loop over the continuation bytes and the tests of the first two accept exactly the grammar |
| `Utf8Run.Accumulate` | CF-1151.16/CFBuiltinConverters.c:1047-1058 | shifting and subtracting one constant gives the code point |
| `Utf8Run.NextItem` | CF-1151.16/CFBuiltinConverters.c:1025-1058 | finds the item at a position and its scalar value: U+FFFD for a lone 0xA9, else the one whose encoding it is |
| `Utf8Run.FromUtf8` | CF-1151.16/CFBuiltinConverters.c:1013-1106 | the loop over the buffer computes the bounded decode, or the sizes of the full one when the limit is 0; the characters written are what the items of the used bytes stand for exactly when the buffer does not end inside a surrogate pair |
| `Utf8Run.FromUtf8Len` | CF-1151.16/CFBuiltinConverters.c:1125-1192 | the length function counts the units of the decoder with no limit, on every byte string |
| `ArrayDeque.RoundUpCapacity` | CF-1151.16/CFArray.c:46-49 | 4 below 4, and otherwise the power of two above the capacity and at most twice it |
| `ArrayDeque.Move` | CF-1151.16/CFArray.c:820-871 | an overlapping move copies the old contents, in whichever direction it runs |
| `ArrayDeque.MoveC` | CF-1151.16/CFArray.c:834-841 | moving the right region opens the gap and keeps both regions |
| `ArrayDeque.MoveA` | CF-1151.16/CFArray.c:842-850 | moving the left region opens the gap and keeps both regions |
| `ArrayDeque.Recenter` | CF-1151.16/CFArray.c:851-872 | in both orders neither move overwrites the other region |
| `ArrayDeque.Reallocate` | CF-1151.16/CFArray.c:808-832 | both regions arrive in the larger block around the gap |
| `ArrayDeque.Reposition` | CF-1151.16/CFArray.c:790-874 | in all four cases the gap is open between the same two regions, inside the capacity |
| `ArrayDeque.AffordableBelow` | CF-1151.16/CFArray.c:46-49 | every count below 2^30 - 2^13 can be reallocated for |
| `ArrayDeque.AppendAffordable` | CF-1151.16/CFArray.c:46-49 | appending value by value works exactly up to 2^30 - 2^13 + 1 values |
| `ArrayDeque.ReleaseValues` | CF-1151.16/CFArray.c:197-240 | releases exactly the values of the range and clears their buckets |
| `ArrayDeque.Splice` | CF-1151.16/CFArray.c:937-1008 | the storage holds the left region, the new values and the right region, inside the capacity; exactly the replaced values were released |
| `ArrayDeque.MutableArray.ReplaceValues` | CF-1151.16/CFArray.c:937-1008 | the contents are the old ones with the range replaced by the new values, and retains less releases of every value stay its multiplicity |
| `ArrayDeque.MutableArray.SetValueAtIndex` | CF-1151.16/CFArray.c:710-735 | replaces one value or appends, with the ledger kept |
| `ArrayDeque.MutableArray.ExchangeValuesAtIndices` | CF-1151.16/CFArray.c:748-766 | exchanges the two values and leaves all others, with the ledger kept |
| `ArrayDeque.MutableArray.RemoveAllValues` | CF-1151.16/CFArray.c:777-787 | empties the array, with the ledger kept |
| `ArrayDeque.MutableArray.GetValueAtIndex` | CF-1151.16/CFArray.c:601-607 | reads the value that the sequence has at the index |
| `ArrayOrder.SwapIsStable` | CF-1151.16/CFArray.c:1021-1033 | exchanging neighbours that are out of order keeps the order of equal values |
| `ArrayOrder.ZSort` | CF-1151.16/CFArray.c:1021-1033 | sorts the range, keeps equal values in order, and changes nothing outside |
| `ArrayOrder.BSearchValues` | CF-1151.16/CFArray.c:1089-1115 | returns the least position not less than the value, or the end, and probes only inside the range |
| `ArrayRuns.Run` | CF-1151.16/CFArray.c:710-1033 | any run of replace, set, exchange, sort and remove-all, up to an operation that is not possible: each step makes the specified change, and at the end retains less releases of every value are its multiplicity |
| `HashSizes.CapacityFits` | CF-1151.16/CFBasicHash.c:225-260 | no table is asked to hold more entries than it has buckets |
| `HashSizes.CapacityGrows` | CF-1151.16/CFBasicHash.c:243-260 | capacities grow with the index |
| `HashSizes.IndexForCapacity` | CF-1151.16/CFBasicHash.c:702-708 | finds the least size whose capacity suffices |
| `HashSlots.PutSound` | CF-1151.16/CFBasicHash.c:1259-1286 | filling a free bucket keeps every key findable and unique, and adds one entry |
| `HashSlots.RemoveSound` | CF-1151.16/CFBasicHash.c:1300-1308 | a tombstone keeps every other key findable |
| `HashSlots.SetSound` | CF-1151.16/CFBasicHash.c:1288-1298 | changing an entry keeps every key findable |
| `HashSlots.CountUpdate` | CF-1151.16/CFBasicHash.c:1259-1330 | how one bucket changes the numbers of live buckets and tombstones |
| `HashSlots.MissAtEmpty` | CF-1151.16/CFBasicHashFindBucket.m:110-128 | a probe that reaches an empty bucket has missed no key |
| `HashTable.PackedRoundTrip` | CF-1151.16/CFBasicHash.c:492-514 | packing keeps stored words apart from the two markers, and is undone for exactly the words that may be stored; 0 is stored as 0xa7baadb1 and all ones as 0xa5baadb9 |
| `HashTable.BasicHash.Fill` | CF-1151.16/CFBasicHash.c:499-546 | stores one key and value and leaves all other buckets alone |
| `HashTable.BasicHash.Bury` | CF-1151.16/CFBasicHash.c:1300-1309 | leaves a tombstone with count zero |
| `HashTable.BasicHash.BumpCounts` | CF-1151.16/CFBasicHash.c:569-626 | widening keeps every count |
| `HashTable.BasicHash.IncSlotCount` | CF-1151.16/CFBasicHash.c:628-676 | adds one to one count, through all four widths |
| `HashTable.BasicHash.DecSlotCount` | CF-1151.16/CFBasicHash.c:678-686 | takes one from one count |
| `HashTable.BasicHash.FindBucket` | CF-1151.16/CFBasicHash.c:718-722 | returns the live bucket of the key, else a free bucket where it can be put, and the count of the key |
| `HashTable.BasicHash.Probe` | CF-1151.16/CFBasicHashFindBucket.m:107-191 | the linear probe loop does so in any table, full ones included |
| `HashTable.BasicHash.FindBucketNoCollision` | CF-1151.16/CFBasicHashFindBucket.m:107-191 | in a table without tombstones it returns an empty bucket where the key can be put |
| `HashTable.BasicHash.Rehash` | CF-1151.16/CFBasicHash.c:1127-1249 | growing, shrinking or the same size: the same entries with their counts, no tombstones, exact counters, and the least size with capacity for what is to come |
| `HashTable.BasicHash.NewIndex` | CF-1151.16/CFBasicHash.c:1135-1143 | the least size that suffices, one more for a single entry in a fast growing table, or the same size |
| `HashTable.BasicHash.CopyEntries` | CF-1151.16/CFBasicHash.c:1199-1232 | the loop over the old storage places every entry with its count |
| `HashTable.BasicHash.AddBucket` | CF-1151.16/CFBasicHash.c:1259-1286 | adds one entry and keeps used_buckets, deleted and the load bounds exact |
| `HashTable.BasicHash.AddValue` | CF-1151.16/CFBasicHash.c:1332-1350 | a new key has the value given, once; a key that is there keeps its value and counts one more in a bag below the clamp; all others keep theirs; reports whether anything changed |
| `HashTable.BasicHash.ReplaceValue` | CF-1151.16/CFBasicHash.c:1352-1362 | a key that is there has the value given and its old count, all others keep theirs; without the key nothing changes |
| `HashTable.BasicHash.SetValue` | CF-1151.16/CFBasicHash.c:1364-1376 | the key is there with the value given, and its old count or one; all others keep theirs |
| `HashTable.BasicHash.TakeOut` | CF-1151.16/CFBasicHash.c:1300-1313 | a tombstone in place of the entry, with both counters exact modulo their widths |
| `HashTable.BasicHash.RemoveBucket` | CF-1151.16/CFBasicHash.c:1300-1330 | removes one entry; the 16-bit tombstone count stays exact through its roll-over, tombstones stay below a quarter of 20 or more buckets, and the table is not left too large |
| `HashTable.BasicHash.RemoveValue` | CF-1151.16/CFBasicHash.c:1378-1391 | the last occurrence goes with the key, and otherwise the count drops by one below the clamp; values and all other keys stay; returns the old count |
| `HashTable.BasicHash.RemoveAllValues` | CF-1151.16/CFBasicHash.c:1407-1411 | refines emptying the table |
| `HashTable.BasicHash.SetCapacity` | CF-1151.16/CFBasicHash.c:1251-1257 | keeps all entries and leaves room for the capacity |
| `HashTable.BasicHash.GetCountOfKey` | CF-1151.16/CFBasicHash.c:943-951 | the number of occurrences of the key, zero for the two substitute words |
| `HashModel.AddedBag` | CF-1151.16/CFBasicHash.c:1332-1350 | adding is adding one occurrence to a multiset exactly when the count is below the clamp |
| `HashModel.RemovedBag` | CF-1151.16/CFBasicHash.c:1378-1391 | removing is taking one occurrence exactly when the count is below the clamp |
| `HashModel.AppliedMeaning` | CF-1151.16/CFBasicHash.c:1332-1411 | each operation of a run changes exactly the keys, values and counts that it says |
| `HashModel.LastSetHolds` | CF-1151.16/CFBasicHash.c:1364-1376 | along any run, the value last set for a key is the one it has until a later operation replaces, sets or removes it |
| `HashModel.RunIsBagRun` | CF-1151.16/CFBasicHash.c:1332-1391 | a run from an empty counted table, of any length, is in step with a multiset all along exactly when no operation meets a count at the clamp |
| `HashModel.ShortRun` | CF-1151.16/CFBasicHash.c:1332-1391 | no run of fewer than LONG_MAX operations can meet the clamp |
| `HashModel.ClampedExample` | CF-1151.16/CFBasicHash.c:1343-1385 | a key held LONG_MAX times: adding and removing it change nothing |
| `HashModel.SlotBagIsBag` | CF-1151.16/CFBasicHash.c:931-941 | the live buckets hold exactly the multiset |
| `HashModel.TotalIsBag` | CF-1151.16/CFBasicHash.c:931-941 | the sum of the counts is the size of the multiset |
| `HashModel.ElementKeys` | CF-1151.16/CFBasicHash.c:1019-1033 | listing every entry as often as it counts lists the multiset |
| `HashModel.LiveIsSize` | CF-1151.16/CFBasicHash.c:324 | the number of live buckets is the number of entries |
| `HashModel.NumberedOnce` | CF-1151.16/CFBasicHash.c:1413-1465 | values that number an order are exactly 0 to n - 1, each once |
| `HashModel.NumberedInsert` | CF-1151.16/CFBasicHash.c:1413-1443 | renumbering upwards and adding the key inserts it into the order at i; the others keep theirs |
| `HashModel.NumberedRemove` | CF-1151.16/CFBasicHash.c:1445-1465 | renumbering downwards and removing the key takes it out of the order |
| `HashModel.RenumberedSound` | CF-1151.16/CFBasicHash.c:1426-1437 | renumbering moves nothing and changes no key |
| `HashOrdered.AddIntValueAndInc` | CF-1151.16/CFBasicHash.c:1413-1443 | inserts a new key at position i of the order, across rehashes and the packing of zero; exactly when the order has 0xa5baadb9 keys already the numbering is lost; an old key changes nothing |
| `HashOrdered.OrderLimit` | CF-1151.16/CFBasicHash.c:492-514 | no table numbers more than 0xa5baadb9 keys |
| `HashOrdered.LastUnnumbered` | CF-1151.16/CFBasicHash.c:1427-1437 | at that limit the last key is stored as a substitute word and reads back as all ones |
| `HashOrdered.RemoveIntValueAndDec` | CF-1151.16/CFBasicHash.c:1445-1465 | removes the key at position i, and all others keep their order |
| `HashRuns.GetCount` | CF-1151.16/CFBasicHash.c:931-941 | the size of the multiset, modulo the width of the sum |
| `HashRuns.GetElements` | CF-1151.16/CFBasicHash.c:1019-1033 | lists as many occurrences as fit, never more of a key than the table holds, all of them when they fit, each with the value of its key |
| `HashRuns.AreEqual` | CF-1151.16/CFBasicHash.c:971-989 | the result for all tables, wrapped totals included; for tables of one kind whose totals do not wrap, true exactly when they hold the same keys, values and counts |
| `HashRuns.Contained` | CF-1151.16/CFBasicHash.c:991-1002 | the early stop after the last live bucket misses nothing |
| `HashRuns.Run` | CF-1151.16/CFBasicHash.c:1062-1411 | any run of add, replace, set, remove, set-capacity and remove-all, of any length, up to the first operation that ends the program: used_buckets is the number of live buckets and of entries and within capacity, deleted is the number of tombstones and below a quarter, and the entries are those of the same run on a map, where each operation changes exactly the keys, values and counts that it says; a run that has sizes for its new keys and capacities goes through |
| `BinaryHeap.UpStep` | CF-1151.16/CFBinaryHeap.c:384-390 | moving the hole up keeps the rest of the heap in order |
| `BinaryHeap.DownStep` | CF-1151.16/CFBinaryHeap.c:415-428 | moving the hole down to the lesser child keeps the rest of the heap in order |
| `BinaryHeap.FirstIsMinimum` | CF-1151.16/CFBinaryHeap.c:308-312 | the first item of a heap is a minimum |
| `BinaryHeap.SiftUp` | CF-1151.16/CFBinaryHeap.c:367-396 | the loop leaves a heap with exactly the value added |
| `BinaryHeap.SiftDown` | CF-1151.16/CFBinaryHeap.c:398-430 | the loop leaves a heap with exactly the first item gone |
| `BinaryHeap.Heap.constructor` | CF-1151.16/CFBinaryHeap.c:212-260 | a new heap is empty and valid |
| `BinaryHeap.Heap.Grow` | CF-1151.16/CFBinaryHeap.c:355-365 | room for one more, same items |
| `BinaryHeap.Heap.AddValue` | CF-1151.16/CFBinaryHeap.c:367-396 | keeps heap order and count within capacity, and adds exactly the value |
| `BinaryHeap.Heap.GetMinimumIfPresent` | CF-1151.16/CFBinaryHeap.c:314-319 | returns a minimum exactly when there is one |
| `BinaryHeap.Heap.RemoveMinimumValue` | CF-1151.16/CFBinaryHeap.c:398-430 | removes exactly one occurrence of a minimum; an empty heap stays empty |
| `BinaryHeap.CreateCopy` | CF-1151.16/CFBinaryHeap.c:266-269 | a separate heap with the same multiset of items |
| `BinaryHeap.GetValues` | CF-1151.16/CFBinaryHeap.c:321-337 | an ascending permutation of the items, while the heap stays unchanged |
| `BinaryHeap.Run` | CF-1151.16/CFBinaryHeap.c:355-430 | any run of add and remove-minimum, up to an item too many: heap order and capacity are kept, and each step changes the multiset by exactly the value or a minimum |
| `BigNumber.FirstDifference` | CF-1151.16/CFBigNumber.c:416-445 | the most significant difference decides, for digits below the base |
| `BigNumber.DigitsUnique` | CF-1151.16/CFBigNumber.c:540-571 | numbers with digits below the base are equal only digit by digit |
| `BigNumber.CompareDigits` | CF-1151.16/CFBigNumber.c:435-445 | the loop from the top reports less, greater or equal exactly as the magnitudes are |
| `BigNumber.Compare` | CF-1151.16/CFBigNumber.c:416-431 | agrees with the order of the integers exactly when the operands are not the two zeros of different sign |
| `BigNumber.Neg` | CF-1151.16/CFBigNumber.c:448-463 | negates the value; zero keeps its sign; works in place |
| `BigNumber.AddDigits` | CF-1151.16/CFBigNumber.c:465-482 | sum of magnitudes with the carry at weight 10^45; digits are at most 10^9, and exactly those are 10^9 whose sum fills the digit |
| `BigNumber.FilledDigitExample` | CF-1151.16/CFBigNumber.c:471 | half the base twice gives a digit of 10^9 |
| `BigNumber.SubtractDigits` | CF-1151.16/CFBigNumber.c:483-505 | difference of magnitudes with no borrow at the end and digits below the base |
| `BigNumber.Add` | CF-1151.16/CFBigNumber.c:465-509 | signed values add up to the result plus its carry at weight 10^45; when the result is a negative zero, and exactly when all its digits are below the base; r may be an operand |
| `BigNumber.TwoZerosExample` | CF-1151.16/CFBigNumber.c:416-509 | 7 - 7 and -7 + 7 are zeros of different sign that compare as different |
| `BigNumber.Sub` | CF-1151.16/CFBigNumber.c:511-515 | the same for the difference, with the sign that negation gives the second operand |
| `BigNumber.InitWithInt64` | CF-1151.16/CFBigNumber.c:122-135 | exact on all of int64, the least one included, whose negation wraps around; digits below the base and an unsigned zero |
| `BigNumber.InitWithInt128` | CF-1151.16/CFBigNumber.c:138-157 | the same on all of int128 |
| `BigNumber.GetInt64` | CF-1151.16/CFBigNumber.c:236-244 | exact whenever the value is an int64, the least one included, in spite of wrap-around |
| `BigNumber.GetInt128` | CF-1151.16/CFBigNumber.c:247-257 | the same for int128 |
| `BigNumberText.SignificantDigits` | CF-1151.16/CFBigNumber.c:518-538 | which texts denote numbers below a power of ten |
| `BigNumberText.Print45Dec` | CF-1151.16/CFBigNumber.c:526-527 | the padded digits denote the magnitude |
| `BigNumberText.NumeralUnique` | CF-1151.16/CFBigNumber.c:518-538 | digits without a zero in front are the numeral of the number they denote |
| `BigNumberText.PadUnique` | CF-1151.16/CFBigNumber.c:526-527 | any digits are the padded form of the number they denote |
| `BigNumberText.PrintedText` | CF-1151.16/CFBigNumber.c:528-537 | what is printed behind the sign is the numeral of the magnitude, of which a short buffer keeps the first characters, or with leading zeros its last places padded to the room |
| `BigNumberText.PrintedValue` | CF-1151.16/CFBigNumber.c:528-537 | the printed text denotes the magnitude exactly when its significant digits fit |
| `BigNumberText.ShortBufferExample` | CF-1151.16/CFBigNumber.c:528-537 | 12 with room for one digit is printed as another number |
| `BigNumberText.ToCString` | CF-1151.16/CFBigNumber.c:518-538 | a minus sign, a plus sign where asked for, or none; then the numeral of the magnitude, "0" for zero, cut at its end when the buffer is short, or with leading zeros exactly as many last places as there is room for |
| `BigNumberText.FromCString` | CF-1151.16/CFBigNumber.c:540-571 | digits below the base with the value of the text, and its sign |
| `BigNumberText.PrintThenParse` | CF-1151.16/CFBigNumber.c:518-571 | parsing the printed form gives the same sign, and the same digits exactly when they fit in the buffer |
| `BitBuckets.MaskBits` | CF-1151.16/CFBitVector.c:107-113 | the shifted mask has exactly the bits from bottom to top |
| `BitBuckets.MergeBits` | CF-1151.16/CFBitVector.c:298-299 | merging under a mask takes each bit from the right word |
| `BitBuckets.MappedBits` | CF-1151.16/CFBitVector.c:448-484 | what each mapper does to each bit |
| `BitBuckets.NibblesCount` | CF-1151.16/CFBitVector.c:323-333 | two table lookups count the bits of a bucket |
| `BitBuckets.WantedCount` | CF-1151.16/CFBitVector.c:323-333 | the masked bits counted are those of the range with the value |
| `BitBuckets.ExtendRange` | CF-1151.16/CFBitVector.c:284-316 | mapping one bucket under a mask extends the mapped range by exactly those bits |
| `BitBuckets.CountMapper` | CF-1151.16/CFBitVector.c:323-333 | adds the number of wanted bits to the context |
| `BitVector.InternalMap` | CF-1151.16/CFBitVector.c:284-316 | maps exactly the bits of the range, counts exactly those with the value, and changes no other bit |
| `BitVector.CountMapsNothing` | CF-1151.16/CFBitVector.c:335-344 | the counting map leaves every bucket as it was |
| `BitVector.MutableBitVector.SetBits` | CF-1151.16/CFBitVector.c:501-511 | sets exactly the range |
| `BitVector.MutableBitVector.FlipBits` | CF-1151.16/CFBitVector.c:486-492 | flips exactly the range |
| `BitVector.MutableBitVector.GetCountOfBit` | CF-1151.16/CFBitVector.c:335-344 | the number of bits with the value, with the vector unchanged |
| `BitVector.MutableBitVector.GetBitAtIndex` | CF-1151.16/CFBitVector.c:352-356 | the bit at the index |
| `BitVector.MutableBitVector.SetBitAtIndex` | CF-1151.16/CFBitVector.c:494-499 | sets one bit |
| `BitVector.MutableBitVector.FlipBitAtIndex` | CF-1151.16/CFBitVector.c:475-480 | flips one bit |
| `BitVector.MutableBitVector.Grow` | CF-1151.16/CFBitVector.c:437-446 | room for the new count, old bits kept |
| `BitVector.MutableBitVector.SetCount` | CF-1151.16/CFBitVector.c:456-473 | old bits kept and new bits zero, or the vector cut, whatever the storage held |
| `BitVector.MutableBitVector.SetAllBits` | CF-1151.16/CFBitVector.c:513-528 | every bit has the value |

## Left out

- Key-path filtered decoding, mutable decode modes and the keyed dictionary lookup of `CFBinaryPList.c`: they are dominated by string encodings and key splitting that are not part of this model.
- I/O errors while writing: the stream takes every byte in the end, in parts of any size.
- Uniqueness and order inside the dictionaries and sets that a decode creates: a decoded dictionary or set is the list of members handed to its constructor.
- Floating-point numbers and dates are their bit patterns.
- The constructors of data, strings, numbers, dates and UIDs, which are taken to succeed for every size, memory that cannot be allocated, and the depth of the machine stack. Of the constructors of arrays, sets and dictionaries only the limits on the number of members are modelled.
- The estimate with which a caller may size the collections of the writer in advance.
- PlistRoundTrip.RoundTrip: covers graphs that list at most 2^30 - 2^13 + 1 objects in files whose length is a CFIndex, because the object list is an array that cannot be appended to beyond that.
- PlistFlatten.Flattener.Flatten: keeps the object list as a sequence; the limit of the array behind it is part of what the results about whole files ask for.
- Objects whose address is one of the two substitute words, which the object table of the writer would refuse.
- Lenient and decomposition flags of the converters, the 8-bit code pages, and the cases for sequences of five and six bytes, which the strict decoder cannot reach.
- ArrayDeque.MutableArray.ReplaceValues: asks, where a reallocation is due, that the new count and its spare buckets stay below 2^30, because the capacity is a shift of an int; all results of fewer than 2^30 - 2^13 values qualify.
- ArrayOrder.BSearchValues: is stated for ranges of fewer than 2^31 values, because the probe distance is a shift of an int.
- ArrayDeque.RoundUpCapacity: is stated for capacities below 2^30, because the shift of an int is not defined beyond.
- `_CFArraySetCapacity` on an existing deque, the general sort `CFQSortArray` that is not part of this model, and arrays that are not mutable.
- HashTable.BasicHash.AddValue: asks, where a rehash is due, for a table size to be left; beyond 2003267722 entries (3241355160 where the table does not grow fast) the size table has no further row.
- HashOrdered.AddIntValueAndInc: is stated for tables that store keys apart from values.
- HashOrdered.RemoveIntValueAndDec: is stated for a position that is occupied by a key held once, which is what the source relies on.
- HashRuns.AreEqual: compares values as words.
- HashRuns.GetElements: returns the elements instead of filling two buffers of the caller.
- Double and exponential probing, indirect keys, cached hash codes, custom equality callbacks, the mutation counter, write barriers and memory counters of `CFBasicHash.c`; retain and release of its keys and values.
- `__CFBinaryHeapEqual`, retain and release of heap items, and applying a function to a heap. Pointer order, used when there is no comparison callback, is one of the comparators.
- BinaryHeap.Heap.AddValue: is stated for fewer than 2^30 items, because the capacity is a shift of an int.
- BigNumber.InitWithInt64: takes the signed negation of the least integer, which C leaves undefined, to wrap around; the narrower and the unsigned forms would only repeat it.
- BigNumberText.ToCString: returns the string instead of writing it in front of a zero byte in the caller's buffer, and asks for room for the sign and the zero byte.
- BigNumberText.FromCString: is stated for an optional sign and decimal digits, of which at most 45 are significant; other text depends on the number parser of the C library.
- `_CFNumberCreateWithBigNum`: creation of number objects is not part of this model.
- `CFBitVectorGetBits` and `__CFBitVectorEqual`, and the searches for a first or last bit.
- `CFApplicationPreferences.c`, `CFBag.c`, the bundle files and the remaining headers: files, loading, locks, allocation and thin wrappers.
