/**
 What the collections behind the reader do not take: two words as keys, more
 entries than the largest table holds, and arrays whose block size does not fit in
 32 bits. A decode that meets one of these does not come to an end.
 */
module PlistLimits {
  import opened Machine
  import opened Plist
  import opened PlistReader
  import opened PlistDecode
  import HashTable
  import HashSizes

  /** A result; or the end of the program, by a HALT or by what C leaves undefined. */
  datatype Outcome<+T> = Halt | Done(result: Option<T>)

  // ----- one collection -----

  /** The words that the hash table behind a dictionary or a set does not take as keys. */
  predicate Substitute(off: nat) {
    off == HashTable.SUB_ZERO || off == HashTable.SUB_ONE
  }

  /** A dictionary or set can be made to hold n entries, at once or one by one. */
  predicate TableTakes(n: nat) {
    HashTable.Room(0, n, false)
  }

  lemma TableTakesFewer(m: nat, n: nat)
    requires m <= n && TableTakes(n)
    ensures TableTakes(m)
  {
    hide HashSizes.CapacityAt;
  }

  lemma LargestTable(n: nat)
    ensures TableTakes(n) <==> n <= 3241355160
  {
  }

  /** The 32-bit size of the block that __CFArrayCreateTransfer allocates for n values. */
  function TransferBlock(n: nat): nat {
    (32 + 8 * n) % TWO32
  }

  /** The first length for which it is not the size that is written. */
  const ARRAY_LIMIT: nat := 0x1FFF_FFFC

  lemma TransferBlockFits(n: nat)
    ensures TransferBlock(n) == 32 + 8 * n <==> n < ARRAY_LIMIT
  {
  }

  /** The container can be created from this many references. */
  predicate Creatable(kind: Kind, n: nat) {
    match kind
    case KArray => TransferBlock(n) == 32 + 8 * n
    case KSet => TableTakes(n)
    case KDict => TableTakes(n / 2)
  }

  // ----- what a decode runs into -----

  /** The values CreateObject never enters in the object table. */
  predicate Unlisted(v: Value) {
    v.VNull? || v.VBool?
  }

  /** An object that is entered in the object table. */
  predicate Listed(file: File, off: nat) {
    off in file && (file[off].Leaf? ==> !Unlisted(file[off].value))
  }

  /** An object that cannot be entered, or cannot be created. */
  predicate Refused(file: File, off: nat) {
    && Listed(file, off)
    && (Substitute(off) || (file[off].Refs? && !Creatable(file[off].kind, |file[off].offsets|)))
  }

  /** Decoding `off` has to get past a refused object. */
  ghost predicate Trips(file: File, off: nat) {
    exists s: nat :: Refused(file, s) && Reaches(file, off, s)
  }

  lemma TripsSelf(file: File, off: nat)
    requires Refused(file, off)
    ensures Trips(file, off)
  {
    ReachesSelf(file, off);
  }

  lemma TripsParent(file: File, off: nat, c: nat)
    requires Edge(file, off, c) && Trips(file, c)
    ensures Trips(file, off)
  {
    var s: nat :| Refused(file, s) && Reaches(file, c, s);
    ReachesStep(file, off, c, s);
  }

  /** An object trips only over itself or through a reference. */
  lemma TripsNowhere(file: File, off: nat)
    requires !Refused(file, off)
    requires forall c :: Edge(file, off, c) ==> !Trips(file, c)
    ensures !Trips(file, off)
  {
    forall s: nat | Refused(file, s) ensures !Reaches(file, off, s) {
      ReachSplit(file, off, s);
    }
  }

  /** The objects that decoding `off` enters in the object table. */
  ghost function ListedReach(file: File, off: nat): set<nat> {
    set o | o in file.Keys && Listed(file, o) && Reaches(file, off, o)
  }

  lemma ListedReachChild(file: File, off: nat, c: nat)
    requires Edge(file, off, c)
    ensures ListedReach(file, c) <= ListedReach(file, off)
  {
    forall o | o in ListedReach(file, c) ensures o in ListedReach(file, off) {
      ReachesStep(file, off, c, o);
    }
  }

  lemma ListedReachSelf(file: File, off: nat)
    requires Listed(file, off)
    ensures off in ListedReach(file, off)
  {
    ReachesSelf(file, off);
  }

  /** What is entered for a container: itself, and what is entered for its references. */
  lemma ListedReachSplit(file: File, off: nat, keys: set<nat>)
    requires off in keys && forall c :: Edge(file, off, c) ==> ListedReach(file, c) <= keys
    ensures ListedReach(file, off) <= keys
  {
    forall o | o in ListedReach(file, off) ensures o in keys {
      ReachSplit(file, off, o);
      if o != off {
        var c :| Edge(file, off, c) && Reaches(file, c, o);
        assert o in ListedReach(file, c);
      }
    }
  }

  lemma LeafReach(file: File, off: nat)
    requires off in file && file[off].Leaf?
    ensures ListedReach(file, off) == if Listed(file, off) then {off} else {}
  {
    ReachesSelf(file, off);
    forall o | o in ListedReach(file, off) ensures o == off {
      ReachSplit(file, off, o);
    }
  }

  function PathSet(path: Path): set<nat> {
    if path.Some? then path.value else {}
  }

  /**
   A decode of `off` ends the program: it trips, or the object table or the path set
   would have to hold more than any table can.
   */
  ghost predicate Ends(file: File, keys: set<nat>, path: Path, off: nat, useTable: bool) {
    || Trips(file, off)
    || (useTable && !TableTakes(|keys + ListedReach(file, off)|))
    || !TableTakes(|PathSet(path) + ListedReach(file, off)|)
  }

  lemma MoreThanFits(small: set<nat>, big: set<nat>)
    requires small <= big && !TableTakes(|small|)
    ensures !TableTakes(|big|)
  {
    hide TableTakes;
    SubsetSize(small, big);
    if TableTakes(|big|) {
      TableTakesFewer(|small|, |big|);
    }
  }

  /** What ends the decode of a reference ends the decode of the container. */
  lemma EndsParent(file: File, keys: set<nat>, path: Path, depth: nat, off: nat, c: nat, keys': set<nat>, useTable: bool)
    requires IsContainer(file, off) && Edge(file, off, c) && keys' <= keys + ListedReach(file, off)
    requires Ends(file, keys', Extend(path, depth, off), c, useTable)
    ensures Ends(file, keys, path, off, useTable)
  {
    var up, down := ListedReach(file, off), ListedReach(file, c);
    ListedReachChild(file, off, c);
    ListedReachSelf(file, off);
    hide ListedReach, TableTakes, Trips;
    if Trips(file, c) {
      TripsParent(file, off, c);
    } else if useTable && !TableTakes(|keys' + down|) {
      MoreThanFits(keys' + down, keys + up);
    } else {
      MoreThanFits(PathSet(Extend(path, depth, off)) + down, PathSet(path) + up);
    }
  }

  /** A full table or path set ends the decode of an object that is new to it. */
  lemma EndsFull(file: File, keys: set<nat>, path: Path, off: nat, now: set<nat>, useTable: bool)
    requires Listed(file, off) && off !in now && !TableTakes(|now| + 1)
    requires (useTable && now <= keys + ListedReach(file, off)) || now <= PathSet(path) + ListedReach(file, off)
    ensures Ends(file, keys, path, off, useTable)
  {
    ListedReachSelf(file, off);
    assert |now + {off}| == |now| + 1;
    hide ListedReach, TableTakes, Trips;
    if useTable && now <= keys + ListedReach(file, off) {
      MoreThanFits(now + {off}, keys + ListedReach(file, off));
    } else {
      MoreThanFits(now + {off}, PathSet(path) + ListedReach(file, off));
    }
  }

  /** Files whose objects end before the smaller word, and before the first array that is too long, cannot trip. */
  lemma SmallFilesTripNowhere(img: Image, t: Trailer, off: nat)
    requires Trusted(img, t) && t.offsetTableOffset <= ARRAY_LIMIT
    ensures !Trips(ObjectsOf(img, t), off)
  {
    hide Trusted, ParseAt, Reaches, Creatable;
    forall s: nat ensures !Refused(ObjectsOf(img, t), s) {
      if s in ObjectsOf(img, t) && ObjectsOf(img, t)[s].Refs? {
        ShortContainer(img, t, s);
      }
    }
  }

  lemma ShortContainer(img: Image, t: Trailer, off: nat)
    requires Trusted(img, t) && t.offsetTableOffset <= ARRAY_LIMIT
    requires ParseAt(img, t, off).Some? && ParseAt(img, t, off).value.Refs?
    ensures Creatable(ParseAt(img, t, off).value.kind, |ParseAt(img, t, off).value.offsets|)
  {
    var kind, n := ParseAt(img, t, off).value.kind, |ParseAt(img, t, off).value.offsets|;
    ContainerRefs(img, t, off);
    ReferencesInside(img, t, off, if kind.KDict? then 2 else 1);
    TransferBlockFits(n);
    LargestTable(n);
    LargestTable(n / 2);
    hide ParseAt, Trusted, TableTakes, TransferBlock;
  }

  /** References take up at least one byte each. */
  lemma ReferencesInside(img: Image, t: Trailer, off: nat, groups: nat)
    requires Trusted(img, t) && off < t.offsetTableOffset && 1 <= groups <= 2
    ensures ParseRefs(img, t, off, groups).Some? ==> |ParseRefs(img, t, off, groups).value| < t.offsetTableOffset
  {
    var c := ReadCount(img, t, off);
    hide ReadCount, TrailerFits, TableOk;
    if ParseRefs(img, t, off, groups).Some? {
      var n := |ParseRefs(img, t, off, groups).value|;
      OneByteEach(n, t.objectRefSize);
      AtLeastOneByte(img, t);
    }
  }

  lemma OneByteEach(n: nat, size: nat)
    requires size >= 1
    ensures n <= Slot(0, n, size)
  {
    assert n * size == n + n * (size - 1);
  }

  lemma AtLeastOneByte(img: Image, t: Trailer)
    requires Trusted(img, t)
    ensures t.objectRefSize >= 1
  {
  }
}
