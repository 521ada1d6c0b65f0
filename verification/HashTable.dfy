/**
 The mutable storage of CFBasicHash.c: raw value, key and count words in parallel
 arrays, linear probing, tombstones, rehashing and count widening.
 */
module HashTable {
  import opened Machine
  import opened HashSlots
  import opened HashModel
  import opened HashSizes

  // ----- raw words -----

  const SUB_ZERO: Word := 0xa7baadb1
  const SUB_ONE: Word := 0xa5baadb9

  /** Words that may be stored: the two substitutes themselves may not. */
  predicate Storable(w: Word) {
    w != SUB_ZERO && w != SUB_ONE
  }

  function Packed(w: Word): Word {
    if w == 0 then SUB_ZERO else if w == MAX_WORD then SUB_ONE else w
  }

  function Unpacked(raw: Word): Word {
    if raw == SUB_ZERO then 0 else if raw == SUB_ONE then MAX_WORD else raw
  }

  /** The words 0 and ~0 mark free buckets, and packing keeps stored words apart from both. */
  lemma PackedRoundTrip(w: Word)
    ensures Packed(w) != 0 && Packed(w) != MAX_WORD && Packed(0) == 0xa7baadb1 && Packed(MAX_WORD) == 0xa5baadb9
    ensures Unpacked(Packed(w)) == w <==> Storable(w)
    ensures Storable(Unpacked(w))
  {
  }

  function SlotOf(value: Word, key: Word, count: nat): Slot {
    if value == 0 then Empty else if value == MAX_WORD then Tombstone
    else Live(Unpacked(key), Entry(Unpacked(value), count))
  }

  /** The largest count that a width stores: INT8_MAX, INT16_MAX, INT32_MAX or INT64_MAX. */
  function WidthMax(width: nat): (n: nat)
    ensures n <= LONG_MAX
  {
    if width == 0 then 0x7F else if width == 1 then 0x7FFF else if width == 2 then 0x7FFF_FFFF else LONG_MAX
  }

  /** The raw words v, k and c store the slots s. */
  ghost predicate Mirrors(v: seq<Word>, k: seq<Word>, c: seq<Word>, s: seq<Slot>, hasKeys: bool, hasCounts: bool, width: nat) {
    && |v| == |s| && |k| == (if hasKeys then |s| else 0) && |c| == (if hasCounts then |s| else 0)
    && (forall i :: 0 <= i < |s| ==> s[i] == SlotOf(v[i], if hasKeys then k[i] else v[i], if hasCounts then c[i] else 1))
    && (hasKeys ==> forall i :: 0 <= i < |s| ==> (k[i] == 0 <==> v[i] == 0) && (k[i] == MAX_WORD <==> v[i] == MAX_WORD))
    && (hasCounts ==> forall i :: 0 <= i < |s| ==> c[i] <= WidthMax(width) && (!s[i].Live? ==> c[i] == 0))
  }

  lemma ZeroMirrors(v: seq<Word>, k: seq<Word>, c: seq<Word>, s: seq<Slot>, hasKeys: bool, hasCounts: bool, width: nat)
    requires |v| == |s| && |k| == (if hasKeys then |s| else 0) && |c| == (if hasCounts then |s| else 0)
    requires forall i :: 0 <= i < |s| ==> s[i] == Empty && v[i] == 0
    requires forall i :: 0 <= i < |k| ==> k[i] == 0
    requires forall i :: 0 <= i < |c| ==> c[i] == 0
    ensures Mirrors(v, k, c, s, hasKeys, hasCounts, width)
  {
  }

  method CopyWords(a: array<Word>) returns (b: array<Word>)
    ensures fresh(b) && b[..] == a[..]
  {
    b := new Word[a.Length](_ => 0);
    for i := 0 to a.Length
      invariant b[..i] == a[..i]
    {
      b[i] := a[i];
    }
    assert b[..] == a[..];
  }

  method ZeroWords(n: nat) returns (a: array<Word>)
    ensures fresh(a) && |a[..]| == n && forall i :: 0 <= i < n ==> a[..][i] == 0
  {
    a := new Word[n](_ => 0);
  }

  function Recounted(s: seq<Slot>, b: nat, count: nat): seq<Slot>
    requires b < |s| && s[b].Live?
  {
    s[b := Live(s[b].key, Entry(s[b].entry.value, count))]
  }

  class BasicHash {
    const hash: Hash
    const hasKeys: bool
    const hasCounts: bool
    const fastGrow: bool

    var numBucketsIdx: nat
    var used: nat
    var deleted: nat
    var width: nat
    var values: array<Word>
    var keys: array<Word>
    var counts: array<Word>

    ghost var slots: seq<Slot>
    ghost var entries: Table

    ghost predicate Shaped()
      reads this`values, this`keys, this`counts, this`slots, this`width, values, keys, counts
    {
      && values != keys && values != counts && keys != counts
      && width <= 3
      && Mirrors(values[..], keys[..], counts[..], slots, hasKeys, hasCounts, width)
    }

    /** Everything but the tombstone accounting. */
    ghost predicate Core()
      reads this, values, keys, counts
    {
      && Shaped()
      && numBucketsIdx <= LARGEST && |slots| == SizeAt(numBucketsIdx)
      && Sound(slots, hash, entries) && Counted(entries, hasCounts)
      && used == LiveCount(slots) <= CapacityAt(numBucketsIdx)
    }

    ghost predicate Valid()
      reads this, values, keys, counts
    {
      && Core()
      && deleted == TombCount(slots) < 0x1_0000
      && (20 <= |slots| ==> deleted < |slots| / 4)
    }

    constructor (hash: Hash, hasKeys: bool, hasCounts: bool, fastGrow: bool)
      ensures Valid() && entries == map[]
      ensures this.hash == hash && this.hasKeys == hasKeys && this.hasCounts == hasCounts && this.fastGrow == fastGrow
      ensures fresh(values) && fresh(keys) && fresh(counts)
    {
      this.hash, this.hasKeys, this.hasCounts, this.fastGrow := hash, hasKeys, hasCounts, fastGrow;
      numBucketsIdx, used, deleted, width := 0, 0, 0, 0;
      values, keys, counts := new Word[0], new Word[0], new Word[0];
      slots, entries := [], map[];
      new;
      SizeRange(0);
      CapacityFits(0);
    }

    // ----- one bucket -----

    /** __CFBasicHashSetValue and __CFBasicHashSetKey. */
    method Fill(b: nat, key: Word, value: Word)
      requires Shaped() && b < |slots| && Storable(key) && Storable(value) && (hasKeys || key == value)
      modifies this`slots, values, keys
      ensures Shaped()
      ensures slots == old(slots)[b := Live(key, Entry(value, RawCount(old(slots[b]), hasCounts)))]
    {
      PackedRoundTrip(key);
      PackedRoundTrip(value);
      ghost var v, k := values[..], keys[..];
      values[b] := Packed(value);
      if hasKeys {
        keys[b] := Packed(key);
      }
      slots := slots[b := Live(key, Entry(value, RawCount(slots[b], hasCounts)))];
      assert values[..] == v[b := Packed(value)];
      assert keys[..] == if hasKeys then k[b := Packed(key)] else k;
    }

    /** Leaves a tombstone for a key that is held once. */
    method Bury(b: nat)
      requires Shaped() && b < |slots| && slots[b].Live? && slots[b].entry.count == 1
      modifies this`slots, values, keys, counts
      ensures Shaped()
      ensures slots == old(slots)[b := Tombstone]
    {
      ghost var v, k, c := values[..], keys[..], counts[..];
      values[b] := MAX_WORD;
      if hasKeys {
        keys[b] := MAX_WORD;
      }
      if hasCounts {
        counts[b] := counts[b] - 1;
      }
      slots := slots[b := Tombstone];
      assert values[..] == v[b := MAX_WORD];
      assert keys[..] == if hasKeys then k[b := MAX_WORD] else k;
      assert counts[..] == if hasCounts then c[b := 0] else c;
    }

    method SetSlotCount(b: nat, count: Word)
      requires Shaped() && hasCounts && b < |slots| && slots[b].Live? && count <= WidthMax(width)
      modifies this`slots, counts
      ensures Shaped()
      ensures slots == Recounted(old(slots), b, count)
    {
      ghost var c := counts[..];
      counts[b] := count;
      slots := slots[b := Live(slots[b].key, Entry(slots[b].entry.value, count))];
      assert counts[..] == c[b := count];
    }

    /** __CFBasicHashBumpCounts: moves the counts to the next wider store. */
    method BumpCounts()
      requires Shaped() && hasCounts && width < 3
      modifies this`width, this`counts
      ensures Shaped() && width == old(width) + 1 && fresh(counts)
    {
      var wide := CopyWords(counts);
      counts := wide;
      width := width + 1;
    }

    /** __CFBasicHashIncSlotCount: widens as often as the count needs it. */
    method IncSlotCount(b: nat)
      requires Shaped() && hasCounts && b < |slots| && slots[b].Live? && slots[b].entry.count < LONG_MAX
      modifies this`slots, this`width, this`counts, counts
      ensures Shaped() && (counts == old(counts) || fresh(counts)) && old(width) <= width
      ensures slots == Recounted(old(slots), b, old(slots[b].entry.count) + 1)
      decreases 3 - width
    {
      if counts[b] < WidthMax(width) {
        SetSlotCount(b, counts[b] + 1);
      } else {
        BumpCounts();
        IncSlotCount(b);
      }
    }

    // ----- probing -----

    /** ___CFBasicHashFindBucket_Linear: the key's bucket and count, else the first tombstone passed, else the empty bucket reached. */
    method FindBucket(key: Word) returns (b: int, count: nat)
      requires Core()
      ensures Found(slots, hash, key, b, count > 0)
      ensures count == CountOf(entries, key)
    {
      SizeRange(numBucketsIdx);
      hide LiveCount, SizeAt, CapacityAt;
      if numBucketsIdx == 0 {
        return -1, 0;
      }
      b, count := Probe(key);
    }

    method Probe(key: Word) returns (b: int, count: nat)
      requires Shaped() && |slots| > 0 && Sound(slots, hash, entries) && Counted(entries, hasCounts)
      ensures Found(slots, hash, key, b, count > 0)
      ensures count == CountOf(entries, key)
    {
      ghost var s := slots;
      hide Chained, LiveCount, Unique, Passed, Insertable;
      var n := values.Length;
      var h := Home(hash, key, n);
      var deletedIdx := -1;
      ghost var deletedAt := 0;
      var probe := h;
      var idx := 0;
      PassedNone(s, hash, key);
      while idx < n
        invariant idx <= n && (idx < n ==> probe == At(h, idx, n)) && Passed(s, hash, key, idx)
        invariant deletedIdx == -1 ==> forall e :: 0 <= e < idx ==> s[At(h, e, n)].Live?
        invariant deletedIdx != -1 ==> 0 <= deletedAt < idx && deletedIdx == At(h, deletedAt, n) && s[deletedIdx].Tombstone?
      {
        var raw := if hasKeys then keys[probe] else values[probe];
        if raw == 0 {
          MissAtEmpty(s, hash, key, idx);
          b := if deletedIdx == -1 then probe else deletedIdx;
          PassedFewer(s, hash, key, idx, deletedAt);
          FreeBucket(s, hash, key, if deletedIdx == -1 then idx else deletedAt);
          return b, 0;
        } else if raw == MAX_WORD {
          if deletedIdx == -1 {
            deletedIdx := probe;
            deletedAt := idx;
          }
        } else if Unpacked(raw) == key {
          assert Holds(s, probe, key);
          return probe, if hasCounts then counts[probe] else 1;
        }
        PassedOne(s, hash, key, idx);
        probe := probe + 1;
        if n <= probe {
          probe := probe - n;
        }
        idx := idx + 1;
      }
      MissAtEnd(s, hash, key);
      if deletedIdx == -1 {
        AllLive(s, h);
      } else {
        PassedFewer(s, hash, key, n, deletedAt);
        FreeBucket(s, hash, key, deletedAt);
      }
      return deletedIdx, 0;
    }

    /** ___CFBasicHashFindBucket_Linear_NoCollision: the first empty bucket, in a table without tombstones. */
    method FindBucketNoCollision(key: Word) returns (b: nat)
      requires Shaped() && LiveCount(slots) < |slots| && TombCount(slots) == 0
      ensures b < |slots| && Insertable(slots, hash, key, b) && slots[b].Empty?
    {
      ghost var s := slots;
      NoTombs(s);
      hide LiveCount, TombCount;
      var n := values.Length;
      var h := Home(hash, key, n);
      b := h;
      var idx := 0;
      while idx < n
        invariant idx <= n && (idx < n ==> b == At(h, idx, n))
        invariant forall e :: 0 <= e < idx ==> s[At(h, e, n)].Live?
      {
        if (if hasKeys then keys[b] else values[b]) == 0 {
          AtDistance(h, idx, n);
          return;
        }
        b := b + 1;
        if n <= b {
          b := b - n;
        }
        idx := idx + 1;
      }
      AllLive(s, h);
      assert false;
    }

    // ----- rehashing -----

    /** The size a rehash moves to; newItemCount is how many entries are about to come, or -1 to shrink. */
    method NewIndex(newItemCount: int) returns (idx: nat)
      requires numBucketsIdx <= LARGEST && used <= CapacityAt(numBucketsIdx)
      requires Room(used, newItemCount, fastGrow)
      ensures idx <= LARGEST && used + newItemCount <= CapacityAt(idx) && used <= CapacityAt(idx)
      ensures Resized(numBucketsIdx, idx, used, newItemCount, fastGrow)
    {
      hide CapacityAt;
      idx := numBucketsIdx;
      if newItemCount != 0 {
        var more := if newItemCount < 0 then 0 else newItemCount;
        CapacityGrows(numBucketsIdx, LARGEST);
        CapacityGrows(LARGEST - 1, LARGEST);
        idx := IndexForCapacity(used + more);
        if more == 1 && fastGrow {
          assert used + more <= CapacityAt(LARGEST - 1);
          assert idx < LARGEST;
          CapacityStep(idx);
          idx := idx + 1;
        }
      }
    }

    /** Fresh storage of n empty buckets. */
    method Allocate(n: nat)
      requires width <= 3
      modifies this`values, this`keys, this`counts, this`slots, this`entries
      ensures Shaped() && fresh(values) && fresh(keys) && fresh(counts)
      ensures |slots| == n && Sound(slots, hash, entries) && entries == map[]
      ensures LiveCount(slots) == 0 && TombCount(slots) == 0
    {
      hide Sound, LiveCount, TombCount, Mirrors;
      values := ZeroWords(n);
      keys := ZeroWords(if hasKeys then n else 0);
      counts := ZeroWords(if hasCounts then n else 0);
      slots := seq(n, _ => Empty);
      entries := map[];
      CountEmpty(slots);
      EmptySound(slots, hash);
      ZeroMirrors(values[..], keys[..], counts[..], slots, hasKeys, hasCounts, width);
    }

    method Reinsert(key: Word, value: Word, count: Word)
      requires Shaped() && LiveCount(slots) < |slots| && TombCount(slots) == 0
      requires Sound(slots, hash, entries) && key !in entries
      requires Storable(key) && Storable(value) && (hasKeys || key == value)
      requires if hasCounts then count <= WidthMax(width) else count == 1
      modifies this`slots, this`entries, values, keys, counts
      ensures Shaped() && |slots| == |old(slots)|
      ensures Sound(slots, hash, entries) && entries == old(entries)[key := Entry(value, count)]
      ensures LiveCount(slots) == old(LiveCount(slots)) + 1 && TombCount(slots) == 0
    {
      hide Sound, LiveCount, TombCount, Insertable;
      ghost var s, m := slots, entries;
      var b := FindBucketNoCollision(key);
      PutSound(s, hash, m, b, key, Entry(value, count));
      CountUpdate(s, b, Live(key, Entry(value, count)));
      Fill(b, key, value);
      if hasCounts {
        SetSlotCount(b, count);
      }
      entries := entries[key := Entry(value, count)];
      assert slots == s[b := Live(key, Entry(value, count))];
    }

    /** __CFBasicHashRehash: the same entries in new storage without tombstones. */
    method Rehash(newItemCount: int)
      requires Core() && Room(used, newItemCount, fastGrow)
      modifies this`numBucketsIdx, this`deleted, this`values, this`keys, this`counts, this`slots, this`entries
      ensures Valid() && entries == old(entries) && TombCount(slots) == 0
      ensures fresh(values) && fresh(keys) && fresh(counts)
      ensures used + newItemCount <= CapacityAt(numBucketsIdx)
      ensures Resized(old(numBucketsIdx), numBucketsIdx, used, newItemCount, fastGrow)
    {
      hide Sound, LiveCount, TombCount, SizeAt, CapacityAt, Counted;
      ghost var was, m := slots, entries;
      var idx := NewIndex(newItemCount);
      CapacityFits(idx);
      var v, k, c := values, keys, counts;
      numBucketsIdx := idx;
      deleted := 0;
      Allocate(SizeAt(idx));
      CopyEntries(v, k, c, was, m);
    }

    /** The loop of __CFBasicHashRehash over the old storage v, k and c. */
    method CopyEntries(v: array<Word>, k: array<Word>, c: array<Word>, ghost was: seq<Slot>, ghost m: Table)
      requires Shaped() && Mirrors(v[..], k[..], c[..], was, hasKeys, hasCounts, width)
      requires {v, k, c} !! {values, keys, counts}
      requires Sound(slots, hash, entries) && entries == map[] && LiveCount(slots) == 0 && TombCount(slots) == 0
      requires Sound(was, hash, m) && LiveCount(was) <= |slots|
      modifies this`slots, this`entries, values, keys, counts
      ensures Shaped() && |slots| == old(|slots|) && Sound(slots, hash, entries) && entries == m
      ensures LiveCount(slots) == LiveCount(was) && TombCount(slots) == 0
    {
      hide Sound, LiveCount, TombCount;
      CopyNone(was, hash, m);
      for idx := 0 to v.Length
        invariant Shaped() && |slots| == old(|slots|) && Sound(slots, hash, entries) && TombCount(slots) == 0
        invariant Mirrors(v[..], k[..], c[..], was, hasKeys, hasCounts, width)
        invariant Copied(was, idx, entries) && LiveCount(slots) == LiveCount(was[..idx])
      {
        var value := v[idx];
        CopyStep(was, hash, m, idx, entries);
        if value != 0 && value != MAX_WORD {
          var key := Unpacked(if hasKeys then k[idx] else value);
          PackedRoundTrip(if hasKeys then k[idx] else value);
          PackedRoundTrip(value);
          Reinsert(key, Unpacked(value), if hasCounts then c[idx] else 1);
        }
      }
      CopyAll(was, hash, m, entries);
    }

    // ----- adding -----

    /** Fills a free bucket with a new key, held once. */
    method PutNew(b: nat, key: Word, value: Word)
      requires Shaped() && Sound(slots, hash, entries) && Insertable(slots, hash, key, b) && key !in entries
      requires Storable(key) && Storable(value) && (hasKeys || key == value)
      modifies this`slots, this`entries, this`width, this`counts, values, keys, counts
      ensures Shaped() && |slots| == |old(slots)| && (counts == old(counts) || fresh(counts))
      ensures Sound(slots, hash, entries) && entries == old(entries)[key := Entry(value, 1)]
      ensures LiveCount(slots) == old(LiveCount(slots)) + 1
      ensures TombCount(slots) == old(TombCount(slots)) - One(old(slots[b].Tombstone?))
    {
      hide Sound, LiveCount, TombCount;
      ghost var s := slots;
      PutSound(s, hash, entries, b, key, Entry(value, 1));
      CountUpdate(s, b, Live(key, Entry(value, 1)));
      Fill(b, key, value);
      if hasCounts {
        IncSlotCount(b);
      }
      entries := entries[key := Entry(value, 1)];
      assert slots == s[b := Live(key, Entry(value, 1))];
    }

    /** A new entry needs no rehash, or a size is left to rehash to. */
    predicate CanAdd()
      requires numBucketsIdx <= LARGEST
      reads this`numBucketsIdx, this`used
    {
      CapacityAt(numBucketsIdx) < used + 1 ==> Room(used, 1, fastGrow)
    }

    /** __CFBasicHashAddValue: b is where a probe for the missing key ended. */
    method AddBucket(b: int, key: Word, value: Word)
      requires Valid() && key !in entries && Found(slots, hash, key, b, false) && CanAdd()
      requires Storable(key) && Storable(value) && (hasKeys || key == value)
      modifies this, values, keys, counts
      ensures Valid() && entries == old(entries)[key := Entry(value, 1)] && used == old(used) + 1
      ensures fresh({values, keys, counts} - old({values, keys, counts}))
    {
      hide Sound, LiveCount, TombCount, SizeAt, CapacityAt, Mirrors, Counted;
      OperationsCounted(entries, hasCounts, key, value);
      var at := b;
      CapacityFits(numBucketsIdx);
      if CapacityAt(numBucketsIdx) < used + 1 {
        Rehash(1);
        CapacityFits(numBucketsIdx);
        at := FindBucketNoCollision(key);
      } else if IsDeleted(b) {
        TombstoneCounted(slots, b);
        deleted := deleted - 1;
      }
      PutNew(at, key, value);
      used := used + 1;
    }

    function NumBuckets(): (n: nat)
      requires Shaped()
      reads this`values, this`keys, this`counts, this`slots, this`width, values, keys, counts
      ensures n == |slots|
    {
      values.Length
    }

    predicate IsDeleted(b: nat)
      requires Shaped() && b < |slots|
      reads this`values, this`keys, this`counts, this`slots, this`width, values, keys, counts
      ensures IsDeleted(b) <==> slots[b].Tombstone?
    {
      values[b] == MAX_WORD
    }

    /** CFBasicHashAddValue: false only where the key is there and its count cannot grow. */
    method AddValue(key: Word, value: Word) returns (added: bool)
      requires Valid() && Storable(key) && Storable(value) && (hasKeys || key == value)
      requires key !in entries ==> CanAdd()
      modifies this, values, keys, counts
      ensures Valid() && entries == Added(old(entries), hasCounts, key, value) && used <= old(used) + 1
      ensures Adds(old(entries), entries, hasCounts, key, value)
      ensures added <==> entries != old(entries)
      ensures fresh({values, keys, counts} - old({values, keys, counts}))
    {
      AddedMeaning(entries, Added(entries, hasCounts, key, value), hasCounts, key, value);
      hide Sound, LiveCount, TombCount, Insertable, SizeAt, CapacityAt, Mirrors;
      OperationsCounted(entries, hasCounts, key, value);
      var b, count := FindBucket(key);
      if count > 0 {
        if hasCounts && count < LONG_MAX {
          SlotEntry(slots, hash, entries, b);
          SetEntry(b, Entry(entries[key].value, count + 1));
          IncSlotCount(b);
          return true;
        }
        return false;
      }
      AddBucket(b, key, value);
      return true;
    }

    /** What changing the entry of a live bucket does to the invariant; the raw words are changed by the caller. */
    ghost method SetEntry(b: nat, e: Entry)
      requires b < |slots| && slots[b].Live? && Sound(slots, hash, entries)
      modifies this`entries
      ensures entries == old(entries)[slots[b].key := e]
      ensures var s := slots[b := Live(slots[b].key, e)];
        Sound(s, hash, entries) && LiveCount(s) == LiveCount(slots) && TombCount(s) == TombCount(slots)
    {
      hide Sound, LiveCount, TombCount;
      SetSound(slots, hash, entries, b, e);
      CountUpdate(slots, b, Live(slots[b].key, e));
      entries := entries[slots[b].key := e];
    }

    // ----- replacing -----

    /** __CFBasicHashReplaceValue. */
    method ReplaceBucket(b: nat, key: Word, value: Word)
      requires Valid() && Holds(slots, b, key)
      requires Storable(key) && Storable(value) && (hasKeys || key == value)
      modifies this`slots, this`entries, values, keys
      ensures Valid() && key in old(entries) && entries == Replaced(old(entries), key, value)
    {
      hide Sound, LiveCount, TombCount, SizeAt, CapacityAt, Mirrors;
      SlotEntry(slots, hash, entries, b);
      SetEntry(b, Entry(value, entries[key].count));
      LiveRawCount(b);
      Fill(b, key, value);
    }

    lemma LiveRawCount(b: nat)
      requires Shaped() && b < |slots| && slots[b].Live?
      ensures RawCount(slots[b], hasCounts) == slots[b].entry.count
    {
    }

    /** CFBasicHashReplaceValue. */
    method ReplaceValue(key: Word, value: Word)
      requires Valid() && Storable(key) && Storable(value) && (hasKeys || key == value)
      modifies this`slots, this`entries, values, keys
      ensures Valid() && entries == Replaced(old(entries), key, value)
      ensures Replaces(old(entries), entries, key, value)
    {
      ReplacedMeaning(entries, Replaced(entries, key, value), key, value);
      hide Sound, LiveCount, TombCount, Insertable, SizeAt, CapacityAt, Mirrors;
      var b, count := FindBucket(key);
      if count > 0 {
        ReplaceBucket(b, key, value);
      }
    }

    /** CFBasicHashSetValue. */
    method SetValue(key: Word, value: Word)
      requires Valid() && Storable(key) && Storable(value) && (hasKeys || key == value)
      requires key !in entries ==> CanAdd()
      modifies this, values, keys, counts
      ensures Valid() && entries == Stored(old(entries), key, value) && used <= old(used) + 1
      ensures Sets(old(entries), entries, key, value)
      ensures fresh({values, keys, counts} - old({values, keys, counts}))
    {
      StoredMeaning(entries, Stored(entries, key, value), key, value);
      hide Sound, LiveCount, TombCount, Insertable, SizeAt, CapacityAt, Mirrors;
      var b, count := FindBucket(key);
      if count > 0 {
        ReplaceBucket(b, key, value);
      } else {
        AddBucket(b, key, value);
      }
    }

    // ----- removing -----

    /** The table is not much larger than its entries need. */
    ghost predicate Snug()
      reads this`numBucketsIdx, this`used
    {
      var slack := if fastGrow then 5 else 2;
      slack < numBucketsIdx <= LARGEST ==> CapacityAt(numBucketsIdx - slack) <= used
    }

    /** __CFBasicHashRemoveValue: a tombstone, then a rehash if the table became too large or too full of tombstones. */
    method RemoveBucket(b: nat)
      requires Valid() && b < |slots| && slots[b].Live? && slots[b].entry.count == 1
      modifies this, values, keys, counts
      ensures Valid() && Snug() && used == old(used) - 1
      ensures entries == old(entries) - {old(slots[b].key)}
      ensures fresh({values, keys, counts} - old({values, keys, counts}))
    {
      hide Sound, LiveCount, TombCount, SizeAt, CapacityAt, Shaped, Counted;
      TakeOut(b);
      CapacityGrows(numBucketsIdx, LARGEST);
      var slack := if fastGrow then 5 else 2;
      if slack < numBucketsIdx && used < CapacityAt(numBucketsIdx - slack) {
        Rehash(-1);
        return;
      }
      var numBuckets := SizeAt(numBucketsIdx);
      if deleted == 0 || (20 <= numBuckets && numBuckets / 4 <= deleted) {
        Rehash(0);
      }
    }

    /** The tombstone and the two counters; the 16-bit one may roll over. */
    method TakeOut(b: nat)
      requires Valid() && b < |slots| && slots[b].Live? && slots[b].entry.count == 1
      modifies this`slots, this`used, this`deleted, this`entries, values, keys, counts
      ensures Core() && used == old(used) - 1 && entries == old(entries) - {old(slots[b].key)} && |slots| == |old(slots)|
      ensures TombCount(slots) == old(deleted) + 1 && deleted == TombCount(slots) % 0x1_0000
    {
      hide Sound, LiveCount, TombCount, SizeAt, CapacityAt, Mirrors;
      RemoveSound(slots, hash, entries, b);
      CountUpdate(slots, b, Tombstone);
      ghost var key := slots[b].key;
      Bury(b);
      used := used - 1;
      deleted := (deleted + 1) % 0x1_0000;
      entries := entries - {key};
    }

    /** CFBasicHashRemoveValue: returns how often the key was held before. */
    method RemoveValue(key: Word) returns (was: nat)
      requires Valid()
      modifies this, values, keys, counts
      ensures Valid() && entries == Removed(old(entries), hasCounts, key) && used <= old(used)
      ensures Removes(old(entries), entries, hasCounts, key)
      ensures was == if key in old(entries) then old(entries)[key].count else 0
      ensures fresh({values, keys, counts} - old({values, keys, counts}))
    {
      RemovedMeaning(entries, Removed(entries, hasCounts, key), hasCounts, key);
      hide Removes, OthersKept, Sound, LiveCount, TombCount, Insertable, SizeAt, CapacityAt, Mirrors;
      OperationsCounted(entries, hasCounts, key, 0);
      if !Storable(key) {
        UnstorableMissing(key);
        return 0;
      }
      var b, count := FindBucket(key);
      if count > 1 {
        if hasCounts && count < LONG_MAX {
          SlotEntry(slots, hash, entries, b);
          DropOne(b, key, count);
        }
      } else if count > 0 {
        SlotEntry(slots, hash, entries, b);
        RemoveBucket(b);
      }
      return count;
    }

    /** One occurrence less of a key that is held more often. */
    method DropOne(b: nat, key: Word, count: nat)
      requires Valid() && hasCounts && Holds(slots, b, key) && slots[b].entry.count == count > 1
      modifies this`slots, this`entries, counts
      ensures Valid() && key in old(entries) && entries == old(entries)[key := Entry(old(entries)[key].value, count - 1)]
    {
      hide Sound, LiveCount, TombCount, SizeAt, CapacityAt, Mirrors;
      SlotEntry(slots, hash, entries, b);
      SetEntry(b, Entry(entries[key].value, count - 1));
      DecSlotCount(b);
    }

    method DecSlotCount(b: nat)
      requires Shaped() && hasCounts && b < |slots| && slots[b].Live? && slots[b].entry.count > 1
      modifies this`slots, counts
      ensures Shaped()
      ensures slots == Recounted(old(slots), b, old(slots[b].entry.count) - 1)
    {
      SetSlotCount(b, counts[b] - 1);
    }

    /** The two substitute words are never keys. */
    lemma UnstorableMissing(key: Word)
      requires Shaped() && Sound(slots, hash, entries) && !Storable(key)
      ensures key !in entries
    {
      hide Chained, Unique;
      forall k | k in entries ensures Storable(k) {
        var i :| Holds(slots, i, k);
        PackedRoundTrip(if hasKeys then keys[i] else values[i]);
      }
    }

    /** CFBasicHashRemoveAllValues, through __CFBasicHashDrain. */
    method RemoveAllValues()
      requires Valid()
      modifies this
      ensures Valid() && entries == map[] && used == 0
      ensures fresh({values, keys, counts} - old({values, keys, counts}))
    {
      SizeRange(0);
      CapacityFits(0);
      hide Sound, LiveCount, TombCount, SizeAt, CapacityAt;
      if numBucketsIdx == 0 {
        NothingStored(slots, hash, entries);
        return;
      }
      numBucketsIdx, used, deleted := 0, 0, 0;
      Allocate(0);
    }

    /** CFBasicHashSetCapacity. */
    method SetCapacity(capacity: int)
      requires Valid() && (used < capacity ==> Room(used, capacity - used, fastGrow))
      modifies this
      ensures Valid() && entries == old(entries) && used == old(used)
      ensures capacity <= CapacityAt(numBucketsIdx)
      ensures used < capacity ==> Resized(old(numBucketsIdx), numBucketsIdx, used, capacity - used, fastGrow)
      ensures fresh({values, keys, counts} - old({values, keys, counts}))
    {
      hide Sound, LiveCount, TombCount, SizeAt, CapacityAt, Mirrors, Counted;
      if used < capacity {
        Rehash(capacity - used);
      }
    }

    // ----- reading -----

    /** CFBasicHashGetCountOfKey. */
    method GetCountOfKey(key: Word) returns (n: nat)
      requires Valid()
      ensures n == if key in entries then entries[key].count else 0
    {
      hide LiveCount, TombCount, SizeAt, CapacityAt, Mirrors, Chained, Unique, Counted;
      if !Storable(key) {
        UnstorableMissing(key);
        return 0;
      }
      if used == 0 {
        NothingLive(slots, hash, entries);
        return 0;
      }
      var b;
      b, n := FindBucket(key);
    }
  }

  /** Enough sizes are left for the entries to come: a fast growing table skips one. */
  predicate Room(used: nat, newItemCount: int, fastGrow: bool) {
    used + newItemCount <= CapacityAt(if newItemCount == 1 && fastGrow then LARGEST - 1 else LARGEST)
  }

  /** Which size a rehash moves to: the least that suffices, one more for a single entry in a fast growing table, or the same. */
  ghost predicate Resized(from: nat, to: nat, used: nat, newItemCount: int, fastGrow: bool) {
    if newItemCount == 0 then to == from
    else LeastIndex(if newItemCount == 1 && fastGrow then to - 1 else to, used + if newItemCount < 0 then 0 else newItemCount)
  }

  // ----- copying a table entry by entry -----

  /** The first n slots hold exactly the entries of the map. */
  ghost predicate Copied(was: seq<Slot>, n: nat, placed: Table) {
    n <= |was| && Agrees(was[..n], placed)
  }

  lemma CopyNone(was: seq<Slot>, hash: Hash, m: Table)
    requires Sound(was, hash, m)
    ensures Copied(was, 0, map[]) && LiveCount(was[..0]) == 0
  {
  }

  lemma CopyStep(was: seq<Slot>, hash: Hash, m: Table, n: nat, placed: Table)
    requires n < |was| && Sound(was, hash, m) && Copied(was, n, placed)
    ensures was[n].Live? ==>
      && was[n].key !in placed && Copied(was, n + 1, placed[was[n].key := was[n].entry])
      && LiveCount(was[..n]) < LiveCount(was) && LiveCount(was[..n + 1]) == LiveCount(was[..n]) + 1
    ensures !was[n].Live? ==> Copied(was, n + 1, placed) && LiveCount(was[..n + 1]) == LiveCount(was[..n])
  {
    hide Chained, LiveCount, Unique, Agrees;
    CopyCounts(was, n);
    assert was[..n] + [was[n]] == was[..n + 1];
    if was[n].Live? {
      NotYetCopied(was, n, placed);
    }
    AgreesPush(was[..n], was[n], placed);
  }

  lemma NotYetCopied(was: seq<Slot>, n: nat, placed: Table)
    requires n < |was| && Unique(was) && Copied(was, n, placed) && was[n].Live?
    ensures was[n].key !in placed
  {
    forall k | k in placed ensures k != was[n].key {
      var i :| Holds(was[..n], i, k);
      assert was[i] == was[..n][i];
    }
  }

  lemma CopyCounts(was: seq<Slot>, n: nat)
    requires n < |was|
    ensures LiveCount(was[..n + 1]) == LiveCount(was[..n]) + One(was[n].Live?) <= LiveCount(was)
  {
    assert was[..n + 1][..n] == was[..n];
    LivePrefix(was, n + 1);
  }

  lemma AgreesPush(p: seq<Slot>, x: Slot, placed: Table)
    requires Agrees(p, placed) && (x.Live? ==> x.key !in placed)
    ensures Agrees(p + [x], if x.Live? then placed[x.key := x.entry] else placed)
  {
    var q, placed' := p + [x], if x.Live? then placed[x.key := x.entry] else placed;
    forall k | k in placed' ensures exists i :: Holds(q, i, k) {
      if k in placed {
        var i :| Holds(p, i, k);
        assert Holds(q, i, k);
      } else {
        assert Holds(q, |p|, k);
      }
    }
  }

  lemma CopyAll(was: seq<Slot>, hash: Hash, m: Table, placed: Table)
    requires Sound(was, hash, m) && Copied(was, |was|, placed)
    ensures placed == m && was[..|was|] == was
  {
    assert was[..|was|] == was;
    assert forall k :: k in m <==> exists i :: Holds(was, i, k);
    assert forall k :: k in placed <==> exists i :: Holds(was, i, k);
    forall k | k in m ensures placed[k] == m[k] {
      var i :| Holds(was, i, k);
    }
  }

  // ----- slots and entries -----

  lemma SlotEntry(s: seq<Slot>, hash: Hash, m: Table, b: nat)
    requires Sound(s, hash, m) && b < |s| && s[b].Live?
    ensures s[b].key in m && m[s[b].key] == s[b].entry
  {
  }

  lemma NothingStored(s: seq<Slot>, hash: Hash, m: Table)
    requires Sound(s, hash, m) && s == []
    ensures m == map[] && LiveCount(s) == 0
  {
  }

  lemma NothingLive(s: seq<Slot>, hash: Hash, m: Table)
    requires Sound(s, hash, m) && LiveCount(s) == 0
    ensures m == map[]
  {
    forall k | k in m ensures false {
      var i :| Holds(s, i, k);
      SomeLive(s, i);
    }
  }
}
