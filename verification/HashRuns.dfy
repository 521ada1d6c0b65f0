/**
 Whole tables of CFBasicHash.c: counting, listing, comparing, and runs of
 operations.
 */
module HashRuns {
  import opened Machine
  import opened HashSlots
  import opened HashModel
  import opened HashSizes
  import opened HashTable


  /** CFBasicHashGetCount: the number of occurrences, modulo the width of a CFIndex. */
  method GetCount(h: BasicHash) returns (n: nat)
    requires h.Valid()
    ensures n == Total(h.slots) % TWO64
    ensures forall bag :: IsBag(h.entries, bag) ==> n == |bag| % TWO64
  {
    hide Sound, LiveCount, TombCount, Counted, IsBag, SizeAt, CapacityAt;
    forall bag | IsBag(h.entries, bag) ensures |bag| == Total(h.slots) {
      TotalIsBag(h.slots, h.hash, h.entries, bag);
    }
    if !h.hasCounts {
      OnesCount(h);
      return h.used;
    }
    n := SumCounts(h);
  }

  lemma OnesCount(h: BasicHash)
    requires h.Valid() && !h.hasCounts
    ensures Total(h.slots) == h.used < TWO64
  {
    hide Sound, LiveCount, TombCount, Counted, SizeAt;
    TotalOnes(h.slots);
    CapacityGrows(h.numBucketsIdx, LARGEST);
  }

  method SumCounts(h: BasicHash) returns (total: nat)
    requires h.Shaped() && h.hasCounts
    ensures total == Total(h.slots) % TWO64
  {
    ghost var s := h.slots;
    total := 0;
    for idx := 0 to h.counts.Length
      invariant total == Total(s[..idx]) % TWO64
    {
      assert s[..idx + 1][..idx] == s[..idx];
      ghost var before := Total(s[..idx]);
      total := (total + h.counts[idx]) % TWO64;
      WrapAdd(before, h.counts[idx]);
    }
    assert s[..|s|] == s;
  }

  lemma WrapAdd(a: nat, b: nat)
    ensures (a % TWO64 + b) % TWO64 == (a + b) % TWO64
  {
  }

  /** One bucket as CFBasicHashGetBucket reports it: count zero where it is free. */
  method GetBucket(h: BasicHash, b: nat) returns (count: nat, key: Word, value: Word)
    requires h.Shaped() && b < |h.slots|
    ensures b < h.values.Length
    ensures if h.slots[b].Live? then h.slots[b] == Live(key, Entry(value, count)) else count == 0
  {
    var raw := h.values[b];
    if raw == 0 || raw == MAX_WORD {
      return 0, 0, 0;
    }
    return if h.hasCounts then h.counts[b] else 1, Unpacked(if h.hasKeys then h.keys[b] else raw), Unpacked(raw);
  }

  /** CFBasicHashGetElements: as many elements as fit, each as often as it counts. */
  method GetElements(h: BasicHash, limit: nat) returns (out: seq<(Word, Word)>)
    requires h.Valid()
    ensures |out| == if limit < Total(h.slots) then limit else Total(h.slots)
    ensures forall bag :: IsBag(h.entries, bag) ==> multiset(KeysOf(out)) <= bag
    ensures Total(h.slots) <= limit ==> IsBag(h.entries, multiset(KeysOf(out)))
    ensures forall e :: e in out ==> e.0 in h.entries && h.entries[e.0].value == e.1
  {
    hide Sound, LiveCount, TombCount, Counted, IsBag, SizeAt, CapacityAt, Mirrors, KeysOf, Occurrences, Total, Elements;
    SlotBagIsBag(h.slots, h.hash, h.entries);
    ElementKeys(h.slots);
    StoredValues(h.slots, h.hash, h.entries);
    out := ListElements(h, limit);
    KeysPrefix(out, Elements(h.slots));
    forall bag | IsBag(h.entries, bag) ensures multiset(KeysOf(out)) <= bag {
      BagUnique(h.entries, SlotBag(h.slots), bag);
    }
    if Total(h.slots) <= limit {
      assert |out| == |Elements(h.slots)|;
      assert out == Elements(h.slots);
    }
  }

  /** The loop over the buckets stops once all live ones were seen. */
  method ListElements(h: BasicHash, limit: nat) returns (out: seq<(Word, Word)>)
    requires h.Valid()
    ensures out <= Elements(h.slots) && |out| <= limit && (|out| < limit ==> out == Elements(h.slots))
  {
    hide Sound, LiveCount, TombCount, Counted, SizeAt, CapacityAt, Mirrors, Occurrences, Elements;
    ghost var s := h.slots;
    var used, cnt := h.used, h.NumBuckets();
    out := [];
    var idx := 0;
    NoneSeen(s);
    while 0 < used && idx < cnt && |out| < limit
      invariant 0 <= idx <= cnt && used == LiveCount(s) - LiveCount(s[..idx])
      invariant |out| <= limit && out <= Elements(s[..idx])
      invariant |out| < limit ==> out == Elements(s[..idx])
    {
      var count, key, value := GetBucket(h, idx);
      SeenStep(s, idx);
      CountPositive(h, idx);
      if 0 < count {
        used := used - 1;
        out := Emit(out, key, value, count, limit);
      }
      idx := idx + 1;
    }
    ElementsPrefix(s, idx);
    SeenAll(s);
  }

  lemma KeysPrefix(a: seq<(Word, Word)>, b: seq<(Word, Word)>)
    requires a <= b
    ensures multiset(KeysOf(a)) <= multiset(KeysOf(b))
  {
    KeysConcat(a, b[|a|..]);
    assert b == a + b[|a|..];
  }

  lemma StoredValues(s: seq<Slot>, hash: Hash, m: Table)
    requires Sound(s, hash, m)
    ensures forall e :: e in Elements(s) ==> e.0 in m && m[e.0].value == e.1
  {
    ElementValues(s, m);
  }

  lemma {:induction false} ElementValues(s: seq<Slot>, m: Table)
    requires forall i :: 0 <= i < |s| && s[i].Live? ==> s[i].key in m && m[s[i].key] == s[i].entry
    ensures forall e :: e in Elements(s) ==> e.0 in m && m[e.0].value == e.1
  {
    if s != [] {
      ElementValues(s[..|s| - 1], m);
    }
  }

  lemma CountPositive(h: BasicHash, b: nat)
    requires h.Valid() && b < |h.slots|
    ensures h.slots[b].Live? ==> h.slots[b].entry.count > 0 && h.slots[b].key in h.entries && h.entries[h.slots[b].key] == h.slots[b].entry
  {
  }

  /** The inner loop, which repeats one element. */
  method Emit(before: seq<(Word, Word)>, key: Word, value: Word, count: nat, limit: nat) returns (out: seq<(Word, Word)>)
    requires |before| < limit
    ensures |out| <= limit && out <= before + Repeated(key, value, count)
    ensures |out| < limit ==> out == before + Repeated(key, value, count)
  {
    out := before;
    var left := count;
    while left > 0 && |out| < limit
      invariant 0 <= left <= count && |out| <= limit
      invariant out == before + Repeated(key, value, count - left)
    {
      out := out + [(key, value)];
      left := left - 1;
    }
  }

  lemma NoneSeen(s: seq<Slot>)
    ensures LiveCount(s[..0]) == 0 && Elements(s[..0]) == []
  {
  }

  lemma SeenAll(s: seq<Slot>)
    ensures s[..|s|] == s
  {
  }

  lemma SeenStep(s: seq<Slot>, n: nat)
    requires n < |s|
    ensures LiveCount(s[..n + 1]) == LiveCount(s[..n]) + One(s[n].Live?)
    ensures Elements(s[..n + 1]) == Elements(s[..n]) + Occurrences(s[n])
    ensures s[n].Live? ==> Occurrences(s[n]) == Repeated(s[n].key, s[n].entry.value, s[n].entry.count)
    ensures !s[n].Live? ==> Occurrences(s[n]) == []
  {
    assert s[..n + 1][..n] == s[..n];
  }

  /**
   CFBasicHashesAreEqual, with values compared as words. For tables of one kind
   whose totals do not wrap around, equal exactly when they hold the same entries.
   */
  method AreEqual(h1: BasicHash, h2: BasicHash) returns (equal: bool)
    requires h1.Valid() && h2.Valid()
    ensures var n1, n2 := Total(h1.slots) % TWO64, Total(h2.slots) % TWO64;
      equal <==> n1 == n2 && (n1 == 0 || Within(h1.entries, h2.entries, h1.hasKeys))
    ensures h1.hasKeys == h2.hasKeys && Total(h1.slots) < TWO64 && Total(h2.slots) < TWO64 ==>
      (equal <==> h1.entries == h2.entries)
  {
    hide Sound, LiveCount, TombCount, Counted, IsBag, SizeAt, CapacityAt, Mirrors, Total, Within;
    SameEntries(h1, h2);
    var cnt1 := GetCount(h1);
    var cnt2 := GetCount(h2);
    if cnt1 != cnt2 {
      return false;
    }
    if cnt1 == 0 {
      return true;
    }
    equal := Contained(h1, h2);
  }

  predicate Alike(e: Entry, f: Entry, values: bool) {
    e.count == f.count && (values ==> e.value == f.value)
  }

  /** Every entry of the first table is in the second, up to values if they are not to be compared. */
  ghost predicate Within(m: Table, n: Table, values: bool) {
    forall k :: k in m ==> k in n && Alike(m[k], n[k], values)
  }

  /** What the test decides for tables of one kind whose totals do not wrap around. */
  lemma SameEntries(h1: BasicHash, h2: BasicHash)
    requires h1.Valid() && h2.Valid()
    ensures h1.hasKeys == h2.hasKeys ==>
      (h1.entries == h2.entries <==>
        Total(h1.slots) == Total(h2.slots) && (Total(h1.slots) == 0 || Within(h1.entries, h2.entries, h1.hasKeys)))
  {
    hide Sound, LiveCount, TombCount, Counted, IsBag, SizeAt, CapacityAt, Mirrors, Total;
    SameTotal(h1, h2);
    if h1.hasKeys == h2.hasKeys && Total(h1.slots) == Total(h2.slots) {
      if Total(h1.slots) == 0 {
        NoElements(h1);
        NoElements(h2);
      } else if Within(h1.entries, h2.entries, h1.hasKeys) {
        ValuesFollow(h1, h2);
        Subtable(h1, h2);
      }
    }
  }

  lemma ValuesFollow(h1: BasicHash, h2: BasicHash)
    requires h1.Valid() && h2.Valid() && h1.hasKeys == h2.hasKeys && Within(h1.entries, h2.entries, h1.hasKeys)
    ensures Within(h1.entries, h2.entries, true)
  {
    hide LiveCount, TombCount, SizeAt, CapacityAt, Counted, Sound;
    if !h1.hasKeys {
      KeysAreValues(h1);
      KeysAreValues(h2);
    }
  }

  lemma KeysAreValues(h: BasicHash)
    requires h.Valid() && !h.hasKeys
    ensures forall k :: k in h.entries ==> h.entries[k].value == k
  {
    hide LiveCount, TombCount, SizeAt, CapacityAt, Counted, Mirrors, Chained, Unique;
    forall k | k in h.entries ensures h.entries[k].value == k {
      var i :| Holds(h.slots, i, k);
      KeyIsValue(h, i);
    }
  }

  /** The loop over the first table, which stops at the first entry that the second does not hold. */
  method Contained(h1: BasicHash, h2: BasicHash) returns (all: bool)
    requires h1.Valid() && h2.Valid()
    ensures all <==> Within(h1.entries, h2.entries, h1.hasKeys)
  {
    ghost var s := h1.slots;
    TableFacts(h1);
    hide Sound, LiveCount, MatchedTo, Within, SlotMatches, BasicHash.Valid, BasicHash.Shaped, Unseen;
    var used, cnt, idx := h1.used, h1.NumBuckets(), 0;
    AllUnseen(s);
    NoneMatched(s, h2.entries, h1.hasKeys);
    while 0 < used && idx < cnt
      invariant 0 <= idx <= cnt && 0 <= used && Unseen(s, idx, used) && MatchedTo(s, h2.entries, h1.hasKeys, idx)
    {
      var live, same := BucketMatches(h1, idx, h2);
      MatchStep(s, h1.hash, h1.entries, h2.entries, h1.hasKeys, idx);
      UnseenStep(s, idx, used);
      if live {
        if !same {
          return false;
        }
        used := used - 1;
      }
      idx := idx + 1;
    }
    UnseenEnd(s, idx, used);
    AllWithin(s, h1.hash, h1.entries, h2.entries, h1.hasKeys, idx);
    return true;
  }

  lemma TableFacts(h: BasicHash)
    requires h.Valid()
    ensures h.Shaped() && Sound(h.slots, h.hash, h.entries) && h.used == LiveCount(h.slots)
  {
  }

  /** So many live slots are still to come. */
  ghost predicate Unseen(s: seq<Slot>, idx: nat, used: int) {
    idx <= |s| && used == LiveCount(s) - LiveCount(s[..idx])
  }

  lemma AllUnseen(s: seq<Slot>)
    ensures Unseen(s, 0, LiveCount(s))
  {
  }

  lemma UnseenStep(s: seq<Slot>, idx: nat, used: int)
    requires idx < |s| && Unseen(s, idx, used)
    ensures Unseen(s, idx + 1, used - One(s[idx].Live?)) && used >= One(s[idx].Live?)
  {
    SeenStep(s, idx);
    LivePrefix(s, idx + 1);
  }

  lemma UnseenEnd(s: seq<Slot>, idx: nat, used: int)
    requires Unseen(s, idx, used) && (used <= 0 || idx == |s|)
    ensures LiveCount(s) == LiveCount(s[..idx])
  {
    LivePrefix(s, idx);
    SeenAll(s);
  }

  /** What the block of the comparison does with one bucket. */
  method BucketMatches(h1: BasicHash, b: nat, h2: BasicHash) returns (live: bool, same: bool)
    requires h1.Valid() && h2.Valid() && b < |h1.slots|
    ensures live == h1.slots[b].Live? && (!live ==> same)
    ensures same <==> SlotMatches(h1.slots[b], h2.entries, h1.hasKeys)
  {
    hide Sound, LiveCount, TombCount, Counted, SizeAt, CapacityAt, Mirrors;
    var count, key, value := GetBucket(h1, b);
    CountPositive(h1, b);
    live, same := 0 < count, true;
    if live {
      same := HasEntry(h2, key, value, count, h1.hasKeys);
    }
  }

  ghost predicate SlotMatches(x: Slot, n: Table, values: bool) {
    x.Live? ==> x.key in n && Alike(x.entry, n[x.key], values)
  }

  ghost predicate MatchedTo(s: seq<Slot>, n: Table, values: bool, idx: nat) {
    idx <= |s| && forall j :: 0 <= j < idx ==> SlotMatches(s[j], n, values)
  }

  lemma NoneMatched(s: seq<Slot>, n: Table, values: bool)
    ensures MatchedTo(s, n, values, 0)
  {
  }

  lemma MatchStep(s: seq<Slot>, hash: Hash, m: Table, n: Table, values: bool, idx: nat)
    requires Sound(s, hash, m) && idx < |s| && MatchedTo(s, n, values, idx)
    ensures SlotMatches(s[idx], n, values) ==> MatchedTo(s, n, values, idx + 1)
    ensures !SlotMatches(s[idx], n, values) ==> !Within(m, n, values)
  {
    hide Chained, Unique;
    if !SlotMatches(s[idx], n, values) {
      assert s[idx].key in m && m[s[idx].key] == s[idx].entry;
    }
  }

  lemma AllWithin(s: seq<Slot>, hash: Hash, m: Table, n: Table, values: bool, idx: nat)
    requires Sound(s, hash, m) && idx <= |s| && LiveCount(s) == LiveCount(s[..idx])
    requires MatchedTo(s, n, values, idx)
    ensures Within(m, n, values)
  {
    hide LiveCount, Chained, Unique;
    forall j | idx <= j < |s| ensures !s[j].Live? {
      AllSeen(s, idx, j);
    }
    forall k | k in m ensures k in n && Alike(m[k], n[k], values) {
      var i :| Holds(s, i, k);
      assert SlotMatches(s[i], n, values);
    }
  }

  /** Whether a table holds a key with this count, and this value if values are compared. */
  method HasEntry(h: BasicHash, key: Word, value: Word, count: nat, values: bool) returns (same: bool)
    requires h.Valid() && 0 < count
    ensures same <==> key in h.entries && Alike(Entry(value, count), h.entries[key], values)
  {
    hide Sound, LiveCount, TombCount, SizeAt, CapacityAt, Mirrors, Insertable;
    var b, found := h.FindBucket(key);
    if count != found {
      return false;
    }
    var _, _, stored := GetBucket(h, b);
    CountPositive(h, b);
    return !(values && value != stored);
  }

  lemma KeyIsValue(h: BasicHash, b: nat)
    requires h.Shaped() && !h.hasKeys && b < |h.slots|
    ensures h.slots[b].Live? ==> h.slots[b].key == h.slots[b].entry.value
  {
  }

  lemma SameTotal(h1: BasicHash, h2: BasicHash)
    requires h1.Valid() && h2.Valid()
    ensures h1.entries == h2.entries ==> Total(h1.slots) == Total(h2.slots)
  {
    hide Sound, LiveCount, TombCount, Counted, IsBag, SizeAt, CapacityAt, Mirrors, Total;
    if h1.entries == h2.entries {
      SlotBagIsBag(h1.slots, h1.hash, h1.entries);
      TotalIsBag(h1.slots, h1.hash, h1.entries, SlotBag(h1.slots));
      TotalIsBag(h2.slots, h2.hash, h2.entries, SlotBag(h1.slots));
    }
  }

  lemma NoElements(h: BasicHash)
    requires h.Valid() && Total(h.slots) == 0
    ensures h.entries == map[]
  {
    hide Sound, LiveCount, TombCount, SizeAt, CapacityAt, Mirrors, Total;
    SlotBagIsBag(h.slots, h.hash, h.entries);
    TotalIsSize(h.slots);
    forall k: Word ensures k !in h.entries {
      assert SlotBag(h.slots)[k] == CountOf(h.entries, k);
    }
  }

  lemma Subtable(h1: BasicHash, h2: BasicHash)
    requires h1.Valid() && h2.Valid() && Total(h1.slots) == Total(h2.slots) && Within(h1.entries, h2.entries, true)
    ensures h1.entries == h2.entries
  {
    hide LiveCount, TombCount, SizeAt, CapacityAt, Mirrors, Total, Sound;
    SlotBagIsBag(h1.slots, h1.hash, h1.entries);
    SlotBagIsBag(h2.slots, h2.hash, h2.entries);
    TotalIsSize(h1.slots);
    TotalIsSize(h2.slots);
    SubtableEqual(h1.entries, h2.entries, SlotBag(h1.slots), SlotBag(h2.slots));
  }

  // ----- runs -----

  /** Sets and bags store one word for key and value. */
  predicate Fitting(h: BasicHash, op: Op) {
    (op.Add? || op.Replace? || op.Set?) ==> h.hasKeys || op.key == op.value
  }

  /** Key and value are not substitute words, which every operation that stores them refuses. */
  predicate StorableOp(op: Op) {
    (op.Add? || op.Replace? || op.Set?) ==> Storable(op.key) && Storable(op.value)
  }

  /** The operation ends the program: a word that is refused, or a rehash for which no size is left. */
  ghost predicate Halts(h: BasicHash, op: Op)
    requires h.numBucketsIdx <= LARGEST
    reads h
  {
    || !StorableOp(op)
    || ((op.Add? || op.Set?) && op.key !in h.entries && !h.CanAdd())
    || (op.SetCapacity? && h.used < op.capacity && !Room(h.used, op.capacity - h.used, h.fastGrow))
  }

  /** The table of sizes has a row for what the operation may need: only new keys and larger capacities need any. */
  predicate Holdable(m: Table, op: Op, fastGrow: bool) {
    match op
    case Add(k, _) => k !in m ==> Room(|m|, 1, fastGrow)
    case Set(k, _) => k !in m ==> Room(|m|, 1, fastGrow)
    case SetCapacity(c) => |m| < c ==> Room(|m|, c - |m|, fastGrow)
    case _ => true
  }

  /** What can be seen from the entries alone to keep an operation from ending the program. */
  lemma HoldableGoesOn(h: BasicHash, op: Op)
    requires h.Valid() && StorableOp(op) && Holdable(h.entries, op, h.fastGrow)
    ensures !Halts(h, op)
  {
    LiveIsSize(h.slots, h.hash, h.entries);
    hide Sound, LiveCount, TombCount, Counted, SizeAt, CapacityAt, Mirrors, Room;
  }

  method WillHalt(h: BasicHash, op: Op) returns (halts: bool)
    requires h.Valid()
    ensures halts <==> Halts(h, op)
  {
    hide Sound, LiveCount, TombCount, SizeAt, CapacityAt, Mirrors, Room;
    if !StorableOp(op) {
      return true;
    }
    if op.Add? || op.Set? {
      var count := h.GetCountOfKey(op.key);
      return count == 0 && !h.CanAdd();
    }
    return op.SetCapacity? && h.used < op.capacity && !Room(h.used, op.capacity - h.used, h.fastGrow);
  }

  method Step(h: BasicHash, op: Op)
    requires h.Valid() && Fitting(h, op) && !Halts(h, op)
    modifies h, h.values, h.keys, h.counts
    ensures h.Valid() && h.entries == Applied(old(h.entries), h.hasCounts, op)
    ensures fresh({h.values, h.keys, h.counts} - old({h.values, h.keys, h.counts}))
  {
    hide Sound, LiveCount, TombCount, Counted, SizeAt, CapacityAt, Mirrors, Added, Removed, Stored, Replaced, Room;
    match op {
      case Add(k, v) =>
        var _ := h.AddValue(k, v);
      case Replace(k, v) =>
        h.ReplaceValue(k, v);
      case Set(k, v) =>
        h.SetValue(k, v);
      case Remove(k) =>
        var _ := h.RemoveValue(k);
      case SetCapacity(c) =>
        h.SetCapacity(c);
      case RemoveAll =>
        h.RemoveAllValues();
    }
  }

  /**
   Any run, of any length, up to the first operation that ends the program: the
   bookkeeping is exact, and the entries are those of the same run on a map, where each
   operation changes exactly the keys, values and counts that it says. A run goes
   through to its end whenever sizes are left for its new keys and capacities.
   */
  method Run(h: BasicHash, ops: seq<Op>) returns (done: nat)
    requires h.Valid() && (forall i :: 0 <= i < |ops| ==> Fitting(h, ops[i]))
    modifies h, h.values, h.keys, h.counts
    ensures done <= |ops| && h.Valid() && h.entries == AppliedAll(old(h.entries), h.hasCounts, ops[..done])
    ensures AppliedAll(old(h.entries), h.hasCounts, []) == old(h.entries)
    ensures forall i :: 0 <= i < |ops| ==>
      Does(AppliedAll(old(h.entries), h.hasCounts, ops[..i]), AppliedAll(old(h.entries), h.hasCounts, ops[..i + 1]), h.hasCounts, ops[i])
    ensures h.used == LiveCount(h.slots) == |h.entries| <= CapacityAt(h.numBucketsIdx)
    ensures h.deleted == TombCount(h.slots) && (20 <= |h.slots| ==> 4 * h.deleted < |h.slots|)
    ensures done < |ops| ==> Halts(h, ops[done])
    ensures GoesThrough(old(h.entries), ops, h.hasCounts, h.fastGrow) ==> done == |ops|
  {
    hide Sound, LiveCount, TombCount, Counted, SizeAt, CapacityAt, Mirrors, Applied, Holdable, Halts, Fitting, StorableOp;
    ghost var m := h.entries;
    hide Does;
    done := 0;
    while done < |ops|
      invariant done <= |ops| && h.Valid() && h.entries == AppliedAll(m, h.hasCounts, ops[..done])
      invariant fresh({h.values, h.keys, h.counts} - old({h.values, h.keys, h.counts}))
    {
      var halts := WillHalt(h, ops[done]);
      if halts {
        if GoesThrough(m, ops, h.hasCounts, h.fastGrow) {
          HoldableGoesOn(h, ops[done]);
        }
        break;
      }
      assert ops[..done + 1][..done] == ops[..done];
      Step(h, ops[done]);
      done := done + 1;
    }
    LiveIsSize(h.slots, h.hash, h.entries);
    RunDoes(m, h.hasCounts, ops);
  }

  ghost predicate GoesThrough(m: Table, ops: seq<Op>, hasCounts: bool, fastGrow: bool) {
    forall i :: 0 <= i < |ops| ==> StorableOp(ops[i]) && Holdable(AppliedAll(m, hasCounts, ops[..i]), ops[i], fastGrow)
  }
}
