/**
 The ordered-index mode of CFBasicHash.c: values are positions, and inserting or
 removing a key renumbers the keys behind it.
 */
module HashOrdered {
  import opened HashSlots
  import opened HashModel
  import opened HashSizes
  import opened HashTable

  /** What reading a stored word gives: the word itself, unless it is one of the two substitutes. */
  function ReadBack(v: Word): (r: Word)
    ensures r == v <==> Storable(v)
  {
    PackedRoundTrip(v);
    Unpacked(Packed(v))
  }

  /** Writes one renumbered value; the key stays. */
  method PutValue(h: BasicHash, b: nat, value: Word)
    requires h.Shaped() && h.hasKeys && b < |h.slots| && h.slots[b].Live?
    modifies h`slots, h.values
    ensures h.Shaped()
    ensures h.slots == old(h.slots)[b := Live(old(h.slots[b].key), Entry(ReadBack(value), old(h.slots[b].entry.count)))]
  {
    PackedRoundTrip(value);
    ghost var v := h.values[..];
    h.values[b] := Packed(value);
    h.slots := h.slots[b := Live(h.slots[b].key, Entry(ReadBack(value), h.slots[b].entry.count))];
    assert h.values[..] == v[b := Packed(value)];
  }

  method Value(h: BasicHash, b: nat) returns (live: bool, value: Word)
    requires h.Shaped() && b < |h.slots|
    ensures live == h.slots[b].Live? && (live ==> value == h.slots[b].entry.value)
    ensures b < h.values.Length
  {
    var raw := h.values[b];
    return raw != 0 && raw != MAX_WORD, Unpacked(raw);
  }

  ghost predicate ValuesBelow(s: seq<Slot>, bound: int) {
    forall j :: 0 <= j < |s| && s[j].Live? ==> s[j].entry.value < bound
  }

  ghost predicate RevaluedUpTo(s: seq<Slot>, r: seq<Slot>, n: nat, f: Word -> Word) {
    && |r| == |s| && n <= |s|
    && (forall j :: 0 <= j < n ==> r[j] == Revalued(s[j], f))
    && (forall j :: n <= j < |s| ==> r[j] == s[j])
  }

  /** Making room for position i, as it is stored and read back. */
  function RaiseStored(i: Word): Word -> Word {
    (v: Word) => if i <= v < MAX_WORD then ReadBack(v + 1) else v
  }

  /** The loop that makes room for position i. */
  method RaiseFrom(h: BasicHash, i: Word)
    requires h.Shaped() && h.hasKeys && ValuesBelow(h.slots, MAX_WORD)
    modifies h`slots, h.values
    ensures h.Shaped() && RevaluedUpTo(old(h.slots), h.slots, |old(h.slots)|, RaiseStored(i))
  {
    hide Mirrors;
    ghost var s, f := h.slots, RaiseStored(i);
    for idx := 0 to h.NumBuckets()
      invariant h.Shaped() && RevaluedUpTo(s, h.slots, idx, f)
    {
      var live, value := Value(h, idx);
      if live && i <= value {
        PutValue(h, idx, value + 1);
      }
    }
  }

  /** The loop that closes the gap at position i, and finds the bucket that holds it. */
  method LowerAbove(h: BasicHash, i: Word, ghost where: nat) returns (b: int)
    requires h.Shaped() && h.hasKeys && ValuesBelow(h.slots, SUB_ONE)
    requires where < |h.slots| && h.slots[where].Live? && h.slots[where].entry.value == i
    requires forall j :: 0 <= j < |h.slots| && h.slots[j].Live? && h.slots[j].entry.value == i ==> j == where
    modifies h`slots, h.values
    ensures h.Shaped() && RevaluedUpTo(old(h.slots), h.slots, |old(h.slots)|, Lower(i))
    ensures b == where
  {
    hide Mirrors;
    ghost var s, f := h.slots, Lower(i);
    b := -1;
    for idx := 0 to h.NumBuckets()
      invariant h.Shaped() && RevaluedUpTo(s, h.slots, idx, f)
      invariant b == if where < idx then where else -1
    {
      var live, value := Value(h, idx);
      if live && i == value {
        b := idx;
      }
      if live && i < value {
        PutValue(h, idx, value - 1);
      }
    }
  }

  lemma NumberedBelow(s: seq<Slot>, hash: Hash, m: Table, order: seq<Word>)
    requires Sound(s, hash, m) && Numbered(m, order)
    ensures ValuesBelow(s, |order|)
  {
    forall j | 0 <= j < |s| && s[j].Live? ensures s[j].entry.value < |order| {
      assert m[s[j].key].value < |order|;
    }
  }

  lemma RevaluedSound(s: seq<Slot>, r: seq<Slot>, hash: Hash, m: Table, f: Word -> Word)
    requires Sound(s, hash, m) && RevaluedUpTo(s, r, |s|, f)
    ensures Sound(r, hash, Renumbered(m, f)) && LiveCount(r) == LiveCount(s) && TombCount(r) == TombCount(s)
  {
    RenumberedSound(s, r, hash, m, f);
  }

  /** Renumbering leaves every free bucket where a probe can use it. */
  lemma RevaluedFree(s: seq<Slot>, r: seq<Slot>, hash: Hash, key: Word, b: int, f: Word -> Word)
    requires Insertable(s, hash, key, b) && RevaluedUpTo(s, r, |s|, f)
    ensures Insertable(r, hash, key, b)
  {
  }

  lemma MissingFound(s: seq<Slot>, hash: Hash, m: Table, key: Word, b: int)
    requires Sound(s, hash, m) && key !in m && Insertable(s, hash, key, b)
    ensures Found(s, hash, key, b, false)
  {
    forall i ensures !Holds(s, i, key) {
    }
  }

  /**
   CFBasicHashAddIntValueAndInc: inserts the key at position i of the order, for every
   table that numbers an order; exactly when the order has 0xa5baadb9 keys already, the
   last of them does not get its number.
   */
  method AddIntValueAndInc(h: BasicHash, key: Word, i: Word, ghost order: seq<Word>) returns (added: bool)
    requires h.Valid() && h.hasKeys && Storable(key) && Storable(i)
    requires Numbered(h.entries, order) && i <= |order|
    requires key !in h.entries ==> h.CanAdd()
    modifies h, h.values, h.keys, h.counts
    ensures h.Valid() && |order| <= SUB_ONE
    ensures added <==> key !in old(h.entries)
    ensures !added ==> h.entries == old(h.entries)
    ensures added ==> h.entries == Renumbered(old(h.entries), RaiseStored(i))[key := Entry(i, 1)]
    ensures added ==> (Numbered(h.entries, order[..i] + [key] + order[i..]) <==> |order| < SUB_ONE)
  {
    OrderLimit(h, order);
    hide Sound, LiveCount, TombCount, Insertable, SizeAt, CapacityAt, Mirrors, Numbered, Renumbered, RevaluedUpTo, Counted;
    var b, count := h.FindBucket(key);
    CountedMember(h.entries, h.hasCounts, key);
    if count > 0 {
      return false;
    }
    InsertStored(h.entries, order, key, i);
    CapacityFits(h.numBucketsIdx);
    if CapacityAt(h.numBucketsIdx) < h.used + 1 {
      h.Rehash(1);
      CapacityFits(h.numBucketsIdx);
      b := h.FindBucketNoCollision(key);
    }
    Renumber(h, key, b, i, order);
    h.AddBucket(b, key, i);
    return true;
  }

  /** No stored value is a substitute word, so a numbered order has at most 0xa5baadb9 keys. */
  lemma OrderLimit(h: BasicHash, order: seq<Word>)
    requires h.Valid() && Numbered(h.entries, order)
    ensures |order| <= SUB_ONE
  {
    hide LiveCount, TombCount, Chained, Unique, SizeAt, CapacityAt, Counted;
    if |order| > SUB_ONE {
      var k := order[SUB_ONE];
      var j :| Holds(h.slots, j, k);
      PackedRoundTrip(h.values[j]);
    }
  }

  /** What inserting does to the numbering, up to the limit and at it. */
  lemma InsertStored(m: Table, order: seq<Word>, key: Word, i: Word)
    requires Numbered(m, order) && key !in m && i <= |order| <= SUB_ONE && Storable(i)
    ensures Numbered(Renumbered(m, RaiseStored(i))[key := Entry(i, 1)], order[..i] + [key] + order[i..]) <==> |order| < SUB_ONE
  {
    if |order| < SUB_ONE {
      NumberedInsert(m, order, key, i);
      SameRaise(m, order, i);
    } else {
      LastUnnumbered(m, order, key, i);
    }
  }

  lemma SameRaise(m: Table, order: seq<Word>, i: Word)
    requires Numbered(m, order) && |order| < SUB_ONE
    ensures Renumbered(m, RaiseStored(i)) == Renumbered(m, Raise(i))
  {
    forall k | k in m ensures RaiseStored(i)(m[k].value) == Raise(i)(m[k].value) {
      assert m[k].value < |order|;
    }
  }

  /** At the limit the last key would get the number 0xa5baadb9, which reads back as all ones. */
  lemma LastUnnumbered(m: Table, order: seq<Word>, key: Word, i: Word)
    requires Numbered(m, order) && key !in m && i < |order| == SUB_ONE
    ensures var r := Renumbered(m, RaiseStored(i))[key := Entry(i, 1)];
      order[SUB_ONE - 1] in r && r[order[SUB_ONE - 1]].value == MAX_WORD
    ensures !Numbered(Renumbered(m, RaiseStored(i))[key := Entry(i, 1)], order[..i] + [key] + order[i..])
  {
    var r, last := Renumbered(m, RaiseStored(i))[key := Entry(i, 1)], order[SUB_ONE - 1];
    assert m[last].value == SUB_ONE - 1;
    assert r[last].value == ReadBack(SUB_ONE) == MAX_WORD;
  }

  lemma CountedMember(m: Table, hasCounts: bool, key: Word)
    requires Counted(m, hasCounts)
    ensures CountOf(m, key) > 0 <==> key in m
  {
  }

  method Renumber(h: BasicHash, ghost key: Word, ghost b: int, i: Word, ghost order: seq<Word>)
    requires h.Valid() && h.hasKeys && Numbered(h.entries, order) && |order| <= SUB_ONE
    requires key !in h.entries && Insertable(h.slots, h.hash, key, b)
    modifies h`slots, h`entries, h.values
    ensures h.Valid() && h.entries == Renumbered(old(h.entries), RaiseStored(i))
    ensures key !in h.entries && Found(h.slots, h.hash, key, b, false)
  {
    hide Sound, LiveCount, TombCount, Insertable, SizeAt, CapacityAt, Mirrors, Numbered;
    ghost var s, f := h.slots, RaiseStored(i);
    NumberedBelow(s, h.hash, h.entries, order);
    RaiseFrom(h, i);
    RevaluedSound(s, h.slots, h.hash, h.entries, f);
    RevaluedFree(s, h.slots, h.hash, key, b, f);
    h.entries := Renumbered(h.entries, f);
    MissingFound(h.slots, h.hash, h.entries, key, b);
  }

  /** CFBasicHashRemoveIntValueAndDec: removes the key at position i of the order. */
  method RemoveIntValueAndDec(h: BasicHash, i: Word, ghost order: seq<Word>)
    requires h.Valid() && h.hasKeys && Storable(i)
    requires Numbered(h.entries, order) && i < |order| && h.entries[order[i]].count == 1
    modifies h, h.values, h.keys, h.counts
    ensures h.Valid() && h.entries == Renumbered(old(h.entries), Lower(i)) - {order[i]}
    ensures Numbered(h.entries, order[..i] + order[i + 1..])
  {
    OrderLimit(h, order);
    hide Sound, LiveCount, TombCount, SizeAt, CapacityAt, Mirrors, Numbered, Renumbered, Counted;
    NumberedRemove(h.entries, order, i);
    var b := CloseGap(h, i, order);
    h.RemoveBucket(b);
  }

  method CloseGap(h: BasicHash, i: Word, ghost order: seq<Word>) returns (b: nat)
    requires h.Valid() && h.hasKeys && Numbered(h.entries, order) && i < |order| <= SUB_ONE
    modifies h`slots, h`entries, h.values
    ensures h.Valid() && h.entries == Renumbered(old(h.entries), Lower(i))
    ensures Holds(h.slots, b, order[i]) && h.slots[b].entry.count == old(h.entries)[order[i]].count
  {
    hide Sound, LiveCount, TombCount, SizeAt, CapacityAt, Mirrors, Numbered;
    ghost var s, f := h.slots, Lower(i);
    ghost var where := BucketOf(s, h.hash, h.entries, order, i);
    NumberedBelow(s, h.hash, h.entries, order);
    var at := LowerAbove(h, i, where);
    b := at;
    RevaluedSound(s, h.slots, h.hash, h.entries, f);
    h.entries := Renumbered(h.entries, f);
  }

  lemma BucketOf(s: seq<Slot>, hash: Hash, m: Table, order: seq<Word>, i: Word) returns (where: nat)
    requires Sound(s, hash, m) && Numbered(m, order) && i < |order|
    ensures Holds(s, where, order[i]) && s[where].entry == m[order[i]] && s[where].entry.value == i
    ensures forall j :: 0 <= j < |s| && s[j].Live? && s[j].entry.value == i ==> j == where
  {
    hide Chained;
    var w :| Holds(s, w, order[i]);
    where := w;
    forall j | 0 <= j < |s| && s[j].Live? && s[j].entry.value == i ensures j == where {
      assert m[s[j].key].value == i;
      assert order[i] == s[j].key;
    }
  }
}
