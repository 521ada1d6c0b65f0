/**
 What the operations of CFBasicHash.c mean, on finite maps: dictionaries and sets
 (every count is one), bags (counted keys) and the ordered-index mode (values are
 positions).
 */
module HashModel {
  import opened Machine
  import opened HashSlots

  type Table = map<Word, Entry>

  /** Counts are positive and fit in a CFIndex; tables without counts hold every key once. */
  ghost predicate Counted(m: Table, hasCounts: bool) {
    forall k :: k in m ==> 1 <= m[k].count <= (if hasCounts then LONG_MAX else 1)
  }

  function CountOf(m: Table, key: Word): (n: nat) {
    if key in m then m[key].count else 0
  }

  // ----- operations -----

  function Added(m: Table, hasCounts: bool, key: Word, value: Word): Table {
    if key !in m then m[key := Entry(value, 1)]
    else if hasCounts && m[key].count < LONG_MAX then m[key := Entry(m[key].value, m[key].count + 1)]
    else m
  }

  function Replaced(m: Table, key: Word, value: Word): Table {
    if key in m then m[key := Entry(value, m[key].count)] else m
  }

  function Stored(m: Table, key: Word, value: Word): Table {
    if key in m then Replaced(m, key, value) else m[key := Entry(value, 1)]
  }

  function Removed(m: Table, hasCounts: bool, key: Word): Table {
    if key !in m then m
    else if m[key].count <= 1 then m - {key}
    else if hasCounts && m[key].count < LONG_MAX then m[key := Entry(m[key].value, m[key].count - 1)]
    else m
  }

  lemma OperationsCounted(m: Table, hasCounts: bool, key: Word, value: Word)
    requires Counted(m, hasCounts)
    ensures Counted(Added(m, hasCounts, key, value), hasCounts)
    ensures Counted(Stored(m, key, value), hasCounts)
    ensures Counted(Removed(m, hasCounts, key), hasCounts)
  {
  }

  // ----- what the operations change -----

  /** Every other key is as before: there or not, with the same value and count. */
  ghost predicate OthersKept(m: Table, r: Table, key: Word) {
    forall k: Word :: k != key ==> (k in r <==> k in m) && (k in m ==> r[k] == m[k])
  }

  /** The key is there afterwards: a new one with the value given, one that was there with the value it had. */
  ghost predicate Adds(m: Table, r: Table, hasCounts: bool, key: Word, value: Word) {
    && OthersKept(m, r, key) && key in r
    && (key !in m ==> r[key].value == value && r[key].count == 1)
    && (key in m ==> r[key].value == m[key].value)
    && (key in m ==> r[key].count == m[key].count + if hasCounts && m[key].count < LONG_MAX then 1 else 0)
  }

  /** A key that is there has the value given and its old count; without the key nothing changes. */
  ghost predicate Replaces(m: Table, r: Table, key: Word, value: Word) {
    && OthersKept(m, r, key) && (key in r <==> key in m)
    && (key in m ==> r[key].value == value && r[key].count == m[key].count)
  }

  /** The key is there with the value given, and its old count or one. */
  ghost predicate Sets(m: Table, r: Table, key: Word, value: Word) {
    && OthersKept(m, r, key) && key in r && r[key].value == value
    && r[key].count == if key in m then m[key].count else 1
  }

  /** The last occurrence of a key goes with the key; otherwise the count drops by one, unless it is clamped. */
  ghost predicate Removes(m: Table, r: Table, hasCounts: bool, key: Word) {
    && OthersKept(m, r, key) && (key in r <==> key in m && m[key].count > 1)
    && (key in r ==> r[key].value == m[key].value)
    && (key in r ==> r[key].count == m[key].count - if hasCounts && m[key].count < LONG_MAX then 1 else 0)
  }

  lemma AddedMeaning(m: Table, r: Table, hasCounts: bool, key: Word, value: Word)
    ensures r == Added(m, hasCounts, key, value) <==> Adds(m, r, hasCounts, key, value)
  {
    SameTables(r, Added(m, hasCounts, key, value), key);
  }

  lemma ReplacedMeaning(m: Table, r: Table, key: Word, value: Word)
    ensures r == Replaced(m, key, value) <==> Replaces(m, r, key, value)
  {
    SameTables(r, Replaced(m, key, value), key);
  }

  lemma StoredMeaning(m: Table, r: Table, key: Word, value: Word)
    ensures r == Stored(m, key, value) <==> Sets(m, r, key, value)
  {
    SameTables(r, Stored(m, key, value), key);
  }

  lemma RemovedMeaning(m: Table, r: Table, hasCounts: bool, key: Word)
    ensures r == Removed(m, hasCounts, key) <==> Removes(m, r, hasCounts, key)
  {
    SameTables(r, Removed(m, hasCounts, key), key);
  }

  lemma SameTables(a: Table, b: Table, key: Word)
    ensures a == b <==> OthersKept(a, b, key) && (key in a <==> key in b) && (key in a ==> a[key] == b[key])
  {
    if OthersKept(a, b, key) && (key in a <==> key in b) && (key in a ==> a[key] == b[key]) {
      assert a.Keys == b.Keys;
    }
  }

  // ----- bags -----

  ghost predicate IsBag(m: Table, bag: multiset<Word>) {
    forall k: Word :: bag[k] == CountOf(m, k)
  }

  /** Adding to a counted table adds one occurrence, unless the count is clamped; exactly then it does not. */
  lemma AddedBag(m: Table, bag: multiset<Word>, key: Word, value: Word)
    requires Counted(m, true) && IsBag(m, bag)
    ensures IsBag(Added(m, true, key, value), bag + multiset{key}) <==> CountOf(m, key) < LONG_MAX
  {
    var r, after := Added(m, true, key, value), bag + multiset{key};
    assert after[key] == bag[key] + 1;
    if CountOf(m, key) < LONG_MAX {
      assert r[key].count == CountOf(m, key) + 1;
    } else {
      assert CountOf(r, key) == LONG_MAX;
    }
  }

  /** Removing from a counted table removes one occurrence, unless the count is clamped; exactly then it does not. */
  lemma RemovedBag(m: Table, bag: multiset<Word>, key: Word)
    requires Counted(m, true) && IsBag(m, bag)
    ensures IsBag(Removed(m, true, key), bag - multiset{key}) <==> CountOf(m, key) < LONG_MAX
  {
    var r, after := Removed(m, true, key), bag - multiset{key};
    assert after[key] == if bag[key] == 0 then 0 else bag[key] - 1;
    if CountOf(m, key) < LONG_MAX {
      forall k: Word ensures after[k] == CountOf(r, k) {
      }
    } else {
      assert CountOf(r, key) == LONG_MAX;
    }
  }

  // ----- runs -----

  datatype Op =
    | Add(key: Word, value: Word)
    | Replace(key: Word, value: Word)
    | Set(key: Word, value: Word)
    | Remove(key: Word)
    | SetCapacity(capacity: int)
    | RemoveAll

  function Applied(m: Table, hasCounts: bool, op: Op): Table {
    match op
    case Add(k, v) => Added(m, hasCounts, k, v)
    case Replace(k, v) => Replaced(m, k, v)
    case Set(k, v) => Stored(m, k, v)
    case Remove(k) => Removed(m, hasCounts, k)
    case SetCapacity(_) => m
    case RemoveAll => map[]
  }

  /** What one operation does to a table, in terms of keys, values and counts. */
  ghost predicate Does(m: Table, r: Table, hasCounts: bool, op: Op) {
    match op
    case Add(k, v) => Adds(m, r, hasCounts, k, v)
    case Replace(k, v) => Replaces(m, r, k, v)
    case Set(k, v) => Sets(m, r, k, v)
    case Remove(k) => Removes(m, r, hasCounts, k)
    case SetCapacity(_) => r == m
    case RemoveAll => |r| == 0
  }

  lemma AppliedMeaning(m: Table, r: Table, hasCounts: bool, op: Op)
    ensures r == Applied(m, hasCounts, op) <==> Does(m, r, hasCounts, op)
  {
    hide Added, Replaced, Stored, Removed, Adds, Replaces, Sets, Removes;
    match op
    case Add(k, v) => AddedMeaning(m, r, hasCounts, k, v);
    case Replace(k, v) => ReplacedMeaning(m, r, k, v);
    case Set(k, v) => StoredMeaning(m, r, k, v);
    case Remove(k) => RemovedMeaning(m, r, hasCounts, k);
    case SetCapacity(_) =>
    case RemoveAll =>
  }

  /** Whether the operation can take the key away or give it another value. */
  predicate Overwrites(op: Op, key: Word) {
    match op
    case Replace(k, _) => k == key
    case Set(k, _) => k == key
    case Remove(k) => k == key
    case RemoveAll => true
    case _ => false
  }

  /** Along any run, the last value set for a key is the one it has: adding it again and all else leave the value alone. */
  lemma {:induction false} LastSetHolds(m: Table, hasCounts: bool, ops: seq<Op>, i: nat)
    requires i < |ops| && ops[i].Set? && forall j :: i < j < |ops| ==> !Overwrites(ops[j], ops[i].key)
    ensures var r := AppliedAll(m, hasCounts, ops);
      ops[i].key in r && r[ops[i].key].value == ops[i].value
    decreases |ops|
  {
    var init, last := ops[..|ops| - 1], ops[|ops| - 1];
    var before := AppliedAll(m, hasCounts, init);
    AppliedMeaning(before, AppliedAll(m, hasCounts, ops), hasCounts, last);
    if i < |init| {
      LastSetHolds(m, hasCounts, init, i);
    }
    hide Applied;
  }

  function AppliedAll(m: Table, hasCounts: bool, ops: seq<Op>): Table {
    if ops == [] then m else Applied(AppliedAll(m, hasCounts, ops[..|ops| - 1]), hasCounts, ops[|ops| - 1])
  }

  /** A run is its operations one after the other, each doing what it says. */
  lemma RunDoes(m: Table, hasCounts: bool, ops: seq<Op>)
    ensures AppliedAll(m, hasCounts, []) == m
    ensures forall i :: 0 <= i < |ops| ==>
      Does(AppliedAll(m, hasCounts, ops[..i]), AppliedAll(m, hasCounts, ops[..i + 1]), hasCounts, ops[i])
  {
    forall i | 0 <= i < |ops|
      ensures Does(AppliedAll(m, hasCounts, ops[..i]), AppliedAll(m, hasCounts, ops[..i + 1]), hasCounts, ops[i])
    {
      assert ops[..i + 1][..i] == ops[..i];
      hide Applied, Does;
      AppliedMeaning(AppliedAll(m, hasCounts, ops[..i]), AppliedAll(m, hasCounts, ops[..i + 1]), hasCounts, ops[i]);
    }
  }

  /** How the same operation acts on a multiset of keys. */
  function BagApplied(bag: multiset<Word>, op: Op): multiset<Word> {
    match op
    case Add(k, _) => bag + multiset{k}
    case Replace(_, _) => bag
    case Set(k, _) => if k in bag then bag else bag + multiset{k}
    case Remove(k) => bag - multiset{k}
    case SetCapacity(_) => bag
    case RemoveAll => multiset{}
  }

  function BagAppliedAll(bag: multiset<Word>, ops: seq<Op>): multiset<Word> {
    if ops == [] then bag else BagApplied(BagAppliedAll(bag, ops[..|ops| - 1]), ops[|ops| - 1])
  }

  lemma AppliedBag(m: Table, bag: multiset<Word>, op: Op)
    requires Counted(m, true) && IsBag(m, bag)
    requires (op.Add? || op.Remove?) ==> CountOf(m, op.key) < LONG_MAX
    ensures Counted(Applied(m, true, op), true) && IsBag(Applied(m, true, op), BagApplied(bag, op))
  {
    match op
    case Add(k, v) =>
      AddedBag(m, bag, k, v);
      OperationsCounted(m, true, k, v);
    case Replace(k, v) =>
    case Set(k, v) =>
      assert k in bag <==> bag[k] > 0;
    case Remove(k) =>
      RemovedBag(m, bag, k);
      OperationsCounted(m, true, k, 0);
    case SetCapacity(_) =>
    case RemoveAll =>
  }

  /** The operation does not meet a count at the clamp. */
  predicate BelowClamp(m: Table, op: Op) {
    (op.Add? || op.Remove?) ==> CountOf(m, op.key) < LONG_MAX
  }

  /** After ops the table holds the bag that the same operations make of a multiset. */
  ghost predicate InStep(ops: seq<Op>) {
    IsBag(AppliedAll(map[], true, ops), BagAppliedAll(multiset{}, ops))
  }

  /** One operation stays in step exactly when it is below the clamp. */
  lemma AppliedInStep(m: Table, bag: multiset<Word>, op: Op)
    requires Counted(m, true) && IsBag(m, bag)
    ensures Counted(Applied(m, true, op), true)
    ensures IsBag(Applied(m, true, op), BagApplied(bag, op)) <==> BelowClamp(m, op)
  {
    if BelowClamp(m, op) {
      AppliedBag(m, bag, op);
    } else if op.Add? {
      AddedBag(m, bag, op.key, op.value);
      OperationsCounted(m, true, op.key, op.value);
    } else {
      RemovedBag(m, bag, op.key);
      OperationsCounted(m, true, op.key, 0);
    }
  }

  /** The run is in step with a multiset all along. */
  ghost predicate AlwaysInStep(ops: seq<Op>) {
    forall i :: 0 <= i <= |ops| ==> InStep(ops[..i])
  }

  /** No operation of the run meets a count at the clamp. */
  ghost predicate NeverClamped(ops: seq<Op>) {
    forall i :: 0 <= i < |ops| ==> BelowClamp(AppliedAll(map[], true, ops[..i]), ops[i])
  }

  /** A run from an empty counted table is in step with a multiset all along exactly when no operation meets the clamp. */
  lemma {:induction false} RunIsBagRun(ops: seq<Op>)
    ensures Counted(AppliedAll(map[], true, ops), true)
    ensures AlwaysInStep(ops) <==> NeverClamped(ops)
  {
    if ops != [] {
      RunIsBagRun(ops[..|ops| - 1]);
      AlwaysSplit(ops);
      NeverSplit(ops);
      LastInStep(ops);
      hide AlwaysInStep, NeverClamped, InStep, BelowClamp, AppliedAll;
    }
  }

  lemma AlwaysSplit(ops: seq<Op>)
    requires ops != []
    ensures AlwaysInStep(ops) <==> AlwaysInStep(ops[..|ops| - 1]) && InStep(ops)
    ensures AlwaysInStep(ops) ==> InStep(ops[..|ops| - 1])
    ensures AlwaysInStep(ops[..|ops| - 1]) ==> InStep(ops[..|ops| - 1])
  {
    hide InStep;
    var n := |ops| - 1;
    var init := ops[..n];
    assert ops[..|ops|] == ops && init[..n] == init;
    forall i | 0 <= i <= n ensures init[..i] == ops[..i] {
    }
    if AlwaysInStep(ops) {
      forall i | 0 <= i <= |init| ensures InStep(init[..i]) {
        assert InStep(ops[..i]);
      }
      assert InStep(ops[..|ops|]);
    }
    if AlwaysInStep(init) && InStep(ops) {
      forall i | 0 <= i <= |ops| ensures InStep(ops[..i]) {
        assert i <= n ==> InStep(init[..i]);
      }
    }
    if AlwaysInStep(init) {
      assert InStep(init[..n]);
    }
  }

  lemma NeverSplit(ops: seq<Op>)
    requires ops != []
    ensures NeverClamped(ops) <==>
      NeverClamped(ops[..|ops| - 1]) && BelowClamp(AppliedAll(map[], true, ops[..|ops| - 1]), ops[|ops| - 1])
  {
    hide BelowClamp, AppliedAll;
    var n := |ops| - 1;
    var init := ops[..n];
    forall i | 0 <= i < n ensures init[..i] == ops[..i] && init[i] == ops[i] {
    }
  }

  lemma LastInStep(ops: seq<Op>)
    requires ops != [] && Counted(AppliedAll(map[], true, ops[..|ops| - 1]), true)
    ensures Counted(AppliedAll(map[], true, ops), true)
    ensures InStep(ops[..|ops| - 1]) ==>
      (InStep(ops) <==> BelowClamp(AppliedAll(map[], true, ops[..|ops| - 1]), ops[|ops| - 1]))
  {
    var init, op := ops[..|ops| - 1], ops[|ops| - 1];
    var m, bag := AppliedAll(map[], true, init), BagAppliedAll(multiset{}, init);
    if InStep(init) {
      AppliedInStep(m, bag, op);
    } else if op.Add? || op.Set? {
      OperationsCounted(m, true, op.key, op.value);
    } else if op.Remove? {
      OperationsCounted(m, true, op.key, 0);
    }
  }

  /** Fewer than LONG_MAX operations cannot meet the clamp. */
  lemma {:induction false} ShortRun(ops: seq<Op>)
    requires |ops| < LONG_MAX
    ensures InStep(ops) && |BagAppliedAll(multiset{}, ops)| <= |ops| && Counted(AppliedAll(map[], true, ops), true)
  {
    if ops != [] {
      var init, op := ops[..|ops| - 1], ops[|ops| - 1];
      ShortRun(init);
      var m, bag := AppliedAll(map[], true, init), BagAppliedAll(multiset{}, init);
      if op.Add? || op.Remove? {
        CardinalityBound(bag, op.key);
        assert bag[op.key] == CountOf(m, op.key);
      }
      AppliedInStep(m, bag, op);
    }
  }

  /** A key at the clamp: adding and removing it both leave the table as it is. */
  lemma ClampedExample()
    ensures var m := map[7 as Word := Entry(7, LONG_MAX)];
      Counted(m, true) && Added(m, true, 7, 7) == m && Removed(m, true, 7) == m
  {
  }

  lemma CardinalityBound(bag: multiset<Word>, key: Word)
    ensures bag[key] <= |bag|
  {
    var rest := bag[key := 0];
    assert bag == rest + multiset{}[key := bag[key]];
    assert |multiset{}[key := bag[key]]| == bag[key];
  }

  // ----- ordered-index mode -----

  /** The stored values number the keys in the order of the sequence, without gaps. */
  ghost predicate Numbered(m: Table, order: seq<Word>) {
    && (forall i :: 0 <= i < |order| ==> order[i] in m && m[order[i]].value == i)
    && (forall k :: k in m ==> m[k].value < |order| && order[m[k].value] == k)
  }

  function Up(i: Word, v: Word): Word {
    if i <= v < MAX_WORD then v + 1 else v
  }

  function Down(i: Word, v: Word): Word {
    if i < v then v - 1 else v
  }

  function Raise(i: Word): Word -> Word {
    (v: Word) => Up(i, v)
  }

  function Lower(i: Word): Word -> Word {
    (v: Word) => Down(i, v)
  }

  function Renumbered(m: Table, f: Word -> Word): Table {
    map k | k in m :: Entry(f(m[k].value), m[k].count)
  }

  /** Numbering keys is a bijection: the sequence lists each key once. */
  lemma NumberedOnce(m: Table, order: seq<Word>)
    requires Numbered(m, order)
    ensures forall i, j :: 0 <= i < j < |order| ==> order[i] != order[j]
    ensures forall k :: k in m <==> k in order
    ensures |m| == |order|
  {
    forall k ensures k in m <==> k in order {
      if k in m {
        assert order[m[k].value] in order;
      }
    }
    DistinctSize(order, m);
  }

  lemma {:induction false} DistinctSize(order: seq<Word>, m: Table)
    requires forall k :: k in m <==> k in order
    requires forall i, j :: 0 <= i < j < |order| ==> order[i] != order[j]
    ensures |m| == |order|
  {
    if order == [] {
      assert m == map[];
    } else {
      var n := |order| - 1;
      var rest := order[..n];
      assert order == rest + [order[n]];
      var m' := m - {order[n]};
      assert m == m'[order[n] := m[order[n]]];
      DistinctSize(rest, m');
    }
  }

  lemma NumberedInsert(m: Table, order: seq<Word>, key: Word, i: Word)
    requires Numbered(m, order) && key !in m && i <= |order| < MAX_WORD
    ensures Numbered(Renumbered(m, Raise(i))[key := Entry(i, 1)], order[..i] + [key] + order[i..])
  {
    var r, o := Renumbered(m, Raise(i))[key := Entry(i, 1)], order[..i] + [key] + order[i..];
    forall j | 0 <= j < |o| ensures o[j] in r && r[o[j]].value == j {
      if j > i {
        assert o[j] == order[j - 1];
      }
    }
    forall k | k in r ensures r[k].value < |o| && o[r[k].value] == k {
      if k != key {
        assert order[m[k].value] == k;
      }
    }
  }

  lemma NumberedRemove(m: Table, order: seq<Word>, i: Word)
    requires Numbered(m, order) && i < |order|
    ensures Numbered(Renumbered(m, Lower(i)) - {order[i]}, order[..i] + order[i + 1..])
  {
    var r, o := Renumbered(m, Lower(i)) - {order[i]}, order[..i] + order[i + 1..];
    forall j | 0 <= j < |o| ensures o[j] in r && r[o[j]].value == j {
      assert o[j] == order[if j < i then j else j + 1];
    }
    forall k | k in r ensures r[k].value < |o| && o[r[k].value] == k {
      assert order[m[k].value] == k;
    }
  }

  /** Renumbering the values of live slots renumbers the table, and moves nothing. */
  lemma RenumberedSound(s: seq<Slot>, r: seq<Slot>, hash: Hash, m: Table, f: Word -> Word)
    requires Sound(s, hash, m) && |r| == |s|
    requires forall j :: 0 <= j < |s| ==> r[j] == Revalued(s[j], f)
    ensures Sound(r, hash, Renumbered(m, f)) && LiveCount(r) == LiveCount(s) && TombCount(r) == TombCount(s)
  {
    SameKindCounts(s, r);
    var m' := Renumbered(m, f);
    forall b, d | 0 <= b < |r| && r[b].Live? && 0 <= d < Distance(Home(hash, r[b].key, |r|), b, |r|)
      ensures !r[At(Home(hash, r[b].key, |r|), d, |r|)].Empty?
    {
      assert !s[At(Home(hash, s[b].key, |s|), d, |s|)].Empty?;
    }
    forall k | k in m' ensures exists i :: Holds(r, i, k) {
      var i :| Holds(s, i, k);
      assert Holds(r, i, k);
    }
  }

  function Revalued(x: Slot, f: Word -> Word): Slot {
    if x.Live? then Live(x.key, Entry(f(x.entry.value), x.entry.count)) else x
  }

  lemma {:induction false} SameKindCounts(s: seq<Slot>, r: seq<Slot>)
    requires |r| == |s| && forall j :: 0 <= j < |s| ==> r[j].Live? == s[j].Live? && r[j].Tombstone? == s[j].Tombstone?
    ensures LiveCount(r) == LiveCount(s) && TombCount(r) == TombCount(s)
  {
    if s != [] {
      SameKindCounts(s[..|s| - 1], r[..|s| - 1]);
    }
  }

  // ----- the slots as a bag -----

  /** There are as many live slots as entries. */
  lemma LiveIsSize(s: seq<Slot>, hash: Hash, m: Table)
    requires Sound(s, hash, m)
    ensures LiveCount(s) == |m|
  {
    AgreeingSize(s, m);
  }

  lemma {:induction false} AgreeingSize(s: seq<Slot>, m: Table)
    requires Unique(s) && Agrees(s, m)
    ensures LiveCount(s) == |m|
  {
    if s == [] {
      assert m == map[];
    } else {
      var n := |s| - 1;
      var init := s[..n];
      var m' := if s[n].Live? then m - {s[n].key} else m;
      assert s[n].Live? ==> m == m'[s[n].key := s[n].entry];
      forall k | k in m' ensures exists i :: Holds(init, i, k) {
        var i :| Holds(s, i, k);
        assert Holds(init, i, k);
      }
      AgreeingSize(init, m');
    }
  }

  function Copies(x: Slot): multiset<Word> {
    if x.Live? then multiset{}[x.key := x.entry.count] else multiset{}
  }

  function SlotBag(s: seq<Slot>): multiset<Word> {
    if s == [] then multiset{} else SlotBag(s[..|s| - 1]) + Copies(s[|s| - 1])
  }

  function Total(s: seq<Slot>): nat {
    if s == [] then 0 else Total(s[..|s| - 1]) + RawCount(s[|s| - 1], true)
  }

  /** The raw count behind a slot: zero in a free one, and one where a table keeps no counts. */
  function RawCount(x: Slot, hasCounts: bool): nat {
    if !hasCounts then 1 else if x.Live? then x.entry.count else 0
  }

  lemma {:induction false} TotalIsSize(s: seq<Slot>)
    ensures |SlotBag(s)| == Total(s)
  {
    if s != [] {
      TotalIsSize(s[..|s| - 1]);
      var x := s[|s| - 1];
      if x.Live? {
        assert |multiset{}[x.key := x.entry.count]| == x.entry.count;
      }
    }
  }

  lemma {:induction false} TotalOnes(s: seq<Slot>)
    requires forall i :: 0 <= i < |s| && s[i].Live? ==> s[i].entry.count == 1
    ensures Total(s) == LiveCount(s)
  {
    if s != [] {
      TotalOnes(s[..|s| - 1]);
    }
  }

  lemma {:induction false} SlotBagMiss(s: seq<Slot>, key: Word)
    requires forall i :: !Holds(s, i, key)
    ensures SlotBag(s)[key] == 0
  {
    if s != [] {
      var n := |s| - 1;
      assert !Holds(s, n, key);
      forall i ensures !Holds(s[..n], i, key) {
        assert !Holds(s, i, key);
      }
      SlotBagMiss(s[..n], key);
    }
  }

  lemma CopiesOf(x: Slot, key: Word)
    ensures Copies(x)[key] == if x.Live? && x.key == key then x.entry.count else 0
  {
  }

  lemma {:induction false} SlotBagHit(s: seq<Slot>, key: Word, i: int)
    requires Unique(s) && Holds(s, i, key)
    ensures SlotBag(s)[key] == s[i].entry.count
  {
    hide Copies;
    var n := |s| - 1;
    var init := s[..n];
    CopiesOf(s[n], key);
    if i < n {
      assert Holds(init, i, key);
      SlotBagHit(init, key, i);
    } else {
      forall j ensures !Holds(init, j, key) {
      }
      SlotBagMiss(init, key);
    }
  }

  /** The live slots of a sound table are its bag. */
  lemma SlotBagIsBag(s: seq<Slot>, hash: Hash, m: Table)
    requires Sound(s, hash, m)
    ensures IsBag(m, SlotBag(s))
  {
    hide Chained;
    forall k: Word ensures SlotBag(s)[k] == CountOf(m, k) {
      if k in m {
        var i :| Holds(s, i, k);
        SlotBagHit(s, k, i);
      } else {
        forall i ensures !Holds(s, i, k) {
        }
        SlotBagMiss(s, k);
      }
    }
  }

  lemma BagUnique(m: Table, a: multiset<Word>, b: multiset<Word>)
    requires IsBag(m, a) && IsBag(m, b)
    ensures a == b
  {
    forall k: Word ensures a[k] == b[k] {
      assert a[k] == CountOf(m, k);
    }
  }

  /** The sum of the counts is the number of occurrences. */
  lemma TotalIsBag(s: seq<Slot>, hash: Hash, m: Table, bag: multiset<Word>)
    requires Sound(s, hash, m) && IsBag(m, bag)
    ensures Total(s) == |bag|
  {
    SlotBagIsBag(s, hash, m);
    BagUnique(m, SlotBag(s), bag);
    TotalIsSize(s);
  }

  /** A table whose entries all appear in another of the same total is that other table. */
  lemma SubtableEqual(m: Table, n: Table, a: multiset<Word>, b: multiset<Word>)
    requires Counted(m, true) && Counted(n, true) && IsBag(m, a) && IsBag(n, b) && |a| == |b|
    requires forall k :: k in m ==> k in n && n[k] == m[k]
    ensures m == n
  {
    forall k: Word ensures a[k] <= b[k] {
      assert a[k] == CountOf(m, k) && b[k] == CountOf(n, k);
    }
    assert a <= b;
    assert b == a + (b - a);
    assert |b - a| == 0;
    assert a == b;
    forall k | k in n ensures k in m {
      assert b[k] == CountOf(n, k) && a[k] == CountOf(m, k);
    }
  }

  // ----- the elements, in bucket order -----

  function Repeated(key: Word, value: Word, n: nat): seq<(Word, Word)> {
    seq(n, _ => (key, value))
  }

  function Occurrences(x: Slot): seq<(Word, Word)> {
    if x.Live? then Repeated(x.key, x.entry.value, x.entry.count) else []
  }

  lemma OccurrenceKeys(x: Slot)
    ensures multiset(KeysOf(Occurrences(x))) == Copies(x) && |Occurrences(x)| == RawCount(x, true)
  {
    if x.Live? {
      RepeatedKeys(x.key, x.entry.value, x.entry.count);
    } else {
      assert KeysOf([]) == [];
    }
  }

  /** Every entry as often as it counts. */
  function Elements(s: seq<Slot>): seq<(Word, Word)> {
    if s == [] then [] else Elements(s[..|s| - 1]) + Occurrences(s[|s| - 1])
  }

  function KeysOf(e: seq<(Word, Word)>): seq<Word> {
    seq(|e|, i requires 0 <= i < |e| => e[i].0)
  }

  lemma {:induction false} RepeatedKeys(key: Word, value: Word, n: nat)
    ensures multiset(KeysOf(Repeated(key, value, n))) == multiset{}[key := n]
  {
    if n > 0 {
      RepeatedKeys(key, value, n - 1);
      assert KeysOf(Repeated(key, value, n)) == KeysOf(Repeated(key, value, n - 1)) + [key];
    } else {
      assert KeysOf(Repeated(key, value, n)) == [];
    }
  }

  lemma KeysConcat(a: seq<(Word, Word)>, b: seq<(Word, Word)>)
    ensures KeysOf(a + b) == KeysOf(a) + KeysOf(b)
  {
  }

  /** The keys of the elements are the bag. */
  lemma {:induction false} ElementKeys(s: seq<Slot>)
    ensures multiset(KeysOf(Elements(s))) == SlotBag(s) && |Elements(s)| == Total(s)
  {
    if s != [] {
      var init, x := s[..|s| - 1], s[|s| - 1];
      ElementKeys(init);
      OccurrenceKeys(x);
      KeysConcat(Elements(init), Occurrences(x));
      hide KeysOf, Copies, Occurrences, RawCount;
    } else {
      assert KeysOf([]) == [];
    }
  }

  lemma {:induction false} ElementsPrefix(s: seq<Slot>, n: nat)
    requires n <= |s|
    ensures Elements(s[..n]) <= Elements(s)
    ensures LiveCount(s[..n]) == LiveCount(s) ==> Elements(s[..n]) == Elements(s)
    decreases |s|
  {
    if n < |s| {
      var t := s[..|s| - 1];
      assert t[..n] == s[..n];
      ElementsPrefix(t, n);
      LivePrefix(t, n);
    } else {
      assert s[..n] == s;
    }
  }

  /** Once as many live slots were seen as there are, no key lies further on. */
  lemma AllSeen(s: seq<Slot>, n: nat, i: nat)
    requires n <= i < |s| && LiveCount(s[..n]) == LiveCount(s)
    ensures !s[i].Live?
  {
    LivePrefix(s, i + 1);
    LivePrefix(s[..i], n);
    assert s[..i][..n] == s[..n] && s[..i + 1][..i] == s[..i];
  }
}
