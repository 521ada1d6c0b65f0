/**
 The mutable array of CFArray.c: values in a deque with free buckets on both
 sides. Every mutation that changes the length opens or closes a gap by moving
 regions of buckets, and refines splicing of a sequence.
 */
module ArrayDeque {

  /** A value is a pointer; NULL is 0. */
  type Ref = nat
  const NULL: Ref := 0

  /** Shifts on int are defined up to bit 30. */
  const MAX_CAPACITY: nat := 0x4000_0000

  /** The greatest length that appending one value at a time can reach. */
  const MAX_APPENDED: nat := MAX_CAPACITY - 0x2000 + 1

  function Pow2(n: nat): (r: nat)
    ensures r >= 1
  {
    if n == 0 then 1 else 2 * Pow2(n - 1)
  }

  lemma {:induction false} Pow2Monotone(m: nat, n: nat)
    requires m <= n
    ensures Pow2(m) <= Pow2(n)
    decreases n - m
  {
    if m < n {
      Pow2Monotone(m, n - 1);
    }
  }

  lemma {:induction false} Pow2Strict(m: nat, n: nat)
    requires Pow2(m) < Pow2(n)
    ensures m < n
  {
    if m >= n {
      Pow2Monotone(n, m);
    }
  }

  lemma Pow2Thirty()
    ensures Pow2(30) == 0x4000_0000
  {
    assert Pow2(10) == 1024;
    assert Pow2(20) == 1024 * Pow2(10);
    assert Pow2(30) == 1024 * Pow2(20);
  }

  /** The number of binary digits of m. */
  function Bits(m: nat): (k: nat)
    ensures m < Pow2(k)
    ensures m > 0 ==> k > 0 && Pow2(k - 1) <= m
  {
    if m == 0 then 0 else 1 + Bits(m / 2)
  }

  /** flsl: shifts until nothing is left. */
  method Flsl(mask: nat) returns (idx: nat)
    ensures idx == Bits(mask)
  {
    idx := 0;
    var m := mask;
    while m != 0
      invariant idx + Bits(m) == Bits(mask)
      decreases m
    {
      m, idx := m / 2, idx + 1;
    }
  }

  /** A capacity that rounding up can give: below the greatest one it can be doubled. */
  predicate Rounded(capacity: nat) {
    4 <= capacity <= MAX_CAPACITY && (capacity < MAX_CAPACITY ==> 2 * capacity <= MAX_CAPACITY)
  }

  ghost predicate PowerOfTwo(n: nat) {
    exists k: nat :: n == Pow2(k)
  }

  /** __CFArrayDequeRoundUpCapacity */
  method RoundUpCapacity(capacity: nat) returns (r: nat)
    requires capacity < MAX_CAPACITY
    ensures capacity <= r && Rounded(r)
    ensures capacity >= 4 ==> capacity < r <= 2 * capacity
    ensures capacity < 4 ==> r == 4
    ensures PowerOfTwo(r)
  {
    if capacity < 4 {
      assert Pow2(2) == 2 * Pow2(1) && Pow2(1) == 2 * Pow2(0);
      return 4;
    }
    var k := Flsl(capacity);
    r := Pow2(k);
    Pow2Thirty();
    Pow2Strict(k - 1, 30);
    Pow2Monotone(k, 30);
    if k < 30 {
      Pow2Monotone(k, 29);
    }
    assert Pow2(k) == 2 * Pow2(k - 1);
  }

  /** A block with `v` written over it at `at`. */
  function Pasted(s: seq<Ref>, at: nat, v: seq<Ref>): (r: seq<Ref>)
    requires at + |v| <= |s|
    ensures |r| == |s|
  {
    s[..at] + v + s[at + |v|..]
  }

  lemma PastedInside(s: seq<Ref>, at: nat, v: seq<Ref>)
    requires at + |v| <= |s|
    ensures Pasted(s, at, v)[at..at + |v|] == v
  {
  }

  lemma PastedOutside(s: seq<Ref>, at: nat, v: seq<Ref>, lo: nat, hi: nat)
    requires at + |v| <= |s| && lo <= hi <= |s| && (hi <= at || at + |v| <= lo)
    ensures Pasted(s, at, v)[lo..hi] == s[lo..hi]
  {
  }

  function Nulls(n: nat): (z: seq<Ref>)
    ensures |z| == n
  {
    seq(n, _ => NULL)
  }

  lemma PastedPointwise(was: seq<Ref>, now: seq<Ref>, at: nat, v: seq<Ref>)
    requires at + |v| <= |was| == |now|
    requires forall i :: at <= i < at + |v| ==> now[i] == v[i - at]
    requires forall i :: 0 <= i < at || at + |v| <= i < |was| ==> now[i] == was[i]
    ensures now == Pasted(was, at, v)
  {
  }

  /** memmove within one block of buckets: the copy direction depends on the overlap. */
  method Move(b: array<Ref>, dst: nat, src: nat, n: nat)
    requires dst + n <= b.Length && src + n <= b.Length
    modifies b
    ensures b[..] == Pasted(old(b[..]), dst, old(b[..])[src..src + n])
  {
    hide Pasted;
    ghost var was := b[..];
    if dst < src {
      var k := 0;
      while k < n
        invariant k <= n
        invariant forall i :: dst <= i < dst + k ==> b[i] == was[i - dst + src]
        invariant forall i :: dst + k <= i < b.Length ==> b[i] == was[i]
        invariant forall i :: 0 <= i < dst ==> b[i] == was[i]
      {
        b[dst + k] := b[src + k];
        k := k + 1;
      }
    } else {
      var k := n;
      while k > 0
        invariant 0 <= k <= n
        invariant forall i :: dst + k <= i < dst + n ==> b[i] == was[i - dst + src]
        invariant forall i :: 0 <= i < dst + k ==> b[i] == was[i]
        invariant forall i :: dst + n <= i < b.Length ==> b[i] == was[i]
      {
        k := k - 1;
        b[dst + k] := b[src + k];
      }
    }
    PastedPointwise(was, b[..], dst, was[src..src + n]);
  }

  /** memmove from another block. */
  method Copy(b: array<Ref>, dst: nat, values: seq<Ref>)
    requires dst + |values| <= b.Length
    modifies b
    ensures b[..] == Pasted(old(b[..]), dst, values)
  {
    forall i | 0 <= i < |values| {
      b[dst + i] := values[i];
    }
  }

  /** The regions left and right of a gap of `gap` buckets stand where the deque starts at `left`. */
  ghost predicate Opened(b: seq<Ref>, left: nat, a: seq<Ref>, gap: nat, c: seq<Ref>) {
    && left + |a| + gap + |c| <= |b|
    && b[left..left + |a|] == a
    && b[left + |a| + gap..left + |a| + gap + |c|] == c
  }

  /** Moving the right region and clearing what it leaves behind opens the gap. */
  lemma MovedC(s: seq<Ref>, left: nat, a: nat, b: nat, c: nat, gap: nat, cleared: nat)
    requires left + a + b + c <= |s| && left + a + gap + c + cleared <= |s|
    ensures var s1 := Pasted(s, left + a + gap, s[left + a + b..left + a + b + c]);
            Opened(Pasted(s1, left + a + gap + c, Nulls(cleared)), left, s[left..left + a], gap, s[left + a + b..left + a + b + c])
  {
    var at, v := left + a + gap, s[left + a + b..left + a + b + c];
    var s1 := Pasted(s, at, v);
    PastedOutside(s, at, v, left, left + a);
    PastedInside(s, at, v);
    PastedOutside(s1, at + c, Nulls(cleared), left, left + a);
    PastedOutside(s1, at + c, Nulls(cleared), at, at + c);
    hide Pasted, Nulls;
  }

  /** Moving the left region and clearing what it leaves behind opens the gap. */
  lemma MovedA(s: seq<Ref>, oldL: nat, newL: nat, a: nat, b: nat, c: nat, gap: nat)
    requires oldL + a + b + c <= |s| && newL + gap == oldL + b
    ensures var s1 := Pasted(s, newL, s[oldL..oldL + a]);
            var s2 := if newL > oldL then Pasted(s1, oldL, Nulls(newL - oldL)) else s1;
            Opened(s2, newL, s[oldL..oldL + a], gap, s[oldL + a + b..oldL + a + b + c])
  {
    var v, at := s[oldL..oldL + a], newL + a + gap;
    var s1 := Pasted(s, newL, v);
    PastedInside(s, newL, v);
    PastedOutside(s, newL, v, at, at + c);
    if newL > oldL {
      PastedOutside(s1, oldL, Nulls(newL - oldL), newL, newL + a);
      PastedOutside(s1, oldL, Nulls(newL - oldL), at, at + c);
    }
    hide Pasted, Nulls;
  }

  /** Towards the left, moving the left region first does not overwrite the right one. */
  lemma MovedLeft(s: seq<Ref>, oldL: nat, newL: nat, a: nat, b: nat, c: nat, gap: nat, va: seq<Ref>, vc: seq<Ref>)
    requires oldL + a + b + c <= |s| && newL + a + gap + c <= |s| && newL < oldL
    requires va == s[oldL..oldL + a] && vc == s[oldL + a + b..oldL + a + b + c]
    ensures Pasted(s, newL, va)[oldL + a + b..oldL + a + b + c] == vc
    ensures Opened(Pasted(Pasted(s, newL, va), newL + a + gap, vc), newL, va, gap, vc)
  {
    hide Pasted;
    var at, s1 := newL + a + gap, Pasted(s, newL, va);
    PastedOutside(s, newL, va, oldL + a + b, oldL + a + b + c);
    PastedInside(s, newL, va);
    PastedOutside(s1, at, vc, newL, newL + a);
    PastedInside(s1, at, vc);
  }

  /** Towards the right, moving the right region first does not overwrite the left one. */
  lemma MovedRight(s: seq<Ref>, oldL: nat, newL: nat, a: nat, b: nat, c: nat, gap: nat, va: seq<Ref>, vc: seq<Ref>)
    requires oldL + a + b + c <= |s| && newL + a + gap + c <= |s| && newL >= oldL
    requires va == s[oldL..oldL + a] && vc == s[oldL + a + b..oldL + a + b + c]
    ensures Pasted(s, newL + a + gap, vc)[oldL..oldL + a] == va
    ensures Opened(Pasted(Pasted(s, newL + a + gap, vc), newL, va), newL, va, gap, vc)
  {
    hide Pasted;
    var at, s1 := newL + a + gap, Pasted(s, newL + a + gap, vc);
    PastedOutside(s, at, vc, oldL, oldL + a);
    PastedInside(s, at, vc);
    PastedInside(s1, newL, va);
    PastedOutside(s1, newL, va, at, at + c);
  }

  /** Clearing buckets outside the deque does not matter. */
  lemma StillOpened(s: seq<Ref>, left: nat, a: seq<Ref>, gap: nat, c: seq<Ref>, at: nat, n: nat)
    requires Opened(s, left, a, gap, c) && at + n <= |s|
    requires at + n <= left || left + |a| + gap + |c| <= at
    ensures Opened(Pasted(s, at, Nulls(n)), left, a, gap, c)
  {
    PastedOutside(s, at, Nulls(n), left, left + |a|);
    PastedOutside(s, at, Nulls(n), left + |a| + gap, left + |a| + gap + |c|);
    hide Pasted, Nulls;
  }

  /** Moves the region right of the range. */
  method MoveC(store: array<Ref>, left: nat, a: nat, b: nat, c: nat, newCount: nat)
    requires left + a + b + c <= store.Length && left + a + newCount + c <= store.Length
    modifies store
    ensures var s := old(store[..]);
            Opened(store[..], left, s[left..left + a], newCount, s[left + a + b..left + a + b + c])
  {
    hide Pasted, Opened, Nulls;
    var oldC0, newC0 := left + a + b, left + a + newCount;
    MovedC(store[..], left, a, b, c, newCount, if oldC0 > newC0 then oldC0 - newC0 else 0);
    Move(store, newC0, oldC0, c);
    Copy(store, newC0 + c, Nulls(if oldC0 > newC0 then oldC0 - newC0 else 0));
  }

  /** Moves the region left of the range to `newL`. */
  method MoveA(store: array<Ref>, oldL: nat, newL: nat, a: nat, b: nat, c: nat, newCount: nat)
    requires oldL + a + b + c <= store.Length && newL + newCount == oldL + b
    modifies store
    ensures var s := old(store[..]);
            Opened(store[..], newL, s[oldL..oldL + a], newCount, s[oldL + a + b..oldL + a + b + c])
  {
    hide Pasted, Opened, Nulls;
    MovedA(store[..], oldL, newL, a, b, c, newCount);
    Move(store, newL, oldL, a);
    if newL > oldL {
      Copy(store, oldL, Nulls(newL - oldL));
    }
  }

  /** Moves both regions; the order keeps the first move from overwriting the source of the second. */
  method Recenter(store: array<Ref>, oldL: nat, newL: nat, a: nat, b: nat, c: nat, newCount: nat)
    requires oldL + a + b + c <= store.Length && newL + a + newCount + c <= store.Length && b <= newCount
    modifies store
    ensures var s := old(store[..]);
            Opened(store[..], newL, s[oldL..oldL + a], newCount, s[oldL + a + b..oldL + a + b + c])
  {
    hide Pasted, Opened, Nulls;
    ghost var va, vc := store[..][oldL..oldL + a], store[..][oldL + a + b..oldL + a + b + c];
    var oldC0, newC0 := oldL + a + b, newL + a + newCount;
    if newL < oldL {
      MovedLeft(store[..], oldL, newL, a, b, c, newCount, va, vc);
      Move(store, newL, oldL, a);
      Move(store, newC0, oldC0, c);
      if oldC0 > newC0 {
        StillOpened(store[..], newL, va, newCount, vc, newC0 + c, oldC0 - newC0);
        Copy(store, newC0 + c, Nulls(oldC0 - newC0));
      }
    } else {
      MovedRight(store[..], oldL, newL, a, b, c, newCount, va, vc);
      Move(store, newC0, oldC0, c);
      Move(store, newL, oldL, a);
      if newL > oldL {
        StillOpened(store[..], newL, va, newCount, vc, oldL, newL - oldL);
        Copy(store, oldL, Nulls(newL - oldL));
      }
    }
  }

  /** Copies both regions to the middle of a larger block. */
  method Reallocate(regionA: seq<Ref>, newCount: nat, regionC: seq<Ref>, wiggle: nat) returns (buckets: array<Ref>, newL: nat)
    requires |regionA| + newCount + |regionC| + wiggle < MAX_CAPACITY
    ensures fresh(buckets) && Rounded(buckets.Length)
    ensures Opened(buckets[..], newL, regionA, newCount, regionC)
  {
    hide Pasted;
    var futureCnt := |regionA| + newCount + |regionC|;
    var capacity := RoundUpCapacity(futureCnt + wiggle);
    buckets := new Ref[capacity];
    newL := (capacity - futureCnt) / 2;
    CopiedApart(buckets[..], newL, regionA, newCount, regionC);
    hide Opened;
    Copy(buckets, newL, regionA);
    Copy(buckets, newL + |regionA| + newCount, regionC);
  }

  lemma CopiedApart(s: seq<Ref>, left: nat, a: seq<Ref>, gap: nat, c: seq<Ref>)
    requires left + |a| + gap + |c| <= |s|
    ensures Opened(Pasted(Pasted(s, left, a), left + |a| + gap, c), left, a, gap, c)
  {
    hide Pasted;
    var r, at := Pasted(s, left, a), left + |a| + gap;
    PastedInside(s, left, a);
    PastedOutside(r, at, c, left, left + |a|);
    PastedInside(r, at, c);
  }

  /** __CFArrayReleaseValues: releases each value of a range and clears its bucket. */
  method ReleaseValues(store: array<Ref>, at: nat, len: nat) returns (ghost released: seq<Ref>)
    requires at + len <= store.Length
    modifies store
    ensures released == old(store[..])[at..at + len]
    ensures store[..] == Pasted(old(store[..]), at, Nulls(len))
  {
    hide Pasted;
    ghost var was := store[..];
    released := [];
    var idx := 0;
    while idx < len
      invariant idx <= len && released == was[at..at + idx]
      invariant forall i :: 0 <= i < at || at + idx <= i < store.Length ==> store[i] == was[i]
      invariant forall i :: at <= i < at + idx ==> store[i] == NULL
    {
      released := released + [store[at + idx]];
      store[at + idx] := NULL;
      idx := idx + 1;
    }
    PastedPointwise(was, store[..], at, Nulls(len));
  }

  /** Room to grow that is kept before a reallocation is due. */
  function Wiggle(capacity: nat): (w: nat)
    requires capacity <= MAX_CAPACITY
    ensures 4 <= w <= 0x2000
  {
    var w := capacity / 0x2_0000;
    if w < 4 then 4 else w
  }

  /** There is no room, or it is tight. */
  predicate Reallocates(capacity: nat, count: nat, futureCnt: nat)
    requires count <= capacity <= MAX_CAPACITY
  {
    capacity < futureCnt || (count < futureCnt && capacity - count < Wiggle(capacity))
  }

  /** If a reallocation is due, the capacity it rounds up to is still a shift of an int. */
  predicate Affordable(capacity: nat, count: nat, futureCnt: nat)
    requires count <= capacity <= MAX_CAPACITY
  {
    Reallocates(capacity, count, futureCnt) ==> futureCnt + Wiggle(capacity) < MAX_CAPACITY
  }

  /** Only the last few thousand counts below 2^30 may fail to be. */
  lemma AffordableBelow(capacity: nat, count: nat, futureCnt: nat)
    requires count <= capacity <= MAX_CAPACITY && futureCnt < MAX_CAPACITY - 0x2000
    ensures Affordable(capacity, count, futureCnt)
  {
  }

  /** How long a deque can grow value by value: the last append leaves 2^30 - 2^13 + 1 values. */
  lemma AppendAffordable(capacity: nat, count: nat)
    requires Rounded(capacity) && count <= capacity
    ensures Affordable(capacity, count, count + 1) <==> count + 1 <= MAX_APPENDED
  {
  }

  /** __CFArrayRepositionDequeRegions: opens a gap of newCount buckets in place of the range. */
  method Reposition(store: array<Ref>, left: nat, count: nat, a: nat, b: nat, newCount: nat, ghost regionA: seq<Ref>, ghost regionC: seq<Ref>)
    returns (store': array<Ref>, left': nat)
    requires Rounded(store.Length) && left + count <= store.Length && a + b <= count
    requires Affordable(store.Length, count, count - b + newCount)
    requires regionA == store[..][left..left + a] && regionC == store[..][left + a + b..left + count]
    modifies store
    ensures Rounded(store'.Length) && (store' == store || fresh(store'))
    ensures Opened(store'[..], left', regionA, newCount, regionC)
  {
    hide Opened;
    var c := count - b - a;
    var right := store.Length - count - left;
    var futureCnt := count - b + newCount;
    var numNewElems := newCount - b;
    var wiggle := Wiggle(store.Length);
    store', left' := store, left;
    if store.Length < futureCnt || (count < futureCnt && left + right < wiggle) {
      store', left' := Reallocate(store[..][left..left + a], newCount, store[..][left + a + b..left + count], wiggle);
    } else if (numNewElems < 0 && c < a) || (numNewElems <= right && c < a) {
      MoveC(store, left, a, b, c, newCount);
    } else if numNewElems < 0 || (numNewElems <= left && a <= c) {
      left' := left - numNewElems;
      MoveA(store, left, left', a, b, c, newCount);
    } else {
      left' := (left + right - numNewElems) / 2;
      left' := left' - left' / 2;
      Recenter(store, left, left', a, b, c, newCount);
    }
  }

  /** Releases the range and makes room for the new values in its place. */
  method OpenGap(store: array<Ref>, left: nat, count: nat, loc: nat, len: nat, newCount: nat,
                 ghost a: seq<Ref>, ghost b: seq<Ref>, ghost c: seq<Ref>)
    returns (store': array<Ref>, left': nat, ghost released: seq<Ref>)
    requires Rounded(store.Length) && left + count <= store.Length && store[..][left..left + count] == a + b + c
    requires |a| == loc && |b| == len && |a + b + c| == count && Affordable(store.Length, count, count - len + newCount)
    modifies store
    ensures Rounded(store'.Length) && (store' == store || fresh(store'))
    ensures released == b && Opened(store'[..], left', a, newCount, c)
  {
    ClearedRegions(store[..], left, a, b, c);
    hide Pasted, Opened, Nulls;
    released := ReleaseValues(store, left + loc, len);
    if len != newCount {
      store', left' := Reposition(store, left, count, loc, len, newCount, a, c);
    } else {
      store', left' := store, left;
    }
  }

  /** Storage for an array that has none yet. */
  method Allocate(newCount: nat) returns (store: array<Ref>, left: nat)
    requires newCount < MAX_CAPACITY
    ensures fresh(store) && Rounded(store.Length) && Opened(store[..], left, [], newCount, [])
  {
    var capacity := RoundUpCapacity(newCount);
    store := new Ref[capacity];
    left := (capacity - newCount) / 2;
  }

  /** The part of _CFArrayReplaceValues that works on the storage. */
  method Splice(store: array?<Ref>, left: nat, count: nat, loc: nat, len: nat, newValues: seq<Ref>,
                ghost a: seq<Ref>, ghost b: seq<Ref>, ghost c: seq<Ref>)
    returns (store': array<Ref>, left': nat, ghost released: seq<Ref>)
    requires store == null ==> count == 0
    requires store != null ==> Rounded(store.Length) && left + count <= store.Length && store[..][left..left + count] == a + b + c
    requires |a| == loc && |b| == len && |a + b + c| == count
    requires if store == null then |newValues| < MAX_CAPACITY else Affordable(store.Length, count, count - len + |newValues|)
    modifies store
    ensures Rounded(store'.Length) && (store' == store || fresh(store'))
    ensures left' + |a + newValues + c| <= store'.Length && store'[..][left'..left' + |a + newValues + c|] == a + newValues + c
    ensures released == b
  {
    hide Pasted, Opened, Nulls;
    if store == null {
      released := [];
      assert a == [] && b == [] && c == [];
      store', left' := Allocate(|newValues|);
    } else {
      store', left', released := OpenGap(store, left, count, loc, len, |newValues|, a, b, c);
    }
    FilledGap(store'[..], left', a, newValues, c);
    Copy(store', left' + loc, newValues);
  }

  class MutableArray {
    var count: nat
    var leftIdx: nat
    /** The buckets of the deque; null for an array that has no storage. */
    var store: array?<Ref>
    /** The values of the array in order. */
    ghost var contents: seq<Ref>
    /** Every call of the retain and the release callback so far. */
    ghost var retains: multiset<Ref>
    ghost var releases: multiset<Ref>

    /** The contents stand in the buckets from leftIdx on. */
    ghost predicate Shaped()
      reads this`count, this`leftIdx, this`store, this`contents, store
    {
      if store == null then count == 0 && contents == []
      else Rounded(store.Length) && leftIdx + count <= store.Length && contents == store[..][leftIdx..leftIdx + count]
    }

    predicate CanHold(futureCnt: nat)
      requires store != null ==> Rounded(store.Length) && count <= store.Length
      reads this`count, this`store
    {
      if store == null then futureCnt < MAX_CAPACITY else Affordable(store.Length, count, futureCnt)
    }

    /** Each value is retained once for every time it occurs. */
    ghost predicate Balanced()
      reads this`contents, this`retains, this`releases
    {
      Books(retains, releases, contents)
    }

    ghost predicate Valid()
      reads this, store
    {
      Shaped() && Balanced()
    }

    constructor ()
      ensures Valid() && contents == [] && store == null
    {
      count, leftIdx, store, contents := 0, 0, null, [];
      retains, releases := multiset{}, multiset{};
    }

    /** The storage side of _CFArrayReplaceValues. */
    method ReplaceShape(loc: nat, len: nat, newValues: seq<Ref>) returns (ghost released: seq<Ref>)
      requires Shaped() && loc + len <= count
      requires CanHold(count - len + |newValues|)
      modifies this`store, this`leftIdx, this`count, this`contents, store
      ensures Shaped() && (store == old(store) || fresh(store))
      ensures |old(contents)| == old(count)
      ensures contents == Spliced(old(contents), loc, len, newValues) && released == old(contents)[loc..loc + len]
    {
      hide Spliced, Affordable, Rounded;
      ContentsCounted();
      ghost var a, b, c := contents[..loc], contents[loc..loc + len], contents[loc + len..];
      SplicedParts(contents, loc, len, newValues, a, b, c);
      ghost var result := a + newValues + c;
      assert |result| == count - len + |newValues|;
      store, leftIdx, released := Splice(store, leftIdx, count, loc, len, newValues, a, b, c);
      count := count - len + |newValues|;
      contents := result;
      assert count == |result| && contents == store[..][leftIdx..leftIdx + count];
    }

    /** _CFArrayReplaceValues: the range is replaced by the new values, whatever has to be moved. */
    method ReplaceValues(loc: nat, len: nat, newValues: seq<Ref>)
      requires Valid() && loc + len <= count
      requires CanHold(count - len + |newValues|)
      modifies this, store
      ensures Valid() && (store == old(store) || fresh(store))
      ensures |old(contents)| == old(count) && contents == old(contents)[..loc] + newValues + old(contents)[loc + len..]
    {
      hide Spliced, Shaped, CanHold, Books;
      ContentsCounted();
      SplicedParts(contents, loc, len, newValues, contents[..loc], contents[loc..loc + len], contents[loc + len..]);
      BooksBalance(retains, releases, contents, loc, len, newValues);
      ghost var retained := RetainValues(newValues);
      ghost var released := ReplaceShape(loc, len, newValues);
      retains, releases := retains + multiset(retained), releases + multiset(released);
    }

    method GetValueAtIndex(idx: nat) returns (value: Ref)
      requires Shaped() && idx < count
      ensures |contents| == count && value == contents[idx]
    {
      value := store[leftIdx + idx];
    }

    /** Writes one bucket. */
    method Put(idx: nat, value: Ref)
      requires Shaped() && idx < count
      modifies this`contents, store
      ensures Shaped() && |old(contents)| == count && contents == old(contents)[idx := value]
    {
      ContentsCounted();
      ghost var s := store[..];
      store[leftIdx + idx] := value;
      contents := contents[idx := value];
      assert store[..] == s[leftIdx + idx := value];
    }

    /** CFArraySetValueAtIndex: replaces one value, or appends at the end. */
    method SetValueAtIndex(idx: nat, value: Ref)
      requires Valid() && idx <= count && (idx == count ==> CanHold(count + 1))
      modifies this, store
      ensures Valid() && (store == old(store) || fresh(store)) && |old(contents)| == old(count)
      ensures contents == if idx == old(count) then old(contents) + [value] else old(contents)[idx := value]
    {
      hide Shaped, Spliced, Balanced, CanHold;
      ContentsCounted();
      if idx == count {
        SplicedAtEnd(contents, value);
        ReplaceValues(idx, 0, [value]);
      } else {
        Overwrite(idx, value);
      }
    }

    method Overwrite(idx: nat, value: Ref)
      requires Valid() && idx < count
      modifies this`contents, this`retains, this`releases, store
      ensures Valid() && |old(contents)| == count && contents == old(contents)[idx := value]
    {
      hide Shaped, Books;
      ContentsCounted();
      SetBalance(retains, releases, contents, idx, value);
      var oldValue := GetValueAtIndex(idx);
      Put(idx, value);
      retains, releases := retains + multiset{value}, releases + multiset{oldValue};
    }

    /** CFArrayExchangeValuesAtIndices: neither retains nor releases. */
    method ExchangeValuesAtIndices(idx1: nat, idx2: nat)
      requires Valid() && idx1 < count && idx2 < count
      modifies this`contents, store
      ensures Valid() && |contents| == |old(contents)| == count && contents == Swapped(old(contents), idx1, idx2)
      ensures contents[idx1] == old(contents)[idx2] && contents[idx2] == old(contents)[idx1]
      ensures forall i :: 0 <= i < count && i != idx1 && i != idx2 ==> contents[i] == old(contents)[i]
    {
      hide Shaped;
      ContentsCounted();
      SwapKeeps(contents, idx1, idx2);
      var tmp := GetValueAtIndex(idx1);
      var other := GetValueAtIndex(idx2);
      Put(idx1, other);
      Put(idx2, tmp);
    }

    /** CFArrayRemoveAllValues: releases everything and gives up the storage. */
    method RemoveAllValues()
      requires Valid()
      modifies this, store
      ensures Valid() && contents == [] && store == null
    {
      if store != null {
        ghost var released := ReleaseValues(store, leftIdx, count);
        releases := releases + multiset(released);
      }
      count, store, contents := 0, null, [];
    }

    lemma ContentsCounted()
      requires Shaped()
      ensures |contents| == count
    {
    }
  }

  /** Calls the retain callback on each new value. */
  method RetainValues(values: seq<Ref>) returns (ghost retained: seq<Ref>)
    ensures retained == values
  {
    retained := [];
    var idx := 0;
    while idx < |values|
      invariant idx <= |values| && retained == values[..idx]
    {
      retained := retained + [values[idx]];
      idx := idx + 1;
    }
  }

  /** The splice that every mutation of the array amounts to. */
  function Spliced(s: seq<Ref>, loc: nat, len: nat, values: seq<Ref>): (r: seq<Ref>)
    requires loc + len <= |s|
    ensures |r| == |s| - len + |values|
  {
    s[..loc] + values + s[loc + len..]
  }

  lemma SplicedParts(s: seq<Ref>, loc: nat, len: nat, values: seq<Ref>, a: seq<Ref>, b: seq<Ref>, c: seq<Ref>)
    requires loc + len <= |s| && a == s[..loc] && b == s[loc..loc + len] && c == s[loc + len..]
    ensures s == a + b + c && Spliced(s, loc, len, values) == a + values + c
  {
  }

  lemma SubSlice(s: seq<Ref>, l: nat, end: nat, x: nat, y: nat)
    requires x <= y <= end - l && end <= |s|
    ensures s[l..end][x..y] == s[l + x..l + y]
  {
    forall k | 0 <= k < y - x ensures s[l..end][x..y][k] == s[l + x..l + y][k] {
      assert s[l..end][x..y][k] == s[l..end][x + k] == s[l + x + k];
    }
  }

  lemma SplicedAtEnd(s: seq<Ref>, value: Ref)
    ensures Spliced(s, |s|, 0, [value]) == s + [value]
  {
  }

  /** Clearing the range leaves the regions beside it, which are then as far apart as the range is long. */
  lemma ClearedRegions(s: seq<Ref>, l: nat, a: seq<Ref>, b: seq<Ref>, c: seq<Ref>)
    requires l + |a| + |b| + |c| <= |s| && s[l..l + |a| + |b| + |c|] == a + b + c
    ensures s[l + |a|..l + |a| + |b|] == b
    ensures var s1 := Pasted(s, l + |a|, Nulls(|b|));
            && s1[l..l + |a|] == a && s1[l + |a| + |b|..l + |a| + |b| + |c|] == c
            && Opened(s1, l, a, |b|, c)
  {
    var m, n, end := l + |a|, l + |a| + |b|, l + |a| + |b| + |c|;
    SubSlice(s, l, end, 0, |a|);
    SubSlice(s, l, end, |a|, |a| + |b|);
    SubSlice(s, l, end, |a| + |b|, |a| + |b| + |c|);
    PastedOutside(s, m, Nulls(|b|), l, m);
    PastedOutside(s, m, Nulls(|b|), n, end);
    hide Pasted;
  }

  /** Filling an open gap completes the splice. */
  lemma FilledGap(s: seq<Ref>, left: nat, a: seq<Ref>, values: seq<Ref>, c: seq<Ref>)
    requires Opened(s, left, a, |values|, c)
    ensures left + |a| + |values| + |c| <= |s|
    ensures Pasted(s, left + |a|, values)[left..left + |a| + |values| + |c|] == a + values + c
  {
    var at, end := left + |a|, left + |a| + |values| + |c|;
    PastedOutside(s, at, values, left, at);
    PastedInside(s, at, values);
    PastedOutside(s, at, values, at + |values|, end);
    var r := Pasted(s, at, values);
    hide Pasted;
    assert r[left..end] == r[left..at] + r[at..at + |values|] + r[at + |values|..end];
  }

  /** Retaining the new values and releasing the replaced ones keeps the books. */
  /** Every value is retained once more than released for each time it occurs. */
  ghost predicate Books(retains: multiset<Ref>, releases: multiset<Ref>, s: seq<Ref>) {
    retains == releases + multiset(s)
  }

  lemma BooksBalance(retains: multiset<Ref>, releases: multiset<Ref>, s: seq<Ref>, loc: nat, len: nat, values: seq<Ref>)
    requires loc + len <= |s| && Books(retains, releases, s)
    ensures Books(retains + multiset(values), releases + multiset(s[loc..loc + len]), Spliced(s, loc, len, values))
  {
    var a, b, c := s[..loc], s[loc..loc + len], s[loc + len..];
    SplicedParts(s, loc, len, values, a, b, c);
    hide Spliced;
  }

  lemma SetBalance(retains: multiset<Ref>, releases: multiset<Ref>, s: seq<Ref>, i: nat, value: Ref)
    requires i < |s| && Books(retains, releases, s)
    ensures Books(retains + multiset{value}, releases + multiset{s[i]}, s[i := value])
  {
  }

  function Swapped(s: seq<Ref>, i: nat, j: nat): (r: seq<Ref>)
    requires i < |s| && j < |s|
    ensures |r| == |s|
  {
    s[i := s[j]][j := s[i]]
  }

  lemma SwapKeeps(s: seq<Ref>, i: nat, j: nat)
    requires i < |s| && j < |s|
    ensures multiset(Swapped(s, i, j)) == multiset(s)
  {
  }
}
