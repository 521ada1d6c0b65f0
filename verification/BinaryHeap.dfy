/**
 The binary heap of CFBinaryHeap.c. Adding and removing move a hole through the
 buckets; every item is written once.
 */
module BinaryHeap {
  import opened ArrayDeque
  import opened ArrayOrder

  function Parent(i: nat): (p: nat)
    requires i > 0
    ensures p < i
  {
    (i - 1) / 2
  }

  predicate Above(w: seq<Ref>, cmp: Comparator, i: int, j: int)
    requires 0 <= i < |w| && 0 <= j < |w|
  {
    cmp(w[i], w[j]) <= 0
  }

  ghost predicate HeapOrder(w: seq<Ref>, cmp: Comparator) {
    forall i :: 1 <= i < |w| ==> Above(w, cmp, Parent(i), i)
  }

  /** The children of k are not before its parent. */
  ghost predicate Spans(w: seq<Ref>, cmp: Comparator, k: nat)
    requires k < |w|
  {
    k > 0 ==> forall c :: 1 <= c < |w| && Parent(c) == k ==> Above(w, cmp, Parent(k), c)
  }

  /** A heap but for the item at k, which may belong further up. */
  ghost predicate UpTo(w: seq<Ref>, cmp: Comparator, k: nat) {
    && k < |w|
    && (forall i :: 1 <= i < |w| && i != k ==> Above(w, cmp, Parent(i), i))
    && Spans(w, cmp, k)
  }

  /** A heap but for the item at k, which may belong further down. */
  ghost predicate DownFrom(w: seq<Ref>, cmp: Comparator, k: nat) {
    && k < |w|
    && (forall i :: 1 <= i < |w| && Parent(i) != k ==> Above(w, cmp, Parent(i), i))
    && Spans(w, cmp, k)
  }

  lemma Chain(cmp: Comparator, x: Ref, y: Ref, z: Ref)
    requires TotalPreorder(cmp) && cmp(x, y) <= 0 && cmp(y, z) <= 0
    ensures cmp(x, z) <= 0
  {
  }

  lemma Reverse(cmp: Comparator, x: Ref, y: Ref)
    requires TotalPreorder(cmp)
    ensures cmp(x, y) > 0 <==> cmp(y, x) < 0
  {
  }

  lemma UpStep(w: seq<Ref>, cmp: Comparator, k: nat)
    requires TotalPreorder(cmp) && UpTo(w, cmp, k) && k > 0 && cmp(w[Parent(k)], w[k]) > 0
    ensures UpTo(Swapped(w, Parent(k), k), cmp, Parent(k))
  {
    UpOrder(w, cmp, k);
    UpSpans(w, cmp, k);
  }

  /** After the exchange only the parent may belong further up. */
  lemma UpOrder(w: seq<Ref>, cmp: Comparator, k: nat)
    requires TotalPreorder(cmp) && UpTo(w, cmp, k) && k > 0 && cmp(w[Parent(k)], w[k]) > 0
    ensures var v := Swapped(w, Parent(k), k);
      forall i :: 1 <= i < |v| && i != Parent(k) ==> Above(v, cmp, Parent(i), i)
  {
    var p := Parent(k);
    var v := Swapped(w, p, k);
    Reverse(cmp, w[p], w[k]);
    hide TotalPreorder;
    forall i | 1 <= i < |v| && i != p ensures Above(v, cmp, Parent(i), i) {
      if i != k && Parent(i) == p {
        assert Above(w, cmp, p, i);
        Chain(cmp, w[k], w[p], w[i]);
      } else if i != k && Parent(i) == k {
        assert Above(w, cmp, p, i);
      } else if i != k {
        assert Above(w, cmp, Parent(i), i);
      }
    }
  }

  lemma UpSpans(w: seq<Ref>, cmp: Comparator, k: nat)
    requires TotalPreorder(cmp) && UpTo(w, cmp, k) && k > 0
    ensures Spans(Swapped(w, Parent(k), k), cmp, Parent(k))
  {
    hide TotalPreorder;
    var p := Parent(k);
    var v := Swapped(w, p, k);
    forall c | p > 0 && 1 <= c < |v| && Parent(c) == p ensures Above(v, cmp, Parent(p), c) {
      assert Above(w, cmp, Parent(p), p);
      if c != k {
        assert Above(w, cmp, p, c);
        Chain(cmp, w[Parent(p)], w[p], w[c]);
      }
    }
  }

  lemma UpDone(w: seq<Ref>, cmp: Comparator, k: nat)
    requires UpTo(w, cmp, k) && (k > 0 ==> cmp(w[Parent(k)], w[k]) <= 0)
    ensures HeapOrder(w, cmp)
  {
  }

  /** c is a child of k with no other child before it. */
  ghost predicate LeastChild(w: seq<Ref>, cmp: Comparator, k: nat, c: nat) {
    && 1 <= c < |w| && Parent(c) == k
    && forall d :: 1 <= d < |w| && Parent(d) == k ==> Above(w, cmp, c, d)
  }

  lemma DownStep(w: seq<Ref>, cmp: Comparator, k: nat, c: nat)
    requires DownFrom(w, cmp, k) && LeastChild(w, cmp, k, c) && cmp(w[c], w[k]) <= 0
    ensures DownFrom(Swapped(w, k, c), cmp, c)
  {
    var v := Swapped(w, k, c);
    forall i | 1 <= i < |v| && Parent(i) != c ensures Above(v, cmp, Parent(i), i) {
      if i != c && Parent(i) == k {
        assert Above(w, cmp, c, i);
      } else if i == k {
        assert Above(w, cmp, Parent(k), c);
      } else if i != c {
        assert Above(w, cmp, Parent(i), i);
      }
    }
    forall d | 1 <= d < |v| && Parent(d) == c ensures Above(v, cmp, Parent(c), d) {
      assert Above(w, cmp, c, d);
    }
  }

  lemma DownDone(w: seq<Ref>, cmp: Comparator, k: nat)
    requires DownFrom(w, cmp, k)
    requires forall c :: 1 <= c < |w| && Parent(c) == k ==> Above(w, cmp, k, c)
    ensures HeapOrder(w, cmp)
  {
    forall i | 1 <= i < |w| ensures Above(w, cmp, Parent(i), i) {
    }
  }

  /** The first item of a heap is a minimum. */
  lemma {:induction false} RootIsMinimum(w: seq<Ref>, cmp: Comparator, i: nat)
    requires TotalPreorder(cmp) && HeapOrder(w, cmp) && i < |w|
    ensures cmp(w[0], w[i]) <= 0
  {
    if i == 0 {
      Reverse(cmp, w[0], w[0]);
    } else {
      hide TotalPreorder;
      RootIsMinimum(w, cmp, Parent(i));
      assert Above(w, cmp, Parent(i), i);
      Chain(cmp, w[0], w[Parent(i)], w[i]);
    }
  }

  lemma FirstIsMinimum(w: seq<Ref>, cmp: Comparator)
    requires TotalPreorder(cmp) && HeapOrder(w, cmp) && |w| > 0
    ensures forall x :: x in w ==> cmp(w[0], x) <= 0
  {
    forall i | 0 <= i < |w| ensures cmp(w[0], w[i]) <= 0 {
      RootIsMinimum(w, cmp, i);
    }
  }

  /** The buckets hold w, but for the hole at k. */
  ghost predicate Holed(b: seq<Ref>, w: seq<Ref>, k: nat) {
    |w| <= |b| && forall i :: 0 <= i < |w| && i != k ==> b[i] == w[i]
  }

  lemma FillHole(b: seq<Ref>, w: seq<Ref>, k: nat)
    requires k < |w| && Holed(b, w, k)
    ensures b[k := w[k]][..|w|] == w
  {
  }

  lemma MoveHole(b: seq<Ref>, w: seq<Ref>, k: nat, j: nat)
    requires k < |w| && j < |w| && Holed(b, w, k) && j != k
    ensures Holed(b[k := w[j]], Swapped(w, j, k), j) && multiset(Swapped(w, j, k)) == multiset(w)
    ensures Swapped(w, j, k)[j] == w[k] && Swapped(w, j, k) == Swapped(w, k, j)
  {
    SwapKeeps(w, j, k);
  }

  /** The loop of CFBinaryHeapAddValue: the hole starts behind the last item. */
  method SiftUp(b: array<Ref>, n: nat, value: Ref, cmp: Comparator)
    requires n < b.Length && TotalPreorder(cmp) && HeapOrder(b[..n], cmp)
    modifies b
    ensures HeapOrder(b[..n + 1], cmp) && multiset(b[..n + 1]) == multiset(old(b[..n])) + multiset{value}
    ensures b[n + 1..] == old(b[n + 1..])
  {
    var idx: nat := n;
    ghost var w := b[..n] + [value];
    NewHole(b[..n], value, cmp);
    hide TotalPreorder, HeapOrder, UpTo;
    while 0 < idx
      invariant idx < |w| == n + 1 && w[idx] == value && UpTo(w, cmp, idx)
      invariant Holed(b[..], w, idx) && b[n + 1..] == old(b[n + 1..])
      invariant multiset(w) == multiset(old(b[..n])) + multiset{value}
    {
      var pidx := Parent(idx);
      var item := b[pidx];
      if cmp(item, value) <= 0 {
        break;
      }
      UpStep(w, cmp, idx);
      MoveHole(b[..], w, idx, pidx);
      ghost var before := b[..];
      b[idx] := item;
      assert b[..] == before[idx := item];
      w := Swapped(w, pidx, idx);
      idx := pidx;
    }
    UpDone(w, cmp, idx);
    FillHole(b[..], w, idx);
    ghost var before := b[..];
    b[idx] := value;
    assert b[..] == before[idx := value];
    assert b[..n + 1] == w;
  }

  lemma NewHole(s: seq<Ref>, value: Ref, cmp: Comparator)
    requires HeapOrder(s, cmp)
    ensures UpTo(s + [value], cmp, |s|)
  {
    var w := s + [value];
    forall i | 1 <= i < |w| && i != |s| ensures Above(w, cmp, Parent(i), i) {
      assert Above(s, cmp, Parent(i), i);
    }
  }

  /** The change of CFBinaryHeapRemoveMinimumValue to n + 1 items: the last one moves into the hole at the root. */
  method SiftDown(b: array<Ref>, n: nat, cmp: Comparator)
    requires n < b.Length && TotalPreorder(cmp) && HeapOrder(b[..n + 1], cmp)
    modifies b
    ensures HeapOrder(b[..n], cmp) && multiset(b[..n]) == multiset(old(b[..n + 1])) - multiset{old(b[0])}
  {
    var val := b[n];
    if n == 0 {
      assert b[..1] == [b[0]];
      return;
    }
    RootHole(b[..n + 1], cmp);
    assert b[..n + 1][1..n] == b[1..n];
    SinkHole(b, n, val, cmp, [val] + b[1..n]);
  }

  /** The loop: the hole sinks while a child is not after the value. */
  method SinkHole(b: array<Ref>, n: nat, val: Ref, cmp: Comparator, ghost start: seq<Ref>)
    requires 0 < n < b.Length && |start| == n && start[0] == val && TotalPreorder(cmp)
    requires DownFrom(start, cmp, 0) && Holed(b[..], start, 0)
    modifies b
    ensures HeapOrder(b[..n], cmp) && multiset(b[..n]) == multiset(start)
  {
    hide TotalPreorder, HeapOrder, DownFrom, LeastChild;
    var idx: nat, cidx: nat := 0, 1;
    ghost var w := start;
    while cidx < n
      invariant idx < |w| == n && w[idx] == val && DownFrom(w, cmp, idx) && cidx == 2 * idx + 1
      invariant Holed(b[..], w, idx) && multiset(w) == multiset(start)
      decreases n - idx
    {
      cidx := PickChild(b[..n], idx, cmp, w);
      var item := b[cidx];
      if cmp(item, val) > 0 {
        StopHere(w, cmp, idx, cidx);
        break;
      }
      DownStep(w, cmp, idx, cidx);
      MoveHole(b[..], w, idx, cidx);
      ghost var before := b[..];
      b[idx] := item;
      assert b[..] == before[idx := item];
      w := Swapped(w, idx, cidx);
      idx := cidx;
      cidx := 2 * idx + 1;
    }
    if cidx >= n {
      DownDone(w, cmp, idx);
    }
    FillHole(b[..], w, idx);
    ghost var before := b[..];
    b[idx] := val;
    assert b[..] == before[idx := val];
    assert b[..n] == w;
  }

  method PickChild(b: seq<Ref>, idx: nat, cmp: Comparator, ghost w: seq<Ref>) returns (cidx: nat)
    requires |b| == |w| && 2 * idx + 1 < |b| && Holed(b, w, idx) && TotalPreorder(cmp)
    ensures idx < cidx < |b| && b[cidx] == w[cidx] && LeastChild(w, cmp, idx, cidx)
  {
    hide TotalPreorder, LeastChild;
    cidx := 2 * idx + 1;
    if cidx + 1 < |b| && cmp(b[cidx], b[cidx + 1]) > 0 {
      cidx := cidx + 1;
    }
    PickedLeast(w, cmp, idx, cidx);
  }

  lemma RootHole(s: seq<Ref>, cmp: Comparator)
    requires |s| > 1 && HeapOrder(s, cmp)
    ensures var w := [s[|s| - 1]] + s[1..|s| - 1];
      DownFrom(w, cmp, 0) && multiset(w) == multiset(s) - multiset{s[0]}
  {
    var n := |s| - 1;
    var w := [s[n]] + s[1..n];
    assert s == [s[0]] + s[1..n] + [s[n]];
    forall i | 1 <= i < |w| && Parent(i) != 0 ensures Above(w, cmp, Parent(i), i) {
      assert Above(s, cmp, Parent(i), i);
    }
  }

  lemma PickedLeast(w: seq<Ref>, cmp: Comparator, k: nat, c: nat)
    requires TotalPreorder(cmp) && c < |w| && (c == 2 * k + 1 || c == 2 * k + 2)
    requires c == 2 * k + 1 && c + 1 < |w| ==> cmp(w[c], w[c + 1]) <= 0
    requires c == 2 * k + 2 ==> cmp(w[c - 1], w[c]) > 0
    ensures LeastChild(w, cmp, k, c)
  {
    forall d | 1 <= d < |w| && Parent(d) == k ensures Above(w, cmp, c, d) {
      assert d == 2 * k + 1 || d == 2 * k + 2;
    }
  }

  lemma StopHere(w: seq<Ref>, cmp: Comparator, k: nat, c: nat)
    requires TotalPreorder(cmp) && DownFrom(w, cmp, k) && LeastChild(w, cmp, k, c) && cmp(w[c], w[k]) > 0
    ensures HeapOrder(w, cmp)
  {
    Reverse(cmp, w[c], w[k]);
    hide TotalPreorder;
    forall d | 1 <= d < |w| && Parent(d) == k ensures Above(w, cmp, k, d) {
      Chain(cmp, w[k], w[c], w[d]);
    }
    DownDone(w, cmp, k);
  }

  class Heap {
    const cmp: Comparator
    var count: nat
    var capacity: nat
    var buckets: array<Ref>

    ghost predicate Valid()
      reads this, buckets
    {
      TotalPreorder(cmp) && Rounded(capacity) && count <= capacity == buckets.Length && HeapOrder(buckets[..count], cmp)
    }

    ghost function Items(): (s: seq<Ref>)
      requires Valid()
      reads this, buckets
    {
      buckets[..count]
    }

    constructor (cmp: Comparator)
      requires TotalPreorder(cmp)
      ensures Valid() && Items() == [] && fresh(buckets) && this.cmp == cmp
    {
      this.cmp := cmp;
      var cap := RoundUpCapacity(1);
      count, capacity := 0, cap;
      buckets := new Ref[cap](_ => NULL);
    }

    /** __CFBinaryHeapGrow: room for one more, with the items kept. */
    method Grow()
      requires Valid() && count == capacity < MAX_CAPACITY
      modifies this`capacity, this`buckets
      ensures Valid() && Items() == old(Items()) && fresh(buckets) && count < capacity
    {
      var cap := RoundUpCapacity(count + 1);
      var grown := new Ref[cap](_ => NULL);
      ghost var items := Items();
      for i := 0 to count
        invariant forall j :: 0 <= j < i ==> grown[j] == items[j]
        invariant buckets[..] == old(buckets[..])
      {
        grown[i] := buckets[i];
      }
      buckets, capacity := grown, cap;
      assert buckets[..count] == items;
    }

    /** CFBinaryHeapAddValue. */
    method AddValue(value: Ref)
      requires Valid() && count < MAX_CAPACITY
      modifies this, buckets
      ensures Valid() && count == old(count) + 1
      ensures multiset(Items()) == old(multiset(Items())) + multiset{value}
      ensures buckets == old(buckets) || fresh(buckets)
    {
      hide TotalPreorder, HeapOrder;
      if count == capacity {
        Grow();
      }
      SiftUp(buckets, count, value, cmp);
      count := count + 1;
    }

    /** CFBinaryHeapGetMinimumIfPresent. */
    method GetMinimumIfPresent() returns (present: bool, value: Ref)
      requires Valid()
      ensures present <==> count > 0
      ensures present ==> value == Items()[0] && forall x :: x in Items() ==> cmp(value, x) <= 0
    {
      if count == 0 {
        return false, NULL;
      }
      FirstIsMinimum(Items(), cmp);
      return true, buckets[0];
    }

    /** CFBinaryHeapRemoveMinimumValue: exactly one minimum goes, and an empty heap stays as it is. */
    method RemoveMinimumValue()
      requires Valid()
      modifies this`count, buckets
      ensures Valid()
      ensures old(count) == 0 ==> count == 0
      ensures old(count) > 0 ==> count == old(count) - 1 && multiset(Items()) == old(multiset(Items())) - multiset{old(Items()[0])}
      ensures forall x :: x in old(Items()) ==> cmp(old(Items())[0], x) <= 0
    {
      hide TotalPreorder, HeapOrder;
      if count == 0 {
        return;
      }
      FirstIsMinimum(Items(), cmp);
      count := count - 1;
      SiftDown(buckets, count, cmp);
    }
  }

  /** CFBinaryHeapCreateCopy: adds the items one by one. */
  method CreateCopy(heap: Heap) returns (copy: Heap)
    requires heap.Valid()
    ensures fresh(copy) && fresh(copy.buckets) && copy.Valid() && copy.cmp == heap.cmp && copy.count == heap.count
    ensures multiset(copy.Items()) == multiset(heap.Items())
  {
    copy := new Heap(heap.cmp);
    hide TotalPreorder, HeapOrder;
    ghost var items := heap.Items();
    for i := 0 to heap.count
      invariant fresh(copy) && fresh(copy.buckets) && copy.Valid() && copy.cmp == heap.cmp && copy.count == i
      invariant multiset(copy.Items()) == multiset(items[..i])
    {
      assert items[..i + 1] == items[..i] + [items[i]];
      copy.AddValue(heap.buckets[i]);
    }
    assert items[..heap.count] == items;
  }

  ghost predicate Ascending(s: seq<Ref>, cmp: Comparator) {
    forall i, j :: 0 <= i < j < |s| ==> cmp(s[i], s[j]) <= 0
  }

  /** CFBinaryHeapGetValues: fills the buffer with the items in ascending order; the heap itself is not touched. */
  method GetValues(heap: Heap, values: array<Ref>)
    requires heap.Valid() && heap.count <= values.Length && values != heap.buckets
    modifies values
    ensures Ascending(values[..heap.count], heap.cmp) && multiset(values[..heap.count]) == multiset(heap.Items())
    ensures values[heap.count..] == old(values[heap.count..])
  {
    if heap.count == 0 {
      return;
    }
    var copy := CreateCopy(heap);
    Drain(copy, values);
  }

  /** The loop, which takes minimum after minimum from the copy. */
  method Drain(copy: Heap, values: array<Ref>)
    requires copy.Valid() && copy.count <= values.Length && values != copy.buckets
    modifies copy, copy.buckets, values
    ensures Ascending(values[..old(copy.count)], copy.cmp)
    ensures multiset(values[..old(copy.count)]) == old(multiset(copy.Items()))
    ensures values[old(copy.count)..] == old(values[copy.count..])
  {
    hide Drained, HeapOrder, TotalPreorder;
    ghost var all := copy.Items();
    ghost var n := copy.count;
    StartDrain(all, copy.cmp);
    var idx := 0;
    while 0 < copy.count
      invariant copy.Valid() && copy.buckets == old(copy.buckets)
      invariant 0 <= idx && idx + copy.count == n
      invariant values[n..] == old(values[copy.count..])
      invariant Drained(values[..idx], copy.Items(), all, copy.cmp)
      decreases copy.count
    {
      var value := TakeMinimum(copy, values[..idx], all);
      values[idx] := value;
      assert values[..idx + 1] == values[..idx] + [value];
      idx := idx + 1;
    }
    FinishDrain(values[..n], copy.Items(), all, copy.cmp);
  }

  method TakeMinimum(copy: Heap, ghost out: seq<Ref>, ghost all: seq<Ref>) returns (value: Ref)
    requires copy.Valid() && copy.count > 0 && Drained(out, copy.Items(), all, copy.cmp)
    modifies copy`count, copy.buckets
    ensures copy.Valid() && copy.count == old(copy.count) - 1 && Drained(out + [value], copy.Items(), all, copy.cmp)
  {
    var _, minimum := copy.GetMinimumIfPresent();
    value := minimum;
    ghost var before := copy.Items();
    copy.RemoveMinimumValue();
    hide TotalPreorder, HeapOrder, Ascending, Before;
    TakeFirst(out, before, copy.Items(), value, copy.cmp);
  }

  /** What was taken is sorted and comes before what is left. */
  ghost predicate Drained(out: seq<Ref>, left: seq<Ref>, all: seq<Ref>, cmp: Comparator) {
    multiset(out) + multiset(left) == multiset(all) && Ascending(out, cmp) && Before(out, left, cmp)
  }

  lemma StartDrain(all: seq<Ref>, cmp: Comparator)
    ensures Drained([], all, all, cmp)
  {
  }

  lemma FinishDrain(out: seq<Ref>, left: seq<Ref>, all: seq<Ref>, cmp: Comparator)
    requires Drained(out, left, all, cmp) && left == []
    ensures Ascending(out, cmp) && multiset(out) == multiset(all)
  {
  }

  ghost predicate Before(s: seq<Ref>, t: seq<Ref>, cmp: Comparator) {
    forall x, y :: x in s && y in t ==> cmp(x, y) <= 0
  }

  lemma TakeFirst(values: seq<Ref>, before: seq<Ref>, after: seq<Ref>, value: Ref, cmp: Comparator)
    requires |before| > 0 && value == before[0] && multiset(after) == multiset(before) - multiset{value}
    requires Ascending(values, cmp) && Before(values, before, cmp)
    requires forall y :: y in before ==> cmp(value, y) <= 0
    ensures Ascending(values + [value], cmp)
    ensures multiset(values + [value]) + multiset(after) == multiset(values) + multiset(before)
    ensures Before(values + [value], after, cmp)
  {
    forall y | y in after ensures y in before {
      assert y in multiset(after);
      assert y in multiset(before);
    }
    assert value in multiset(before);
  }

  // ----- runs -----

  datatype Op = Add(value: Ref) | RemoveMinimum

  /** The operation takes the multiset m to the multiset n. */
  ghost predicate Stepped(m: multiset<Ref>, op: Op, n: multiset<Ref>, cmp: Comparator) {
    match op
    case Add(value) => n == m + multiset{value}
    case RemoveMinimum => if |m| == 0 then n == m else exists x :: Least(m, x, cmp) && n == m - multiset{x}
  }

  ghost predicate Least(m: multiset<Ref>, x: Ref, cmp: Comparator) {
    x in m && forall y :: y in m ==> cmp(x, y) <= 0
  }

  method Step(h: Heap, op: Op)
    requires h.Valid() && (op.Add? ==> h.count < MAX_CAPACITY)
    modifies h, h.buckets
    ensures h.Valid() && (h.buckets == old(h.buckets) || fresh(h.buckets))
    ensures Stepped(multiset(old(h.Items())), op, multiset(h.Items()), h.cmp)
  {
    hide TotalPreorder, HeapOrder;
    match op {
      case Add(value) =>
        h.AddValue(value);
      case RemoveMinimum =>
        ghost var s := h.Items();
        h.RemoveMinimumValue();
        if s != [] {
          FirstIsLeast(s, h.cmp);
        }
    }
  }

  lemma FirstIsLeast(s: seq<Ref>, cmp: Comparator)
    requires |s| > 0 && forall x :: x in s ==> cmp(s[0], x) <= 0
    ensures Least(multiset(s), s[0], cmp)
  {
    forall y | y in multiset(s) ensures cmp(s[0], y) <= 0 {
      assert y in s;
    }
  }

  /** The items after each of the first n operations. */
  ghost predicate History(trace: seq<multiset<Ref>>, ops: seq<Op>, n: nat, cmp: Comparator) {
    |trace| == n + 1 && n <= |ops| && forall i :: 0 <= i < n ==> Stepped(trace[i], ops[i], trace[i + 1], cmp)
  }

  lemma HistoryStep(trace: seq<multiset<Ref>>, ops: seq<Op>, n: nat, cmp: Comparator, m: multiset<Ref>)
    requires History(trace, ops, n, cmp) && n < |ops| && Stepped(trace[n], ops[n], m, cmp)
    ensures History(trace + [m], ops, n + 1, cmp)
  {
    hide Stepped;
  }

  lemma HistoryStart(m: multiset<Ref>, ops: seq<Op>, cmp: Comparator)
    ensures History([m], ops, 0, cmp)
  {
  }

  /**
   Any run of adding and removing the minimum, up to an item that would be too many:
   the heap keeps its order and its capacity, and each operation changes the multiset
   of items by exactly the value or a minimum.
   */
  method Run(h: Heap, ops: seq<Op>) returns (done: nat, ghost trace: seq<multiset<Ref>>)
    requires h.Valid()
    modifies h, h.buckets
    ensures h.Valid() && h.count <= h.capacity && HeapOrder(h.Items(), h.cmp)
    ensures History(trace, ops, done, h.cmp) && trace[0] == multiset(old(h.Items())) && trace[done] == multiset(h.Items())
    ensures done < |ops| ==> ops[done].Add? && h.count == MAX_CAPACITY
  {
    hide TotalPreorder, HeapOrder, Stepped, History;
    done, trace := 0, [multiset(h.Items())];
    HistoryStart(multiset(h.Items()), ops, h.cmp);
    while done < |ops|
      invariant done <= |ops| && h.Valid() && (h.buckets == old(h.buckets) || fresh(h.buckets))
      invariant |trace| == done + 1 && History(trace, ops, done, h.cmp)
      invariant trace[0] == multiset(old(h.Items())) && trace[done] == multiset(h.Items())
    {
      if ops[done].Add? && h.count == MAX_CAPACITY {
        break;
      }
      Step(h, ops[done]);
      HistoryStep(trace, ops, done, h.cmp, multiset(h.Items()));
      trace := trace + [multiset(h.Items())];
      done := done + 1;
    }
  }
}
