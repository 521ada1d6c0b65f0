/** Sorting and searching arrays by a comparator: __CFZSort and CFArrayBSearchValues. */
module ArrayOrder {
  import opened Machine
  import opened ArrayDeque

  /** A comparator callback: negative, zero or positive. */
  type Comparator = (Ref, Ref) -> int

  ghost predicate TotalPreorder(cmp: Comparator) {
    && (forall x, y :: cmp(x, y) < 0 <==> cmp(y, x) > 0)
    && (forall x, y, z :: cmp(x, y) <= 0 && cmp(y, z) <= 0 ==> cmp(x, z) <= 0)
  }

  ghost predicate SortedFrom(s: seq<Ref>, lo: nat, hi: nat, cmp: Comparator)
    requires lo <= hi <= |s|
  {
    forall i, j :: lo <= i < j < hi ==> cmp(s[i], s[j]) <= 0
  }

  /** The elements of s that compare equal to x, in order. */
  function Alike(s: seq<Ref>, x: Ref, cmp: Comparator): seq<Ref> {
    if s == [] then []
    else Alike(s[..|s| - 1], x, cmp) + (if cmp(s[|s| - 1], x) == 0 then [s[|s| - 1]] else [])
  }

  /** Elements that compare equal keep their order: the meaning of a stable rearrangement. */
  ghost predicate StableRearrangement(s: seq<Ref>, r: seq<Ref>, cmp: Comparator) {
    multiset(s) == multiset(r) && forall x :: Alike(s, x, cmp) == Alike(r, x, cmp)
  }

  lemma {:induction false} AlikeAppend(s: seq<Ref>, t: seq<Ref>, x: Ref, cmp: Comparator)
    ensures Alike(s + t, x, cmp) == Alike(s, x, cmp) + Alike(t, x, cmp)
    decreases |t|
  {
    if t == [] {
      assert s + t == s;
    } else {
      var t' := t[..|t| - 1];
      assert (s + t)[..|s + t| - 1] == s + t';
      AlikeAppend(s, t', x, cmp);
    }
  }

  lemma AlikePair(a: Ref, b: Ref, x: Ref, cmp: Comparator)
    requires TotalPreorder(cmp) && cmp(b, a) < 0
    ensures Alike([a, b], x, cmp) == Alike([b, a], x, cmp)
  {
    assert [a, b][..1] == [a] && [b, a][..1] == [b];
    assert [a][..0] == [] && [b][..0] == [];
    assert cmp(b, x) == 0 ==> cmp(x, b) <= 0;
    assert cmp(a, x) <= 0 && cmp(x, b) <= 0 ==> cmp(a, b) <= 0;
  }

  /** Exchanging neighbours that are out of order is a stable rearrangement. */
  lemma SwapIsStable(s: seq<Ref>, i: nat, cmp: Comparator)
    requires TotalPreorder(cmp) && i + 1 < |s| && cmp(s[i + 1], s[i]) < 0
    ensures StableRearrangement(s, Swapped(s, i, i + 1), cmp)
  {
    var p, a, b, q := s[..i], s[i], s[i + 1], s[i + 2..];
    var r := Swapped(s, i, i + 1);
    SwapKeeps(s, i, i + 1);
    assert s == p + [a, b] + q && r == p + [b, a] + q;
    forall x ensures Alike(s, x, cmp) == Alike(r, x, cmp) {
      AlikePair(a, b, x, cmp);
      AlikeAppend(p, [a, b], x, cmp);
      AlikeAppend(p, [b, a], x, cmp);
      AlikeAppend(p + [a, b], q, x, cmp);
      AlikeAppend(p + [b, a], q, x, cmp);
    }
  }

  lemma StableTrans(s: seq<Ref>, t: seq<Ref>, r: seq<Ref>, cmp: Comparator)
    requires StableRearrangement(s, t, cmp) && StableRearrangement(t, r, cmp)
    ensures StableRearrangement(s, r, cmp)
  {
  }

  /** Everything from `from` on is sorted and not less than anything between lo and `from`. */
  ghost predicate Settled(s: seq<Ref>, lo: nat, from: nat, hi: nat, cmp: Comparator)
    requires lo <= from <= hi <= |s|
  {
    forall i, j :: lo <= i < j < hi && from <= j ==> cmp(s[i], s[j]) <= 0
  }

  /** The value at idx is not less than anything between lo and idx. */
  ghost predicate Greatest(s: seq<Ref>, lo: nat, idx: nat, cmp: Comparator)
    requires lo <= idx < |s|
  {
    forall i :: lo <= i < idx ==> cmp(s[i], s[idx]) <= 0
  }

  ghost predicate SameOutside(s: seq<Ref>, r: seq<Ref>, lo: nat, hi: nat)
    requires lo <= hi <= |s| == |r|
  {
    s[..lo] == r[..lo] && s[hi..] == r[hi..]
  }

  lemma BubbleStep(s: seq<Ref>, lo: nat, idx: nat, from: nat, hi: nat, cmp: Comparator)
    requires TotalPreorder(cmp) && lo <= idx < idx + 1 < from <= hi <= |s|
    requires Settled(s, lo, from, hi, cmp) && Greatest(s, lo, idx, cmp)
    ensures cmp(s[idx + 1], s[idx]) < 0 ==>
              var r := Swapped(s, idx, idx + 1);
              Settled(r, lo, from, hi, cmp) && Greatest(r, lo, idx + 1, cmp) && SameOutside(s, r, lo, hi)
    ensures cmp(s[idx + 1], s[idx]) >= 0 ==> Greatest(s, lo, idx + 1, cmp)
  {
    hide TotalPreorder, Settled, Greatest, Swapped, SameOutside;
    if cmp(s[idx + 1], s[idx]) < 0 {
      SwapSettled(s, lo, idx, from, hi, cmp);
      SwapGreatest(s, lo, idx, cmp);
      SwapInside(s, lo, idx, hi);
    } else {
      StillGreatest(s, lo, idx, cmp);
    }
  }

  lemma SwapSettled(s: seq<Ref>, lo: nat, idx: nat, from: nat, hi: nat, cmp: Comparator)
    requires lo <= idx < idx + 1 < from <= hi <= |s| && Settled(s, lo, from, hi, cmp)
    ensures Settled(Swapped(s, idx, idx + 1), lo, from, hi, cmp)
  {
    var r := Swapped(s, idx, idx + 1);
    forall i, j | lo <= i < j < hi && from <= j ensures cmp(r[i], r[j]) <= 0 {
      var k := if i == idx then idx + 1 else if i == idx + 1 then idx else i;
      assert r[i] == s[k] && r[j] == s[j];
    }
  }

  lemma SwapGreatest(s: seq<Ref>, lo: nat, idx: nat, cmp: Comparator)
    requires lo <= idx < idx + 1 < |s| && Greatest(s, lo, idx, cmp) && cmp(s[idx + 1], s[idx]) < 0
    ensures Greatest(Swapped(s, idx, idx + 1), lo, idx + 1, cmp)
  {
    var r := Swapped(s, idx, idx + 1);
    forall i | lo <= i < idx + 1 ensures cmp(r[i], r[idx + 1]) <= 0 {
      assert r[i] == if i == idx then s[idx + 1] else s[i];
    }
  }

  lemma SwapInside(s: seq<Ref>, lo: nat, idx: nat, hi: nat)
    requires lo <= idx < idx + 1 < hi <= |s|
    ensures SameOutside(s, Swapped(s, idx, idx + 1), lo, hi)
  {
  }

  lemma StillGreatest(s: seq<Ref>, lo: nat, idx: nat, cmp: Comparator)
    requires TotalPreorder(cmp) && lo <= idx < idx + 1 < |s| && Greatest(s, lo, idx, cmp) && cmp(s[idx + 1], s[idx]) >= 0
    ensures Greatest(s, lo, idx + 1, cmp)
  {
    var x, y := s[idx], s[idx + 1];
    assert cmp(x, y) <= 0;
    forall i | lo <= i < idx ensures cmp(s[i], y) <= 0 {
      assert cmp(s[i], x) <= 0;
    }
  }

  /** One pass of the bubble sort carries the greatest value of the unsettled part to its end. */
  method BubblePass(target: MutableArray, lo: nat, from: nat, hi: nat, cmp: Comparator)
    requires target.Valid() && TotalPreorder(cmp) && |target.contents| == target.count
    requires lo + 1 < from <= hi <= target.count && Settled(target.contents, lo, from, hi, cmp)
    modifies target`contents, target.store
    ensures target.Valid() && |target.contents| == |old(target.contents)| == target.count
    ensures Settled(target.contents, lo, from - 1, hi, cmp)
    ensures StableRearrangement(old(target.contents), target.contents, cmp)
    ensures SameOutside(old(target.contents), target.contents, lo, hi)
  {
    hide Settled, Greatest, StableRearrangement, SameOutside, TotalPreorder, MutableArray.Valid, Swapped;
    ghost var was := target.contents;
    StableSelf(was, cmp);
    SameSelf(was, lo, hi);
    GreatestFirst(was, lo, cmp);
    var idx := lo;
    while idx < from - 1
      invariant lo <= idx <= from - 1
      invariant target.Valid() && |target.contents| == |was| == target.count
      invariant Settled(target.contents, lo, from, hi, cmp) && Greatest(target.contents, lo, idx, cmp)
      invariant StableRearrangement(was, target.contents, cmp) && SameOutside(was, target.contents, lo, hi)
    {
      ghost var s := target.contents;
      Unpack(target);
      var a := target.GetValueAtIndex(idx);
      var b := target.GetValueAtIndex(idx + 1);
      BubbleStep(s, lo, idx, from, hi, cmp);
      if cmp(b, a) < 0 {
        SwapIsStable(s, idx, cmp);
        target.ExchangeValuesAtIndices(idx, idx + 1);
        StableTrans(was, s, target.contents, cmp);
        SameTrans(was, s, target.contents, lo, hi);
      }
      idx := idx + 1;
    }
    PassDone(target.contents, lo, from, hi, cmp);
  }

  lemma Unpack(target: MutableArray)
    requires target.Valid()
    ensures target.Shaped()
  {
  }

  lemma StableSelf(s: seq<Ref>, cmp: Comparator)
    ensures StableRearrangement(s, s, cmp)
  {
  }

  lemma SameSelf(s: seq<Ref>, lo: nat, hi: nat)
    requires lo <= hi <= |s|
    ensures SameOutside(s, s, lo, hi)
  {
  }

  lemma SameTrans(s: seq<Ref>, t: seq<Ref>, r: seq<Ref>, lo: nat, hi: nat)
    requires lo <= hi <= |s| == |t| == |r| && SameOutside(s, t, lo, hi) && SameOutside(t, r, lo, hi)
    ensures SameOutside(s, r, lo, hi)
  {
  }

  lemma GreatestFirst(s: seq<Ref>, lo: nat, cmp: Comparator)
    requires lo < |s|
    ensures Greatest(s, lo, lo, cmp)
  {
  }

  lemma PassDone(s: seq<Ref>, lo: nat, from: nat, hi: nat, cmp: Comparator)
    requires lo < from <= hi <= |s| && Settled(s, lo, from, hi, cmp) && Greatest(s, lo, from - 1, cmp)
    ensures Settled(s, lo, from - 1, hi, cmp)
  {
  }

  /** __CFZSort: sorts a range in place by exchanges; equal values keep their order, nothing else changes. */
  method ZSort(target: MutableArray, loc: nat, len: nat, cmp: Comparator)
    requires target.Valid() && TotalPreorder(cmp) && |target.contents| == target.count && loc + len <= target.count
    modifies target`contents, target.store
    ensures target.Valid() && |target.contents| == |old(target.contents)| == target.count
    ensures SortedFrom(target.contents, loc, loc + len, cmp)
    ensures StableRearrangement(old(target.contents), target.contents, cmp)
    ensures SameOutside(old(target.contents), target.contents, loc, loc + len)
  {
    hide StableRearrangement, SameOutside, TotalPreorder, MutableArray.Valid;
    ghost var was := target.contents;
    StableSelf(was, cmp);
    SameSelf(was, loc, loc + len);
    var cnt := len;
    while 1 < cnt
      invariant 0 <= cnt <= len
      invariant target.Valid() && |target.contents| == |was| == target.count
      invariant Settled(target.contents, loc, loc + cnt, loc + len, cmp)
      invariant StableRearrangement(was, target.contents, cmp) && SameOutside(was, target.contents, loc, loc + len)
    {
      ghost var s := target.contents;
      BubblePass(target, loc, loc + cnt, loc + len, cmp);
      StableTrans(was, s, target.contents, cmp);
      SameTrans(was, s, target.contents, loc, loc + len);
      cnt := cnt - 1;
    }
  }

  // ----- binary search -----

  /** The least position of the range whose value is not less than `value`, or the end of the range. */
  ghost predicate LeastNotLess(s: seq<Ref>, loc: nat, len: nat, value: Ref, cmp: Comparator, r: nat)
    requires loc + len <= |s|
  {
    && loc <= r <= loc + len
    && (forall i :: loc <= i < r ==> cmp(s[i], value) < 0)
    && (r < loc + len ==> cmp(s[r], value) >= 0)
  }

  lemma LessThanLess(s: seq<Ref>, lo: nat, hi: nat, value: Ref, cmp: Comparator, k: nat)
    requires TotalPreorder(cmp) && lo <= k < hi <= |s| && SortedFrom(s, lo, hi, cmp)
    ensures cmp(s[k], value) < 0 ==> forall i :: lo <= i <= k ==> cmp(s[i], value) < 0
    ensures cmp(value, s[k]) <= 0 ==> forall i :: k <= i < hi ==> cmp(s[i], value) >= 0
  {
    if cmp(s[k], value) < 0 {
      forall i | lo <= i <= k ensures cmp(s[i], value) < 0 {
        var x, y := s[i], s[k];
        assert i < k ==> cmp(x, y) <= 0;
        assert cmp(x, value) >= 0 ==> cmp(value, x) <= 0;
        assert cmp(value, x) <= 0 && cmp(x, y) <= 0 ==> cmp(value, y) <= 0;
      }
    }
    if cmp(value, s[k]) <= 0 {
      forall i | k <= i < hi ensures cmp(s[i], value) >= 0 {
        if i > k {
          assert cmp(s[k], s[i]) <= 0;
        }
        assert cmp(value, s[i]) <= 0;
      }
    }
  }

  /** Everything up to position p of the range is less than the value, and nothing from position q on. */
  ghost predicate Bracket(s: seq<Ref>, loc: nat, len: nat, value: Ref, cmp: Comparator, p: int, q: int)
    requires loc + len <= |s|
  {
    && (forall i :: loc <= i <= loc + p && i < loc + len ==> cmp(s[i], value) < 0)
    && (forall i :: loc + q <= i < loc + len && loc <= i ==> cmp(s[i], value) >= 0)
  }

  lemma Probe(s: seq<Ref>, loc: nat, len: nat, value: Ref, cmp: Comparator, p: int, q: int, k: nat)
    requires loc + len <= |s| && k < len && TotalPreorder(cmp) && SortedFrom(s, loc, loc + len, cmp)
    requires Bracket(s, loc, len, value, cmp, p, q)
    ensures cmp(s[loc + k], value) < 0 ==> Bracket(s, loc, len, value, cmp, k, q)
    ensures cmp(s[loc + k], value) >= 0 ==> Bracket(s, loc, len, value, cmp, p, k)
  {
    LessThanLess(s, loc, loc + len, value, cmp, loc + k);
    if cmp(s[loc + k], value) >= 0 {
      assert cmp(value, s[loc + k]) <= 0;
    }
  }

  /** CFArrayBSearchValues: probes at distances that are powers of two; every probe lies in the range. */
  method BSearchValues(s: seq<Ref>, loc: nat, len: nat, value: Ref, cmp: Comparator) returns (r: nat)
    requires loc + len <= |s| && len < TWO31 && TotalPreorder(cmp) && SortedFrom(s, loc, loc + len, cmp)
    ensures LeastNotLess(s, loc, len, value, cmp, r)
  {
    hide TotalPreorder, SortedFrom, Pow2, Bracket, LeastNotLess;
    if len == 0 {
      EmptyRange(s, loc, value, cmp);
      return loc;
    }
    NothingKnown(s, loc, len, value, cmp);
    Probe(s, loc, len, value, cmp, -1, len, len - 1);
    if cmp(s[loc + len - 1], value) < 0 {
      BracketMeets(s, loc, len, value, cmp, len - 1);
      return loc + len;
    }
    if cmp(value, s[loc]) < 0 {
      Positive(cmp, value, s[loc]);
      Probe(s, loc, len, value, cmp, -1, len - 1, 0);
      BracketMeets(s, loc, len, value, cmp, -1);
      return loc;
    }
    var lg, idx := FirstStep(s, loc, len, value, cmp);
    idx := Narrow(s, loc, len, value, cmp, idx, lg);
    BracketMeets(s, loc, len, value, cmp, idx);
    r := idx + 1 + loc;
  }

  /** The first probe, at the greatest power of two in the range, leaves that many positions. */
  method FirstStep(s: seq<Ref>, loc: nat, len: nat, value: Ref, cmp: Comparator) returns (lg: nat, idx: int)
    requires 0 < len && loc + len <= |s| && TotalPreorder(cmp) && SortedFrom(s, loc, loc + len, cmp)
    requires Bracket(s, loc, len, value, cmp, -1, len - 1)
    ensures -1 <= idx && idx + Pow2(lg) <= len && Bracket(s, loc, len, value, cmp, idx, idx + Pow2(lg))
  {
    hide TotalPreorder, SortedFrom, Pow2, Bracket;
    var bits := Flsl(len);
    lg := bits - 1;
    Doubled(lg);
    var step := Pow2(lg);
    Probe(s, loc, len, value, cmp, -1, len - 1, step - 1);
    if cmp(s[loc - 1 + step], value) < 0 {
      idx := len - step;
      Weaken(s, loc, len, value, cmp, step - 1, idx, len - 1, idx + step);
    } else {
      idx := -1;
      Weaken(s, loc, len, value, cmp, -1, -1, step - 1, idx + step);
    }
  }

  /** The loop: the distance is halved until one position is left. */
  method Narrow(s: seq<Ref>, loc: nat, len: nat, value: Ref, cmp: Comparator, start: int, bits: nat) returns (idx: int)
    requires loc + len <= |s| && TotalPreorder(cmp) && SortedFrom(s, loc, loc + len, cmp)
    requires -1 <= start && start + Pow2(bits) <= len && Bracket(s, loc, len, value, cmp, start, start + Pow2(bits))
    ensures -1 <= idx < len && Bracket(s, loc, len, value, cmp, idx, idx + 1)
  {
    hide TotalPreorder, SortedFrom, Pow2, Bracket;
    idx := start;
    var lg := bits;
    while lg > 0
      invariant 0 <= lg && -1 <= idx && idx + Pow2(lg) <= len
      invariant Bracket(s, loc, len, value, cmp, idx, idx + Pow2(lg))
    {
      lg := lg - 1;
      Doubled(lg);
      var step := Pow2(lg);
      Probe(s, loc, len, value, cmp, idx, idx + 2 * step, idx + step);
      if cmp(s[loc + idx + step], value) < 0 {
        idx := idx + step;
      }
    }
    PowZero();
  }

  lemma EmptyRange(s: seq<Ref>, loc: nat, value: Ref, cmp: Comparator)
    requires loc <= |s|
    ensures LeastNotLess(s, loc, 0, value, cmp, loc)
  {
  }

  lemma NothingKnown(s: seq<Ref>, loc: nat, len: nat, value: Ref, cmp: Comparator)
    requires loc + len <= |s|
    ensures Bracket(s, loc, len, value, cmp, -1, len)
  {
  }

  lemma Positive(cmp: Comparator, x: Ref, y: Ref)
    requires TotalPreorder(cmp) && cmp(x, y) < 0
    ensures cmp(y, x) >= 0
  {
    assert cmp(y, x) > 0;
  }

  lemma Doubled(n: nat)
    ensures Pow2(n + 1) == 2 * Pow2(n)
  {
  }

  lemma PowZero()
    ensures Pow2(0) == 1
  {
  }

  lemma Weaken(s: seq<Ref>, loc: nat, len: nat, value: Ref, cmp: Comparator, p: int, p': int, q: int, q': int)
    requires loc + len <= |s| && Bracket(s, loc, len, value, cmp, p, q) && p' <= p && q <= q'
    ensures Bracket(s, loc, len, value, cmp, p', q')
  {
  }

  lemma BracketMeets(s: seq<Ref>, loc: nat, len: nat, value: Ref, cmp: Comparator, p: int)
    requires loc + len <= |s| && -1 <= p < len && Bracket(s, loc, len, value, cmp, p, p + 1)
    ensures LeastNotLess(s, loc, len, value, cmp, loc + p + 1)
  {
  }
}
