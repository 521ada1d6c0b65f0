/** Runs of operations on the mutable array of CFArray.c: the contents, and the ledger of retains and releases. */
module ArrayRuns {
  import opened ArrayDeque
  import opened ArrayOrder

  datatype Op =
    | Replace(loc: nat, len: nat, values: seq<Ref>)
    | Set(idx: nat, value: Ref)
    | Exchange(idx1: nat, idx2: nat)
    | Sort(from: nat, length: nat)
    | RemoveAll

  /** The operation takes contents s to contents r. */
  ghost predicate Stepped(s: seq<Ref>, op: Op, r: seq<Ref>, cmp: Comparator) {
    match op
    case Replace(loc, len, values) => loc + len <= |s| && r == s[..loc] + values + s[loc + len..]
    case Set(idx, value) => idx <= |s| && r == if idx == |s| then s + [value] else s[idx := value]
    case Exchange(i, j) => i < |s| && j < |s| && r == s[i := s[j]][j := s[i]]
    case Sort(loc, len) =>
      && loc + len <= |s| == |r| && SortedFrom(r, loc, loc + len, cmp)
      && StableRearrangement(s, r, cmp) && SameOutside(s, r, loc, loc + len)
    case RemoveAll => r == []
  }

  /** The indices lie in the array, and a reallocation that is due can be made. */
  predicate Possible(a: MutableArray, op: Op)
    requires a.store != null ==> Rounded(a.store.Length) && a.count <= a.store.Length
    reads a`count, a`store
  {
    match op
    case Replace(loc, len, values) => loc + len <= a.count && a.CanHold(a.count - len + |values|)
    case Set(idx, _) => idx <= a.count && (idx == a.count ==> a.CanHold(a.count + 1))
    case Exchange(i, j) => i < a.count && j < a.count
    case Sort(loc, len) => loc + len <= a.count
    case RemoveAll => true
  }

  method Step(a: MutableArray, op: Op, cmp: Comparator)
    requires a.Valid() && TotalPreorder(cmp) && Possible(a, op)
    modifies a, a.store
    ensures a.Valid() && (a.store == old(a.store) || a.store == null || fresh(a.store))
    ensures Stepped(old(a.contents), op, a.contents, cmp)
  {
    hide MutableArray.Shaped, MutableArray.Balanced, TotalPreorder, Stepped;
    if op.Replace? || op.Set? {
      StepChange(a, op, cmp);
    } else {
      StepArrange(a, op, cmp);
    }
  }

  method StepChange(a: MutableArray, op: Op, ghost cmp: Comparator)
    requires a.Valid() && (op.Replace? || op.Set?) && Possible(a, op)
    modifies a, a.store
    ensures a.Valid() && (a.store == old(a.store) || fresh(a.store))
    ensures Stepped(old(a.contents), op, a.contents, cmp)
  {
    a.ContentsCounted();
    ghost var s := a.contents;
    hide MutableArray.Shaped, MutableArray.Balanced, MutableArray.CanHold, Stepped;
    if op.Replace? {
      a.ReplaceValues(op.loc, op.len, op.values);
      ReplaceStepped(s, op, cmp);
    } else {
      a.SetValueAtIndex(op.idx, op.value);
      SetStepped(s, op, cmp);
    }
  }

  lemma ReplaceStepped(s: seq<Ref>, op: Op, cmp: Comparator)
    requires op.Replace? && op.loc + op.len <= |s|
    ensures Stepped(s, op, s[..op.loc] + op.values + s[op.loc + op.len..], cmp)
  {
  }

  lemma SetStepped(s: seq<Ref>, op: Op, cmp: Comparator)
    requires op.Set? && op.idx <= |s|
    ensures Stepped(s, op, if op.idx == |s| then s + [op.value] else s[op.idx := op.value], cmp)
  {
  }

  method StepArrange(a: MutableArray, op: Op, cmp: Comparator)
    requires a.Valid() && TotalPreorder(cmp) && (op.Exchange? || op.Sort? || op.RemoveAll?) && Possible(a, op)
    modifies a, a.store
    ensures a.Valid() && (a.store == old(a.store) || a.store == null)
    ensures Stepped(old(a.contents), op, a.contents, cmp)
  {
    a.ContentsCounted();
    ghost var s := a.contents;
    hide MutableArray.Shaped, MutableArray.Balanced, TotalPreorder, Swapped, StableRearrangement, SortedFrom, SameOutside, Stepped;
    if op.Exchange? {
      a.ExchangeValuesAtIndices(op.idx1, op.idx2);
      ExchangeStepped(s, op, cmp);
    } else if op.Sort? {
      ZSort(a, op.from, op.length, cmp);
      SortStepped(s, op, a.contents, cmp);
    } else {
      a.RemoveAllValues();
      RemoveStepped(s, op, cmp);
    }
  }

  lemma ExchangeStepped(s: seq<Ref>, op: Op, cmp: Comparator)
    requires op.Exchange? && op.idx1 < |s| && op.idx2 < |s|
    ensures Stepped(s, op, Swapped(s, op.idx1, op.idx2), cmp)
  {
  }

  lemma SortStepped(s: seq<Ref>, op: Op, r: seq<Ref>, cmp: Comparator)
    requires op.Sort? && op.from + op.length <= |s| == |r| && SortedFrom(r, op.from, op.from + op.length, cmp)
    requires StableRearrangement(s, r, cmp) && SameOutside(s, r, op.from, op.from + op.length)
    ensures Stepped(s, op, r, cmp)
  {
  }

  lemma RemoveStepped(s: seq<Ref>, op: Op, cmp: Comparator)
    requires op.RemoveAll?
    ensures Stepped(s, op, [], cmp)
  {
  }

  /** The contents after each of the first n operations. */
  ghost predicate History(trace: seq<seq<Ref>>, ops: seq<Op>, n: nat, cmp: Comparator) {
    |trace| == n + 1 && n <= |ops| && forall i :: 0 <= i < n ==> Stepped(trace[i], ops[i], trace[i + 1], cmp)
  }

  lemma HistoryStep(trace: seq<seq<Ref>>, ops: seq<Op>, n: nat, cmp: Comparator, r: seq<Ref>)
    requires History(trace, ops, n, cmp) && n < |ops| && Stepped(trace[n], ops[n], r, cmp)
    ensures History(trace + [r], ops, n + 1, cmp)
  {
    hide Stepped;
  }

  /**
   Any run of replace, set, exchange, sort and remove-all, up to the first operation
   that is not possible: the contents go through the specified changes, and at the end
   every value has been retained once more than released for each time it occurs.
   */
  method Run(a: MutableArray, ops: seq<Op>, cmp: Comparator) returns (done: nat, ghost trace: seq<seq<Ref>>)
    requires a.Valid() && TotalPreorder(cmp)
    modifies a, a.store
    ensures a.Valid() && History(trace, ops, done, cmp) && trace[0] == old(a.contents) && trace[done] == a.contents
    ensures forall v :: a.retains[v] == a.releases[v] + multiset(a.contents)[v]
    ensures done < |ops| ==> !Possible(a, ops[done])
  {
    hide TotalPreorder, Stepped, History;
    done, trace := 0, [a.contents];
    HistoryStart(a.contents, ops, cmp);
    while done < |ops|
      invariant done <= |ops| && a.Valid() && (a.store == old(a.store) || a.store == null || fresh(a.store))
      invariant |trace| == done + 1 && History(trace, ops, done, cmp) && trace[0] == old(a.contents) && trace[done] == a.contents
    {
      if !Possible(a, ops[done]) {
        break;
      }
      Step(a, ops[done], cmp);
      HistoryStep(trace, ops, done, cmp, a.contents);
      trace := trace + [a.contents];
      done := done + 1;
    }
  }

  lemma HistoryStart(s: seq<Ref>, ops: seq<Op>, cmp: Comparator)
    ensures History([s], ops, 0, cmp)
  {
  }
}
