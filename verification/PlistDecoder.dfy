/**
 The reader as it runs: recursion over a mutable path set, with or without a
 mutable object table keyed by offset. It is proved to compute `Decode`, which has
 neither.
 */
module PlistDecoder {
  import opened Plist
  import opened PlistReader
  import opened PlistDecode
  import opened PlistFile
  import opened PlistLimits

  // ----- the object table -----

  /**
   An object table that agrees with the file: every entry is the value of its
   offset, objects are entered after the objects they refer to, and no entry can
   reach an offset that is still being decoded or that is refused.
   */
  ghost predicate TableAgrees(file: File, objects: map<nat, Value>, path: Path)
  {
    && (forall o :: o in objects ==> Represents(file, o, objects[o]) && Avoids(file, o, path))
    && (forall o :: o in objects ==> Listed(file, o) && !Trips(file, o))
    && (forall o, c :: o in objects && Edge(file, o, c) && Listed(file, c) ==> c in objects)
  }

  lemma {:induction false} TableClosed(file: File, objects: map<nat, Value>, path: Path, w: seq<nat>)
    requires TableAgrees(file, objects, path)
    requires Walk(file, w) && w[0] in objects && Listed(file, w[|w| - 1])
    ensures w[|w| - 1] in objects
    decreases |w|
  {
    if |w| > 1 {
      WalkTail(file, w);
      if |w| > 2 {
        WalkTail(file, w[1..]);
      }
      TableClosed(file, objects, path, w[1..]);
    }
  }

  /** A container that is not in the table may be put on the path. */
  lemma TableAvoids(file: File, objects: map<nat, Value>, path: Path, depth: nat, off: nat)
    requires TableAgrees(file, objects, path)
    requires IsContainer(file, off) && off !in objects
    ensures TableAgrees(file, objects, Extend(path, depth, off))
  {
    forall o | o in objects ensures Avoids(file, o, Extend(path, depth, off)) {
      if Reaches(file, o, off) {
        var w :| Walk(file, w) && w[0] == o && w[|w| - 1] == off;
        TableClosed(file, objects, path, w);
      }
    }
  }

  /** Everything that an entry reaches and that is listed is in the table. */
  lemma TableHolds(file: File, objects: map<nat, Value>, path: Path, off: nat)
    requires TableAgrees(file, objects, path) && off in objects
    ensures ListedReach(file, off) <= objects.Keys
  {
    forall o | o in ListedReach(file, off) ensures o in objects {
      var w :| Walk(file, w) && w[0] == off && w[|w| - 1] == o;
      TableClosed(file, objects, path, w);
    }
  }

  lemma TableForgets(file: File, objects: map<nat, Value>, path: Path, path': Path)
    requires TableAgrees(file, objects, path')
    requires forall x :: OnPath(path, x) ==> OnPath(path', x)
    ensures TableAgrees(file, objects, path)
  {
  }

  /** A decoded object may be entered once the objects it refers to are. */
  lemma TableEnters(file: File, objects: map<nat, Value>, path: Path, depth: nat, off: nat, v: Value)
    requires TableAgrees(file, objects, path)
    requires Decode(file, off, path, depth) == Some(v)
    requires forall c :: Edge(file, off, c) && Listed(file, c) ==> c in objects
    requires Listed(file, off) && !Trips(file, off)
    ensures TableAgrees(file, objects[off := v], path)
  {
    DecodeSound(file, off, path, depth);
  }

  ghost predicate NoDuplicates(s: seq<nat>) {
    forall i, j :: 0 <= i < j < |s| ==> s[i] != s[j]
  }

  /** `decoded` lists exactly the offsets that `now` has and `before` has not, each once. */
  ghost predicate Accounts(decoded: seq<nat>, before: map<nat, Value>, now: map<nat, Value>) {
    NoDuplicates(decoded) && forall o :: o in decoded <==> o in now && o !in before
  }

  lemma NothingDecoded(objects: map<nat, Value>)
    ensures Accounts([], objects, objects)
  {
  }

  lemma AccountsJoin(d1: seq<nat>, d2: seq<nat>, a: map<nat, Value>, b: map<nat, Value>, c: map<nat, Value>)
    requires Accounts(d1, a, b) && Accounts(d2, b, c)
    requires a.Keys <= b.Keys <= c.Keys
    ensures Accounts(d1 + d2, a, c)
  {
    var d := d1 + d2;
    forall i, j | 0 <= i < j < |d| ensures d[i] != d[j] {
      if i < |d1| <= j {
        assert d1[i] in d1 && d2[j - |d1|] in d2;
      }
    }
    assert forall o :: o in d <==> o in d1 || o in d2;
  }

  class Decoder {
    const img: Image
    const t: Trailer
    /** Whether the caller passes an object table. */
    const useTable: bool
    ghost const file: File
    var objects: map<nat, Value>
    var path: Path

    /** The trailer has been checked, and `file` is what the bytes hold. */
    ghost predicate Reads() {
      Trusted(img, t) && file == ObjectsOf(img, t)
    }

    constructor (img: Image, t: Trailer, useTable: bool)
      requires Trusted(img, t)
      ensures this.img == img && this.t == t && this.useTable == useTable && Reads() && objects == map[] && path == None
    {
      this.img := img;
      this.t := t;
      this.useTable := useTable;
      this.file := ObjectsOf(img, t);
      objects := map[];
      path := None;
    }

    /** A table has no more entries than one can have, and without a table nothing is entered. */
    ghost predicate TableKept()
      reads this`objects
    {
      if useTable then TableTakes(|objects|) else objects == map[]
    }

    /** The activations of CreateObject down to this one. */
    ghost predicate Running(stack: seq<Frame>, off: nat, depth: nat)
      reads this`path
    {
      |stack| >= 1 && CallStack(file, stack) && stack[|stack| - 1] == Frame(off, path, depth)
    }

    /**
     __CFBinaryPlistCreateObjectFiltered in immutable mode. `decoded` records
     the offsets whose bytes were decoded, in order, and `stack` the activations
     that are still open.
     */
    method CreateObject(off: nat, depth: nat, ghost stack: seq<Frame>) returns (r: Outcome<Value>, ghost decoded: seq<nat>)
      requires Reads() && TableKept() && TableAgrees(file, objects, path) && Running(stack, off, depth)
      modifies this
      ensures FromTop(stack) ==> |stack| <= 17 + |TableOffsets(img, t)|
      ensures r.Halt? ==> Ends(file, old(objects).Keys, old(path), off, useTable)
      ensures r.Done? ==> r.result == Decode(file, off, old(path), depth)
      ensures r.Done? ==> TableKept() && TableAgrees(file, objects, old(path)) && old(objects.Keys) <= objects.Keys
      ensures r.Done? ==> forall o :: o in objects && o !in old(objects) ==> Reaches(file, off, o)
      ensures r.Done? && r.result.Some? ==> path == old(path)
      ensures r.Done? && r.result.Some? && useTable ==> !Trips(file, off) && ListedReach(file, off) <= objects.Keys
      ensures r.Done? && r.result.Some? && useTable ==> Accounts(decoded, old(objects), objects)
      decreases Fuel(file, path, depth), 1
    {
      StackBounded(img, t, file, stack);
      hide TableOffsets, CallStack, Trips, Accounts, Ends, ListedReach, TableTakes;
      NothingDecoded(objects);
      decoded := [];
      if useTable && off in objects {
        DecodeComplete(file, off, path, depth, objects[off]);
        TableHolds(file, objects, path, off);
        return Done(Some(objects[off])), [];
      }
      if OnPath(path, off) {
        return Done(None), [];
      }
      var shape := ParseAt(img, t, off);
      if shape.None? {
        return Done(None), [];
      } else if shape.value.Leaf? {
        r, decoded := CreateLeaf(off, depth, shape.value.value);
      } else {
        r, decoded := CreateContainer(off, depth, shape.value.kind, shape.value.offsets, stack);
      }
    }

    /** Objects without references: all but null and booleans are entered. */
    method CreateLeaf(off: nat, depth: nat, v: LeafValue) returns (r: Outcome<Value>, ghost decoded: seq<nat>)
      requires Reads() && TableKept() && TableAgrees(file, objects, path)
      requires off in file && file[off] == Leaf(v) && off !in objects && !OnPath(path, off)
      modifies this`objects
      ensures r.Halt? ==> Ends(file, old(objects).Keys, old(path), off, useTable)
      ensures r.Done? ==> r.result == Some(v) == Decode(file, off, path, depth)
      ensures r.Done? ==> TableKept() && TableAgrees(file, objects, path) && old(objects.Keys) <= objects.Keys
      ensures r.Done? ==> forall o :: o in objects && o !in old(objects) ==> Reaches(file, off, o)
      ensures r.Done? && useTable ==> !Trips(file, off) && ListedReach(file, off) <= objects.Keys
      ensures r.Done? && useTable ==> Accounts(decoded, old(objects), objects)
    {
      hide Reads, TableTakes, Trips, Ends, ListedReach, TableAgrees, Accounts, Decode, Reaches;
      decoded := [];
      ghost var objects0 := objects;
      LeafFacts(file, off, v, path, depth, objects0);
      if !useTable {
        return Done(Some(v)), [];
      }
      if Unlisted(v) {
        TripsNowhere(file, off);
        return Done(Some(v)), [];
      }
      var halted := EnterTable(off, v);
      if halted {
        LeafRefused(file, objects0.Keys, path, off);
        return Halt, [];
      }
      TripsNowhere(file, off);
      TableEnters(file, objects0, path, depth, off, v);
      return Done(Some(v)), [off];
    }

    /** CFDictionarySetValue on the object table, for an offset that is not in it. */
    method EnterTable(off: nat, v: Value) returns (halted: bool)
      requires off !in objects
      modifies this`objects
      ensures halted <==> Substitute(off) || !TableTakes(|old(objects)| + 1)
      ensures objects == if halted then old(objects) else old(objects)[off := v]
    {
      halted := Substitute(off) || !TableTakes(|objects| + 1);
      if !halted {
        objects := objects[off := v];
      }
    }

    /** The array, set and dictionary cases: the path set grows around the loop over the references. */
    method CreateContainer(off: nat, depth: nat, kind: Kind, offsets: seq<nat>, ghost stack: seq<Frame>)
      returns (r: Outcome<Value>, ghost decoded: seq<nat>)
      requires Reads() && TableKept() && TableAgrees(file, objects, path) && Running(stack, off, depth)
      requires off in file && file[off] == Refs(kind, offsets)
      requires off !in objects && !OnPath(path, off)
      modifies this
      ensures r.Halt? ==> Ends(file, old(objects).Keys, old(path), off, useTable)
      ensures r.Done? ==> r.result == Decode(file, off, old(path), depth)
      ensures r.Done? ==> TableKept() && TableAgrees(file, objects, old(path)) && old(objects.Keys) <= objects.Keys
      ensures r.Done? ==> forall o :: o in objects && o !in old(objects) ==> Reaches(file, off, o)
      ensures r.Done? && r.result.Some? ==> path == old(path)
      ensures r.Done? && r.result.Some? && useTable ==> !Trips(file, off) && ListedReach(file, off) <= objects.Keys
      ensures r.Done? && r.result.Some? && useTable ==> Accounts(decoded, old(objects), objects)
      decreases Fuel(file, path, depth), 0
    {
      hide Reads, TableAgrees, Accounts, Decode, DecodeAll, Trips, Ends, ListedReach, TableTakes, Creatable;
      decoded := [];
      ghost var path0, objects0 := path, objects;
      var madeSet, halted := PushPath(off, depth);
      if halted {
        PathRefuses(file, objects0.Keys, path0, off, useTable);
        return Halt, [];
      }
      FuelDecreases(file, path0, depth, off);
      TableAvoids(file, objects, path0, depth, off);
      ghost var path1 := Extend(path0, depth, off);
      var members;
      members, decoded := CreateMembers(offsets, KeyCount(kind, offsets), depth + 1, stack, off);
      if members.Halt? {
        ghost var c, keys :| Edge(file, off, c) && keys <= objects0.Keys + ListedReach(file, off) && Ends(file, keys, path1, c, useTable);
        EndsParent(file, objects0.Keys, path0, depth, off, c, keys, useTable);
        return Halt, [];
      }
      var list := members.result;
      TableForgets(file, objects, path0, path1);
      ReachesFromChildren(file, off, offsets, objects0, objects);
      if list.None? {
        ContainerFails(file, off, path0, depth, kind, offsets);
        return Done(None), decoded;
      }
      r, decoded := FinishContainer(off, depth, kind, offsets, list.value, madeSet, path0, objects0, decoded);
    }

    /** Creates the container from its members, takes it off the path set and enters it in the table. */
    method FinishContainer(off: nat, depth: nat, kind: Kind, offsets: seq<nat>, list: seq<Value>, madeSet: bool,
                           ghost path0: Path, ghost objects0: map<nat, Value>, ghost sub: seq<nat>)
      returns (r: Outcome<Value>, ghost decoded: seq<nat>)
      requires TableKept() && TableAgrees(file, objects, path0) && off in file && file[off] == Refs(kind, offsets)
      requires off !in objects0 && objects0.Keys <= objects.Keys && !OnPath(path0, off)
      requires path == Extend(path0, depth, off) && (madeSet <==> path0.None? && path.Some?)
      requires DecodeAll(file, offsets, KeyCount(kind, offsets), path, depth + 1) == Some(list)
      requires forall o :: o in objects && o !in objects0 ==> ReachedFromAny(file, offsets, o)
      requires useTable ==> forall j :: 0 <= j < |offsets| ==> ListedReach(file, offsets[j]) <= objects.Keys && !Trips(file, offsets[j])
      requires useTable ==> Accounts(sub, objects0, objects)
      modifies this
      ensures r.Halt? ==> Ends(file, objects0.Keys, path0, off, useTable)
      ensures r.Done? ==> r.result == Decode(file, off, path0, depth) && r.result.Some? && path == path0
      ensures r.Done? ==> TableKept() && TableAgrees(file, objects, path0) && objects0.Keys <= objects.Keys
      ensures r.Done? ==> forall o :: o in objects && o !in objects0 ==> Reaches(file, off, o)
      ensures r.Done? && useTable ==> !Trips(file, off) && ListedReach(file, off) <= objects.Keys
      ensures r.Done? && useTable ==> Accounts(decoded, objects0, objects)
    {
      hide TableAgrees, Accounts, Decode, DecodeAll, Trips, Ends, ListedReach, TableTakes, Creatable;
      decoded := sub;
      ReachesFromChildren(file, off, offsets, objects0, objects);
      ContainerDecodes(file, off, path0, depth, kind, offsets, list);
      var v := Assemble(kind, list);
      if !Creatable(kind, |offsets|) {
        TripsSelf(file, off);
        EndsTripping(file, objects0.Keys, path0, off, useTable);
        return Halt, [];
      }
      PopPath(off, madeSet);
      if !useTable {
        return Done(Some(v)), decoded;
      }
      ghost var objects1 := objects;
      NotEnteredYet(file, off, path0, depth, objects0, objects, offsets);
      var halted := EnterTable(off, v);
      if halted {
        EnterRefused(file, objects0, objects1, path0, off);
        return Halt, [];
      }
      TripsNowhere(file, off);
      ContainerDone(file, off, path0, depth, kind, offsets, list, objects0, objects1, decoded);
      decoded := decoded + [off];
      ReachesSelf(file, off);
      ListedReachSplit(file, off, objects.Keys);
      r := Done(Some(v));
    }

    /**
     Puts a container on the path set, which is created first if this is the depth
     at which it starts. The set refuses the two substitute words, and more entries
     than a table can have.
     */
    method PushPath(off: nat, depth: nat) returns (madeSet: bool, halted: bool)
      requires !OnPath(path, off)
      modifies this`path
      ensures halted <==> (old(path).Some? || 15 < depth) && (Substitute(off) || !TableTakes(|PathSet(old(path))| + 1))
      ensures !halted ==> path == Extend(old(path), depth, off)
      ensures madeSet <==> old(path).None? && path.Some?
    {
      madeSet, halted := false, false;
      if path.None? && 15 < depth {
        path, madeSet := Some({}), true;
        assert {} + {off} == {off};
      }
      if path.Some? {
        if Substitute(off) || !TableTakes(|path.value| + 1) {
          return madeSet, true;
        }
        path := Some(path.value + {off});
      }
    }

    /** Takes the container off again, and drops a path set that was created for it. */
    method PopPath(off: nat, madeSet: bool)
      modifies this`path
      ensures madeSet ==> path.None?
      ensures !madeSet && old(path).None? ==> path.None?
      ensures !madeSet && old(path).Some? ==> path == Some(old(path).value - {off})
    {
      if path.Some? {
        path := Some(path.value - {off});
      }
      if madeSet {
        path := None;
      }
    }

    /** The loop over the references of the container at `parent`. */
    method CreateMembers(offsets: seq<nat>, keys: nat, depth: nat, ghost stack: seq<Frame>, ghost parent: nat)
      returns (r: Outcome<seq<Value>>, ghost decoded: seq<nat>)
      requires Reads() && TableKept() && TableAgrees(file, objects, path)
      requires IsContainer(file, parent) && file[parent].offsets == offsets
      requires Deepens(file, stack, parent, path, depth)
      modifies this
      ensures r.Halt? ==> exists c, keys: set<nat> :: Edge(file, parent, c) && keys <= old(objects).Keys + ListedReach(file, parent) && Ends(file, keys, old(path), c, useTable)
      ensures r.Done? ==> r.result == DecodeAll(file, offsets, keys, old(path), depth)
      ensures r.Done? ==> TableKept() && TableAgrees(file, objects, old(path)) && old(objects.Keys) <= objects.Keys
      ensures r.Done? ==> forall o :: o in objects && o !in old(objects) ==> ReachedFromAny(file, offsets, o)
      ensures r.Done? && r.result.Some? ==> path == old(path) && |r.result.value| == |offsets|
      ensures r.Done? && r.result.Some? && useTable ==>
        forall j :: 0 <= j < |offsets| ==> ListedReach(file, offsets[j]) <= objects.Keys && !Trips(file, offsets[j])
      ensures r.Done? && r.result.Some? && useTable ==> Accounts(decoded, old(objects), objects)
      decreases Fuel(file, path, depth), 2
    {
      hide Reads, TableAgrees, Accounts, Decode, DecodeAll, Trips, Ends, ListedReach, TableTakes, Deepens, MembersSoFar;
      ghost var path1, objects0 := path, objects;
      var list: seq<Value> := [];
      decoded := [];
      NoMembers(file, offsets, keys, path1, depth, objects0, useTable);
      while |list| < |offsets|
        invariant path == path1 && TableKept() && TableAgrees(file, objects, path1)
        invariant MembersSoFar(file, offsets, keys, path1, depth, list, objects0, objects, decoded, useTable)
        invariant |list| <= |offsets|
        decreases |offsets| - |list|
      {
        ghost var before, child := objects, offsets[|list|];
        Deeper(file, stack, parent, path, depth, child);
        var v;
        ghost var sub;
        v, sub := CreateObject(offsets[|list|], depth, stack + [Frame(child, path, depth)]);
        if v.Halt? {
          MembersListed(file, parent, offsets, keys, path1, depth, list, objects0, before, decoded, useTable);
          assert Ends(file, before.Keys, path1, child, useTable);
          return Halt, [];
        }
        if v.result.None? || (|list| < keys && !Primitive(v.result.value)) {
          MembersFail(file, offsets, keys, path1, depth, |list|);
          MembersReached(file, offsets, keys, path1, depth, list, objects0, before, objects, decoded, useTable);
          return Done(None), decoded;
        }
        MembersStep(file, offsets, keys, path1, depth, list, objects0, before, objects, decoded, sub, v.result.value, useTable);
        decoded := decoded + sub;
        list := list + [v.result.value];
      }
      MembersDone(file, offsets, keys, path1, depth, list, objects0, objects, decoded, useTable);
      r := Done(Some(list));
    }
  }

  /** The first activation was made without a path set at depth 0, as for the top of a file. */
  predicate FromTop(stack: seq<Frame>) {
    |stack| >= 1 && stack[0].path == None && stack[0].depth == 0
  }

  /** `stack` ends in the activation for the container `parent`, whose references are decoded with this path set and depth. */
  ghost predicate Deepens(file: File, stack: seq<Frame>, parent: nat, path: Path, depth: nat) {
    && |stack| >= 1 && CallStack(file, stack)
    && var f := stack[|stack| - 1];
    f.off == parent && !OnPath(f.path, parent) && path == Extend(f.path, f.depth, parent) && depth == f.depth + 1
  }

  lemma Deeper(file: File, stack: seq<Frame>, parent: nat, path: Path, depth: nat, child: nat)
    requires Deepens(file, stack, parent, path, depth) && Edge(file, parent, child)
    ensures CallStack(file, stack + [Frame(child, path, depth)])
  {
    var s := stack + [Frame(child, path, depth)];
    forall i | 0 <= i < |s| - 1 ensures Calls(file, s[i], s[i + 1]) {
      if i < |stack| - 1 {
        assert Calls(file, stack[i], stack[i + 1]);
      }
    }
  }

  lemma StackBounded(img: Image, t: Trailer, file: File, stack: seq<Frame>)
    requires Trusted(img, t) && file == ObjectsOf(img, t)
    requires |stack| >= 1 && CallStack(file, stack)
    ensures FromTop(stack) ==> |stack| <= 17 + |TableOffsets(img, t)|
  {
    hide Trusted, ObjectsOf, TableOffsets, CallStack;
    if FromTop(stack) {
      FileDepthBound(img, t, stack);
    }
  }

  /** The state of the loop over the references after |list| of them have been decoded. */
  ghost predicate MembersSoFar(file: File, offsets: seq<nat>, keys: nat, path: Path, depth: nat, list: seq<Value>,
                               before: map<nat, Value>, now: map<nat, Value>, decoded: seq<nat>, useTable: bool)
  {
    && |list| <= |offsets|
    && before.Keys <= now.Keys
    && (forall j :: 0 <= j < |list| ==> Decode(file, offsets[j], path, depth) == Some(list[j]))
    && (forall j :: 0 <= j < |list| && j < keys ==> Primitive(list[j]))
    && (forall o :: o in now && o !in before ==> ReachedFromAny(file, offsets, o))
    && (useTable ==> forall j :: 0 <= j < |list| ==> ListedReach(file, offsets[j]) <= now.Keys && !Trips(file, offsets[j]))
    && (useTable ==> Accounts(decoded, before, now))
  }

  lemma NoMembers(file: File, offsets: seq<nat>, keys: nat, path: Path, depth: nat, objects: map<nat, Value>, useTable: bool)
    ensures MembersSoFar(file, offsets, keys, path, depth, [], objects, objects, [], useTable)
  {
  }

  lemma MembersDone(file: File, offsets: seq<nat>, keys: nat, path: Path, depth: nat, list: seq<Value>,
                    before: map<nat, Value>, now: map<nat, Value>, decoded: seq<nat>, useTable: bool)
    requires MembersSoFar(file, offsets, keys, path, depth, list, before, now, decoded, useTable) && |list| == |offsets|
    ensures DecodeAll(file, offsets, keys, path, depth) == Some(list)
    ensures before.Keys <= now.Keys && (useTable ==> Accounts(decoded, before, now))
    ensures forall o :: o in now && o !in before ==> ReachedFromAny(file, offsets, o)
    ensures useTable ==> forall j :: 0 <= j < |offsets| ==> ListedReach(file, offsets[j]) <= now.Keys && !Trips(file, offsets[j])
  {
    hide Accounts, Trips, ListedReach, Decode, ReachedFromAny;
    DecodeAllPointwise(file, offsets, keys, path, depth, list);
  }

  /** What a failing member leaves behind. */
  lemma MembersReached(file: File, offsets: seq<nat>, keys: nat, path: Path, depth: nat, list: seq<Value>,
                       before: map<nat, Value>, mid: map<nat, Value>, now: map<nat, Value>, decoded: seq<nat>, useTable: bool)
    requires MembersSoFar(file, offsets, keys, path, depth, list, before, mid, decoded, useTable) && |list| < |offsets|
    requires mid.Keys <= now.Keys && forall o :: o in now && o !in mid ==> Reaches(file, offsets[|list|], o)
    ensures before.Keys <= now.Keys && forall o :: o in now && o !in before ==> ReachedFromAny(file, offsets, o)
  {
    hide Accounts, Trips, ListedReach, Decode, Reaches;
    forall o | o in now && o !in before ensures ReachedFromAny(file, offsets, o) {
      if o !in mid {
        assert Reaches(file, offsets[|list|], o);
      }
    }
  }

  lemma MembersStep(file: File, offsets: seq<nat>, keys: nat, path: Path, depth: nat, list: seq<Value>,
                    before: map<nat, Value>, mid: map<nat, Value>, now: map<nat, Value>, decoded: seq<nat>, sub: seq<nat>, v: Value, useTable: bool)
    requires |list| < |offsets|
    requires MembersSoFar(file, offsets, keys, path, depth, list, before, mid, decoded, useTable)
    requires Decode(file, offsets[|list|], path, depth) == Some(v)
    requires |list| < keys ==> Primitive(v)
    requires mid.Keys <= now.Keys
    requires forall o :: o in now && o !in mid ==> Reaches(file, offsets[|list|], o)
    requires useTable ==> ListedReach(file, offsets[|list|]) <= now.Keys && !Trips(file, offsets[|list|]) && Accounts(sub, mid, now)
    ensures MembersSoFar(file, offsets, keys, path, depth, list + [v], before, now, decoded + sub, useTable)
  {
    hide Decode, Reaches, Accounts, Trips, ListedReach;
    if useTable {
      AccountsJoin(decoded, sub, before, mid, now);
    }
    assert forall j :: 0 <= j < |list| ==> (list + [v])[j] == list[j];
    forall o | o in now && o !in before ensures ReachedFromAny(file, offsets, o) {
      if o !in mid {
        assert Reaches(file, offsets[|list|], o);
      }
    }
  }

  ghost predicate ReachedFromAny(file: File, offsets: seq<nat>, o: nat)
  {
    exists j :: 0 <= j < |offsets| && Reaches(file, offsets[j], o)
  }

  lemma MembersFail(file: File, offsets: seq<nat>, keys: nat, path: Path, depth: nat, i: nat)
    requires i < |offsets|
    requires var v := Decode(file, offsets[i], path, depth); v.None? || (i < keys && !Primitive(v.value))
    ensures DecodeAll(file, offsets, keys, path, depth).None?
  {
    var r := DecodeAll(file, offsets, keys, path, depth);
    if r.Some? {
      DecodeAllPointwise(file, offsets, keys, path, depth, r.value);
    }
  }

  lemma ReachesFromChildren(file: File, off: nat, offsets: seq<nat>, before: map<nat, Value>, now: map<nat, Value>)
    requires IsContainer(file, off) && file[off].offsets == offsets
    requires forall o :: o in now && o !in before ==> ReachedFromAny(file, offsets, o)
    ensures forall o :: o in now && o !in before ==> Reaches(file, off, o)
  {
    forall o | o in now && o !in before ensures Reaches(file, off, o) {
      var j :| 0 <= j < |offsets| && Reaches(file, offsets[j], o);
      ReachesStep(file, off, offsets[j], o);
    }
  }

  /** Decoding the parts of an object never enters the object itself. */
  lemma NotEnteredYet(file: File, off: nat, path: Path, depth: nat, before: map<nat, Value>, now: map<nat, Value>, offsets: seq<nat>)
    requires IsContainer(file, off) && file[off].offsets == offsets
    requires off !in before && Decode(file, off, path, depth).Some?
    requires forall o :: o in now && o !in before ==> ReachedFromAny(file, offsets, o)
    ensures off !in now
  {
    DecodeSound(file, off, path, depth);
    if off in now {
      var j :| 0 <= j < |offsets| && Reaches(file, offsets[j], off);
      NoLoop(file, off, offsets[j], Decode(file, off, path, depth).value);
    }
  }

  lemma ContainerFails(file: File, off: nat, path: Path, depth: nat, kind: Kind, offsets: seq<nat>)
    requires off in file && file[off] == Refs(kind, offsets)
    requires DecodeAll(file, offsets, KeyCount(kind, offsets), Extend(path, depth, off), depth + 1).None?
    ensures Decode(file, off, path, depth).None?
  {
  }

  lemma ContainerDecodes(file: File, off: nat, path: Path, depth: nat, kind: Kind, offsets: seq<nat>, list: seq<Value>)
    requires off in file && file[off] == Refs(kind, offsets) && !OnPath(path, off)
    requires DecodeAll(file, offsets, KeyCount(kind, offsets), Extend(path, depth, off), depth + 1) == Some(list)
    ensures Decode(file, off, path, depth) == Some(Assemble(kind, list))
  {
  }

  /** Everything CreateContainer has to know once all members of the container are decoded. */
  lemma ContainerDone(file: File, off: nat, path: Path, depth: nat, kind: Kind, offsets: seq<nat>, list: seq<Value>,
                      before: map<nat, Value>, now: map<nat, Value>, decoded: seq<nat>)
    requires off in file && file[off] == Refs(kind, offsets)
    requires off !in before && before.Keys <= now.Keys && !OnPath(path, off)
    requires TableAgrees(file, now, path)
    requires DecodeAll(file, offsets, KeyCount(kind, offsets), Extend(path, depth, off), depth + 1) == Some(list)
    requires forall o :: o in now && o !in before ==> ReachedFromAny(file, offsets, o)
    requires forall j :: 0 <= j < |offsets| ==> ListedReach(file, offsets[j]) <= now.Keys
    requires Accounts(decoded, before, now) && !Trips(file, off)
    ensures Decode(file, off, path, depth) == Some(Assemble(kind, list))
    ensures TableAgrees(file, now[off := Assemble(kind, list)], path)
    ensures Accounts(decoded + [off], before, now[off := Assemble(kind, list)])
  {
    var v := Assemble(kind, list);
    ContainerDecodes(file, off, path, depth, kind, offsets, list);
    NotEnteredYet(file, off, path, depth, before, now, offsets);
    ChildrenEntered(file, off, offsets, now);
    hide Trips, ListedReach, Decode, DecodeAll;
    TableEnters(file, now, path, depth, off, v);
    AccountsJoin(decoded, [off], before, now, now[off := v]);
  }

  lemma ChildrenEntered(file: File, off: nat, offsets: seq<nat>, objects: map<nat, Value>)
    requires IsContainer(file, off) && file[off].offsets == offsets
    requires forall j :: 0 <= j < |offsets| ==> ListedReach(file, offsets[j]) <= objects.Keys
    ensures forall c :: Edge(file, off, c) && Listed(file, c) ==> c in objects
  {
    forall c | Edge(file, off, c) && Listed(file, c) ensures c in objects {
      var j :| 0 <= j < |offsets| && offsets[j] == c;
      ListedReachSelf(file, c);
    }
  }

  /** What CreateLeaf has to know. */
  lemma LeafFacts(file: File, off: nat, v: LeafValue, path: Path, depth: nat, objects: map<nat, Value>)
    requires off in file && file[off] == Leaf(v) && off !in objects && !OnPath(path, off)
    ensures Decode(file, off, path, depth) == Some(v) && Reaches(file, off, off)
    ensures forall c :: !Edge(file, off, c)
    ensures ListedReach(file, off) == if Listed(file, off) then {off} else {}
    ensures Accounts([], objects, objects) && Accounts([off], objects, objects[off := v])
  {
    ReachesSelf(file, off);
    LeafReach(file, off);
  }

  // ----- the ends of the program -----

  lemma LeafRefused(file: File, keys: set<nat>, path: Path, off: nat)
    requires Listed(file, off) && off !in keys && (Substitute(off) || !TableTakes(|keys| + 1))
    ensures Ends(file, keys, path, off, true)
  {
    if Substitute(off) {
      TripsSelf(file, off);
    } else {
      EndsFull(file, keys, path, off, keys, true);
    }
  }

  lemma EndsTripping(file: File, keys: set<nat>, path: Path, off: nat, useTable: bool)
    requires Trips(file, off)
    ensures Ends(file, keys, path, off, useTable)
  {
  }

  /** The path set refuses a container. */
  lemma PathRefuses(file: File, keys: set<nat>, path: Path, off: nat, useTable: bool)
    requires IsContainer(file, off) && !OnPath(path, off)
    requires Substitute(off) || !TableTakes(|PathSet(path)| + 1)
    ensures Ends(file, keys, path, off, useTable)
  {
    if Substitute(off) {
      TripsSelf(file, off);
    } else {
      EndsFull(file, keys, path, off, PathSet(path), useTable);
    }
  }

  /** The object table refuses a container whose references are in it. */
  lemma EnterRefused(file: File, before: map<nat, Value>, now: map<nat, Value>, path: Path, off: nat)
    requires IsContainer(file, off) && off !in now && TableAgrees(file, now, path)
    requires forall o :: o in now && o !in before ==> Reaches(file, off, o)
    requires Substitute(off) || !TableTakes(|now| + 1)
    ensures Ends(file, before.Keys, path, off, true)
  {
    if Substitute(off) {
      TripsSelf(file, off);
    } else {
      forall o | o in now.Keys ensures o in before.Keys + ListedReach(file, off) {
      }
      EndsFull(file, before.Keys, path, off, now.Keys, true);
    }
  }

  /** What has been entered so far is part of what is entered for the container. */
  lemma MembersListed(file: File, parent: nat, offsets: seq<nat>, keys: nat, path: Path, depth: nat, list: seq<Value>,
                      before: map<nat, Value>, now: map<nat, Value>, decoded: seq<nat>, useTable: bool)
    requires IsContainer(file, parent) && file[parent].offsets == offsets && TableAgrees(file, now, path)
    requires MembersSoFar(file, offsets, keys, path, depth, list, before, now, decoded, useTable)
    ensures now.Keys <= before.Keys + ListedReach(file, parent)
  {
    ReachesFromChildren(file, parent, offsets, before, now);
    forall o | o in now.Keys ensures o in before.Keys + ListedReach(file, parent) {
    }
  }

  /**
   Decoding with an object table and decoding without one, at any depth and with any
   path set: whenever both come to an end they agree, and they do come to an end
   unless something refuses what the decode needs.
   */
  method DecodeBothWays(img: Image, t: Trailer, off: nat, path: Path, depth: nat)
    returns (with: Outcome<Value>, without: Outcome<Value>)
    requires Trusted(img, t)
    ensures with.Done? && without.Done? ==> with == without
    ensures !Ends(ObjectsOf(img, t), {}, path, off, true) ==> with == without == Done(Decode(ObjectsOf(img, t), off, path, depth))
    ensures path == None && Decode(ObjectsOf(img, t), off, path, depth).Some? ==>
      (with.Halt? <==> Ends(ObjectsOf(img, t), {}, path, off, true))
  {
    hide Trusted, Trips, ListedReach;
    EmptyTable();
    var first := new Decoder(img, t, true);
    first.path := path;
    ghost var decoded;
    with, decoded := first.CreateObject(off, depth, [Frame(off, path, depth)]);
    var second := new Decoder(img, t, false);
    second.path := path;
    without, decoded := second.CreateObject(off, depth, [Frame(off, path, depth)]);
    if with.Done? && with.result.Some? && path == None {
      NoEnd(ObjectsOf(img, t), first.objects, off);
    }
  }

  lemma EmptyTable()
    ensures TableTakes(0)
  {
    LargestTable(0);
  }

  /** A table that holds what a decode enters is witness that nothing refused it. */
  lemma NoEnd(file: File, objects: map<nat, Value>, off: nat)
    requires !Trips(file, off) && ListedReach(file, off) <= objects.Keys && TableTakes(|objects|)
    ensures !Ends(file, {}, None, off, true)
  {
    hide Trips, ListedReach, TableTakes;
    SubsetSize(ListedReach(file, off), objects.Keys);
    TableTakesFewer(|ListedReach(file, off)|, |objects|);
    assert {} + ListedReach(file, off) == ListedReach(file, off);
  }

  /** The value that a file denotes. */
  function Parse(img: Image): Option<Value>
    requires Mapped(img)
  {
    var info := TopLevelInfo(img);
    if info.None? then None else Decode(ObjectsOf(img, info.value.0), info.value.1, None, 0)
  }

  /** A file is parsed to a value exactly when its bytes stand for that value. */
  lemma ParseMeaning(img: Image, v: Value)
    requires Mapped(img)
    ensures Parse(img) == Some(v) <==> FileDenotes(img.bytes, v)
  {
    hide TopLevelInfo, Trusted, ObjectsOf, Decode, FileAt, Denotes, Represents;
    if TopLevelInfo(img).Some? {
      var (t, top) := TopLevelInfo(img).value;
      TopLevelMeaning(img, t, top);
      DecodeMeaning(ObjectsOf(img, t), top, None, 0, v);
      DenotesMeaning(img, t, top, v);
    }
    if FileDenotes(img.bytes, v) {
      var t, top: nat :| FileAt(img.bytes, t, top) && Denotes(img.bytes, t, top, v);
      TopLevelMeaning(img, t, top);
    }
  }

  /** Parsing the file does not come to an end: a refused object, or more objects than a table can be made for. */
  ghost predicate ParseEnds(img: Image)
    requires Mapped(img)
  {
    var info := TopLevelInfo(img);
    info.Some? && (!TableTakes(info.value.0.numObjects) || Trips(ObjectsOf(img, info.value.0), info.value.1))
  }

  /** The program returns this value for the file. */
  ghost predicate Returns(img: Image, v: Value)
    requires Mapped(img)
  {
    Parse(img) == Some(v) && !ParseEnds(img)
  }

  /**
   __CFTryParseBinaryPlist: an object table made for all objects of the file, no path
   set, depth 0. A file that has a value is parsed to it, unless the program ends
   there: exactly when `ParseEnds` says so.
   */
  method TryParse(img: Image) returns (r: Outcome<Value>)
    requires Mapped(img)
    ensures r.Done? ==> r.result == Parse(img)
    ensures r.Halt? ==> ParseEnds(img)
    ensures Parse(img).Some? ==> (r.Halt? <==> ParseEnds(img))
    ensures forall v :: r == Done(Some(v)) <==> Returns(img, v)
    ensures r.Done? ==> forall v :: r.result == Some(v) <==> FileDenotes(img.bytes, v)
  {
    forall v ensures Parse(img) == Some(v) <==> FileDenotes(img.bytes, v) {
      ParseMeaning(img, v);
    }
    hide FileDenotes;
    var info := GetTopLevelInfo(img);
    if info.None? {
      return Done(None);
    }
    hide Trips, ListedReach, TableTakes, TopLevelInfo;
    EmptyTable();
    var t, top := info.value.0, info.value.1;
    if !TableTakes(t.numObjects) {
      return Halt;
    }
    var decoder := new Decoder(img, t, true);
    ghost var decoded;
    r, decoded := decoder.CreateObject(top, 0, [Frame(top, None, 0)]);
    if r.Halt? {
      TableSuffices(img, t, top);
    }
  }

  /** A table made for all objects of a file is never full. */
  lemma TableSuffices(img: Image, t: Trailer, top: nat)
    requires Mapped(img) && TopLevelInfo(img) == Some((t, top)) && TableTakes(t.numObjects)
    ensures Ends(ObjectsOf(img, t), {}, None, top, true) ==> Trips(ObjectsOf(img, t), top)
  {
    var reach := ListedReach(ObjectsOf(img, t), top);
    TopInTable(img, t, top);
    ReachInTable(img, t, top);
    hide Trips, ListedReach, TableTakes, TopLevelInfo, Trusted, TableOffsets;
    TableOffsetsCount(img, t);
    SubsetSize(reach, TableOffsets(img, t));
    TableTakesFewer(|reach|, t.numObjects);
    assert {} + reach == reach;
  }

  lemma TopInTable(img: Image, t: Trailer, top: nat)
    requires Mapped(img) && TopLevelInfo(img) == Some((t, top))
    ensures Trusted(img, t) && top in TableOffsets(img, t)
  {
    hide TrailerFits, TableEntry, TableOk;
    TopEntryListed(img, t);
  }

  lemma TopEntryListed(img: Image, t: Trailer)
    requires Trusted(img, t)
    ensures t.topObject < t.numObjects && TableEntry(img, t, t.topObject) in TableOffsets(img, t)
  {
  }

  lemma ReachInTable(img: Image, t: Trailer, off: nat)
    requires Trusted(img, t) && off in TableOffsets(img, t)
    ensures ListedReach(ObjectsOf(img, t), off) <= TableOffsets(img, t)
  {
    hide Trusted, TableOffsets, ParseAt;
    FileTargets(img, t);
    var file := ObjectsOf(img, t);
    forall o | o in ListedReach(file, off) ensures o in TableOffsets(img, t) {
      LastStep(file, off, o);
    }
  }

  /** What is reached is the start, or the target of a reference. */
  lemma LastStep(file: File, a: nat, b: nat)
    requires Reaches(file, a, b)
    ensures a == b || exists x :: Edge(file, x, b)
  {
    var w :| Walk(file, w) && w[0] == a && w[|w| - 1] == b;
    if |w| > 1 {
      assert Edge(file, w[|w| - 2], w[|w| - 2 + 1]);
    }
  }

  lemma TableOffsetsCount(img: Image, t: Trailer)
    requires Trusted(img, t)
    ensures |TableOffsets(img, t)| <= t.numObjects
  {
    EntriesCount(img, t, t.numObjects);
    assert TableOffsets(img, t) == Entries(img, t, t.numObjects);
  }

  ghost function Entries(img: Image, t: Trailer, n: nat): set<nat>
    requires Trusted(img, t) && n <= t.numObjects
  {
    set k | 0 <= k < n :: TableEntry(img, t, k)
  }

  lemma {:induction false} EntriesCount(img: Image, t: Trailer, n: nat)
    requires Trusted(img, t) && n <= t.numObjects
    ensures |Entries(img, t, n)| <= n
  {
    if n > 0 {
      EntriesCount(img, t, n - 1);
      hide TrailerFits, TableOk, Mapped, Field;
      assert Entries(img, t, n) == Entries(img, t, n - 1) + {TableEntry(img, t, n - 1)};
    }
  }
}
