/**
 The recursive decode without an object table, and what it means: the offsets
 of a file form a reference graph, and decoding an offset succeeds exactly when
 the part of the graph it reaches unfolds to a value and avoids the path set.
 */
module PlistDecode {
  import opened Plist
  import opened PlistReader

  /** The objects of a file by offset, each as far as it can be read without following a reference. */
  type File = map<nat, Shape>

  /** A container of the given kind with the given members, keys before values. */
  function Assemble(kind: Kind, members: seq<Value>): (v: Value)
    ensures !Primitive(v)
  {
    match kind
    case KArray => VArray(members)
    case KSet => VSet(members)
    case KDict => VDict(members[..|members| / 2], members[|members| / 2..])
  }

  function KeyCount(kind: Kind, offsets: seq<nat>): (n: nat)
    ensures n <= |offsets|
  {
    if kind.KDict? then |offsets| / 2 else 0
  }

  /** The set of offsets on the path down to an object, once the source keeps it. */
  type Path = Option<set<nat>>

  predicate OnPath(path: Path, off: nat) {
    path.Some? && off in path.value
  }

  /** The path set seen by the children of a container: it is created below depth 15. */
  function Extend(path: Path, depth: nat, off: nat): (p: Path)
    ensures forall x :: OnPath(p, x) ==> OnPath(path, x) || x == off
  {
    if path.Some? then Some(path.value + {off})
    else if 15 < depth then Some({off})
    else None
  }

  /** Bounds the recursion: every level with a path set uses up one of the objects of the file. */
  ghost function Fuel(file: File, path: Path, depth: nat): nat {
    if path.None? then |file.Keys| + 17 - (if depth < 16 then depth else 16)
    else |file.Keys - path.value|
  }

  lemma FuelDecreases(file: File, path: Path, depth: nat, off: nat)
    requires off in file && !OnPath(path, off)
    ensures Fuel(file, Extend(path, depth, off), depth + 1) < Fuel(file, path, depth)
  {
    var s := file.Keys;
    if path.Some? {
      assert s - (path.value + {off}) == (s - path.value) - {off};
      assert off in s - path.value;
    } else if 15 < depth {
      assert |s - {off}| == |s| - 1;
    }
  }

  /** __CFBinaryPlistCreateObjectFiltered in immutable mode, without key paths and without an object table. */
  function Decode(file: File, off: nat, path: Path, depth: nat): (r: Option<Value>)
    decreases Fuel(file, path, depth), 0
  {
    if OnPath(path, off) || off !in file then None
    else if file[off].Leaf? then Some(file[off].value)
    else
        var Refs(kind, offsets) := file[off];
        FuelDecreases(file, path, depth, off);
        var members := DecodeAll(file, offsets, KeyCount(kind, offsets), Extend(path, depth, off), depth + 1);
        if members.None? then None else Some(Assemble(kind, members.value))
  }

  /** The members of a container in order; the first `keys` of them have to be primitive. */
  function DecodeAll(file: File, offsets: seq<nat>, keys: nat, path: Path, depth: nat): (r: Option<seq<Value>>)
    ensures r.Some? ==> |r.value| == |offsets|
    decreases Fuel(file, path, depth), 1, |offsets|
  {
    if offsets == [] then Some([])
    else
      var v := Decode(file, offsets[0], path, depth);
      if v.None? || (0 < keys && !Primitive(v.value)) then None
      else
        var rest := DecodeAll(file, offsets[1..], if keys == 0 then 0 else keys - 1, path, depth);
        if rest.None? then None else Some([v.value] + rest.value)
  }

  /** DecodeAll, member by member. */
  lemma {:induction false} DecodeAllPointwise(file: File, offsets: seq<nat>, keys: nat, path: Path, depth: nat, vs: seq<Value>)
    ensures DecodeAll(file, offsets, keys, path, depth) == Some(vs) <==>
            && |vs| == |offsets|
            && (forall i :: 0 <= i < |offsets| ==> Decode(file, offsets[i], path, depth) == Some(vs[i]))
            && (forall i :: 0 <= i < |offsets| && i < keys ==> Primitive(vs[i]))
    decreases |offsets|
  {
    hide Decode;
    if offsets != [] {
      var keys' := if keys == 0 then 0 else keys - 1;
      if |vs| == |offsets| {
        DecodeAllPointwise(file, offsets[1..], keys', path, depth, vs[1..]);
        assert vs == [vs[0]] + vs[1..];
        assert forall i :: 0 <= i < |offsets| ==> offsets[i] == if i == 0 then offsets[0] else offsets[1..][i - 1];
        assert forall i :: 0 <= i < |vs| ==> vs[i] == if i == 0 then vs[0] else vs[1..][i - 1];
      }
    }
  }

  // ----- meaning -----

  function Members(v: Value): (ms: seq<Value>)
    ensures forall i :: 0 <= i < |ms| ==> ms[i] < v
  {
    match v
    case VArray(elems) => elems
    case VSet(members) => members
    case VDict(keys, vals) => keys + vals
    case _ => []
  }

  /** `v` is the value that unfolds from `off`: defined on the value, without paths or depths. */
  ghost predicate Represents(file: File, off: nat, v: Value)
    decreases v
  {
    && off in file
    && match file[off]
       case Leaf(w) => v == w
       case Refs(kind, offsets) =>
         && v == Assemble(kind, Members(v))
         && |Members(v)| == |offsets|
         && (forall i :: 0 <= i < |offsets| ==> Represents(file, offsets[i], Members(v)[i]))
         && (forall i :: 0 <= i < KeyCount(kind, offsets) ==> Primitive(Members(v)[i]))
  }

  /** An offset unfolds to at most one value. */
  lemma {:induction false} RepresentsUnique(file: File, off: nat, v: Value, w: Value)
    requires Represents(file, off, v) && Represents(file, off, w)
    ensures v == w
    decreases v
  {
    var shape := file[off];
    if shape.Refs? {
      forall i | 0 <= i < |shape.offsets| ensures Members(v)[i] == Members(w)[i] {
        RepresentsUnique(file, shape.offsets[i], Members(v)[i], Members(w)[i]);
      }
      assert Members(v) == Members(w);
    }
  }

  // ----- the reference graph -----

  ghost predicate Edge(file: File, a: nat, b: nat)
  {
    a in file && file[a].Refs? && b in file[a].offsets
  }

  ghost predicate Walk(file: File, w: seq<nat>)
  {
    |w| >= 1 && forall i :: 0 <= i < |w| - 1 ==> Edge(file, w[i], w[i + 1])
  }

  ghost predicate Reaches(file: File, a: nat, b: nat)
  {
    exists w :: Walk(file, w) && w[0] == a && w[|w| - 1] == b
  }

  lemma ReachesSelf(file: File, a: nat)
    ensures Reaches(file, a, a)
  {
    assert Walk(file, [a]);
  }

  lemma ReachesStep(file: File, a: nat, b: nat, c: nat)
    requires Edge(file, a, b) && Reaches(file, b, c)
    ensures Reaches(file, a, c)
  {
    var w :| Walk(file, w) && w[0] == b && w[|w| - 1] == c;
    WalkCons(file, a, w);
  }

  lemma WalkCons(file: File, a: nat, w: seq<nat>)
    requires Walk(file, w) && Edge(file, a, w[0])
    ensures Walk(file, [a] + w)
  {
    var x := [a] + w;
    forall i | 0 <= i < |x| - 1 ensures Edge(file, x[i], x[i + 1]) {
      assert x[i + 1] == w[i];
      if i > 0 {
        assert x[i] == w[i - 1] && Edge(file, w[i - 1], w[i - 1 + 1]);
      }
    }
  }

  lemma WalkTail(file: File, w: seq<nat>)
    requires Walk(file, w) && |w| > 1
    ensures Edge(file, w[0], w[1]) && Walk(file, w[1..])
  {
    var x := w[1..];
    assert Edge(file, w[0], w[0 + 1]);
    forall i | 0 <= i < |x| - 1 ensures Edge(file, x[i], x[i + 1]) {
      assert Edge(file, w[i + 1], w[i + 1 + 1]);
    }
  }

  /** A reference cycle through an offset reachable from `a`. */
  ghost predicate Cyclic(file: File, a: nat)
  {
    exists x, y :: Reaches(file, a, x) && Edge(file, x, y) && Reaches(file, y, x)
  }

  /** Following references from a represented offset leads to parts of its value. */
  lemma {:induction false} WalkDescends(file: File, w: seq<nat>, v: Value) returns (u: Value)
    requires Walk(file, w) && Represents(file, w[0], v)
    ensures Represents(file, w[|w| - 1], u)
    ensures if |w| == 1 then u == v else u < v
    decreases |w|
  {
    if |w| == 1 {
      u := v;
    } else {
      WalkTail(file, w);
      var offsets := file[w[0]].offsets;
      var i :| 0 <= i < |offsets| && offsets[i] == w[1];
      u := WalkDescends(file, w[1..], Members(v)[i]);
    }
  }

  lemma RepresentedReach(file: File, a: nat, b: nat, v: Value) returns (u: Value)
    requires Represents(file, a, v) && Reaches(file, a, b)
    ensures Represents(file, b, u)
  {
    var w :| Walk(file, w) && w[0] == a && w[|w| - 1] == b;
    u := WalkDescends(file, w, v);
  }

  lemma NoLoop(file: File, a: nat, b: nat, v: Value)
    requires Represents(file, a, v) && Edge(file, a, b)
    ensures !Reaches(file, b, a)
  {
    if Reaches(file, b, a) {
      var w :| Walk(file, w) && w[0] == b && w[|w| - 1] == a;
      var x := [a] + w;
      WalkCons(file, a, w);
      var u := WalkDescends(file, x, v);
      RepresentsUnique(file, a, u, v);
    }
  }

  /** Only acyclic parts of the reference graph have a value. */
  lemma RepresentedAcyclic(file: File, a: nat, v: Value)
    requires Represents(file, a, v)
    ensures !Cyclic(file, a)
  {
    forall x, y | Reaches(file, a, x) && Edge(file, x, y) ensures !Reaches(file, y, x) {
      var u := RepresentedReach(file, a, x, v);
      NoLoop(file, x, y, u);
    }
  }

  // ----- the decode characterised -----

  /** No offset on the path set can be reached from `off`. */
  ghost predicate Avoids(file: File, off: nat, path: Path)
  {
    forall x :: OnPath(path, x) ==> !Reaches(file, off, x)
  }

  /** A decoded container is made of its decoded references. */
  lemma DecodeUnfolds(file: File, off: nat, path: Path, depth: nat, kind: Kind, offsets: seq<nat>)
    requires off in file && file[off] == Refs(kind, offsets)
    requires Decode(file, off, path, depth).Some?
    ensures var v := Decode(file, off, path, depth).value;
            && v == Assemble(kind, Members(v)) && |Members(v)| == |offsets|
            && (forall i :: 0 <= i < |offsets| ==>
                  Decode(file, offsets[i], Extend(path, depth, off), depth + 1) == Some(Members(v)[i]))
            && (forall i :: 0 <= i < KeyCount(kind, offsets) ==> Primitive(Members(v)[i]))
  {
    var v := Decode(file, off, path, depth).value;
    var path' := Extend(path, depth, off);
    var vs := DecodeAll(file, offsets, KeyCount(kind, offsets), path', depth + 1).value;
    DecodeAllPointwise(file, offsets, KeyCount(kind, offsets), path', depth + 1, vs);
    assert Members(v) == vs;
  }

  lemma {:induction false} DecodeSound(file: File, off: nat, path: Path, depth: nat)
    requires Decode(file, off, path, depth).Some?
    ensures Represents(file, off, Decode(file, off, path, depth).value)
    ensures Avoids(file, off, path)
    decreases Fuel(file, path, depth)
  {
    var v := Decode(file, off, path, depth).value;
    var shape := file[off];
    if shape.Refs? {
      var Refs(kind, offsets) := shape;
      var path' := Extend(path, depth, off);
      FuelDecreases(file, path, depth, off);
      DecodeUnfolds(file, off, path, depth, kind, offsets);
      forall i | 0 <= i < |offsets|
        ensures Represents(file, offsets[i], Members(v)[i]) && Avoids(file, offsets[i], path')
      {
        DecodeSound(file, offsets[i], path', depth + 1);
      }
      AvoidsFromChildren(file, off, path, path');
    } else {
      AvoidsFromChildren(file, off, path, path);
    }
  }

  lemma AvoidsFromChildren(file: File, off: nat, path: Path, path': Path)
    requires !OnPath(path, off)
    requires forall x :: OnPath(path, x) ==> OnPath(path', x) 
    requires forall c :: Edge(file, off, c) ==> Avoids(file, c, path')
    ensures Avoids(file, off, path)
  {
    forall x | OnPath(path, x) ensures !Reaches(file, off, x) {
      ReachSplit(file, off, x);
    }
  }

  /** Whatever is reached is the start, or is reached from one of its references. */
  lemma ReachSplit(file: File, a: nat, b: nat)
    ensures Reaches(file, a, b) ==> a == b || exists c :: Edge(file, a, c) && Reaches(file, c, b)
  {
    if Reaches(file, a, b) && a != b {
      var w :| Walk(file, w) && w[0] == a && w[|w| - 1] == b;
      WalkTail(file, w);
      assert Reaches(file, w[1], b);
    }
  }

  lemma {:induction false} DecodeComplete(file: File, off: nat, path: Path, depth: nat, v: Value)
    requires Represents(file, off, v) && Avoids(file, off, path)
    ensures Decode(file, off, path, depth) == Some(v)
    decreases v
  {
    ReachesSelf(file, off);
    var shape := file[off];
    if shape.Refs? {
      var Refs(kind, offsets) := shape;
      var path' := Extend(path, depth, off);
      forall i | 0 <= i < |offsets|
        ensures Decode(file, offsets[i], path', depth + 1) == Some(Members(v)[i])
      {
        assert Edge(file, off, offsets[i]);
        NoLoop(file, off, offsets[i], v);
        forall x | OnPath(path', x) ensures !Reaches(file, offsets[i], x) {
          if Reaches(file, offsets[i], x) {
            ReachesStep(file, off, offsets[i], x);
          }
        }
        DecodeComplete(file, offsets[i], path', depth + 1, Members(v)[i]);
      }
      DecodeAllPointwise(file, offsets, KeyCount(kind, offsets), path', depth + 1, Members(v));
    }
  }

  /** Decoding yields `v` exactly when `off` unfolds to `v` and cannot reach the path set; depth plays no part. */
  lemma DecodeMeaning(file: File, off: nat, path: Path, depth: nat, v: Value)
    ensures Decode(file, off, path, depth) == Some(v) <==> Represents(file, off, v) && Avoids(file, off, path)
  {
    if Decode(file, off, path, depth) == Some(v) {
      DecodeSound(file, off, path, depth);
    }
    if Represents(file, off, v) && Avoids(file, off, path) {
      DecodeComplete(file, off, path, depth, v);
    }
  }

  /** An offset that no decode accepts: not a well-formed object, or a dictionary with a container as key. */
  ghost predicate Malformed(file: File, off: nat)
  {
    || off !in file
    || (file[off].Refs? && exists i ::
          && 0 <= i < KeyCount(file[off].kind, file[off].offsets)
          && IsContainer(file, file[off].offsets[i]))
  }

  ghost predicate IsContainer(file: File, off: nat)
  {
    off in file && file[off].Refs?
  }

  lemma RepresentedWellFormed(file: File, off: nat, v: Value)
    requires Represents(file, off, v)
    ensures !Malformed(file, off)
    ensures IsContainer(file, off) <==> !Primitive(v)
  {
    var shape := file[off];
    if shape.Refs? {
      forall i | 0 <= i < KeyCount(shape.kind, shape.offsets) ensures !IsContainer(file, shape.offsets[i]) {
        assert Represents(file, shape.offsets[i], Members(v)[i]) && Primitive(Members(v)[i]);
      }
    }
  }

  /** Nothing malformed and no cycle can be reached from `off`, and nothing on the path set. */
  ghost predicate Sane(file: File, off: nat, path: Path)
  {
    && (forall x :: Reaches(file, off, x) ==> !Malformed(file, x))
    && !Cyclic(file, off)
    && Avoids(file, off, path)
  }

  lemma SaneChild(file: File, off: nat, path: Path, depth: nat, c: nat)
    requires Sane(file, off, path) && Edge(file, off, c)
    ensures Sane(file, c, Extend(path, depth, off))
  {
    ReachesSelf(file, off);
    forall x | Reaches(file, c, x) ensures Reaches(file, off, x) && x != off {
      ReachesStep(file, off, c, x);
    }
  }

  lemma {:induction false} SaneDecodes(file: File, off: nat, path: Path, depth: nat)
    requires Sane(file, off, path)
    ensures Decode(file, off, path, depth).Some?
    decreases Fuel(file, path, depth)
  {
    ReachesSelf(file, off);
    assert !Malformed(file, off);
    var shape := file[off];
    if shape.Refs? {
      var Refs(kind, offsets) := shape;
      var path' := Extend(path, depth, off);
      FuelDecreases(file, path, depth, off);
      forall i | 0 <= i < |offsets| ensures Decode(file, offsets[i], path', depth + 1).Some? {
        SaneChild(file, off, path, depth, offsets[i]);
        SaneDecodes(file, offsets[i], path', depth + 1);
      }
      var vs := seq(|offsets|, i requires 0 <= i < |offsets| => Decode(file, offsets[i], path', depth + 1).value);
      forall i | 0 <= i < KeyCount(kind, offsets) ensures Primitive(vs[i]) {
        DecodeSound(file, offsets[i], path', depth + 1);
        RepresentedWellFormed(file, offsets[i], vs[i]);
      }
      DecodeAllPointwise(file, offsets, KeyCount(kind, offsets), path', depth + 1, vs);
    }
  }

  /**
   The reader accepts an offset exactly when everything it reaches is well formed,
   no reference cycle can be reached, and the path set cannot be reached.
   */
  lemma DecodeAccepts(file: File, off: nat, path: Path, depth: nat)
    ensures Decode(file, off, path, depth).Some? <==> Sane(file, off, path)
  {
    if Decode(file, off, path, depth).Some? {
      var v := Decode(file, off, path, depth).value;
      DecodeSound(file, off, path, depth);
      RepresentedAcyclic(file, off, v);
      forall x | Reaches(file, off, x) ensures !Malformed(file, x) {
        var u := RepresentedReach(file, off, x, v);
        RepresentedWellFormed(file, x, u);
      }
    }
    if Sane(file, off, path) {
      SaneDecodes(file, off, path, depth);
    }
  }

  // ----- depth of the recursion -----

  /** One activation of the recursive decode. */
  datatype Frame = Frame(off: nat, path: Path, depth: nat)

  /** `g` is a call that activation `f` may make. */
  ghost predicate Calls(file: File, f: Frame, g: Frame)
  {
    && !OnPath(f.path, f.off)
    && Edge(file, f.off, g.off)
    && g.path == Extend(f.path, f.depth, f.off)
    && g.depth == f.depth + 1
  }

  ghost predicate CallStack(file: File, stack: seq<Frame>)
  {
    forall i :: 0 <= i < |stack| - 1 ==> Calls(file, stack[i], stack[i + 1])
  }

  /** Every reference in the file that leads to an object leads into `targets`. */
  ghost predicate TargetsIn(file: File, targets: set<nat>) {
    forall a, b :: Edge(file, a, b) && b in file ==> b in targets
  }

  /** What a call stack that starts at the top of a file looks like at its k-th activation. */
  lemma {:induction false} StackShape(file: File, targets: set<nat>, stack: seq<Frame>, k: nat)
    requires TargetsIn(file, targets) && CallStack(file, stack) && k < |stack|
    requires stack[0].path == None && stack[0].depth == 0
    ensures stack[k].depth == k
    ensures k <= 16 ==> stack[k].path == None
    ensures k > 16 ==> stack[k].path.Some? && |stack[k].path.value| == k - 16
    ensures k > 16 ==> stack[k].path.value <= targets
  {
    if k > 0 {
      StackShape(file, targets, stack, k - 1);
      var f := stack[k - 1];
      assert Calls(file, f, stack[k - 1 + 1]);
      if k > 16 {
        assert Calls(file, stack[k - 2], stack[k - 2 + 1]);
      }
    }
  }

  /** Recursion from the top of a file is at most 17 activations plus one for each distinct target deep. */
  lemma DepthBound(file: File, targets: set<nat>, stack: seq<Frame>)
    requires TargetsIn(file, targets) && CallStack(file, stack) && |stack| >= 1
    requires stack[0].path == None && stack[0].depth == 0
    ensures |stack| <= 17 + |targets|
  {
    var k := |stack| - 1;
    StackShape(file, targets, stack, k);
    if k > 16 {
      SubsetSize(stack[k].path.value, targets);
    }
  }

  lemma {:induction false} SubsetSize(a: set<nat>, b: set<nat>)
    requires a <= b
    ensures |a| <= |b|
  {
    if a != {} {
      var x :| x in a;
      SubsetSize(a - {x}, b - {x});
    }
  }

  // ----- depth of the recursion over the bytes of a file -----

  /** The distinct offsets that the offset table of a file lists. */
  ghost function TableOffsets(img: Image, t: Trailer): set<nat>
    requires Trusted(img, t)
  {
    set k | 0 <= k < t.numObjects :: TableEntry(img, t, k)
  }

  lemma RefTarget(img: Image, t: Trailer, pos: nat)
    requires Trusted(img, t)
    ensures var off := OffsetOfRefAt(img, t, pos); off in TableOffsets(img, t) || off == UINT64_MAX
  {
  }

  lemma ParsedTargets(img: Image, t: Trailer, off: nat, groups: nat, x: nat)
    requires Trusted(img, t) && off < t.offsetTableOffset && 1 <= groups <= 2
    requires var r := ParseRefs(img, t, off, groups); r.Some? && x in r.value
    ensures x in TableOffsets(img, t) || x == UINT64_MAX
  {
    hide Trusted, TableOffsets, OffsetOfRefAt, ReadCount, Extent;
    var c := ReadCount(img, t, off);
    var r := ParseRefs(img, t, off, groups).value;
    var i :| 0 <= i < |r| && r[i] == x;
    RefTarget(img, t, Slot(c.value.1, i, t.objectRefSize));
  }

  lemma ContainerRefs(img: Image, t: Trailer, off: nat)
    requires Trusted(img, t)
    ensures ParseAt(img, t, off).Some? ==> off < t.offsetTableOffset
    ensures var r := ParseAt(img, t, off);
      r.Some? && r.value.Refs? ==> ParseRefs(img, t, off, if r.value.kind.KDict? then 2 else 1) == Some(r.value.offsets)
  {
    hide Trusted, ParseRefs, ParseBytes, Extent, Field, Units;
  }

  /** Every reference of a file that leads to an object leads to an offset of the table. */
  lemma FileTargets(img: Image, t: Trailer)
    requires Trusted(img, t)
    ensures TargetsIn(ObjectsOf(img, t), TableOffsets(img, t))
  {
    hide Trusted, ParseAt, ParseRefs, TableOffsets;
    var file := ObjectsOf(img, t);
    forall a, b | Edge(file, a, b) && b in file ensures b in TableOffsets(img, t) {
      ContainerRefs(img, t, a);
      ParsedTargets(img, t, a, if file[a].kind.KDict? then 2 else 1, b);
      InTable(img, t, b);
    }
  }

  lemma InTable(img: Image, t: Trailer, off: nat)
    requires Trusted(img, t) && ParseAt(img, t, off).Some?
    ensures off != UINT64_MAX
  {
    hide ParseAt;
  }

  /** On any bytes whose trailer passes the check, recursion from the top is at most 17 deep plus the number of distinct table offsets. */
  lemma FileDepthBound(img: Image, t: Trailer, stack: seq<Frame>)
    requires Trusted(img, t) && CallStack(ObjectsOf(img, t), stack) && |stack| >= 1
    requires stack[0].path == None && stack[0].depth == 0
    ensures |stack| <= 17 + |TableOffsets(img, t)|
  {
    hide Trusted, ObjectsOf, TableOffsets, CallStack, TargetsIn;
    FileTargets(img, t);
    DepthBound(ObjectsOf(img, t), TableOffsets(img, t), stack);
  }
}
