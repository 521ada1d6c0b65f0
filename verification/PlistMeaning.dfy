/**
 What an object graph means, by its nodes alone: the value it has, and the value
 that can be read again after it was written. Nothing here names the order in which
 objects are listed or the bytes they are written as.
 */
module PlistMeaning {
  import opened Plist

  predicate IsLeaf(o: Obj) {
    !o.node.Arr? && !o.node.Dict?
  }

  /** The value of an object graph: entry i of a dictionary pairs key i with value i. */
  function ValueOf(o: Obj): (v: Value)
    ensures Primitive(v) <==> IsLeaf(o)
    decreases o
  {
    match o.node
    case Bool(b) => VBool(b)
    case Int(i) => VInt(i)
    case Int128(high, low) => VInt128(high, low)
    case Real32(bits) => VReal32(bits)
    case Real64(bits) => VReal64(bits)
    case Date(time) => VDate(time)
    case Data(bytes) => VData(bytes)
    case Str(units) => VString(units)
    case Uid(uid) => VUid(uid)
    case Arr(elems) => VArray(seq(|elems|, i requires 0 <= i < |elems| => ValueOf(elems[i])))
    case Dict(entries) =>
      VDict(seq(|entries|, i requires 0 <= i < |entries| => ValueOf(entries[i].0)),
            seq(|entries|, i requires 0 <= i < |entries| => ValueOf(entries[i].1)))
    case Foreign => VNull
  }

  /** The same graph with the high half of every 16-byte integer set to 0. */
  function Lowered(o: Obj): (r: Obj)
    ensures IsLeaf(r) <==> IsLeaf(o)
    decreases o
  {
    match o.node
    case Int128(high, low) => Obj(o.id, Int128(0, low))
    case Arr(elems) => Obj(o.id, Arr(seq(|elems|, i requires 0 <= i < |elems| => Lowered(elems[i]))))
    case Dict(entries) =>
      Obj(o.id, Dict(seq(|entries|, i requires 0 <= i < |entries| => (Lowered(entries[i].0), Lowered(entries[i].1)))))
    case _ => o
  }

  /** No dictionary of the graph has a container as key. */
  ghost predicate LeafKeys(o: Obj)
    decreases o
  {
    match o.node
    case Arr(elems) => forall i :: 0 <= i < |elems| ==> LeafKeys(elems[i])
    case Dict(entries) => forall i :: 0 <= i < |entries| ==> IsLeaf(entries[i].0) && LeafKeys(entries[i].1)
    case _ => true
  }

  /** No 16-byte integer of the graph uses its high half. */
  ghost predicate LowHalves(o: Obj)
    decreases o
  {
    match o.node
    case Int128(high, low) => high == 0
    case Arr(elems) => forall i :: 0 <= i < |elems| ==> LowHalves(elems[i])
    case Dict(entries) => forall i :: 0 <= i < |entries| ==> LowHalves(entries[i].0) && LowHalves(entries[i].1)
    case _ => true
  }

  /** The graphs that can be read back as they were written. */
  ghost predicate Portable(o: Obj) {
    LeafKeys(o) && LowHalves(o)
  }

  /** Setting high halves to 0 leaves the value alone exactly where none is used. */
  lemma {:induction false} LoweredValue(o: Obj)
    ensures ValueOf(Lowered(o)) == ValueOf(o) <==> LowHalves(o)
    decreases o
  {
    match o.node {
      case Arr(elems) =>
        forall i | 0 <= i < |elems| ensures ValueOf(Lowered(o)).elems[i] == ValueOf(o).elems[i] <==> LowHalves(elems[i]) {
          LoweredValue(elems[i]);
        }
      case Dict(entries) =>
        forall i | 0 <= i < |entries|
          ensures ValueOf(Lowered(o)).keys[i] == ValueOf(o).keys[i] <==> LowHalves(entries[i].0)
          ensures ValueOf(Lowered(o)).vals[i] == ValueOf(o).vals[i] <==> LowHalves(entries[i].1)
        {
          LoweredValue(entries[i].0);
          LoweredValue(entries[i].1);
        }
      case _ =>
    }
  }
}
