/** Property lists: the in-memory object graph that is written, and the value that is read. */
module Plist {
  import opened Bytes

  datatype Option<+T> = None | Some(value: T)

  type uint32 = x: int | 0 <= x < 0x1_0000_0000
  type uint64 = x: int | 0 <= x < 0x1_0000_0000_0000_0000
  type int64 = x: int | -0x8000_0000_0000_0000 <= x < 0x8000_0000_0000_0000

  /**
   A property list as a value. Reals and dates are their IEEE bit patterns. A
   dictionary or set is the list of members handed to its constructor.
   */
  datatype Value =
    | VNull
    | VBool(b: bool)
    | VInt(i: int64)
    | VInt128(high: int64, low: uint64)
    | VReal32(bits32: uint32)
    | VReal64(bits64: uint64)
    | VDate(time: uint64)
    | VData(bytes: seq<byte>)
    | VString(units: seq<unichar>)
    | VUid(uid: uint32)
    | VArray(elems: seq<Value>)
    | VSet(members: seq<Value>)
    | VDict(keys: seq<Value>, vals: seq<Value>)

  /** _plistIsPrimitive: not a container. */
  predicate Primitive(v: Value) {
    !v.VArray? && !v.VSet? && !v.VDict?
  }

  /** A collection whose element count is a CFIndex. */
  type Counted<T> = s: seq<T> | |s| <= 0x7FFF_FFFF_FFFF_FFFF witness []

  /** A collection of pointers, or of pairs of them: it has to fit in memory. */
  type Pointers<T> = s: seq<T> | |s| <= 0x0FFF_FFFF_FFFF_FFFF witness []

  /**
   An in-memory object. `id` is its address: two objects are the same object
   exactly when they are equal here, and a shared object occurs several times
   with one id. Any acyclic object graph unfolds to such a tree.
   */
  datatype Obj = Obj(id: nat, node: Node)

  /** `Foreign` is any object of a type that is not a property list type. */
  datatype Node =
    | Bool(b: bool)
    | Int(i: int64)
    | Int128(high: int64, low: uint64)
    | Real32(bits32: uint32)
    | Real64(bits64: uint64)
    | Date(time: uint64)
    | Data(bytes: Counted<byte>)
    | Str(units: Counted<unichar>)
    | Uid(uid: uint32)
    | Arr(elems: Pointers<Obj>)
    | Dict(entries: Pointers<(Obj, Obj)>)
    | Foreign
}
