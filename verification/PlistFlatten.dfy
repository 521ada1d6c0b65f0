/**
 Flattening an object graph into the numbered object list of a file:
 _flattenPlist as a function of its three collections, and what it leaves behind.
 */
module PlistFlatten {
  import opened Machine
  import opened Plist

  /** The objects a container refers to, keys before values: the order of CFDictionaryGetKeysAndValues. */
  function Children(o: Obj): (cs: seq<Obj>)
    ensures forall i :: 0 <= i < |cs| ==> cs[i] < o
  {
    match o.node
    case Arr(elems) => elems
    case Dict(entries) =>
      var n := |entries|;
      seq(2 * n, i requires 0 <= i < 2 * n => if i < n then entries[i].0 else entries[i - n].1)
    case _ => []
  }

  /** Strings, numbers, dates and data are listed at most once. */
  predicate Uniqued(o: Obj) {
    o.node.Str? || o.node.Int? || o.node.Int128? || o.node.Real32? || o.node.Real64? || o.node.Date? || o.node.Data?
  }

  /** The object list, the object table and the uniquing set. */
  datatype Flat = Flat(list: seq<Obj>, table: map<Obj, nat>, uniquing: set<Obj>)

  /** CFDictionaryAddValue: keeps the value of a key that is already there. */
  function AddValue(table: map<Obj, nat>, o: Obj, n: nat): (r: map<Obj, nat>)
    ensures r.Keys == table.Keys + {o}
    ensures forall x :: x in table ==> r[x] == table[x]
    ensures o !in table ==> r[o] == n
  {
    if o in table then table else table[o := n]
  }

  /** Appending one object: its number is the list length, cut to 32 bits. */
  function Append(o: Obj, f: Flat): Flat {
    Flat(f.list + [o], AddValue(f.table, o, |f.list| % TWO32), if Uniqued(o) then f.uniquing + {o} else f.uniquing)
  }

  function Flattened(o: Obj, f: Flat): (r: Flat)
    ensures |f.list| <= |r.list| && r.list[..|f.list|] == f.list
    ensures f.table.Keys <= r.table.Keys
    decreases o, 0
  {
    if Uniqued(o) && o in f.uniquing then f
    else FlattenChildren(o, 0, Append(o, f))
  }

  function FlattenChildren(o: Obj, i: nat, f: Flat): (r: Flat)
    requires i <= |Children(o)|
    ensures |f.list| <= |r.list| && r.list[..|f.list|] == f.list
    ensures f.table.Keys <= r.table.Keys
    decreases o, 0, |Children(o)| - i
  {
    if i == |Children(o)| then f
    else FlattenChildren(o, i + 1, Flattened(Children(o)[i], f))
  }

  /** The table numbers exactly the listed objects, and uniqued objects are listed once. */
  ghost predicate Numbered(f: Flat) {
    && (forall o :: o in f.table ==> f.table[o] < |f.list| && f.list[f.table[o]] == o)
    && (forall i :: 0 <= i < |f.list| ==> f.list[i] in f.table)
    && (forall o :: o in f.uniquing <==> Uniqued(o) && o in f.table)
    && (forall i, j :: 0 <= i < j < |f.list| && f.list[i] == f.list[j] ==> !Uniqued(f.list[i]))
  }

  /** The references of every object listed from position `start` on have numbers. */
  ghost predicate ClosedFrom(f: Flat, start: nat) {
    forall i, c :: start <= i < |f.list| && c in Children(f.list[i]) ==> c in f.table
  }

  /** `x` is `o` or something `o` refers to, directly or not. */
  ghost predicate PartOf(x: Obj, o: Obj)
    decreases o
  {
    x == o || exists i :: 0 <= i < |Children(o)| && PartOf(x, Children(o)[i])
  }

  ghost predicate ListsPartsFrom(f: Flat, start: nat, o: Obj) {
    forall i :: start <= i < |f.list| ==> PartOf(f.list[i], o)
  }

  ghost predicate Extends(f: Flat, r: Flat) {
    && |f.list| <= |r.list| && r.list[..|f.list|] == f.list
    && forall x :: x in f.table ==> x in r.table && r.table[x] == f.table[x]
  }

  lemma AppendKeeps(o: Obj, f: Flat)
    requires Numbered(f) && |f.list| < TWO32 && !(Uniqued(o) && o in f.uniquing)
    ensures Numbered(Append(o, f)) && Extends(f, Append(o, f)) && o in Append(o, f).table
  {
    var r := Append(o, f);
    assert r.list[..|f.list|] == f.list;
    assert forall i :: 0 <= i < |f.list| ==> r.list[i] == f.list[i] && f.list[i] in f.table;
    assert r.list[|f.list|] == o;
    assert |f.list| % TWO32 == |f.list|;
    forall x | x in r.table ensures r.table[x] < |r.list| && r.list[r.table[x]] == x {
      if x in f.table {
        assert r.table[x] == f.table[x];
      }
    }
  }

  lemma ExtendsTrans(f: Flat, g: Flat, h: Flat)
    requires Extends(f, g) && Extends(g, h)
    ensures Extends(f, h)
  {
    assert h.list[..|f.list|] == h.list[..|g.list|][..|f.list|];
  }

  lemma ClosedJoin(f: Flat, g: Flat, r: Flat)
    requires |f.list| <= |g.list| && ClosedFrom(g, |f.list|) && Extends(g, r) && ClosedFrom(r, |g.list|)
    ensures ClosedFrom(r, |f.list|)
  {
    forall j, x | |f.list| <= j < |r.list| && x in Children(r.list[j]) ensures x in r.table {
      if j < |g.list| {
        assert r.list[j] == r.list[..|g.list|][j] == g.list[j];
      }
    }
  }

  lemma PartsJoin(f: Flat, g: Flat, r: Flat, o: Obj, i: nat)
    requires |f.list| <= |g.list| && i < |Children(o)| && ListsPartsFrom(g, |f.list|, Children(o)[i])
    requires Extends(g, r) && ListsPartsFrom(r, |g.list|, o)
    ensures ListsPartsFrom(r, |f.list|, o)
  {
    forall j | |f.list| <= j < |r.list| ensures PartOf(r.list[j], o) {
      if j < |g.list| {
        assert r.list[j] == r.list[..|g.list|][j] == g.list[j];
        assert PartOf(g.list[j], Children(o)[i]);
      }
    }
  }

  /** The object appended first is a part of itself, and its references are numbered by the end. */
  lemma SelfJoin(o: Obj, f: Flat, r: Flat)
    requires Extends(Append(o, f), r)
    requires ClosedFrom(r, |f.list| + 1) && ListsPartsFrom(r, |f.list| + 1, o)
    requires forall j :: 0 <= j < |Children(o)| ==> Children(o)[j] in r.table
    ensures ClosedFrom(r, |f.list|) && ListsPartsFrom(r, |f.list|, o)
  {
    var g := Append(o, f);
    assert r.list[|f.list|] == r.list[..|g.list|][|f.list|] == g.list[|f.list|] == o;
  }

  /** Flattening an object numbers it and everything it lists, and nothing that is not part of it. */
  lemma {:induction false} FlattenKeeps(o: Obj, f: Flat)
    requires Numbered(f) && |Flattened(o, f).list| <= TWO32
    ensures var r := Flattened(o, f);
            Numbered(r) && Extends(f, r) && o in r.table && ClosedFrom(r, |f.list|) && ListsPartsFrom(r, |f.list|, o)
    decreases o, 0
  {
    if Uniqued(o) && o in f.uniquing {
      assert f.list[..|f.list|] == f.list;
    } else {
      hide Numbered, ClosedFrom, ListsPartsFrom, Extends;
      var g := Append(o, f);
      var r := Flattened(o, f);
      AppendKeeps(o, f);
      FlattenChildrenKeeps(o, 0, g);
      ExtendsTrans(f, g, r);
      SelfJoin(o, f, r);
      ExtendsHas(g, r, o);
    }
  }

  lemma ExtendsHas(f: Flat, r: Flat, o: Obj)
    requires Extends(f, r) && o in f.table
    ensures o in r.table && r.table[o] == f.table[o]
  {
  }

  lemma {:induction false} FlattenChildrenKeeps(o: Obj, i: nat, f: Flat)
    requires i <= |Children(o)| && Numbered(f) && |FlattenChildren(o, i, f).list| <= TWO32
    ensures var r := FlattenChildren(o, i, f);
            && Numbered(r) && Extends(f, r) && ClosedFrom(r, |f.list|) && ListsPartsFrom(r, |f.list|, o)
            && forall j :: i <= j < |Children(o)| ==> Children(o)[j] in r.table
    decreases o, 0, |Children(o)| - i
  {
    if i == |Children(o)| {
      assert f.list[..|f.list|] == f.list;
    } else {
      hide Numbered, ClosedFrom, ListsPartsFrom, Extends;
      var c := Children(o)[i];
      var g := Flattened(c, f);
      var r := FlattenChildren(o, i + 1, g);
      FlattenKeeps(c, f);
      FlattenChildrenKeeps(o, i + 1, g);
      ExtendsTrans(f, g, r);
      ClosedJoin(f, g, r);
      PartsJoin(f, g, r, o, i);
      forall j | i <= j < |Children(o)| ensures Children(o)[j] in r.table {
        if j == i {
          ExtendsHas(g, r, c);
        }
      }
    }
  }

  /** Numbers are closed under parts once every listed object has its references numbered. */
  lemma {:induction false} PartsNumbered(x: Obj, o: Obj, f: Flat)
    requires Numbered(f) && ClosedFrom(f, 0) && o in f.table && PartOf(x, o)
    ensures x in f.table
    decreases o
  {
    if x != o {
      var i :| 0 <= i < |Children(o)| && PartOf(x, Children(o)[i]);
      assert Children(f.list[f.table[o]])[i] in f.table;
      PartsNumbered(x, Children(o)[i], f);
    }
  }

  const EMPTY: Flat := Flat([], map[], {})

  /**
   Flattening a property list of at most 2^32 listed objects: exactly its parts
   are numbered, each number leads back to its object, all references are numbered and
   the root is number 0. Only booleans, UIDs and containers can be listed more than
   once: strings, numbers, dates and data are listed exactly once.
   */
  lemma FlattenRoot(root: Obj)
    requires |Flattened(root, EMPTY).list| <= TWO32
    ensures var f := Flattened(root, EMPTY);
            && Numbered(f) && ClosedFrom(f, 0)
            && (forall x :: x in f.table <==> PartOf(x, root))
            && |f.list| >= 1 && f.list[0] == root && root in f.table && f.table[root] == 0
    ensures var list := Flattened(root, EMPTY).list;
            forall i, j :: 0 <= i < j < |list| && list[i] == list[j] ==>
              list[i].node.Bool? || list[i].node.Uid? || list[i].node.Arr? || list[i].node.Dict? || list[i].node.Foreign?
  {
    var f := Flattened(root, EMPTY);
    FlattenKeeps(root, EMPTY);
    FlattenChildrenFirst(root);
    forall x ensures x in f.table <==> PartOf(x, root) {
      if PartOf(x, root) {
        PartsNumbered(x, root, f);
      }
      if x in f.table {
        assert PartOf(f.list[f.table[x]], root);
      }
    }
  }

  lemma FlattenChildrenFirst(root: Obj)
    requires |Flattened(root, EMPTY).list| <= TWO32
    ensures var f := Flattened(root, EMPTY); |f.list| >= 1 && f.list[0] == root && root in f.table && f.table[root] == 0
  {
    var g := Append(root, EMPTY);
    var f := Flattened(root, EMPTY);
    assert f == FlattenChildren(root, 0, g);
    AppendKeeps(root, EMPTY);
    FlattenChildrenKeeps(root, 0, g);
    assert f.list[0] == f.list[..1][0];
  }

  // ----- how often an object is listed -----

  /** How often `x` occurs in the tree that unfolds from `o`. */
  function Occurrences(x: Obj, o: Obj): nat
    decreases o, 0
  {
    (if x == o then 1 else 0) + OccurrencesFrom(x, o, 0)
  }

  function OccurrencesFrom(x: Obj, o: Obj, i: nat): nat
    requires i <= |Children(o)|
    decreases o, 0, |Children(o)| - i
  {
    if i == |Children(o)| then 0 else Occurrences(x, Children(o)[i]) + OccurrencesFrom(x, o, i + 1)
  }

  /** Booleans, UIDs and containers are listed every time they occur, shared or not. */
  lemma ListedOften(x: Obj, root: Obj)
    requires x.node.Bool? || x.node.Uid? || x.node.Arr? || x.node.Dict? || x.node.Foreign?
    ensures multiset(Flattened(root, EMPTY).list)[x] == Occurrences(x, root)
  {
    FlattenCounts(x, root, EMPTY);
  }

  lemma {:induction false} FlattenCounts(x: Obj, o: Obj, f: Flat)
    requires !Uniqued(x)
    ensures multiset(Flattened(o, f).list)[x] == multiset(f.list)[x] + Occurrences(x, o)
    decreases o, 0
  {
    if Uniqued(o) {
      assert Children(o) == [];
    }
    if !(Uniqued(o) && o in f.uniquing) {
      FlattenChildrenCounts(x, o, 0, Append(o, f));
    }
  }

  lemma {:induction false} FlattenChildrenCounts(x: Obj, o: Obj, i: nat, f: Flat)
    requires i <= |Children(o)| && !Uniqued(x)
    ensures multiset(FlattenChildren(o, i, f).list)[x] == multiset(f.list)[x] + OccurrencesFrom(x, o, i)
    decreases o, 0, |Children(o)| - i
  {
    if i < |Children(o)| {
      FlattenCounts(x, Children(o)[i], f);
      FlattenChildrenCounts(x, o, i + 1, Flattened(Children(o)[i], f));
    }
  }

  // ----- as it runs -----

  class Flattener {
    var list: seq<Obj>
    var table: map<Obj, nat>
    var uniquing: set<Obj>

    ghost function State(): Flat
      reads this
    {
      Flat(list, table, uniquing)
    }

    constructor ()
      ensures State() == EMPTY
    {
      list, table, uniquing := [], map[], {};
    }

    /** _flattenPlist: adds the object to the three collections, then its references in order. */
    method Flatten(o: Obj)
      modifies this
      ensures State() == Flattened(o, old(State()))
      decreases o, 0
    {
      if Uniqued(o) {
        var before := |uniquing|;
        SameSize(uniquing, o);
        uniquing := uniquing + {o};
        if |uniquing| == before {
          return;
        }
      }
      var refnum := |list| % TWO32;
      list := list + [o];
      table := AddValue(table, o, refnum);
      ghost var appended := State();
      var idx := 0;
      while idx < |Children(o)|
        invariant idx <= |Children(o)|
        invariant FlattenChildren(o, idx, State()) == FlattenChildren(o, 0, appended)
      {
        Flatten(Children(o)[idx]);
        idx := idx + 1;
      }
    }
  }

  lemma SameSize(s: set<Obj>, o: Obj)
    ensures |s + {o}| == |s| <==> o in s
    ensures o in s ==> s + {o} == s
  {
    if o in s {
      assert s + {o} == s;
    }
  }
}
