/** hash.go: the structural signature of a value graph that may be cyclic. */
module Signature {
  import opened Sorting
  import opened Shapes

  const MAX_DEPTH := 32

  /** What identifies a container on the current path: its kind, its type and its data pointer. */
  datatype Visit =
    | MapVisit(typ: int, ptr: int)
    | SliceVisit(typ: int, ptr: int)

  /** A reflected value. Maps and slices are references into a heap, so graphs may share and may be cyclic. */
  datatype Value =
    | Invalid
    | NilInterface
    | Interface(elem: Value)
    | Scalar(n: int)
    | OtherMap
    | NilMap
    | NilSlice
    | Map(node: nat)
    | Slice(node: nat)
    | Array(items: seq<Value>)

  datatype MapNode = MapNode(typ: int, ptr: int, entries: map<string, Value>)

  datatype SliceNode = SliceNode(typ: int, ptr: int, elems: seq<Value>)

  datatype Heap = Heap(maps: nat -> MapNode, slices: nat -> SliceNode) {
    function MapId(n: nat): Visit { MapVisit(maps(n).typ, maps(n).ptr) }
    function SliceId(n: nat): Visit { SliceVisit(slices(n).typ, slices(n).ptr) }
  }

  predicate OnPath(active: set<Visit>, visit: Visit) {
    visit.ptr != 0 && visit in active
  }

  function Enter(active: set<Visit>, visit: Visit): set<Visit> {
    if visit.ptr == 0 then active else active + {visit}
  }

  // ---------------------------------------------------------------- the text, as a function

  ghost function Sig(h: Heap, v: Value, depth: nat, active: set<Visit>): string
    requires depth <= MAX_DEPTH
    decreases MAX_DEPTH - depth, 0, v
  {
    match v
    case Invalid => "n"
    case NilInterface => "n"
    case Interface(elem) => Sig(h, elem, depth, active)
    case Scalar(_) => "v"
    case OtherMap => "v"
    case NilMap => "o{}"
    case NilSlice => "a[]"
    case Map(n) =>
      if depth == MAX_DEPTH then "x"
      else if OnPath(active, h.MapId(n)) then "c"
      else ObjectSig(h, h.maps(n).entries, depth + 1, Enter(active, h.MapId(n)))
    case Slice(n) =>
      if depth == MAX_DEPTH then "x"
      else if OnPath(active, h.SliceId(n)) then "c"
      else ArraySig(h, h.slices(n).elems, depth + 1, Enter(active, h.SliceId(n)))
    case Array(items) =>
      if depth == MAX_DEPTH then "x" else ArraySig(h, items, depth + 1, active)
  }

  ghost function ObjectSig(h: Heap, entries: map<string, Value>, depth: nat, active: set<Visit>): string
    requires depth <= MAX_DEPTH
    decreases MAX_DEPTH - depth, 2
  {
    "o{" + MembersSig(h, entries, Sorted(entries.Keys), depth, active) + "}"
  }

  ghost function MembersSig(h: Heap, entries: map<string, Value>, keys: seq<string>, depth: nat, active: set<Visit>): string
    requires depth <= MAX_DEPTH && forall k | k in keys :: k in entries
    decreases MAX_DEPTH - depth, 1, |keys|
  {
    if keys == [] then ""
    else keys[0] + ":" + Sig(h, entries[keys[0]], depth, active) + ";"
         + MembersSig(h, entries, keys[1..], depth, active)
  }

  ghost function ArraySig(h: Heap, elems: seq<Value>, depth: nat, active: set<Visit>): string
    requires depth <= MAX_DEPTH
    decreases MAX_DEPTH - depth, 2
  {
    "a[" + Items(Sorted(ElementSigs(h, elems, depth, active))) + "]"
  }

  ghost function ElementSigs(h: Heap, elems: seq<Value>, depth: nat, active: set<Visit>): set<string>
    requires depth <= MAX_DEPTH
    decreases MAX_DEPTH - depth, 1
  {
    set e | e in elems :: Sig(h, e, depth, active)
  }

  // ---------------------------------------------------------------- the shape behind the text

  ghost function ShapeOf(h: Heap, v: Value, depth: nat, active: set<Visit>): Shape
    requires depth <= MAX_DEPTH
    decreases MAX_DEPTH - depth, 0, v
  {
    match v
    case Invalid => Null
    case NilInterface => Null
    case Interface(elem) => ShapeOf(h, elem, depth, active)
    case Scalar(_) => Leaf
    case OtherMap => Leaf
    case NilMap => Obj(map[])
    case NilSlice => Arr({})
    case Map(n) =>
      if depth == MAX_DEPTH then Cut
      else if OnPath(active, h.MapId(n)) then Cycle
      else ObjectShape(h, h.maps(n).entries, depth + 1, Enter(active, h.MapId(n)))
    case Slice(n) =>
      if depth == MAX_DEPTH then Cut
      else if OnPath(active, h.SliceId(n)) then Cycle
      else ArrayShape(h, h.slices(n).elems, depth + 1, Enter(active, h.SliceId(n)))
    case Array(items) =>
      if depth == MAX_DEPTH then Cut else ArrayShape(h, items, depth + 1, active)
  }

  ghost function ObjectShape(h: Heap, entries: map<string, Value>, depth: nat, active: set<Visit>): (s: Shape)
    requires depth <= MAX_DEPTH
    decreases MAX_DEPTH - depth, 2
  {
    Obj(map k | k in entries :: ShapeOf(h, entries[k], depth, active))
  }

  ghost function ArrayShape(h: Heap, elems: seq<Value>, depth: nat, active: set<Visit>): (s: Shape)
    requires depth <= MAX_DEPTH
    decreases MAX_DEPTH - depth, 2
  {
    Arr(set e | e in elems :: ShapeOf(h, e, depth, active))
  }

  /** The text depends on the value only through its shape, for every graph, cyclic or not. */
  lemma {:induction false} SigIsRender(h: Heap, v: Value, depth: nat, active: set<Visit>)
    requires depth <= MAX_DEPTH
    ensures Sig(h, v, depth, active) == Render(ShapeOf(h, v, depth, active))
    decreases MAX_DEPTH - depth, 0, v
  {
    match v
    case Interface(elem) => SigIsRender(h, elem, depth, active);
    case NilMap => RenderEmpty();
    case NilSlice => RenderEmpty();
    case Map(n) =>
      if depth < MAX_DEPTH { MapSigIsRender(h, n, depth, active); }
    case Slice(n) =>
      if depth < MAX_DEPTH { SliceSigIsRender(h, n, depth, active); }
    case Array(items) =>
      if depth < MAX_DEPTH { FixedArraySigIsRender(h, items, depth, active); }
    case _ =>
  }

  lemma {:induction false} MapSigIsRender(h: Heap, n: nat, depth: nat, active: set<Visit>)
    requires depth < MAX_DEPTH
    ensures Sig(h, Map(n), depth, active) == Render(ShapeOf(h, Map(n), depth, active))
    decreases MAX_DEPTH - depth - 1, 3
  {
    ObjectSigIsRender(h, h.maps(n).entries, depth + 1, Enter(active, h.MapId(n)));
  }

  lemma {:induction false} SliceSigIsRender(h: Heap, n: nat, depth: nat, active: set<Visit>)
    requires depth < MAX_DEPTH
    ensures Sig(h, Slice(n), depth, active) == Render(ShapeOf(h, Slice(n), depth, active))
    decreases MAX_DEPTH - depth - 1, 3
  {
    ArraySigIsRender(h, h.slices(n).elems, depth + 1, Enter(active, h.SliceId(n)));
  }

  lemma {:induction false} FixedArraySigIsRender(h: Heap, items: seq<Value>, depth: nat, active: set<Visit>)
    requires depth < MAX_DEPTH
    ensures Sig(h, Array(items), depth, active) == Render(ShapeOf(h, Array(items), depth, active))
    decreases MAX_DEPTH - depth - 1, 3
  {
    ArraySigIsRender(h, items, depth + 1, active);
  }

  lemma {:induction false} ObjectSigIsRender(h: Heap, entries: map<string, Value>, depth: nat, active: set<Visit>)
    requires depth <= MAX_DEPTH
    ensures ObjectSig(h, entries, depth, active) == Render(ObjectShape(h, entries, depth, active))
    decreases MAX_DEPTH - depth, 2
  {
    var s := ObjectShape(h, entries, depth, active);
    assert s.members.Keys == entries.Keys;
    MembersSigIsRender(h, entries, Sorted(entries.Keys), depth, active);
  }

  lemma {:induction false} MembersSigIsRender(h: Heap, entries: map<string, Value>, keys: seq<string>,
                                              depth: nat, active: set<Visit>)
    requires depth <= MAX_DEPTH && forall k | k in keys :: k in entries
    ensures MembersSig(h, entries, keys, depth, active) == RenderMembers(ObjectShape(h, entries, depth, active), keys)
    decreases MAX_DEPTH - depth, 1, |keys|
  {
    if keys != [] {
      SigIsRender(h, entries[keys[0]], depth, active);
      MembersSigIsRender(h, entries, keys[1..], depth, active);
    }
  }

  lemma {:induction false} ArraySigIsRender(h: Heap, elems: seq<Value>, depth: nat, active: set<Visit>)
    requires depth <= MAX_DEPTH
    ensures ArraySig(h, elems, depth, active) == Render(ArrayShape(h, elems, depth, active))
    decreases MAX_DEPTH - depth, 2
  {
    var s := ArrayShape(h, elems, depth, active);
    forall e | e in elems ensures Sig(h, e, depth, active) == Render(ShapeOf(h, e, depth, active)) {
      SigIsRender(h, e, depth, active);
    }
    forall r | r in ElementSigs(h, elems, depth, active) ensures r in ElementTexts(s) {
      var e :| e in elems && r == Sig(h, e, depth, active);
      assert ShapeOf(h, e, depth, active) in s.elems;
    }
    forall r | r in ElementTexts(s) ensures r in ElementSigs(h, elems, depth, active) {
      var t :| t in s.elems && r == Render(t);
      var e :| e in elems && t == ShapeOf(h, e, depth, active);
    }
    assert ElementSigs(h, elems, depth, active) == ElementTexts(s);
  }
}
