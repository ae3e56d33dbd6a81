/** What the signature does not depend on: scalar values, addresses, and order and repetition of elements, anywhere in a
    graph. */
module SignatureInvariance {
  import opened Signature
  import opened SignatureMeaning

  /** A value without its scalars, and without order and repetition in its arrays. */
  datatype Outline = AnyScalar | Wrapped(inner: Outline) | Items(elems: set<Outline>) | Itself(v: Value)

  ghost function OutlineOf(v: Value): Outline {
    match v
    case Scalar(_) => AnyScalar
    case Interface(elem) => Wrapped(OutlineOf(elem))
    case Array(items) => Items(set x | x in items :: OutlineOf(x))
    case _ => Itself(v)
  }

  ghost function Outlines(elems: seq<Value>): set<Outline> {
    set x | x in elems :: OutlineOf(x)
  }

  ghost predicate Alike(v: Value, w: Value) {
    OutlineOf(v) == OutlineOf(w)
  }

  ghost predicate AlikeEntries(a: map<string, Value>, b: map<string, Value>) {
    a.Keys == b.Keys && forall k | k in a :: Alike(a[k], b[k])
  }

  /** A renaming of types and addresses that keeps different containers apart and nil pointers nil. */
  ghost predicate Renaming(r: Visit -> Visit) {
    && (forall a, b :: r(a) == r(b) ==> a == b)
    && (forall a :: r(a).ptr == 0 <==> a.ptr == 0)
  }

  /** Corresponding maps and slices are alike and known by corresponding identities. */
  ghost predicate AlikeHeaps(g: Heap, h: Heap, r: Visit -> Visit) {
    && (forall n :: h.MapId(n) == r(g.MapId(n)) && AlikeEntries(g.maps(n).entries, h.maps(n).entries))
    && (forall n :: h.SliceId(n) == r(g.SliceId(n)) && Outlines(g.slices(n).elems) == Outlines(h.slices(n).elems))
  }

  ghost function Image(r: Visit -> Visit, active: set<Visit>): set<Visit> {
    set a | a in active :: r(a)
  }

  lemma ImageOnPath(r: Visit -> Visit, active: set<Visit>, visit: Visit)
    requires Renaming(r)
    ensures OnPath(Image(r, active), r(visit)) <==> OnPath(active, visit)
    ensures Enter(Image(r, active), r(visit)) == Image(r, Enter(active, visit))
  {
    assert r(visit).ptr == 0 <==> visit.ptr == 0;
    if r(visit) in Image(r, active) {
      var a :| a in active && r(a) == r(visit);
      assert a == visit;
    }
    assert Image(r, active + {visit}) == Image(r, active) + {r(visit)};
  }

  lemma {:induction false} AlikeShape(g: Heap, v: Value, h: Heap, w: Value, depth: nat, active: set<Visit>,
                                      r: Visit -> Visit)
    requires Renaming(r) && AlikeHeaps(g, h, r) && Alike(v, w) && depth <= MAX_DEPTH
    ensures ShapeOf(g, v, depth, active) == ShapeOf(h, w, depth, Image(r, active))
    decreases MAX_DEPTH - depth, 1, v
  {
    match v
    case Interface(elem) => AlikeShape(g, elem, h, w.elem, depth, active, r);
    case Map(i) =>
      assert h.MapId(i) == r(g.MapId(i));
      ImageOnPath(r, active, g.MapId(i));
      if depth < MAX_DEPTH {
        AlikeObject(g, g.maps(i).entries, h, h.maps(i).entries, depth + 1, Enter(active, g.MapId(i)), r);
      }
    case Slice(i) =>
      assert h.SliceId(i) == r(g.SliceId(i));
      ImageOnPath(r, active, g.SliceId(i));
      if depth < MAX_DEPTH {
        AlikeArray(g, g.slices(i).elems, h, h.slices(i).elems, depth + 1, Enter(active, g.SliceId(i)), r);
      }
    case Array(items) =>
      OutlinesOf(items, w.items);
      if depth < MAX_DEPTH { AlikeArray(g, items, h, w.items, depth + 1, active, r); }
    case _ =>
  }

  lemma OutlinesOf(a: seq<Value>, b: seq<Value>)
    ensures Alike(Array(a), Array(b)) <==> Outlines(a) == Outlines(b)
  {
    assert OutlineOf(Array(a)) == Items(Outlines(a)) && OutlineOf(Array(b)) == Items(Outlines(b));
  }

  lemma {:induction false} AlikeObject(g: Heap, a: map<string, Value>, h: Heap, b: map<string, Value>, depth: nat,
                                       active: set<Visit>, r: Visit -> Visit)
    requires Renaming(r) && AlikeHeaps(g, h, r) && AlikeEntries(a, b) && depth <= MAX_DEPTH
    ensures ObjectShape(g, a, depth, active) == ObjectShape(h, b, depth, Image(r, active))
    decreases MAX_DEPTH - depth, 2
  {
    forall k | k in a ensures ShapeOf(g, a[k], depth, active) == ShapeOf(h, b[k], depth, Image(r, active)) {
      AlikeShape(g, a[k], h, b[k], depth, active, r);
    }
    assert ObjectShape(g, a, depth, active).members == ObjectShape(h, b, depth, Image(r, active)).members;
  }

  lemma {:induction false} AlikeArray(g: Heap, a: seq<Value>, h: Heap, b: seq<Value>, depth: nat, active: set<Visit>,
                                      r: Visit -> Visit)
    requires Renaming(r) && AlikeHeaps(g, h, r) && Outlines(a) == Outlines(b) && depth <= MAX_DEPTH
    ensures ArrayShape(g, a, depth, active) == ArrayShape(h, b, depth, Image(r, active))
    decreases MAX_DEPTH - depth, 2
  {
    var s, t := ArrayShape(g, a, depth, active).elems, ArrayShape(h, b, depth, Image(r, active)).elems;
    forall x | x in a ensures ShapeOf(g, x, depth, active) in t {
      assert OutlineOf(x) in Outlines(b);
      var y :| y in b && OutlineOf(y) == OutlineOf(x);
      AlikeShape(g, x, h, y, depth, active, r);
    }
    forall y | y in b ensures ShapeOf(h, y, depth, Image(r, active)) in s {
      assert OutlineOf(y) in Outlines(a);
      var x :| x in a && OutlineOf(x) == OutlineOf(y);
      AlikeShape(g, x, h, y, depth, active, r);
    }
    assert s == t;
  }

  /** On every pair of graphs that differ in scalars, in addresses, and in order and repetition of the elements of slices
      and arrays at any depth, the signatures are the same. */
  lemma SignatureIgnores(g: Heap, v: Value, h: Heap, w: Value, r: Visit -> Visit)
    requires Renaming(r) && AlikeHeaps(g, h, r) && Alike(v, w)
    ensures StructureSignature(g, v) == StructureSignature(h, w)
  {
    AlikeShape(g, v, h, w, 0, {}, r);
    assert Image(r, {}) == {};
    SigIsRender(g, v, 0, {});
    SigIsRender(h, w, 0, {});
  }

  // ---------------------------------------------------------------- replacing every scalar

  function Erase(v: Value): Value {
    match v
    case Scalar(_) => Scalar(0)
    case Interface(elem) => Interface(Erase(elem))
    case Array(items) => Array(seq(|items|, i requires 0 <= i < |items| => Erase(items[i])))
    case _ => v
  }

  function EraseElems(elems: seq<Value>): seq<Value> {
    seq(|elems|, i requires 0 <= i < |elems| => Erase(elems[i]))
  }

  /** The same graph with every scalar replaced by one and the same scalar. */
  function EraseHeap(h: Heap): Heap {
    Heap((n: nat) => h.maps(n).(entries := map k | k in h.maps(n).entries :: Erase(h.maps(n).entries[k])),
         (n: nat) => h.slices(n).(elems := EraseElems(h.slices(n).elems)))
  }

  lemma {:induction false} EraseAlike(v: Value)
    ensures Alike(Erase(v), v)
    decreases v, 1
  {
    match v
    case Interface(elem) => EraseAlike(elem);
    case Array(items) =>
      EraseAlikeElems(items);
      OutlinesOf(EraseElems(items), items);
    case _ =>
  }

  lemma {:induction false} EraseAlikeElems(elems: seq<Value>)
    ensures Outlines(EraseElems(elems)) == Outlines(elems)
    decreases elems, 0
  {
    var erased := EraseElems(elems);
    forall i | 0 <= i < |elems| ensures Alike(erased[i], elems[i]) { EraseAlike(elems[i]); }
    forall o ensures o in Outlines(erased) <==> o in Outlines(elems) {
      if o in Outlines(erased) { var i :| 0 <= i < |erased| && o == OutlineOf(erased[i]); assert elems[i] in elems; }
      if o in Outlines(elems) { var i :| 0 <= i < |elems| && o == OutlineOf(elems[i]); assert erased[i] in erased; }
    }
  }

  /** Which scalars a graph holds makes no difference at any depth and on any path. */
  lemma ScalarsIgnored(h: Heap, v: Value, depth: nat, active: set<Visit>)
    requires depth <= MAX_DEPTH
    ensures ShapeOf(EraseHeap(h), Erase(v), depth, active) == ShapeOf(h, v, depth, active)
  {
    forall n { EraseAlikeElems(h.slices(n).elems); }
    forall n, k | k in h.maps(n).entries ensures Alike(EraseHeap(h).maps(n).entries[k], h.maps(n).entries[k]) {
      EraseAlike(h.maps(n).entries[k]);
    }
    EraseAlike(v);
    assert Image(a => a, active) == active;
    AlikeShape(EraseHeap(h), Erase(v), h, v, depth, active, a => a);
  }
}
