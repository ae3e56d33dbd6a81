/** Values as graphs: what they contain, their paths and cycles, and the shape of a value that ends. */
module SignaturePaths {
  import opened Shapes
  import opened Signature

  // ---------------------------------------------------------------- the shape of a well-founded value

  datatype Unfolding = Deeper | Has(shape: Shape)

  /** The shape of `v` if its containers nest at most `n` deep: null, scalar, map from key to shape, or set of
      element shapes. A cyclic value is deeper than every `n`. */
  ghost function Unfold(h: Heap, v: Value, n: nat): Unfolding
    decreases n, 1, v
  {
    match v
    case Invalid => Has(Null)
    case NilInterface => Has(Null)
    case Interface(elem) => Unfold(h, elem, n)
    case Scalar(_) => Has(Leaf)
    case OtherMap => Has(Leaf)
    case NilMap => Has(Obj(map[]))
    case NilSlice => Has(Arr({}))
    case Map(i) => if n == 0 then Deeper else UnfoldEntries(h, h.maps(i).entries, n - 1)
    case Slice(i) => if n == 0 then Deeper else UnfoldElems(h, h.slices(i).elems, n - 1)
    case Array(items) => if n == 0 then Deeper else UnfoldElems(h, items, n - 1)
  }

  ghost function UnfoldEntries(h: Heap, entries: map<string, Value>, n: nat): Unfolding
    decreases n, 2
  {
    if forall k | k in entries :: Unfold(h, entries[k], n).Has?
    then Has(Obj(map k | k in entries :: Unfold(h, entries[k], n).shape))
    else Deeper
  }

  ghost function UnfoldElems(h: Heap, elems: seq<Value>, n: nat): Unfolding
    decreases n, 2
  {
    if forall e | e in elems :: Unfold(h, e, n).Has?
    then Has(Arr(set e | e in elems :: Unfold(h, e, n).shape))
    else Deeper
  }

  // ---------------------------------------------------------------- paths and cycles

  /** `w` is found directly inside `v`. */
  ghost predicate Contains(h: Heap, v: Value, w: Value) {
    match v
    case Interface(elem) => w == elem
    case Map(i) => w in h.maps(i).entries.Values
    case Slice(i) => w in h.slices(i).elems
    case Array(items) => w in items
    case _ => false
  }

  /** A way down from `p[0]`. */
  ghost predicate Path(h: Heap, p: seq<Value>) {
    p != [] && forall i | 0 < i < |p| :: Contains(h, p[i - 1], p[i])
  }

  lemma PathTail(h: Heap, p: seq<Value>)
    requires Path(h, p) && |p| > 1
    ensures Path(h, p[1..]) && Contains(h, p[0], p[1])
  {
    assert Contains(h, p[1 - 1], p[1]);
    forall i | 0 < i < |p| - 1 ensures Contains(h, p[1..][i - 1], p[1..][i]) { assert Contains(h, p[i + 1 - 1], p[i + 1]); }
  }

  lemma PathCons(h: Heap, v: Value, p: seq<Value>)
    requires Path(h, p) && Contains(h, v, p[0])
    ensures Path(h, [v] + p)
  {
    var q := [v] + p;
    forall i | 0 < i < |q| ensures Contains(h, q[i - 1], q[i]) {
      if i > 1 { assert Contains(h, p[i - 1 - 1], p[i - 1]); }
    }
  }

  function Wrappers(v: Value): nat {
    if v.Interface? then 1 + Wrappers(v.elem) else 0
  }

  /** One step down costs a level of nesting or takes off an interface. */
  lemma StepDown(h: Heap, v: Value, w: Value, n: nat) returns (m: nat)
    requires Contains(h, v, w) && Unfold(h, v, n).Has?
    ensures Unfold(h, w, m).Has? && m <= n && (m == n ==> Wrappers(w) + 1 == Wrappers(v))
  {
    match v
    case Interface(elem) => m := n;
    case Map(i) =>
      var k :| k in h.maps(i).entries && h.maps(i).entries[k] == w;
      m := n - 1;
    case Slice(i) => m := n - 1;
    case Array(items) => m := n - 1;
  }

  lemma {:induction false} PathDown(h: Heap, p: seq<Value>, n: nat) returns (m: nat)
    requires Path(h, p) && Unfold(h, p[0], n).Has?
    ensures Unfold(h, p[|p| - 1], m).Has? && m <= n
    ensures m == n ==> Wrappers(p[|p| - 1]) + |p| - 1 == Wrappers(p[0])
    decreases |p|
  {
    if |p| == 1 {
      m := n;
    } else {
      PathTail(h, p);
      var k := StepDown(h, p[0], p[1], n);
      m := PathDown(h, p[1..], k);
    }
  }

  lemma {:induction false} CycleNeverEnds(h: Heap, p: seq<Value>, n: nat)
    requires Path(h, p) && |p| > 1 && p[0] == p[|p| - 1]
    ensures Unfold(h, p[0], n).Deeper?
    decreases n
  {
    if Unfold(h, p[0], n).Has? {
      var m := PathDown(h, p, n);
      CycleNeverEnds(h, p, m);
    }
  }

  /** A value from which some path comes back to where it has been is deeper than every bound. */
  lemma CyclesAreDeeper(h: Heap, p: seq<Value>, i: nat, j: nat, n: nat)
    requires Path(h, p) && i < j < |p| && p[i] == p[j]
    ensures Unfold(h, p[0], n).Deeper?
  {
    if Unfold(h, p[0], n).Has? {
      var m := PathDown(h, p[..i + 1], n);
      CycleNeverEnds(h, p[i..j + 1], m);
    }
  }
}
