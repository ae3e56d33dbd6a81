/** What the signature tells apart: unambiguity, and exactly when a value shows its own shape. */
module SignatureMeaning {
  import opened Shapes
  import opened Signature
  import opened SignaturePaths

  ghost function StructureSignature(h: Heap, v: Value): string {
    Sig(h, v, 0, {})
  }

  // ---------------------------------------------------------------- identities on a path

  /** What `enter` knows a container by; nil pointers and other values are not recorded. */
  function Identity(h: Heap, v: Value): set<Visit> {
    match v
    case Map(i) => if h.maps(i).ptr == 0 then {} else {h.MapId(i)}
    case Slice(i) => if h.slices(i).ptr == 0 then {} else {h.SliceId(i)}
    case _ => {}
  }

  /** No path down from `v` meets two containers of the same kind, type and data pointer. */
  ghost predicate Unaliased(h: Heap, v: Value) {
    forall p, i, j | Path(h, p) && p[0] == v && 0 <= i < j < |p| :: Identity(h, p[i]) !! Identity(h, p[j])
  }

  /** The path meets no container that is in `active` or came before. */
  ghost predicate Fresh(h: Heap, p: seq<Value>, active: set<Visit>) {
    p == [] || (Identity(h, p[0]) !! active && Fresh(h, p[1..], active + Identity(h, p[0])))
  }

  ghost predicate AllFresh(h: Heap, v: Value, active: set<Visit>) {
    forall p | Path(h, p) && p[0] == v :: Fresh(h, p, active)
  }

  lemma {:induction false} FreshMeans(h: Heap, p: seq<Value>, active: set<Visit>)
    ensures Fresh(h, p, active) <==>
            && (forall i | 0 <= i < |p| :: Identity(h, p[i]) !! active)
            && (forall i, j | 0 <= i < j < |p| :: Identity(h, p[i]) !! Identity(h, p[j]))
  {
    if p != [] {
      var rest, id := p[1..], Identity(h, p[0]);
      FreshMeans(h, rest, active + id);
      assert forall i | 0 < i < |p| :: p[i] == rest[i - 1];
      assert forall i | 0 <= i < |rest| :: rest[i] == p[i + 1];
    }
  }

  lemma UnaliasedIsAllFresh(h: Heap, v: Value)
    ensures Unaliased(h, v) <==> AllFresh(h, v, {})
  {
    forall p | Path(h, p) && p[0] == v { FreshMeans(h, p, {}); }
  }

  lemma AllFreshBelow(h: Heap, v: Value, w: Value, active: set<Visit>)
    requires AllFresh(h, v, active) && Contains(h, v, w)
    ensures AllFresh(h, w, active + Identity(h, v))
  {
    forall p | Path(h, p) && p[0] == w ensures Fresh(h, p, active + Identity(h, v)) {
      PathCons(h, v, p);
      assert ([v] + p)[0] == v && ([v] + p)[1..] == p;
      assert Fresh(h, [v] + p, active);
    }
  }

  lemma AllFreshHere(h: Heap, v: Value, active: set<Visit>)
    requires AllFresh(h, v, active)
    ensures Identity(h, v) !! active
  {
    assert Path(h, [v]) && Fresh(h, [v], active);
  }

  // ---------------------------------------------------------------- without aliasing the shape is the value's own

  lemma {:induction false} FreshShape(h: Heap, v: Value, n: nat, depth: nat, active: set<Visit>)
    requires AllFresh(h, v, active) && n + depth <= MAX_DEPTH && Unfold(h, v, n).Has?
    ensures ShapeOf(h, v, depth, active) == Unfold(h, v, n).shape
    decreases n, 1, v
  {
    AllFreshHere(h, v, active);
    match v
    case Interface(elem) =>
      AllFreshBelow(h, v, elem, active);
      assert active + Identity(h, v) == active;
      FreshShape(h, elem, n, depth, active);
    case Map(i) => FreshEntries(h, i, n, depth, active);
    case Slice(i) =>
      assert Enter(active, h.SliceId(i)) == active + Identity(h, v);
      FreshElems(h, v, h.slices(i).elems, n, depth, active);
    case Array(items) =>
      assert active == active + Identity(h, v);
      FreshElems(h, v, items, n, depth, active);
    case _ =>
  }

  lemma {:induction false} FreshEntries(h: Heap, i: nat, n: nat, depth: nat, active: set<Visit>)
    requires AllFresh(h, Map(i), active) && n + depth <= MAX_DEPTH && Unfold(h, Map(i), n).Has?
    ensures n > 0 && ObjectShape(h, h.maps(i).entries, depth + 1, Enter(active, h.MapId(i))) == Unfold(h, Map(i), n).shape
    decreases n, 0
  {
    var entries, inner := h.maps(i).entries, Enter(active, h.MapId(i));
    assert inner == active + Identity(h, Map(i));
    forall k | k in entries ensures ShapeOf(h, entries[k], depth + 1, inner) == Unfold(h, entries[k], n - 1).shape {
      AllFreshBelow(h, Map(i), entries[k], active);
      FreshShape(h, entries[k], n - 1, depth + 1, inner);
    }
    assert ObjectShape(h, entries, depth + 1, inner).members == UnfoldEntries(h, entries, n - 1).shape.members;
  }

  lemma {:induction false} FreshElems(h: Heap, v: Value, elems: seq<Value>, n: nat, depth: nat, active: set<Visit>)
    requires v.Slice? || v.Array?
    requires elems == if v.Slice? then h.slices(v.node).elems else v.items
    requires AllFresh(h, v, active) && n + depth <= MAX_DEPTH && Unfold(h, v, n).Has?
    ensures n > 0 && ArrayShape(h, elems, depth + 1, active + Identity(h, v)) == Unfold(h, v, n).shape
    decreases n, 0
  {
    var inner := active + Identity(h, v);
    forall e | e in elems ensures ShapeOf(h, e, depth + 1, inner) == Unfold(h, e, n - 1).shape {
      AllFreshBelow(h, v, e, active);
      FreshShape(h, e, n - 1, depth + 1, inner);
    }
    assert ArrayShape(h, elems, depth + 1, inner).elems == UnfoldElems(h, elems, n - 1).shape.elems;
  }

  /** A shape in which neither the depth cap nor a cycle left a mark. */
  ghost predicate Plain(s: Shape)
    decreases s
  {
    match s
    case Cycle => false
    case Cut => false
    case Obj(m) => forall k | k in m.Keys :: Plain(m[k])
    case Arr(elems) => forall e | e in elems :: Plain(e)
    case _ => true
  }

  /** Conversely, a shape without such marks is the value's own. */
  lemma {:induction false} PlainUnfolds(h: Heap, v: Value, depth: nat, active: set<Visit>)
    requires depth <= MAX_DEPTH && Plain(ShapeOf(h, v, depth, active))
    ensures Unfold(h, v, MAX_DEPTH - depth) == Has(ShapeOf(h, v, depth, active))
    decreases MAX_DEPTH - depth, 1, v
  {
    match v
    case Interface(elem) => PlainUnfolds(h, elem, depth, active);
    case Map(i) => PlainEntriesUnfold(h, h.maps(i).entries, depth + 1, Enter(active, h.MapId(i)));
    case Slice(i) => PlainElemsUnfold(h, h.slices(i).elems, depth + 1, Enter(active, h.SliceId(i)));
    case Array(items) => PlainElemsUnfold(h, items, depth + 1, active);
    case _ =>
  }

  lemma {:induction false} PlainEntriesUnfold(h: Heap, entries: map<string, Value>, depth: nat, active: set<Visit>)
    requires depth <= MAX_DEPTH && Plain(ObjectShape(h, entries, depth, active))
    ensures UnfoldEntries(h, entries, MAX_DEPTH - depth) == Has(ObjectShape(h, entries, depth, active))
    decreases MAX_DEPTH - depth, 2
  {
    var s := ObjectShape(h, entries, depth, active);
    forall k | k in entries ensures Unfold(h, entries[k], MAX_DEPTH - depth) == Has(s.members[k]) {
      assert Plain(s.members[k]);
      PlainUnfolds(h, entries[k], depth, active);
    }
    assert UnfoldEntries(h, entries, MAX_DEPTH - depth).shape.members == s.members;
  }

  lemma {:induction false} PlainElemsUnfold(h: Heap, elems: seq<Value>, depth: nat, active: set<Visit>)
    requires depth <= MAX_DEPTH && Plain(ArrayShape(h, elems, depth, active))
    ensures UnfoldElems(h, elems, MAX_DEPTH - depth) == Has(ArrayShape(h, elems, depth, active))
    decreases MAX_DEPTH - depth, 2
  {
    var s := ArrayShape(h, elems, depth, active);
    forall e | e in elems ensures Unfold(h, e, MAX_DEPTH - depth) == Has(ShapeOf(h, e, depth, active)) {
      assert ShapeOf(h, e, depth, active) in s.elems;
      PlainUnfolds(h, e, depth, active);
    }
    assert UnfoldElems(h, elems, MAX_DEPTH - depth).shape.elems == s.elems;
  }

  lemma {:induction false} UnfoldingPlain(h: Heap, v: Value, n: nat)
    requires Unfold(h, v, n).Has?
    ensures Plain(Unfold(h, v, n).shape)
    decreases n, 1, v
  {
    match v
    case Interface(elem) => UnfoldingPlain(h, elem, n);
    case Map(i) =>
      var entries := h.maps(i).entries;
      forall k | k in entries ensures Plain(Unfold(h, entries[k], n - 1).shape) {
        UnfoldingPlain(h, entries[k], n - 1);
      }
    case Slice(i) =>
      var elems := h.slices(i).elems;
      forall e | e in elems ensures Plain(Unfold(h, e, n - 1).shape) { UnfoldingPlain(h, e, n - 1); }
    case Array(items) =>
      forall e | e in items ensures Plain(Unfold(h, e, n - 1).shape) { UnfoldingPlain(h, e, n - 1); }
    case _ =>
  }

  lemma PlainBelow(h: Heap, v: Value, w: Value, depth: nat, active: set<Visit>) returns (d: nat)
    requires depth <= MAX_DEPTH && Contains(h, v, w) && Plain(ShapeOf(h, v, depth, active))
    ensures d <= MAX_DEPTH && Plain(ShapeOf(h, w, d, active + Identity(h, v)))
  {
    match v
    case Interface(elem) =>
      d := depth;
      assert active + Identity(h, v) == active;
    case Map(i) =>
      d := depth + 1;
      var inner := Enter(active, h.MapId(i));
      var k :| k in h.maps(i).entries && h.maps(i).entries[k] == w;
      assert Plain(ObjectShape(h, h.maps(i).entries, d, inner).members[k]);
      assert inner == active + Identity(h, v);
    case Slice(i) =>
      d := depth + 1;
      var inner := Enter(active, h.SliceId(i));
      assert ShapeOf(h, w, d, inner) in ArrayShape(h, h.slices(i).elems, d, inner).elems;
      assert inner == active + Identity(h, v);
    case Array(items) =>
      d := depth + 1;
      assert ShapeOf(h, w, d, active) in ArrayShape(h, items, d, active).elems;
      assert active == active + Identity(h, v);
  }

  /** A shape without marks was found on paths that repeat nothing. */
  lemma {:induction false} PlainIsFresh(h: Heap, p: seq<Value>, depth: nat, active: set<Visit>)
    requires depth <= MAX_DEPTH && Path(h, p) && Plain(ShapeOf(h, p[0], depth, active))
    ensures Fresh(h, p, active)
    decreases |p|
  {
    if |p| > 1 {
      PathTail(h, p);
      var d := PlainBelow(h, p[0], p[1], depth, active);
      PlainIsFresh(h, p[1..], d, active + Identity(h, p[0]));
    } else {
      assert p[1..] == [];
    }
  }

  // ---------------------------------------------------------------- main results

  /** For every pair of graphs, cyclic or not: with safe keys, equal text means equal shape, marks included. */
  lemma SignatureUnambiguous(g: Heap, v: Value, h: Heap, w: Value)
    requires SafeKeys(ShapeOf(g, v, 0, {})) && SafeKeys(ShapeOf(h, w, 0, {}))
    ensures StructureSignature(g, v) == StructureSignature(h, w) <==> ShapeOf(g, v, 0, {}) == ShapeOf(h, w, 0, {})
  {
    SigIsRender(g, v, 0, {});
    SigIsRender(h, w, 0, {});
    RenderInjective(ShapeOf(g, v, 0, {}), ShapeOf(h, w, 0, {}));
  }

  /** The signature shows the value's own shape, without marks, exactly when the value nests at most 32 containers deep
      and no path down meets two containers of one identity. */
  lemma MarksExactly(h: Heap, v: Value)
    ensures Plain(ShapeOf(h, v, 0, {})) <==> Unfold(h, v, 32).Has? && Unaliased(h, v)
    ensures Unfold(h, v, 32).Has? ==> (ShapeOf(h, v, 0, {}) == Unfold(h, v, 32).shape <==> Unaliased(h, v))
  {
    UnaliasedIsAllFresh(h, v);
    if Unfold(h, v, 32).Has? {
      UnfoldingPlain(h, v, MAX_DEPTH);
      if Unaliased(h, v) { FreshShape(h, v, MAX_DEPTH, 0, {}); }
    }
    if Plain(ShapeOf(h, v, 0, {})) {
      PlainUnfolds(h, v, 0, {});
      forall p | Path(h, p) && p[0] == v ensures Fresh(h, p, {}) { PlainIsFresh(h, p, 0, {}); }
    }
  }

  /** A cycle anywhere below a value leaves a mark. */
  lemma CyclesAreMarked(h: Heap, p: seq<Value>, i: nat, j: nat)
    requires Path(h, p) && i < j < |p| && p[i] == p[j]
    ensures !Plain(ShapeOf(h, p[0], 0, {}))
  {
    CyclesAreDeeper(h, p, i, j, MAX_DEPTH);
    MarksExactly(h, p[0]);
  }

  /** Two unaliased values at most 32 containers deep have the same signature if and only if they have the same shape. */
  lemma SameSignatureSameShape(g: Heap, v: Value, h: Heap, w: Value)
    requires Unaliased(g, v) && Unaliased(h, w)
    requires Unfold(g, v, 32).Has? && Unfold(h, w, 32).Has?
    requires SafeKeys(Unfold(g, v, 32).shape) && SafeKeys(Unfold(h, w, 32).shape)
    ensures StructureSignature(g, v) == StructureSignature(h, w) <==>
            Unfold(g, v, 32).shape == Unfold(h, w, 32).shape
  {
    MarksExactly(g, v);
    MarksExactly(h, w);
    SignatureUnambiguous(g, v, h, w);
  }

  /** The text that is hashed into `global_hash`. */
  ghost function EntryText(queries: Shape, request: Shape, response: Shape): string {
    "queries:" + (Render(queries) + ("|request_body:" + (Render(request) + ("|response_body:" + Render(response)))))
  }

  lemma EntryTextUnambiguous(q: Shape, a: Shape, b: Shape, q': Shape, a': Shape, b': Shape)
    requires SafeKeys(q) && SafeKeys(a) && SafeKeys(b) && SafeKeys(q') && SafeKeys(a') && SafeKeys(b')
    ensures EntryText(q, a, b) == EntryText(q', a', b') <==> q == q' && a == a' && b == b'
  {
    if EntryText(q, a, b) == EntryText(q', a', b') {
      var x, x' := "|response_body:" + Render(b), "|response_body:" + Render(b');
      TaggedPrefixFree("queries:", q, q', "|request_body:" + (Render(a) + x), "|request_body:" + (Render(a') + x'));
      TaggedPrefixFree("|request_body:", a, a', x, x');
      DropPrefix("|response_body:", Render(b), Render(b'));
      RenderInjective(b, b');
    }
  }

  lemma TaggedPrefixFree(tag: string, s: Shape, t: Shape, x: string, y: string)
    requires SafeKeys(s) && SafeKeys(t)
    requires tag + (Render(s) + x) == tag + (Render(t) + y)
    ensures s == t && x == y
  {
    DropPrefix(tag, Render(s) + x, Render(t) + y);
    PrefixFree(s, t, x, y);
  }
}
