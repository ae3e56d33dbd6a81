/** Where the signature's text is ambiguous, and exactly for which keys and containers. */
module SignatureLimits {
  import opened Sorting
  import opened Shapes
  import opened Signature
  import opened SignaturePaths
  import opened SignatureMeaning

  ghost predicate Over(s: Shape, alphabet: set<char>)
    decreases s
  {
    match s
    case Obj(m) => forall k | k in m.Keys :: (forall c | c in k :: c in alphabet) && Over(m[k], alphabet)
    case Arr(elems) => forall e | e in elems :: Over(e, alphabet)
    case _ => true
  }

  lemma {:induction false} OverIsSafe(s: Shape, alphabet: set<char>)
    requires Over(s, alphabet) && ':' !in alphabet && '}' !in alphabet
    ensures SafeKeys(s)
    decreases s
  {
    match s
    case Obj(m) =>
      forall k | k in m.Keys ensures SafeKey(k) && SafeKeys(m[k]) {
        OverIsSafe(m[k], alphabet);
        if k != "" { assert k[0] in k; }
      }
    case Arr(elems) =>
      forall e | e in elems ensures SafeKeys(e) { OverIsSafe(e, alphabet); }
    case _ =>
  }

  lemma {:induction false} RenderListed(m: map<string, Shape>, keys: seq<string>)
    requires Ascending(keys) && forall k :: k in keys <==> k in m
    ensures Render(Obj(m)) == "o{" + RenderMembers(Obj(m), keys) + "}"
  {
    SortedEquals(keys, m.Keys);
  }

  lemma RenderFirstMember(m: map<string, Shape>, keys: seq<string>)
    requires keys != [] && forall k | k in keys :: k in m
    ensures RenderMembers(Obj(m), keys) ==
            keys[0] + ":" + Render(m[keys[0]]) + ";" + RenderMembers(Obj(m), keys[1..])
  {}

  /** Keys ``, `v` against the one key `:v;v`. */
  const COLON_TWO := Obj(map["" := Leaf, "v" := Leaf])
  const COLON_ONE := Obj(map[":v;v" := Leaf])

  /** A member `};;` inside the object at key `` against the same member beside it. */
  const BRACE_INNER := Obj(map["};;" := Leaf])
  const BRACE_NESTED := Obj(map["" := BRACE_INNER, ";" := Leaf])
  const BRACE_FLAT := Obj(map["" := Obj(map[]), ";" := Leaf, "};;" := Leaf])

  /** A colon in a key lets two members be read as one. */
  lemma ColonCollides()
    ensures Render(COLON_TWO) == Render(COLON_ONE) && COLON_TWO != COLON_ONE
  {
    CollidingShapesDiffer();
    RenderListed(COLON_TWO.members, ["", "v"]);
    LeafPairText(COLON_TWO.members, "", "v");
    RenderListed(COLON_ONE.members, [":v;v"]);
    LeafMemberText(COLON_ONE.members, ":v;v");
    assert "" + ":v;" + ("v" + ":v;") == ":v;v" + ":v;";
  }

  lemma BraceInnerText()
    ensures Render(BRACE_INNER) == "o{" + ("};" + ";:v;") + "}"
  {
    RenderListed(BRACE_INNER.members, ["};;"]);
    RenderFirstMember(BRACE_INNER.members, ["};;"]);
    assert RenderMembers(BRACE_INNER, []) == "";
    assert RenderMembers(BRACE_INNER, ["};;"]) == "};" + ";:v;";
  }

  lemma LeafMemberText(m: map<string, Shape>, k: string)
    requires k in m && m[k] == Leaf
    ensures RenderMembers(Obj(m), [k]) == k + ":v;"
  {
    RenderFirstMember(m, [k]);
    assert RenderMembers(Obj(m), []) == "";
  }

  lemma BraceNestedText()
    ensures Render(BRACE_NESTED) == "o{" + (":o{" + ("};" + ";:v;") + "};" + ";:v;") + "}"
  {
    BraceInnerText();
    RenderListed(BRACE_NESTED.members, ["", ";"]);
    RenderFirstMember(BRACE_NESTED.members, ["", ";"]);
    LeafMemberText(BRACE_NESTED.members, ";");
    RegroupNested("" + ":", "o{", "};" + ";:v;", "}", ";", ";:v;");
  }

  lemma RegroupNested(a: string, b: string, c: string, d: string, e: string, f: string)
    ensures a + (b + c + d) + e + f == (a + b) + c + (d + e) + f
  {}

  lemma LeafPairText(m: map<string, Shape>, k: string, l: string)
    requires k in m && l in m && m[k] == Leaf && m[l] == Leaf
    ensures RenderMembers(Obj(m), [k, l]) == k + ":v;" + (l + ":v;")
  {
    RenderFirstMember(m, [k, l]);
    assert [k, l][1..] == [l];
    LeafMemberText(m, l);
    assert ":" + "v" + ";" == ":v;";
    assert k + ":" + "v" + ";" == k + ":v;";
  }

  lemma BraceFlatTail()
    ensures RenderMembers(BRACE_FLAT, [";", "};;"]) == ";:v;" + ("};" + ";:v;")
  {
    LeafPairText(BRACE_FLAT.members, ";", "};;");
    assert "};" + ";:v;" == "};;" + ":v;" && ";" + ":v;" == ";:v;";
  }

  lemma BraceFlatText()
    ensures Render(BRACE_FLAT) == "o{" + (":o{" + "};" + (";:v;" + ("};" + ";:v;"))) + "}"
  {
    var keys := ["", ";", "};;"];
    BraceFlatTail();
    BraceFlatKeys(keys);
    RenderListed(BRACE_FLAT.members, keys);
    RenderFirstMember(BRACE_FLAT.members, keys);
    RenderEmpty();
    assert keys[1..] == [";", "};;"];
    assert "" + ":" + "o{}" + ";" == ":o{" + "};";
  }

  lemma BraceFlatKeys(keys: seq<string>)
    requires keys == ["", ";", "};;"]
    ensures Ascending(keys) && forall k :: k in keys <==> k in BRACE_FLAT.members
  {
    assert Less("", ";") && Less("", "};;") && Less(";", "};;");
  }

  lemma Move(p: string, q: string, r: string)
    ensures p + (q + r) + q + r == p + q + (r + (q + r))
  {}

  /** A closing brace in front of a key lets a member of an inner object be read as one of the outer object. */
  lemma BraceCollides()
    ensures Render(BRACE_NESTED) == Render(BRACE_FLAT) && BRACE_NESTED != BRACE_FLAT
  {
    CollidingShapesDiffer();
    BraceNestedText();
    BraceFlatText();
    Move(":o{", "};", ";:v;");
  }

  lemma CollisionsOver(alphabet: set<char>)
    requires {'v', ';'} <= alphabet
    ensures ':' in alphabet ==> Over(COLON_TWO, alphabet) && Over(COLON_ONE, alphabet)
    ensures '}' in alphabet ==> Over(BRACE_NESTED, alphabet) && Over(BRACE_FLAT, alphabet)
  {
    if '}' in alphabet {
      assert Over(BRACE_INNER, alphabet) && Over(Obj(map[]), alphabet);
    }
  }

  lemma CollidingShapesDiffer()
    ensures COLON_TWO != COLON_ONE && BRACE_NESTED != BRACE_FLAT
  {
    assert "v" in COLON_TWO.members && "v" !in COLON_ONE.members;
    assert "};;" in BRACE_FLAT.members && "};;" !in BRACE_NESTED.members;
  }

  /** Among key alphabets with v and the semicolon, the text is unambiguous exactly for those without colon
      and closing brace. */
  lemma AlphabetExact(alphabet: set<char>)
    requires {'v', ';'} <= alphabet
    ensures (forall s, t :: Over(s, alphabet) && Over(t, alphabet) && Render(s) == Render(t) ==> s == t)
            <==> ':' !in alphabet && '}' !in alphabet
  {
    if ':' in alphabet || '}' in alphabet {
      CollisionsOver(alphabet);
      ColonCollides();
      BraceCollides();
    } else {
      forall s, t | Over(s, alphabet) && Over(t, alphabet) && Render(s) == Render(t) ensures s == t {
        OverIsSafe(s, alphabet);
        OverIsSafe(t, alphabet);
        RenderInjective(s, t);
      }
    }
  }

  /** A slice whose first element is an empty prefix of itself, as in `s := make([]any, 1); s[0] = s[:0]`. */
  function AliasedHeap(): Heap {
    Heap(_ => MapNode(0, 0, map[]), n => if n == 0 then SliceNode(1, 7, [Slice(1)]) else SliceNode(1, 7, []))
  }

  /** A path down from the depth-2 value above meets one identity twice, so it is reported as cyclic. */
  lemma AliasingReportsCycle()
    ensures Unfold(AliasedHeap(), Slice(0), 2) == Has(Arr({Arr({})}))
    ensures ShapeOf(AliasedHeap(), Slice(0), 0, {}) == Arr({Cycle}) && !Unaliased(AliasedHeap(), Slice(0))
  {
    var h := AliasedHeap();
    assert UnfoldElems(h, [], 0).Has? && UnfoldElems(h, [], 0).shape.elems == {};
    assert Unfold(h, Slice(1), 1) == Has(Arr({}));
    assert UnfoldElems(h, [Slice(1)], 1).shape.elems == {Arr({})};
    assert ShapeOf(h, Slice(1), 1, {h.SliceId(0)}) == Cycle;
    assert ArrayShape(h, [Slice(1)], 1, {h.SliceId(0)}).elems == {Cycle};
    var p := [Slice(0), Slice(1)];
    assert Path(h, p) && p[0] == Slice(0) && Identity(h, p[0]) == Identity(h, p[1]) == {h.SliceId(0)};
  }

  /** Two slices of one array side by side, as in `[]any{s, s[:1]}`. */
  function SharingHeap(): Heap {
    Heap(_ => MapNode(0, 0, map[]), n => SliceNode(1, 7, if n == 0 then [Scalar(1), Scalar(2)] else [Scalar(1)]))
  }

  /** Sharing beside each other does no harm: the value is unaliased and shows its own shape. */
  lemma SiblingsMayShare()
    ensures SharingHeap().SliceId(0) == SharingHeap().SliceId(1)
    ensures ShapeOf(SharingHeap(), Array([Slice(0), Slice(1)]), 0, {}) == Arr({Arr({Leaf})})
    ensures Unaliased(SharingHeap(), Array([Slice(0), Slice(1)]))
  {
    var h, v := SharingHeap(), Array([Slice(0), Slice(1)]);
    SiblingsShape(v.items);
    assert Plain(Leaf) && Plain(Arr({Leaf})) && Plain(Arr({Arr({Leaf})}));
    MarksExactly(h, v);
  }

  lemma SiblingsShape(elems: seq<Value>)
    requires elems == [Slice(0), Slice(1)]
    ensures ArrayShape(SharingHeap(), elems, 1, {}) == Arr({Arr({Leaf})})
  {
    SiblingShape(0);
    SiblingShape(1);
    assert Slice(0) in elems && ArrayShape(SharingHeap(), elems, 1, {}).elems == {Arr({Leaf})};
  }

  lemma SiblingShape(n: nat)
    requires n < 2
    ensures ShapeOf(SharingHeap(), Slice(n), 1, {}) == Arr({Leaf})
  {
    var h := SharingHeap();
    var inner := Enter({}, h.SliceId(n));
    assert Scalar(1) in h.slices(n).elems && ShapeOf(h, Scalar(1), 2, inner) == Leaf;
    assert ArrayShape(h, h.slices(n).elems, 2, inner).elems == {Leaf};
  }
}
