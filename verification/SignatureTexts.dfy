/** hash.go: the characters of a signature, which hashes stored elsewhere depend on. */
module SignatureTexts {
  import opened Sorting
  import opened Shapes
  import opened Signature
  import opened SignatureMeaning

  lemma LeafTexts()
    ensures Render(Null) == "n" && Render(Leaf) == "v" && Render(Cycle) == "c" && Render(Cut) == "x"
    ensures Render(Obj(map[])) == "o{}" && Render(Arr({})) == "a[]"
  {
    RenderEmpty();
  }

  ghost predicate Least(k: string, keys: set<string>) {
    k in keys && forall l | l in keys :: l == k || Less(k, l)
  }

  lemma LeastFirst(k: string, keys: set<string>)
    requires Least(k, keys)
    ensures Sorted(keys) == [k] + Sorted(keys - {k})
  {
    var rest := Sorted(keys - {k});
    forall i, j | 0 <= i < j < |[k] + rest| ensures Less(([k] + rest)[i], ([k] + rest)[j]) {
      if i == 0 { assert rest[j - 1] in rest; } else { assert Less(rest[i - 1], rest[j - 1]); }
    }
    assert forall l :: l in [k] + rest <==> l == k || l in rest;
    SortedEquals([k] + rest, keys);
  }

  /** An object's text lists its members from the least key on: key, colon, text, semicolon. */
  lemma ObjectText(m: map<string, Shape>, k: string)
    requires Least(k, m.Keys)
    ensures Render(Obj(m)) == "o{" + (k + ":" + Render(m[k]) + ";" + Render(Obj(m - {k}))[2..])
  {
    var rest := m - {k};
    LeastFirst(k, m.Keys);
    assert rest.Keys == m.Keys - {k};
    var keys := Sorted(rest.Keys);
    assert ([k] + keys)[1..] == keys;
    SameMemberTexts(Obj(m), Obj(rest), keys);
    assert Render(Obj(rest))[2..] == RenderMembers(Obj(rest), keys) + "}";
    assert RenderMembers(Obj(m), [k] + keys) == k + ":" + Render(m[k]) + ";" + RenderMembers(Obj(m), keys);
    Closed("o{", k + ":" + Render(m[k]) + ";", RenderMembers(Obj(m), keys), "}");
  }

  lemma Closed(a: string, b: string, c: string, d: string)
    ensures a + (b + c) + d == a + (b + (c + d))
  {}

  lemma {:induction false} SameMemberTexts(s: Shape, t: Shape, keys: seq<string>)
    requires s.Obj? && t.Obj? && forall k | k in keys :: k in s.members && k in t.members && s.members[k] == t.members[k]
    ensures RenderMembers(s, keys) == RenderMembers(t, keys)
  {
    if keys != [] { SameMemberTexts(s, t, keys[1..]); }
  }

  /** An array's text lists its different element texts from the least on, each with a comma. */
  lemma ArrayText(elems: set<Shape>, text: string, rest: set<Shape>)
    requires Least(text, ElementTexts(Arr(elems)))
    requires forall e :: e in rest <==> e in elems && Render(e) != text
    ensures Render(Arr(elems)) == "a[" + (text + "," + Render(Arr(rest))[2..])
  {
    var texts := ElementTexts(Arr(elems));
    LeastFirst(text, texts);
    OtherTexts(elems, text, rest);
    FirstItem(text, Sorted(texts - {text}));
    assert Render(Arr(rest)) == "a[" + Items(Sorted(texts - {text})) + "]";
  }

  lemma OtherTexts(elems: set<Shape>, text: string, rest: set<Shape>)
    requires forall e :: e in rest <==> e in elems && Render(e) != text
    ensures ElementTexts(Arr(rest)) == ElementTexts(Arr(elems)) - {text}
  {
    forall e | e in elems && Render(e) != text ensures Render(e) in ElementTexts(Arr(rest)) { assert e in rest; }
  }

  lemma FirstItem(text: string, items: seq<string>)
    ensures var whole := "a[" + Items(items) + "]"; "a[" + Items([text] + items) + "]" == "a[" + (text + "," + whole[2..])
  {
    assert ([text] + items)[1..] == items;
    var whole := "a[" + Items(items) + "]";
    assert whole[2..] == Items(items) + "]";
    Closed("a[", text + ",", Items(items), "]");
  }

  /** The text that is hashed for an entry. */
  lemma EntryTextIs(q: Shape, a: Shape, b: Shape)
    ensures EntryText(q, a, b) == "queries:" + Render(q) + "|request_body:" + Render(a) + "|response_body:" + Render(b)
  {
    Regrouped("queries:", Render(q), "|request_body:", Render(a), "|response_body:" + Render(b));
    Closed("queries:" + Render(q) + "|request_body:", Render(a), "|response_body:", Render(b));
  }

  lemma Regrouped(a: string, b: string, c: string, d: string, e: string)
    ensures a + (b + (c + (d + e))) == a + b + c + (d + e)
  {}

  /** The signature of `[1, null, 2]`. */
  lemma SampleText(h: Heap)
    ensures StructureSignature(h, Array([Scalar(1), NilInterface, Scalar(2)])) == "a[n,v,]"
  {
    var items := [Scalar(1), NilInterface, Scalar(2)];
    SigIsRender(h, Array(items), 0, {});
    SampleShape(h, items);
    OneItem();
    TwoItems();
  }

  lemma OneItem()
    ensures Render(Arr({Leaf})) == "a[v,]"
  {
    LeafTexts();
    assert ElementTexts(Arr({Leaf})) == {"v"};
    ArrayText({Leaf}, "v", {});
  }

  lemma TwoItems()
    ensures Render(Arr({Leaf, Null})) == "a[n," + Render(Arr({Leaf}))[2..]
  {
    LeafTexts();
    assert Less("n", "v");
    assert Least("n", ElementTexts(Arr({Leaf, Null}))) by { TwoTexts(); }
    ArrayText({Leaf, Null}, "n", {Leaf});
  }

  lemma TwoTexts()
    ensures ElementTexts(Arr({Leaf, Null})) == {"n", "v"}
  {
    LeafTexts();
    var elems := {Leaf, Null};
    assert Leaf in elems && Null in elems;
  }

  lemma SampleShape(h: Heap, items: seq<Value>)
    requires items == [Scalar(1), NilInterface, Scalar(2)]
    ensures ShapeOf(h, Array(items), 0, {}) == Arr({Leaf, Null})
  {
    assert ShapeOf(h, items[0], 1, {}) == Leaf && ShapeOf(h, items[1], 1, {}) == Null && ShapeOf(h, items[2], 1, {}) == Leaf;
    assert items[0] in items && items[1] in items;
    assert ArrayShape(h, items, 1, {}).elems == {Leaf, Null};
  }
}
