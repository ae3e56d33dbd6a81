/** Shapes of logged values and their text. The text of a shape is what hash.go prints for any value of that shape. */
module Shapes {
  import opened Sorting

  /** `Cycle` and `Cut` stand for a container already on the path and for one below the depth cap. */
  datatype Shape =
    | Null
    | Leaf
    | Cycle
    | Cut
    | Obj(members: map<string, Shape>)
    | Arr(elems: set<Shape>)

  ghost function Render(s: Shape): string
    decreases s, 1, 0
  {
    match s
    case Null => "n"
    case Leaf => "v"
    case Cycle => "c"
    case Cut => "x"
    case Obj(m) => "o{" + RenderMembers(s, Sorted(m.Keys)) + "}"
    case Arr(elems) => "a[" + Items(Sorted(ElementTexts(s))) + "]"
  }

  ghost function RenderMembers(s: Shape, keys: seq<string>): string
    requires s.Obj? && forall k | k in keys :: k in s.members
    decreases s, 0, |keys|
  {
    if keys == [] then ""
    else keys[0] + ":" + Render(s.members[keys[0]]) + ";" + RenderMembers(s, keys[1..])
  }

  ghost function ElementTexts(s: Shape): set<string>
    requires s.Arr?
    decreases s, 0, 0
  {
    set e | e in s.elems :: Render(e)
  }

  function Items(texts: seq<string>): string {
    if texts == [] then "" else texts[0] + "," + Items(texts[1..])
  }

  /** A key whose text cannot be taken for structure: no colon inside, no closing brace in front. */
  predicate SafeKey(k: string) {
    ':' !in k && (k != "" ==> k[0] != '}')
  }

  ghost predicate SafeKeys(s: Shape)
    decreases s
  {
    match s
    case Obj(m) => forall k | k in m.Keys :: SafeKey(k) && SafeKeys(m[k])
    case Arr(elems) => forall e | e in elems :: SafeKeys(e)
    case _ => true
  }

  lemma RenderEmpty()
    ensures Render(Obj(map[])) == "o{}" && Render(Arr({})) == "a[]"
  {
    var o, a := Obj(map[]), Arr({});
    assert o.members.Keys == {} && ElementTexts(a) == {};
    SortedEquals([], {});
    assert Render(o) == "o{" + "" + "}" && Render(a) == "a[" + "" + "]";
  }

  // ---------------------------------------------------------------- unique decoding

  lemma FirstChar(s: Shape)
    ensures Render(s) != ""
    ensures Render(s)[0] == (match s case Null => 'n' case Leaf => 'v' case Cycle => 'c' case Cut => 'x'
                                     case Obj(_) => 'o' case Arr(_) => 'a')
  {}

  /** Two colon-free keys followed by a colon agree as soon as the texts do. */
  lemma {:induction false} KeyPrefix(k: string, l: string, x: string, y: string)
    requires ':' !in k && ':' !in l && k + ":" + x == l + ":" + y
    ensures k == l && x == y
  {
    var text, other := k + ":" + x, l + ":" + y;
    assert text[|k|] == ':' && forall i | 0 <= i < |k| :: text[i] == k[i];
    assert other[|l|] == ':' && forall i | 0 <= i < |l| :: other[i] == l[i];
    assert |k| == |l|;
    assert k == text[..|k|] && l == other[..|k|];
    assert x == text[|k| + 1..] && y == other[|k| + 1..];
  }

  /** A shape's text is never the beginning of another shape's text: reading one off the front is unambiguous. */
  lemma {:induction false} PrefixFree(s: Shape, t: Shape, x: string, y: string)
    requires SafeKeys(s) && SafeKeys(t)
    requires Render(s) + x == Render(t) + y
    ensures s == t && x == y
    decreases s, 3, 0
  {
    FirstChar(s);
    FirstChar(t);
    assert (Render(s) + x)[0] == Render(s)[0] && (Render(t) + y)[0] == Render(t)[0];
    match s
    case Obj(_) => ObjPrefixFree(s, t, x, y);
    case Arr(_) => ArrPrefixFree(s, t, x, y);
    case _ => assert x == (Render(s) + x)[1..] && y == (Render(t) + y)[1..];
  }

  lemma {:induction false} ObjPrefixFree(s: Shape, t: Shape, x: string, y: string)
    requires SafeKeys(s) && SafeKeys(t) && s.Obj? && t.Obj?
    requires Render(s) + x == Render(t) + y
    ensures s == t && x == y
    decreases s, 2, 0
  {
    var ks, kt := Sorted(s.members.Keys), Sorted(t.members.Keys);
    RenderObj(s, x);
    RenderObj(t, y);
    DropPrefix("o{", RenderMembers(s, ks) + "}" + x, RenderMembers(t, kt) + "}" + y);
    MembersPrefixFree(s, t, ks, kt, x, y);
    SameMembers(s.members, t.members);
  }

  lemma {:induction false} ArrPrefixFree(s: Shape, t: Shape, x: string, y: string)
    requires SafeKeys(s) && SafeKeys(t) && s.Arr? && t.Arr?
    requires Render(s) + x == Render(t) + y
    ensures s == t && x == y
    decreases s, 2, 0
  {
    var ls, lt := Sorted(ElementTexts(s)), Sorted(ElementTexts(t));
    RenderArr(s, x);
    RenderArr(t, y);
    DropPrefix("a[", Items(ls) + "]" + x, Items(lt) + "]" + y);
    ItemsPrefixFree(s, t, ls, lt, x, y);
    assert ElementTexts(s) == ElementTexts(t) by {
      assert forall r :: r in ElementTexts(s) <==> r in ls;
      assert forall r :: r in ElementTexts(t) <==> r in lt;
    }
    SameElements(s, t);
  }

  lemma SameMembers(m: map<string, Shape>, n: map<string, Shape>)
    requires Sorted(m.Keys) == Sorted(n.Keys)
    requires forall k | k in Sorted(m.Keys) :: k in m && k in n && m[k] == n[k]
    ensures m == n
  {
    assert forall k :: k in m.Keys <==> k in Sorted(m.Keys);
    assert forall k :: k in n.Keys <==> k in Sorted(n.Keys);
    assert m.Keys == n.Keys;
  }

  lemma RenderObj(s: Shape, x: string)
    requires s.Obj?
    ensures Render(s) + x == "o{" + (RenderMembers(s, Sorted(s.members.Keys)) + "}" + x)
  {}

  lemma RenderArr(s: Shape, x: string)
    requires s.Arr?
    ensures Render(s) + x == "a[" + (Items(Sorted(ElementTexts(s))) + "]" + x)
  {}

  lemma DropPrefix(p: string, a: string, b: string)
    requires p + a == p + b
    ensures a == b
  {
    assert a == (p + a)[|p|..] && b == (p + b)[|p|..];
  }

  lemma {:induction false} MembersPrefixFree(s: Shape, t: Shape, ks: seq<string>, kt: seq<string>, x: string, y: string)
    requires SafeKeys(s) && SafeKeys(t) && s.Obj? && t.Obj?
    requires forall k | k in ks :: k in s.members
    requires forall k | k in kt :: k in t.members
    requires RenderMembers(s, ks) + "}" + x == RenderMembers(t, kt) + "}" + y
    ensures ks == kt && x == y
    ensures forall k | k in ks :: s.members[k] == t.members[k]
    decreases s, 0, |ks|
  {
    MembersFront(s, ks, x);
    MembersFront(t, kt, y);
    assert ks == [] <==> kt == [];
    if ks == [] {
      assert "}" + x == RenderMembers(s, ks) + "}" + x && "}" + y == RenderMembers(t, kt) + "}" + y;
      DropPrefix("}", x, y);
    } else {
      var k, l := ks[0], kt[0];
      var restS := RenderMembers(s, ks[1..]) + "}" + x;
      var restT := RenderMembers(t, kt[1..]) + "}" + y;
      KeyPrefix(k, l, Render(s.members[k]) + (";" + restS), Render(t.members[l]) + (";" + restT));
      PrefixFree(s.members[k], t.members[l], ";" + restS, ";" + restT);
      DropPrefix(";", restS, restT);
      MembersPrefixFree(s, t, ks[1..], kt[1..], x, y);
      assert ks == [k] + ks[1..] && kt == [l] + kt[1..];
    }
  }

  lemma MembersSplit(s: Shape, ks: seq<string>, x: string)
    requires s.Obj? && ks != [] && forall k | k in ks :: k in s.members
    ensures RenderMembers(s, ks) + "}" + x ==
            ks[0] + ":" + (Render(s.members[ks[0]]) + (";" + (RenderMembers(s, ks[1..]) + "}" + x)))
  {
    RegroupMember(ks[0] + ":" + Render(s.members[ks[0]]), ";", RenderMembers(s, ks[1..]), "}", x);
  }

  /** The text after `o{` or `;` starts with a closing brace exactly when no member is left. */
  lemma MembersFront(s: Shape, ks: seq<string>, x: string)
    requires SafeKeys(s) && s.Obj? && forall k | k in ks :: k in s.members
    ensures RenderMembers(s, ks) + "}" + x != ""
    ensures (RenderMembers(s, ks) + "}" + x)[0] == '}' <==> ks == []
    ensures ks != [] ==> RenderMembers(s, ks) + "}" + x ==
                         ks[0] + ":" + (Render(s.members[ks[0]]) + (";" + (RenderMembers(s, ks[1..]) + "}" + x)))
  {
    if ks != [] {
      assert SafeKey(ks[0]);
      MembersSplit(s, ks, x);
    }
  }

  /** Lists of element texts of `s` and of `t`, each closed by a bracket, agree as soon as the texts do. */
  lemma {:induction false} ItemsPrefixFree(s: Shape, t: Shape, ls: seq<string>, lt: seq<string>, x: string, y: string)
    requires SafeKeys(s) && SafeKeys(t) && s.Arr? && t.Arr?
    requires forall r | r in ls :: r in ElementTexts(s)
    requires forall r | r in lt :: r in ElementTexts(t)
    requires Items(ls) + "]" + x == Items(lt) + "]" + y
    ensures ls == lt && x == y
    decreases s, 1, |ls|
  {
    ItemsFront(s, ls, x);
    ItemsFront(t, lt, y);
    if ls == [] {
      assert "]" + x == Items(ls) + "]" + x && "]" + y == Items(lt) + "]" + y;
      DropPrefix("]", x, y);
    } else {
      assert ls[0] in ElementTexts(s);
      var e :| e in s.elems && ls[0] == Render(e);
      assert lt[0] in ElementTexts(t);
      var f :| f in t.elems && lt[0] == Render(f);
      var restS, restT := Items(ls[1..]) + "]" + x, Items(lt[1..]) + "]" + y;
      PrefixFree(e, f, "," + restS, "," + restT);
      DropPrefix(",", restS, restT);
      ItemsPrefixFree(s, t, ls[1..], lt[1..], x, y);
      assert ls == [ls[0]] + ls[1..] && lt == [lt[0]] + lt[1..];
    }
  }

  lemma ItemsFront(s: Shape, ls: seq<string>, x: string)
    requires s.Arr? && forall r | r in ls :: r in ElementTexts(s)
    ensures Items(ls) + "]" + x != ""
    ensures (Items(ls) + "]" + x)[0] == ']' <==> ls == []
    ensures ls != [] ==> Items(ls) + "]" + x == ls[0] + ("," + (Items(ls[1..]) + "]" + x))
  {
    if ls != [] {
      assert ls[0] in ElementTexts(s);
      var e :| e in s.elems && ls[0] == Render(e);
      FirstChar(e);
      ItemsSplit(ls, x);
    }
  }

  lemma ItemsSplit(ls: seq<string>, x: string)
    requires ls != []
    ensures Items(ls) + "]" + x == ls[0] + ("," + (Items(ls[1..]) + "]" + x))
  {
    RegroupMember(ls[0], ",", Items(ls[1..]), "]", x);
  }

  lemma RegroupMember(a: string, b: string, c: string, d: string, e: string)
    ensures (a + b + c) + d + e == a + (b + (c + d + e))
  {}

  /** Equal sets of element texts come from equal sets of elements. */
  lemma {:induction false} SameElements(s: Shape, t: Shape)
    requires SafeKeys(s) && SafeKeys(t) && s.Arr? && t.Arr?
    requires ElementTexts(s) == ElementTexts(t)
    ensures s.elems == t.elems
    decreases s, 1, 0
  {
    forall e | e in s.elems ensures e in t.elems {
      assert Render(e) in ElementTexts(t);
      var f :| f in t.elems && Render(f) == Render(e);
      PrefixFree(e, f, "", "");
    }
    forall f | f in t.elems ensures f in s.elems {
      assert Render(f) in ElementTexts(s);
      var e :| e in s.elems && Render(e) == Render(f);
      PrefixFree(e, f, "", "");
    }
  }

  /** On safe keys, equal text means equal shape. */
  lemma RenderInjective(s: Shape, t: Shape)
    requires SafeKeys(s) && SafeKeys(t)
    ensures Render(s) == Render(t) <==> s == t
  {
    if Render(s) == Render(t) { PrefixFree(s, t, "", ""); }
  }
}
