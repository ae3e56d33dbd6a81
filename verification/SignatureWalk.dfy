/** hash.go's walk: loops over keys and elements, and an on-path set that is updated in place. */
module SignatureWalk {
  import opened Sorting
  import opened Shapes
  import opened Signature

  class SignatureState {
    var active: set<Visit>

    constructor ()
      ensures active == {}
    {
      active := {};
    }

    /** Reports a container already on the path; otherwise puts it there. */
    method Enter(visit: Visit) returns (cyclic: bool)
      modifies this
      ensures cyclic == OnPath(old(active), visit)
      ensures active == if cyclic then old(active) else Signature.Enter(old(active), visit)
    {
      if visit.ptr == 0 {
        return false;
      }
      if visit in active {
        return true;
      }
      active := active + {visit};
      return false;
    }

    /** The deferred undo of a successful `Enter`. */
    method Release(visit: Visit)
      modifies this
      ensures active == if visit.ptr == 0 then old(active) else old(active) - {visit}
    {
      if visit.ptr != 0 {
        active := active - {visit};
      }
    }
  }

  method StructureSignatureValue(h: Heap, v: Value, depth: nat, state: SignatureState) returns (text: string)
    requires depth <= MAX_DEPTH
    modifies state
    ensures text == Sig(h, v, depth, old(state.active))
    ensures state.active == old(state.active)
    decreases MAX_DEPTH - depth, 0, v
  {
    match v
    case Invalid => text := "n";
    case NilInterface => text := "n";
    case Interface(elem) => text := StructureSignatureValue(h, elem, depth, state);
    case Scalar(_) => text := "v";
    case OtherMap => text := "v";
    case NilMap => text := "o{}";
    case NilSlice => text := "a[]";
    case Map(n) =>
      if depth >= MAX_DEPTH { return "x"; }
      var cyclic := state.Enter(h.MapId(n));
      if cyclic { return "c"; }
      text := ObjectSignature(h, h.maps(n).entries, depth + 1, state);
      state.Release(h.MapId(n));
    case Slice(n) =>
      if depth >= MAX_DEPTH { return "x"; }
      var cyclic := state.Enter(h.SliceId(n));
      if cyclic { return "c"; }
      text := ArraySignature(h, h.slices(n).elems, depth + 1, state);
      state.Release(h.SliceId(n));
    case Array(items) =>
      if depth >= MAX_DEPTH { return "x"; }
      text := ArraySignature(h, items, depth + 1, state);
  }

  lemma MembersStep(h: Heap, entries: map<string, Value>, keys: seq<string>, i: nat, depth: nat, active: set<Visit>,
                    text: string)
    requires depth <= MAX_DEPTH && i < |keys| && forall k | k in keys :: k in entries
    ensures text + MembersSig(h, entries, keys[i..], depth, active) ==
            text + keys[i] + ":" + Sig(h, entries[keys[i]], depth, active) + ";"
            + MembersSig(h, entries, keys[i + 1..], depth, active)
  {
    assert keys[i..][1..] == keys[i + 1..];
    Front(text, keys[i], ":", Sig(h, entries[keys[i]], depth, active), ";",
          MembersSig(h, entries, keys[i + 1..], depth, active));
  }

  lemma Front(text: string, a: string, b: string, c: string, d: string, e: string)
    ensures text + (a + b + c + d + e) == text + a + b + c + d + e
  {}

  method ObjectSignature(h: Heap, entries: map<string, Value>, depth: nat, state: SignatureState) returns (text: string)
    requires depth <= MAX_DEPTH
    modifies state
    ensures text == ObjectSig(h, entries, depth, old(state.active))
    ensures state.active == old(state.active)
    decreases MAX_DEPTH - depth, 2
  {
    ghost var active := state.active;
    var keys := SortedKeys(entries);
    text := "o{";
    for i := 0 to |keys|
      invariant state.active == active
      invariant text + MembersSig(h, entries, keys[i..], depth, active) == "o{" + MembersSig(h, entries, keys, depth, active)
    {
      var child := StructureSignatureValue(h, entries[keys[i]], depth, state);
      MembersStep(h, entries, keys, i, depth, active, text);
      text := text + keys[i] + ":" + child + ";";
    }
    text := text + "}";
  }

  lemma ElementSigsNext(h: Heap, elems: seq<Value>, i: nat, depth: nat, active: set<Visit>)
    requires depth <= MAX_DEPTH && i < |elems|
    ensures ElementSigs(h, elems[..i + 1], depth, active) ==
            ElementSigs(h, elems[..i], depth, active) + {Sig(h, elems[i], depth, active)}
  {
    assert elems[..i + 1] == elems[..i] + [elems[i]];
  }

  /** The first loop of `arraySignature`: each element text once. */
  method ElementSignatures(h: Heap, elems: seq<Value>, depth: nat, state: SignatureState) returns (signatures: seq<string>)
    requires depth <= MAX_DEPTH
    modifies state
    ensures Distinct(signatures) && forall s :: s in signatures <==> s in ElementSigs(h, elems, depth, old(state.active))
    ensures state.active == old(state.active)
    decreases MAX_DEPTH - depth, 1
  {
    ghost var active := state.active;
    var seen: set<string> := {};
    signatures := [];
    for i := 0 to |elems|
      invariant state.active == active && seen == ElementSigs(h, elems[..i], depth, active)
      invariant Distinct(signatures) && forall s :: s in signatures <==> s in seen
    {
      var signature := StructureSignatureValue(h, elems[i], depth, state);
      ElementSigsNext(h, elems, i, depth, active);
      if signature !in seen {
        seen := seen + {signature};
        signatures := signatures + [signature];
      }
    }
    assert elems[..|elems|] == elems;
  }

  method ArraySignature(h: Heap, elems: seq<Value>, depth: nat, state: SignatureState) returns (text: string)
    requires depth <= MAX_DEPTH
    modifies state
    ensures text == ArraySig(h, elems, depth, old(state.active))
    ensures state.active == old(state.active)
    decreases MAX_DEPTH - depth, 2
  {
    ghost var active := state.active;
    var signatures := ElementSignatures(h, elems, depth, state);
    SortStringsIsSorted(signatures, ElementSigs(h, elems, depth, active));
    signatures := SortStrings(signatures);
    text := "a[";
    for i := 0 to |signatures|
      invariant state.active == active && text + Items(signatures[i..]) == "a[" + Items(signatures)
    {
      ItemsStep(signatures, i, text);
      text := text + signatures[i] + ",";
    }
    text := text + "]";
  }

  lemma ItemsStep(signatures: seq<string>, i: nat, text: string)
    requires i < |signatures|
    ensures text + Items(signatures[i..]) == text + signatures[i] + "," + Items(signatures[i + 1..])
  {
    assert signatures[i..][1..] == signatures[i + 1..];
    Front(text, signatures[i], ",", Items(signatures[i + 1..]), "", "");
  }
}
