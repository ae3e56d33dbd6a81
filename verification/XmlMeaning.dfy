/** The decoder returns the meaning of every tree up to the depth cap, consumes exactly its tokens, and fails on every
    deeper tree. */
module XmlMeaning {
  import opened Text
  import opened Xml

  // ---------------------------------------------------------------- fields

  lemma {:induction false} AttributeKeys(attributes: seq<Attribute>)
    ensures forall k | k in AttributeFields(attributes) :: k != "" && k[0] == '@'
  {
    if attributes != [] { AttributeKeys(attributes[..|attributes| - 1]); }
  }

  lemma {:induction false} OccurrencesFacts(content: seq<Node>, key: string)
    ensures key in KeysOf(content) <==> Occurrences(content, key) != []
    ensures forall v | v in Occurrences(content, key) :: !v.List?
  {
    if content != [] {
      var n := |content| - 1;
      OccurrencesFacts(content[..n], key);
      if key in KeysOf(content[..n]) {
        var i :| 0 <= i < n && content[i].Child? && XmlName(content[i].tree.name) == key;
      }
      if key in KeysOf(content) {
        var i :| 0 <= i < |content| && content[i].Child? && XmlName(content[i].tree.name) == key;
        assert i < n ==> content[..n][i] == content[i];
      }
    }
  }

  lemma OccurrencesSnoc(content: seq<Node>, node: Node, key: string)
    ensures Occurrences(content + [node], key) == Occurrences(content, key) + Occurrence(node, key)
  {
    assert (content + [node])[..|content|] == content;
  }

  lemma KeysSnoc(content: seq<Node>, node: Node)
    ensures KeysOf(content + [node]) == KeysOf(content) + if node.Child? then {XmlName(node.tree.name)} else {}
  {
    var longer := content + [node];
    forall k | k in KeysOf(longer) ensures k in KeysOf(content) || (node.Child? && k == XmlName(node.tree.name)) {
      var i :| 0 <= i < |longer| && longer[i].Child? && XmlName(longer[i].tree.name) == k;
      if i < |content| { assert content[i] == longer[i]; }
    }
    forall k | k in KeysOf(content) ensures k in KeysOf(longer) {
      var i :| 0 <= i < |content| && content[i].Child? && XmlName(content[i].tree.name) == k;
      assert longer[i] == content[i];
    }
    if node.Child? { assert longer[|content|] == node; }
  }

  /** Adding a node that is no child changes no field. */
  lemma OtherNodeKeepsFields(content: seq<Node>, node: Node)
    requires !node.Child?
    ensures ChildFields(content + [node]) == ChildFields(content)
  {
    KeysSnoc(content, node);
    forall k | k in KeysOf(content) ensures Occurrences(content + [node], k) == Occurrences(content, k) {
      OccurrencesSnoc(content, node, k);
    }
  }

  ghost predicate ProperKey(key: string) {
    key != "" ==> key[0] != '@' && key[0] != '#'
  }

  /** `appendXMLChild` turns the fields of the children so far into those with one more child. */
  lemma ChildExtendsFields(attributes: seq<Attribute>, content: seq<Node>, tree: Tree)
    requires ProperKey(XmlName(tree.name))
    ensures AppendChild(AttributeFields(attributes) + ChildFields(content), XmlName(tree.name), Meaning(tree)) ==
            AttributeFields(attributes) + ChildFields(content + [Child(tree)])
  {
    var key, node := XmlName(tree.name), Child(tree);
    AttributeKeys(attributes);
    OccurrencesFacts(content, key);
    ChildFieldsSnoc(content, node);
    OccurrencesSnoc(content, node, key);
    assert key !in AttributeFields(attributes);
    AppendsToOccurrences(AttributeFields(attributes), ChildFields(content), key, Occurrences(content, key), Meaning(tree));
  }

  lemma AppendsToOccurrences(a: map<string, Value>, fields: map<string, Value>, key: string, values: seq<Value>, v: Value)
    requires key !in a && (key in fields <==> values != [])
    requires (key in fields ==> fields[key] == OneOrList(values)) && forall x | x in values :: !x.List?
    ensures AppendChild(a + fields, key, v) == a + fields[key := OneOrList(values + [v])]
  {
    if key in fields {
      ExistingField(a + fields, key, values, v);
    } else {
      assert values + [v] == [v];
    }
    assert (a + fields)[key := OneOrList(values + [v])] == a + fields[key := OneOrList(values + [v])];
  }

  lemma ExistingField(fields: map<string, Value>, key: string, values: seq<Value>, v: Value)
    requires key in fields && values != [] && fields[key] == OneOrList(values) && forall x | x in values :: !x.List?
    ensures AppendChild(fields, key, v) == fields[key := OneOrList(values + [v])]
  {
    assert OneOrList(values + [v]) == List(values + [v]);
    if |values| == 1 {
      assert values[0] in values && values + [v] == [values[0], v];
    }
  }

  lemma ChildFieldsSnoc(content: seq<Node>, node: Node)
    requires node.Child?
    ensures var key := XmlName(node.tree.name);
            ChildFields(content + [node]) == ChildFields(content)[key := OneOrList(Occurrences(content + [node], key))]
  {
    var key := XmlName(node.tree.name);
    KeysSnoc(content, node);
    forall k | k in KeysOf(content) && k != key ensures Occurrences(content + [node], k) == Occurrences(content, k) {
      OccurrencesSnoc(content, node, k);
    }
  }

  lemma TextsSnoc(content: seq<Node>, node: Node)
    ensures TextsOf(content + [node]) == if node.Chunk? then AppendText(TextsOf(content), node.text) else TextsOf(content)
  {
    assert (content + [node])[..|content|] == content;
  }

  lemma FinishIsMeaning(t: Tree)
    ensures Finish(AttributeFields(t.attributes) + ChildFields(t.content), TextsOf(t.content)) == Meaning(t)
  {
    FinishWith(AttributeFields(t.attributes) + ChildFields(t.content), TextsOf(t.content));
  }

  lemma FinishWith(fields: map<string, Value>, texts: seq<string>)
    ensures var text := Join(texts, " ");
            Finish(fields, texts) == if fields == map[] && text != "" then Str(text)
                                     else Fields(fields + if text == "" then map[] else map["#text" := Str(text)])
  {
    var none: map<string, Value> := map[];
    assert fields + none == fields;
    assert forall v: Value :: fields["#text" := v] == fields + map["#text" := v];
  }

  // ---------------------------------------------------------------- the loop

  /** The decoder in the middle of an element: the first `i` nodes of `t` are done. */
  ghost function At(t: Tree, i: nat, suffix: seq<Token>, depth: nat): Decoded
    requires i <= |t.content|
  {
    DecodeContent(ContentTokens(t.content[i..]) + [End(t.name)] + suffix, t.name, depth,
                  AttributeFields(t.attributes) + ChildFields(t.content[..i]), TextsOf(t.content[..i]))
  }

  lemma DecodeStartsLoop(t: Tree, suffix: seq<Token>, depth: nat)
    requires depth <= MAX_DEPTH
    ensures Decode(Body(t) + suffix, t.name, t.attributes, depth) == At(t, 0, suffix, depth)
  {
    assert t.content[0..] == t.content && t.content[..0] == [];
    assert ChildFields([]) == map[];
    assert AttributeFields(t.attributes) + map[] == AttributeFields(t.attributes);
  }

  lemma LoopEnds(t: Tree, suffix: seq<Token>, depth: nat)
    ensures At(t, |t.content|, suffix, depth) == Decoded(Meaning(t), suffix)
  {
    assert t.content[|t.content|..] == [] && t.content[..|t.content|] == t.content;
    var tokens := [] + [End(t.name)] + suffix;
    assert tokens[0] == End(t.name) && tokens[1..] == suffix;
    FinishIsMeaning(t);
  }

  /** The tokens ahead of node `i`, split at the node's end. */
  lemma TokensAhead(t: Tree, i: nat, suffix: seq<Token>)
    requires i < |t.content|
    ensures ContentTokens(t.content[i..]) + [End(t.name)] + suffix ==
            NodeTokens(t.content[i]) + (ContentTokens(t.content[i + 1..]) + [End(t.name)] + suffix)
  {
    assert t.content[i..][1..] == t.content[i + 1..];
  }

  lemma LoopSkips(t: Tree, i: nat, suffix: seq<Token>, depth: nat)
    requires i < |t.content| && !t.content[i].Child?
    ensures At(t, i, suffix, depth) == At(t, i + 1, suffix, depth)
  {
    var node, ahead := t.content[i], ContentTokens(t.content[i + 1..]) + [End(t.name)] + suffix;
    TokensAhead(t, i, suffix);
    var tokens := NodeTokens(node) + ahead;
    assert tokens[1..] == ahead;
    assert t.content[..i + 1] == t.content[..i] + [node];
    OtherNodeKeepsFields(t.content[..i], node);
    TextsSnoc(t.content[..i], node);
  }

  lemma LoopTakesChild(t: Tree, i: nat, suffix: seq<Token>, depth: nat)
    requires i < |t.content| && t.content[i].Child? && ProperNames(t)
    requires var child := t.content[i].tree;
             var after := ContentTokens(t.content[i + 1..]) + [End(t.name)] + suffix;
             Decode(Body(child) + after, child.name, child.attributes, depth + 1) == Decoded(Meaning(child), after)
    ensures At(t, i, suffix, depth) == At(t, i + 1, suffix, depth)
  {
    var node, child := t.content[i], t.content[i].tree;
    var after := ContentTokens(t.content[i + 1..]) + [End(t.name)] + suffix;
    TokensAhead(t, i, suffix);
    var tokens := NodeTokens(node) + after;
    assert tokens[0] == Start(child.name, child.attributes) && tokens[1..] == Body(child) + after;
    assert t.content[..i + 1] == t.content[..i] + [node];
    ChildExtendsFields(t.attributes, t.content[..i], child);
    TextsSnoc(t.content[..i], node);
  }

  lemma {:induction false} LoopMeaning(t: Tree, i: nat, suffix: seq<Token>, depth: nat)
    requires i <= |t.content| && depth <= MAX_DEPTH && Within(t, MAX_DEPTH + 1 - depth) && ProperNames(t)
    ensures At(t, i, suffix, depth) == Decoded(Meaning(t), suffix)
    decreases t, 0, |t.content| - i
  {
    if i == |t.content| {
      LoopEnds(t, suffix, depth);
    } else {
      if t.content[i].Child? {
        var after := ContentTokens(t.content[i + 1..]) + [End(t.name)] + suffix;
        DecodeIsMeaning(t.content[i].tree, after, depth + 1);
        LoopTakesChild(t, i, suffix, depth);
      } else {
        LoopSkips(t, i, suffix, depth);
      }
      LoopMeaning(t, i + 1, suffix, depth);
    }
  }

  /** Main result: on the tokens of a tree within the cap, followed by anything, the decoder returns the tree's
      meaning and stops right after the tree. */
  lemma {:induction false} DecodeIsMeaning(t: Tree, suffix: seq<Token>, depth: nat)
    requires depth <= MAX_DEPTH + 1 && Within(t, MAX_DEPTH + 1 - depth) && ProperNames(t)
    ensures Decode(Body(t) + suffix, t.name, t.attributes, depth) == Decoded(Meaning(t), suffix)
    decreases t, 1, 0
  {
    DecodeStartsLoop(t, suffix, depth);
    LoopMeaning(t, 0, suffix, depth);
  }

  // ---------------------------------------------------------------- deeper trees

  /** At the first child that is too deep the loop fails, whatever follows. */
  lemma {:induction false} LoopFails(t: Tree, i: nat, suffix: seq<Token>, depth: nat)
    requires i <= |t.content| && depth <= MAX_DEPTH && ProperNames(t)
    requires exists j :: i <= j < |t.content| && t.content[j].Child? && !Within(t.content[j].tree, MAX_DEPTH - depth)
    ensures At(t, i, suffix, depth) == Failed(DepthExceeded)
    decreases t, 0, |t.content| - i
  {
    var after := ContentTokens(t.content[i + 1..]) + [End(t.name)] + suffix;
    if t.content[i].Child? {
      var child := t.content[i].tree;
      if Within(child, MAX_DEPTH - depth) {
        DecodeIsMeaning(child, after, depth + 1);
        LoopTakesChild(t, i, suffix, depth);
        LoopFails(t, i + 1, suffix, depth);
      } else {
        DeeperFails(child, after, depth + 1);
        TokensAhead(t, i, suffix);
        var tokens := NodeTokens(t.content[i]) + after;
        assert tokens[0] == Start(child.name, child.attributes) && tokens[1..] == Body(child) + after;
      }
    } else {
      LoopSkips(t, i, suffix, depth);
      LoopFails(t, i + 1, suffix, depth);
    }
  }

  lemma {:induction false} DeeperFails(t: Tree, suffix: seq<Token>, depth: nat)
    requires depth <= MAX_DEPTH + 1 && !Within(t, MAX_DEPTH + 1 - depth) && ProperNames(t)
    ensures Decode(Body(t) + suffix, t.name, t.attributes, depth) == Failed(DepthExceeded)
    decreases t, 1, 0
  {
    if depth <= MAX_DEPTH {
      DecodeStartsLoop(t, suffix, depth);
      LoopFails(t, 0, suffix, depth);
    }
  }

  // ---------------------------------------------------------------- the loops of the source

  class TokenStream {
    var tokens: seq<Token>

    constructor (tokens: seq<Token>)
      ensures this.tokens == tokens
    {
      this.tokens := tokens;
    }

    /** `decoder.Token()`: the next token, or nothing where the tokenizer reports an error or its end. */
    method Next() returns (ok: bool, token: Token)
      modifies this
      ensures ok <==> old(tokens) != []
      ensures if ok then token == old(tokens)[0] && tokens == old(tokens)[1..] else tokens == old(tokens)
    {
      ok, token := tokens != [], Other;
      if ok {
        token := tokens[0];
        tokens := tokens[1..];
      }
    }
  }

  method AttributeMap(attributes: seq<Attribute>) returns (fields: map<string, Value>)
    ensures fields == AttributeFields(attributes)
  {
    fields := map[];
    for i := 0 to |attributes|
      invariant fields == AttributeFields(attributes[..i])
    {
      assert attributes[..i + 1][..i] == attributes[..i];
      fields := fields["@" + XmlName(attributes[i].name) := Str(attributes[i].value)];
    }
    assert attributes[..|attributes|] == attributes;
  }

  /** `decodeXMLElement`: reads the stream up to the end of the element whose start tag was just read. */
  method DecodeXMLElement(decoder: TokenStream, name: Name, attributes: seq<Attribute>, depth: nat) returns (r: Decoded)
    modifies decoder
    ensures r == Decode(old(decoder.tokens), name, attributes, depth)
    ensures r.Decoded? ==> decoder.tokens == r.rest
    decreases |decoder.tokens|
  {
    if depth > MAX_DEPTH { return Failed(DepthExceeded); }
    var fields := AttributeMap(attributes);
    var textParts: seq<string> := [];
    while true
      invariant |decoder.tokens| <= |old(decoder.tokens)|
      invariant DecodeContent(decoder.tokens, name, depth, fields, textParts)
             == Decode(old(decoder.tokens), name, attributes, depth)
      decreases |decoder.tokens|
    {
      var ok, token := decoder.Next();
      if !ok { return Failed(UnexpectedEnd); }
      match token
      case Start(child, childAttributes) =>
        var decoded := DecodeXMLElement(decoder, child, childAttributes, depth + 1);
        match decoded {
          case Failed(error) => return Failed(error);
          case Decoded(value, _) => fields := AppendChild(fields, XmlName(child), value);
        }
      case Chars(text) =>
        textParts := AppendText(textParts, text);
      case End(other) =>
        if other == name { return Decoded(Finish(fields, textParts), decoder.tokens); }
      case Other =>
    }
  }

  function NextStart(tokens: seq<Token>): (i: nat)
    ensures i <= |tokens| && (i < |tokens| ==> tokens[i].Start?) && forall j | 0 <= j < i :: !tokens[j].Start?
  {
    if tokens == [] || tokens[0].Start? then 0 else 1 + NextStart(tokens[1..])
  }

  /** The element of the first start tag, as the one field of its name. */
  function DocumentOf(tokens: seq<Token>): Decoded {
    var i := NextStart(tokens);
    if i == |tokens| then Failed(UnexpectedEnd)
    else
      match Decode(tokens[i + 1..], tokens[i].name, tokens[i].attributes, 1)
      case Failed(error) => Failed(error)
      case Decoded(value, rest) => Decoded(Fields(map[XmlName(tokens[i].name) := value]), rest)
  }

  /** `parseXMLBody`: skips to the first start tag and wraps its element. */
  method ParseXMLBody(tokens: seq<Token>) returns (r: Decoded)
    ensures r == DocumentOf(tokens)
  {
    var decoder := new TokenStream(tokens);
    ghost var i := 0;
    while true
      invariant i <= |tokens| && decoder.tokens == tokens[i..] && NextStart(tokens) == i + NextStart(tokens[i..])
      decreases |tokens| - i
    {
      var ok, token := decoder.Next();
      if !ok { return Failed(UnexpectedEnd); }
      if token.Start? {
        var element := DecodeXMLElement(decoder, token.name, token.attributes, 1);
        match element
        case Failed(error) => return Failed(error);
        case Decoded(value, rest) => return Decoded(Fields(map[XmlName(token.name) := value]), rest);
      }
      assert tokens[i..][1..] == tokens[i + 1..];
      i := i + 1;
    }
  }

  lemma AfterProlog(prolog: seq<Token>, start: Token, body: seq<Token>, epilog: seq<Token>)
    requires start.Start? && forall i | 0 <= i < |prolog| :: !prolog[i].Start?
    ensures var tokens := prolog + ([start] + body) + epilog;
            NextStart(tokens) == |prolog| && tokens[|prolog| + 1..] == body + epilog
  {
    var tokens := prolog + ([start] + body) + epilog;
    assert tokens[|prolog|] == start && forall i | 0 <= i < |prolog| :: tokens[i] == prolog[i];
  }

  lemma DocumentAt(tokens: seq<Token>, i: nat, name: Name, attributes: seq<Attribute>, rest: seq<Token>)
    requires i < |tokens| && NextStart(tokens) == i && tokens[i] == Start(name, attributes) && tokens[i + 1..] == rest
    ensures DocumentOf(tokens) == match Decode(rest, name, attributes, 1)
                                  case Failed(error) => Failed(error)
                                  case Decoded(value, after) => Decoded(Fields(map[XmlName(name) := value]), after)
  {}

  lemma RootDecodes(t: Tree, epilog: seq<Token>)
    requires ProperNames(t)
    ensures Decode(Body(t) + epilog, t.name, t.attributes, 1) ==
            if Within(t, MAX_DEPTH) then Decoded(Meaning(t), epilog) else Failed(DepthExceeded)
  {
    if Within(t, MAX_DEPTH) { DecodeIsMeaning(t, epilog, 1); } else { DeeperFails(t, epilog, 1); }
  }

  /** A document: tokens before the root, the root, anything after it. It is parsed exactly if it nests at most 64
      deep, and then into its root's meaning as the one field of the root's name. */
  lemma DocumentIsParsed(prolog: seq<Token>, t: Tree, epilog: seq<Token>)
    requires ProperNames(t) && forall i | 0 <= i < |prolog| :: !prolog[i].Start?
    ensures var tokens := prolog + Tokens(t) + epilog;
            DocumentOf(tokens) == if Within(t, 64) then Decoded(Fields(map[XmlName(t.name) := Meaning(t)]), epilog)
                                  else Failed(DepthExceeded)
  {
    var tokens := prolog + Tokens(t) + epilog;
    AfterProlog(prolog, Start(t.name, t.attributes), Body(t), epilog);
    assert tokens[|prolog|] == Tokens(t)[0];
    DocumentAt(tokens, |prolog|, t.name, t.attributes, Body(t) + epilog);
    RootDecodes(t, epilog);
  }

  // ---------------------------------------------------------------- what the fields of an element are

  /** The name without its name space, or the name space where there is nothing else. */
  predicate Called(name: Name, text: string) {
    text == if name.local != "" then name.local else name.space
  }

  /** Attribute i has this name, and no later one has. */
  ghost predicate LastCalled(attributes: seq<Attribute>, text: string, i: nat) {
    i < |attributes| && Called(attributes[i].name, text) && forall j | i < j < |attributes| :: !Called(attributes[j].name, text)
  }

  lemma {:induction false} AttributeFieldIs(attributes: seq<Attribute>, text: string, i: nat)
    requires LastCalled(attributes, text, i)
    ensures "@" + text in AttributeFields(attributes)
    ensures AttributeFields(attributes)["@" + text] == Str(attributes[i].value)
  {
    var n := |attributes| - 1;
    if i < n {
      AttributeFieldIs(attributes[..n], text, i);
      SameMark(XmlName(attributes[n].name), text);
    }
  }

  lemma SameMark(a: string, b: string)
    ensures "@" + a == "@" + b <==> a == b
  {
    assert ("@" + a)[1..] == a && ("@" + b)[1..] == b;
  }

  lemma {:induction false} EveryAttributeField(attributes: seq<Attribute>, key: string)
    requires key in AttributeFields(attributes)
    ensures exists i: nat, text :: key == "@" + text && LastCalled(attributes, text, i)
  {
    var n := |attributes| - 1;
    var text := XmlName(attributes[n].name);
    if key == "@" + text {
      assert LastCalled(attributes, text, n);
    } else {
      EveryAttributeField(attributes[..n], key);
      var i: nat, t :| key == "@" + t && LastCalled(attributes[..n], t, i);
      SameMark(text, t);
      assert LastCalled(attributes, t, i);
    }
  }

  lemma ChildKeys(t: Tree, key: string)
    requires ProperNames(t) && key in ChildFields(t.content)
    ensures key == "" || (key[0] != '@' && key[0] != '#')
    ensures exists i :: 0 <= i < |t.content| && t.content[i].Child? && Called(t.content[i].tree.name, key)
  {
    var i :| 0 <= i < |t.content| && t.content[i].Child? && XmlName(t.content[i].tree.name) == key;
  }

  /** An element with attributes has a field `@` and the name for each, with the value of the last attribute of that
      name. */
  lemma AttributesAreKept(t: Tree, text: string, i: nat)
    requires ProperNames(t) && LastCalled(t.attributes, text, i)
    ensures Meaning(t).Fields? && "@" + text in Meaning(t).fields
    ensures Meaning(t).fields["@" + text] == Str(t.attributes[i].value)
  {
    AttributeFieldIs(t.attributes, text, i);
    var a, f, key := AttributeFields(t.attributes), ChildFields(t.content), "@" + text;
    if key in f { ChildKeys(t, key); }
    assert key in a + f && a + f != map[];
    assert key[0] == '@' && "#text"[0] == '#';
  }

  /** No other field starts with `@`. */
  lemma OnlyAttributesAreMarked(t: Tree, key: string)
    requires ProperNames(t) && Meaning(t).Fields? && key in Meaning(t).fields && key != "" && key[0] == '@'
    ensures exists i: nat, text :: key == "@" + text && LastCalled(t.attributes, text, i)
  {
    if key in ChildFields(t.content) { ChildKeys(t, key); }
    assert key != "#text" && key in AttributeFields(t.attributes);
    EveryAttributeField(t.attributes, key);
  }

  /** The field of a name holds the meanings of the children with that name, in document order: the meaning itself if
      there is one, a list if there are more. */
  lemma ChildrenAreKept(t: Tree, i: nat)
    requires ProperNames(t) && i < |t.content| && t.content[i].Child?
    ensures var name := t.content[i].tree.name;
            var key := if name.local != "" then name.local else name.space;
            && Meaning(t).Fields? && key in Meaning(t).fields
            && Meaning(t).fields[key] == (var all := Occurrences(t.content, key); if |all| == 1 then all[0] else List(all))
            && Meaning(t.content[i].tree) in Occurrences(t.content, key)
  {
    var key := XmlName(t.content[i].tree.name);
    assert key in KeysOf(t.content) && key in ChildFields(t.content);
    ChildKeys(t, key);
    var fields := AttributeFields(t.attributes) + ChildFields(t.content);
    assert key in fields && fields != map[] && fields[key] == ChildFields(t.content)[key];
    assert key != "#text";
    OccursAt(t.content, i);
  }

  lemma {:induction false} OccursAt(content: seq<Node>, i: nat)
    requires i < |content| && content[i].Child?
    ensures Meaning(content[i].tree) in Occurrences(content, XmlName(content[i].tree.name))
  {
    var n := |content| - 1;
    if i < n {
      OccursAt(content[..n], i);
      assert content[..n][i] == content[i];
    }
  }

  /** The meanings of the children of a name come in document order, and nothing else is among them. */
  lemma {:induction false} OccurrencesAre(a: seq<Node>, b: seq<Node>, node: Node, key: string)
    ensures Occurrences(a + b, key) == Occurrences(a, key) + Occurrences(b, key)
    ensures Occurrences([node], key) == if node.Child? && Called(node.tree.name, key) then [Meaning(node.tree)] else []
    decreases |b|
  {
    assert [node] == [] + [node];
    OccurrencesSnoc([], node, key);
    if b == [] {
      assert a + b == a;
    } else {
      var n := |b| - 1;
      OccurrencesAre(a, b[..n], node, key);
      OccurrencesSnoc(a + b[..n], b[n], key);
      assert a + b == a + b[..n] + [b[n]];
    }
  }

  /** The texts of an element are its text chunks in document order, without the blank ones and without the white space
      around them. */
  lemma TextsAre(a: seq<Node>, b: seq<Node>, node: Node)
    ensures TextsOf(a + b) == TextsOf(a) + TextsOf(b)
    ensures TextsOf([node]) == if node.Chunk? && TrimSpace(node.text) != "" then [TrimSpace(node.text)] else []
  {
    TextsConcat(a, b);
    assert [node][..0] == [];
  }

  lemma TextsNext(content: seq<Node>, node: Node)
    ensures TextsOf(content + [node]) == TextsOf(content) + TextsOf([node])
  {
    assert (content + [node])[..|content|] == content && [node][..0] == [];
  }

  lemma {:induction false} TextsConcat(a: seq<Node>, b: seq<Node>)
    ensures TextsOf(a + b) == TextsOf(a) + TextsOf(b)
    decreases |b|
  {
    if b == [] {
      assert a + b == a;
    } else {
      var front, last := b[..|b| - 1], b[|b| - 1];
      TextsConcat(a, front);
      TextsNext(a + front, last);
      TextsNext(front, last);
      assert b == front + [last] && a + b == a + front + [last];
    }
  }

  /** An element without attributes and children is its text, or no fields at all; any other has its text, if any, under
      `#text`. The texts are joined by single spaces. */
  lemma TextIsKept(t: Tree)
    requires ProperNames(t)
    ensures var text := Join(TextsOf(t.content), " ");
            var plain := t.attributes == [] && forall i | 0 <= i < |t.content| :: !t.content[i].Child?;
            if plain && text != "" then Meaning(t) == Str(text)
            else Meaning(t).Fields? && (plain <==> Meaning(t).fields == map[])
                 && ("#text" in Meaning(t).fields <==> text != "")
                 && (text != "" ==> Meaning(t).fields["#text"] == Str(text))
  {
    var fields := AttributeFields(t.attributes) + ChildFields(t.content);
    AttributeKeys(t.attributes);
    if t.attributes != [] {
      assert "@" + XmlName(t.attributes[|t.attributes| - 1].name) in fields;
    }
    forall i | 0 <= i < |t.content| && t.content[i].Child? ensures fields != map[] {
      assert XmlName(t.content[i].tree.name) in KeysOf(t.content);
      assert XmlName(t.content[i].tree.name) in fields;
    }
    assert "#text" !in ChildFields(t.content) by {
      if "#text" in ChildFields(t.content) { ChildKeys(t, "#text"); }
    }
  }
}
