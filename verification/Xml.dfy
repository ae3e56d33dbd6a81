/** entry.go: decoding an XML token stream into nested fields, against a meaning defined on trees. */
module Xml {
  import opened Text

  const MAX_DEPTH := 64

  datatype Name = Name(space: string, local: string)

  datatype Attribute = Attribute(name: Name, value: string)

  /** `Other` stands for comments, processing instructions and directives. */
  datatype Token =
    | Start(name: Name, attributes: seq<Attribute>)
    | Chars(text: string)
    | End(name: Name)
    | Other

  datatype Value =
    | Str(text: string)
    | Fields(fields: map<string, Value>)
    | List(items: seq<Value>)

  datatype Error = DepthExceeded | UnexpectedEnd

  datatype Decoded = Failed(error: Error) | Decoded(value: Value, rest: seq<Token>)

  function XmlName(name: Name): string {
    if name.local != "" then name.local else name.space
  }

  // ---------------------------------------------------------------- the decoder, as a function on the stream

  function AttributeFields(attributes: seq<Attribute>): map<string, Value> {
    if attributes == [] then map[]
    else
      var last := attributes[|attributes| - 1];
      AttributeFields(attributes[..|attributes| - 1])["@" + XmlName(last.name) := Str(last.value)]
  }

  function AppendChild(fields: map<string, Value>, key: string, value: Value): map<string, Value> {
    if key !in fields then fields[key := value]
    else
      match fields[key]
      case List(items) => fields[key := List(items + [value])]
      case existing => fields[key := List([existing, value])]
  }

  function AppendText(texts: seq<string>, chars: string): seq<string> {
    if TrimSpace(chars) == "" then texts else texts + [TrimSpace(chars)]
  }

  function Finish(fields: map<string, Value>, texts: seq<string>): Value {
    var text := Join(texts, " ");
    if fields == map[] then if text == "" then Fields(map[]) else Str(text)
    else if text == "" then Fields(fields)
    else Fields(fields["#text" := Str(text)])
  }

  /** The stream ends where the tokenizer reports an error or its end. */
  function Decode(tokens: seq<Token>, name: Name, attributes: seq<Attribute>, depth: nat): (r: Decoded)
    ensures r.Decoded? ==> |r.rest| < |tokens|
    decreases |tokens|, 1
  {
    if depth > MAX_DEPTH then Failed(DepthExceeded)
    else DecodeContent(tokens, name, depth, AttributeFields(attributes), [])
  }

  function DecodeContent(tokens: seq<Token>, name: Name, depth: nat, fields: map<string, Value>, texts: seq<string>):
    (r: Decoded)
    ensures r.Decoded? ==> |r.rest| < |tokens|
    decreases |tokens|, 0
  {
    if tokens == [] then Failed(UnexpectedEnd)
    else
      var rest := tokens[1..];
      match tokens[0]
      case Start(child, attributes) =>
        (match Decode(rest, child, attributes, depth + 1)
         case Failed(error) => Failed(error)
         case Decoded(value, after) =>
           DecodeContent(after, name, depth, AppendChild(fields, XmlName(child), value), texts))
      case Chars(text) => DecodeContent(rest, name, depth, fields, AppendText(texts, text))
      case End(other) =>
        if other != name then DecodeContent(rest, name, depth, fields, texts)
        else Decoded(Finish(fields, texts), rest)
      case Other => DecodeContent(rest, name, depth, fields, texts)
  }

  // ---------------------------------------------------------------- trees, their tokens and their meaning

  datatype Tree = Elem(name: Name, attributes: seq<Attribute>, content: seq<Node>)

  datatype Node = Child(tree: Tree) | Chunk(text: string) | Ignored

  function Tokens(t: Tree): seq<Token>
    decreases t, 1
  {
    [Start(t.name, t.attributes)] + Body(t)
  }

  /** The tokens after the start tag, end tag included. */
  function Body(t: Tree): seq<Token>
    decreases t, 0
  {
    ContentTokens(t.content) + [End(t.name)]
  }

  function ContentTokens(content: seq<Node>): seq<Token>
    decreases content, 0
  {
    if content == [] then [] else NodeTokens(content[0]) + ContentTokens(content[1..])
  }

  function NodeTokens(node: Node): seq<Token>
    decreases node, 2
  {
    match node
    case Child(tree) => Tokens(tree)
    case Chunk(text) => [Chars(text)]
    case Ignored => [Other]
  }

  /** Elements nest at most `n` deep. */
  predicate Within(t: Tree, n: nat)
    decreases t
  {
    n > 0 && forall i | 0 <= i < |t.content| && t.content[i].Child? :: Within(t.content[i].tree, n - 1)
  }

  /** Section 2.3 of XML 1.0: a name starts with neither of the characters that mark attributes and text. */
  predicate ProperNames(t: Tree)
    decreases t
  {
    forall i | 0 <= i < |t.content| && t.content[i].Child? ::
      var key := XmlName(t.content[i].tree.name);
      (key != "" ==> key[0] != '@' && key[0] != '#') && ProperNames(t.content[i].tree)
  }

  function KeysOf(content: seq<Node>): set<string> {
    set i | 0 <= i < |content| && content[i].Child? :: XmlName(content[i].tree.name)
  }

  /** The meanings of the children called `key`, in document order. */
  function Occurrences(content: seq<Node>, key: string): seq<Value>
    decreases content, 0
  {
    if content == [] then []
    else Occurrences(content[..|content| - 1], key) + Occurrence(content[|content| - 1], key)
  }

  function Occurrence(node: Node, key: string): seq<Value>
    decreases node, 2
  {
    if node.Child? && XmlName(node.tree.name) == key then [Meaning(node.tree)] else []
  }

  function OneOrList(values: seq<Value>): Value {
    if |values| == 1 then values[0] else List(values)
  }

  function ChildFields(content: seq<Node>): map<string, Value>
    decreases content, 1
  {
    map key | key in KeysOf(content) :: OneOrList(Occurrences(content, key))
  }

  function TextsOf(content: seq<Node>): seq<string> {
    if content == [] then []
    else
      var last := content[|content| - 1];
      var before := TextsOf(content[..|content| - 1]);
      if last.Chunk? && TrimSpace(last.text) != "" then before + [TrimSpace(last.text)] else before
  }

  /** Attributes under `@`, single children as they are, repeated children as lists, text under `#text`; without
      attributes and children the bare text, or no fields at all. */
  function Meaning(t: Tree): (v: Value)
    ensures !v.List?
    decreases t, 2
  {
    var fields := AttributeFields(t.attributes) + ChildFields(t.content);
    var text := Join(TextsOf(t.content), " ");
    if fields == map[] && text != "" then Str(text)
    else Fields(fields + if text == "" then map[] else map["#text" := Str(text)])
  }
}
