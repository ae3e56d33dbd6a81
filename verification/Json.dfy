/** The lexical layer of JSON text: strings, and everything else. */
module Json {

  predicate IsHex(c: char) {
    '0' <= c <= '9' || 'a' <= c <= 'f' || 'A' <= c <= 'F'
  }

  /** What may stand between the quotes of a JSON string, section 7 of RFC 8259. */
  predicate EscapedText(t: string) {
    if t == "" then true
    else if t[0] != '\\' then t[0] != '"' && t[0] >= ' ' && EscapedText(t[1..])
    else if |t| >= 2 && t[1] == 'u' then
      |t| >= 6 && IsHex(t[2]) && IsHex(t[3]) && IsHex(t[4]) && IsHex(t[5]) && EscapedText(t[6..])
    else |t| >= 2 && t[1] in "\"\\/bfnrt" && EscapedText(t[2..])
  }

  /** A string, or one byte that belongs to no string. */
  datatype Piece = Quoted(text: string) | Mark(c: char)

  predicate ValidPiece(p: Piece) {
    match p
    case Quoted(text) => EscapedText(text)
    case Mark(c) => c != '"' && c != '\\'
  }

  /** JSON text cut into strings and the bytes between them. */
  predicate Lexical(ps: seq<Piece>) {
    forall i | 0 <= i < |ps| :: ValidPiece(ps[i])
  }

  function Text1(p: Piece): string {
    match p
    case Quoted(text) => "\"" + text + "\""
    case Mark(c) => [c]
  }

  function Flat(ps: seq<Piece>): string {
    if ps == [] then "" else Text1(ps[0]) + Flat(ps[1..])
  }

  lemma {:induction false} FlatConcat(ps: seq<Piece>, qs: seq<Piece>)
    ensures Flat(ps + qs) == Flat(ps) + Flat(qs)
  {
    if ps == [] {
      assert ps + qs == qs;
    } else {
      assert (ps + qs)[1..] == ps[1..] + qs;
      FlatConcat(ps[1..], qs);
    }
  }

  // ---------------------------------------------------------------- where a string ends

  /** How far the string that has just been opened reaches, its closing quote included. */
  function Extent(body: string): nat {
    if body == "" then 0
    else if body[0] == '"' then 1
    else if body[0] == '\\' && |body| >= 2 then 2 + Extent(body[2..])
    else 1 + Extent(body[1..])
  }

  lemma {:induction false} ExtentOfEscaped(t: string, rest: string)
    requires EscapedText(t)
    ensures Extent(t + "\"" + rest) == |t| + 1
  {
    var body := t + "\"" + rest;
    if t == "" {
    } else if t[0] != '\\' {
      assert body[1..] == t[1..] + "\"" + rest;
      ExtentOfEscaped(t[1..], rest);
    } else if t[1] == 'u' {
      ExtentOfEscaped(t[6..], rest);
      SkipHex(t, rest);
    } else {
      assert body[2..] == t[2..] + "\"" + rest;
      ExtentOfEscaped(t[2..], rest);
    }
  }

  lemma SkipHex(t: string, rest: string)
    requires |t| >= 6 && t[0] == '\\' && IsHex(t[2]) && IsHex(t[3]) && IsHex(t[4]) && IsHex(t[5])
    ensures Extent(t + "\"" + rest) == 6 + Extent(t[6..] + "\"" + rest)
  {
    var body := t + "\"" + rest;
    assert Extent(body) == 2 + Extent(body[2..]);
    assert body[2..][1..] == body[3..] && body[3..][1..] == body[4..] && body[4..][1..] == body[5..];
    assert body[2..][0] == t[2] && body[3..][0] == t[3] && body[4..][0] == t[4] && body[5..][0] == t[5];
    assert Extent(body[2..]) == 1 + Extent(body[3..]);
    assert Extent(body[3..]) == 1 + Extent(body[4..]);
    assert Extent(body[4..]) == 1 + Extent(body[5..]);
    assert body[5..][1..] == t[6..] + "\"" + rest;
  }

  /** JSON text can be cut in one way only: whether a byte belongs to a string depends on the text alone. */
  lemma {:induction false} LexedOneWay(ps: seq<Piece>, qs: seq<Piece>)
    requires Lexical(ps) && Lexical(qs) && Flat(ps) == Flat(qs)
    ensures ps == qs
  {
    if ps == [] || qs == [] {
    } else {
      SameFirst(ps[0], Flat(ps[1..]), qs[0], Flat(qs[1..]));
      LexedOneWay(ps[1..], qs[1..]);
      assert ps == [ps[0]] + ps[1..] && qs == [qs[0]] + qs[1..];
    }
  }

  /** The string at the front of a text, and what follows it, can be read off the text. */
  lemma QuotedFirst(t: string, rest: string, body: string)
    requires EscapedText(t) && body == "\"" + t + "\"" + rest
    ensures Extent(body[1..]) == |t| + 1 && t == body[1..|t| + 1] && rest == body[|t| + 2..]
  {
    InsideQuotes(t, rest, body);
    ExtentOfEscaped(t, rest);
  }

  lemma InsideQuotes(t: string, rest: string, body: string)
    requires body == "\"" + t + "\"" + rest
    ensures body[1..] == t + "\"" + rest && t == body[1..|t| + 1] && rest == body[|t| + 2..]
  {}

  lemma SameFirst(p: Piece, restP: string, q: Piece, restQ: string)
    requires ValidPiece(p) && ValidPiece(q) && Text1(p) + restP == Text1(q) + restQ
    ensures p == q && restP == restQ
  {
    var body := Text1(p) + restP;
    assert body[0] == Text1(p)[0] && body[0] == Text1(q)[0];
    if p.Quoted? && q.Quoted? {
      QuotedFirst(p.text, restP, body);
      QuotedFirst(q.text, restQ, body);
    } else if p.Mark? && q.Mark? {
      assert restP == body[1..] && restQ == body[1..];
    }
  }

  // ---------------------------------------------------------------- objects

  type Escaped = t: string | EscapedText(t)

  /** JSON without white space outside strings, as `json.Marshal` writes it. */
  predicate Compact(ps: seq<Piece>) {
    Lexical(ps) && forall i | 0 <= i < |ps| && ps[i].Mark? :: ps[i].c > ' '
  }

  type Value = ps: seq<Piece> | Compact(ps)

  datatype Member = Member(name: Escaped, value: Value)

  function MemberPieces(m: Member): seq<Piece> {
    [Quoted(m.name), Mark(':')] + m.value
  }

  /** The members, each with a comma in front. */
  function Following(ms: seq<Member>): seq<Piece> {
    if ms == [] then [] else [Mark(',')] + MemberPieces(ms[0]) + Following(ms[1..])
  }

  function ObjectPieces(ms: seq<Member>): seq<Piece> {
    if ms == [] then [Mark('{'), Mark('}')]
    else [Mark('{')] + MemberPieces(ms[0]) + Following(ms[1..]) + [Mark('}')]
  }

  lemma {:induction false} FollowingConcat(ms: seq<Member>, ns: seq<Member>)
    ensures Following(ms + ns) == Following(ms) + Following(ns)
  {
    if ms == [] {
      assert ms + ns == ns;
    } else {
      assert (ms + ns)[1..] == ms[1..] + ns;
      FollowingConcat(ms[1..], ns);
    }
  }

  lemma CompactConcat(ps: seq<Piece>, qs: seq<Piece>)
    requires Compact(ps) && Compact(qs)
    ensures Compact(ps + qs)
  {}

  lemma {:induction false} FollowingCompact(ms: seq<Member>)
    ensures Compact(Following(ms))
  {
    if ms != [] {
      FollowingCompact(ms[1..]);
      CompactConcat([Quoted(ms[0].name), Mark(':')], ms[0].value);
      CompactConcat([Mark(',')], MemberPieces(ms[0]));
      CompactConcat([Mark(',')] + MemberPieces(ms[0]), Following(ms[1..]));
    }
  }

  lemma ObjectCompact(ms: seq<Member>)
    ensures Compact(ObjectPieces(ms))
  {
    if ms != [] {
      FollowingCompact(ms[1..]);
      CompactConcat([Quoted(ms[0].name), Mark(':')], ms[0].value);
      CompactConcat([Mark('{')], MemberPieces(ms[0]));
      CompactConcat([Mark('{')] + MemberPieces(ms[0]), Following(ms[1..]));
      CompactConcat([Mark('{')] + MemberPieces(ms[0]) + Following(ms[1..]), [Mark('}')]);
    }
  }
}
