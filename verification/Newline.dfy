/** entry.go and the byte handling of both sinks: the line break after the summary, and appended metric fields. */
module Newline {
  import opened Json

  // ---------------------------------------------------------------- the scanner

  datatype Lexer = Outside | Inside | Escaping

  function Step(state: Lexer, c: char): Lexer {
    match state
    case Escaping => Inside
    case Inside => if c == '\\' then Escaping else if c == '"' then Outside else Inside
    case Outside => if c == '"' then Inside else Outside
  }

  /** How many bytes come before the first comma outside a string; all of them if there is none. */
  function CommaAt(body: string, state: Lexer): (k: nat)
    ensures k <= |body|
  {
    if body == "" || (state == Outside && body[0] == ',') then 0
    else 1 + CommaAt(body[1..], Step(state, body[0]))
  }

  function BrokenAt(body: string, k: nat): string
    requires k <= |body|
  {
    if k == |body| then body else body[..k + 1] + "\n" + body[k + 1..]
  }

  function Broken(body: string): string {
    BrokenAt(body, CommaAt(body, Outside))
  }

  /** `insertNewlineAfterSummary`. */
  method InsertNewlineAfterSummary(body: string) returns (r: string)
    ensures r == Broken(body)
  {
    var inString, escaped := false, false;
    ghost var state := Outside;
    for index := 0 to |body|
      invariant state == if escaped then Escaping else if inString then Inside else Outside
      invariant escaped ==> inString
      invariant CommaAt(body, Outside) == index + CommaAt(body[index..], state)
    {
      var current := body[index];
      assert body[index..][1..] == body[index + 1..];
      state := Step(state, current);
      if escaped {
        escaped := false;
        continue;
      }
      if current == '\\' {
        if inString { escaped := true; }
      } else if current == '"' {
        inString := !inString;
      } else if current == ',' {
        if !inString {
          return body[..index + 1] + "\n" + body[index + 1..];
        }
      }
    }
    return body;
  }

  // ---------------------------------------------------------------- where the line break goes

  /** A line break after the first comma that belongs to no string. */
  function BrokenPieces(ps: seq<Piece>): seq<Piece> {
    if ps == [] then []
    else if ps[0] == Mark(',') then [ps[0], Mark('\n')] + ps[1..]
    else [ps[0]] + BrokenPieces(ps[1..])
  }

  lemma {:induction false} SkipEscaped(t: string, rest: string)
    requires EscapedText(t)
    ensures CommaAt(t + "\"" + rest, Inside) == |t| + 1 + CommaAt(rest, Outside)
  {
    var body := t + "\"" + rest;
    if t == "" {
      assert body[1..] == rest;
    } else if t[0] != '\\' {
      assert body[1..] == t[1..] + "\"" + rest;
      SkipEscaped(t[1..], rest);
    } else {
      SkipPair(t, rest);
      if t[1] == 'u' {
        SkipPlain(t[2..], rest);
        SkipPlain(t[3..], rest);
        SkipPlain(t[4..], rest);
        SkipPlain(t[5..], rest);
        SkipEscaped(t[6..], rest);
      } else {
        SkipEscaped(t[2..], rest);
      }
    }
  }

  lemma SkipPair(t: string, rest: string)
    requires |t| >= 2 && t[0] == '\\'
    ensures CommaAt(t + "\"" + rest, Inside) == 2 + CommaAt(t[2..] + "\"" + rest, Inside)
  {
    var body := t + "\"" + rest;
    assert body[1..][1..] == t[2..] + "\"" + rest;
    assert CommaAt(body, Inside) == 1 + CommaAt(body[1..], Escaping);
  }

  lemma SkipPlain(t: string, rest: string)
    requires t != "" && IsHex(t[0])
    ensures CommaAt(t + "\"" + rest, Inside) == 1 + CommaAt(t[1..] + "\"" + rest, Inside)
  {
    assert (t + "\"" + rest)[1..] == t[1..] + "\"" + rest;
  }

  /** On any JSON text the scanner puts one line break right after the first comma outside every string; text without
      such a comma is left alone. */
  lemma {:induction false} BreaksOutsideStrings(ps: seq<Piece>)
    requires Lexical(ps)
    ensures Broken(Flat(ps)) == Flat(BrokenPieces(ps))
  {
    if ps != [] {
      BreaksOutsideStrings(ps[1..]);
      if ps[0] == Mark(',') {
        BreakHere(Flat(ps[1..]));
        FlatCons(Mark('\n'), ps[1..]);
        FlatCons(Mark(','), [Mark('\n')] + ps[1..]);
        assert BrokenPieces(ps) == [Mark(',')] + ([Mark('\n')] + ps[1..]);
      } else {
        BreakAfter(ps[0], Flat(ps[1..]));
        FlatCons(ps[0], BrokenPieces(ps[1..]));
      }
    }
  }

  lemma FlatCons(p: Piece, ps: seq<Piece>)
    ensures Flat([p] + ps) == Text1(p) + Flat(ps)
  {
    assert ([p] + ps)[1..] == ps;
  }

  lemma BreakAfter(p: Piece, rest: string)
    requires ValidPiece(p) && p != Mark(',')
    ensures Broken(Text1(p) + rest) == Text1(p) + Broken(rest)
  {
    SkipPiece(p, rest);
    BreakLater(Text1(p), rest, CommaAt(rest, Outside));
  }

  lemma SkipPiece(p: Piece, rest: string)
    requires ValidPiece(p)
    ensures p != Mark(',') ==> CommaAt(Text1(p) + rest, Outside) == |Text1(p)| + CommaAt(rest, Outside)
  {
    match p
    case Quoted(t) =>
      assert (Text1(p) + rest)[1..] == t + "\"" + rest;
      SkipEscaped(t, rest);
    case Mark(c) =>
      assert (Text1(p) + rest)[1..] == rest;
  }

  lemma BreakHere(rest: string)
    ensures Broken("," + rest) == "," + ("\n" + rest)
  {
    assert ("," + rest)[..1] == "," && ("," + rest)[1..] == rest;
  }

  lemma BreakLater(first: string, rest: string, k: nat)
    requires k <= |rest|
    ensures BrokenAt(first + rest, |first| + k) == first + BrokenAt(rest, k)
  {
    if k < |rest| {
      assert (first + rest)[..|first| + k + 1] == first + rest[..k + 1];
      assert (first + rest)[|first| + k + 1..] == rest[k + 1..];
      assert first + rest[..k + 1] + "\n" + rest[k + 1..] == first + (rest[..k + 1] + "\n" + rest[k + 1..]);
    }
  }
}
