/** config.go and retry.go: the text of a status-code list, and the set of codes it stands for. */
module StatusCodes {
  import opened Text
  import opened RetryPolicy
  import RetryLoop

  // ---------------------------------------------------------------- strings

  function IndexOf(s: string, c: char): (k: nat)
    ensures k <= |s| && (k < |s| ==> s[k] == c) && c !in s[..k]
  {
    if s == "" || s[0] == c then 0
    else
      var k := 1 + IndexOf(s[1..], c);
      assert s[..k] == [s[0]] + s[1..][..k - 1];
      k
  }

  /** Go's `strings.Split` by one character. */
  function Split(s: string, c: char): (parts: seq<string>)
    ensures parts != []
    decreases |s|
  {
    var k := IndexOf(s, c);
    if k == |s| then [s] else [s[..k]] + Split(s[k + 1..], c)
  }

  // ---------------------------------------------------------------- numbers

  const INT_LIMIT: nat := 0x8000_0000_0000_0000

  predicate IsDigit(c: char) {
    '0' <= c <= '9'
  }

  predicate AllDigits(s: string) {
    forall i | 0 <= i < |s| :: IsDigit(s[i])
  }

  function DigitsValue(s: string): nat
    requires AllDigits(s)
  {
    if s == "" then 0
    else
      var last := s[|s| - 1];
      assert IsDigit(last);
      10 * DigitsValue(s[..|s| - 1]) + (last as int - '0' as int)
  }

  datatype Number = NotANumber | Number(value: int)

  /** Go's `strconv.Atoi`: an optional sign and digits, within 64 bits. */
  function Atoi(s: string): Number {
    var digits := if s != "" && s[0] in "+-" then s[1..] else s;
    if digits == "" || !AllDigits(digits) then NotANumber
    else
      var n: int := DigitsValue(digits);
      if s[0] == '-' then (if n <= INT_LIMIT then Number(-n) else NotANumber)
      else if n < INT_LIMIT then Number(n) else NotANumber
  }

  // ---------------------------------------------------------------- one token

  datatype Result = Ok(codes: seq<int>) | Invalid(token: string)

  predicate IsCode(c: int) {
    100 <= c <= 599
  }

  /** The codes between two bounds in either order, ascending. */
  function Between(first: int, last: int): seq<int> {
    var low, high := if first > last then last else first, if first > last then first else last;
    seq(high - low + 1, (i: nat) => low + i)
  }

  /** `statusCodeListFromRange`. */
  method StatusCodeListFromRange(first: int, last: int) returns (codes: seq<int>)
    ensures codes == Between(first, last)
  {
    var low, high := first, last;
    if low > high { low, high := high, low; }
    codes := [];
    for code := low to high + 1
      invariant codes == seq(code - low, (i: nat) => low + i)
    {
      codes := codes + [code];
    }
  }

  function TokenCodes(token: string): Result {
    CoreCodes(TrimSpace(token))
  }

  /** The codes of a token without white space around it. */
  function CoreCodes(t: string): Result {
    var k := IndexOf(t, '-');
    if k == |t| then
      var n := Atoi(t);
      if n.Number? && IsCode(n.value) then Ok([n.value]) else Invalid(t)
    else
      var first, last := Atoi(TrimSpace(t[..k])), Atoi(TrimSpace(t[k + 1..]));
      if first.Number? && last.Number? && IsCode(first.value) && IsCode(last.value)
      then Ok(Between(first.value, last.value)) else Invalid(t)
  }

  /** `parseStatusCodeToken`; every error names the trimmed token. */
  method ParseStatusCodeToken(text: string) returns (r: Result)
    ensures r == TokenCodes(text)
  {
    var token := TrimSpace(text);
    if token == "" { return Invalid(token); }
    var dash := IndexOf(token, '-');
    if dash < |token| {
      var first := Atoi(TrimSpace(token[..dash]));
      if first.NotANumber? { return Invalid(token); }
      var last := Atoi(TrimSpace(token[dash + 1..]));
      if last.NotANumber? { return Invalid(token); }
      if first.value < 100 || first.value > 599 || last.value < 100 || last.value > 599 { return Invalid(token); }
      var codes := StatusCodeListFromRange(first.value, last.value);
      return Ok(codes);
    }
    var code := Atoi(token);
    if code.NotANumber? { return Invalid(token); }
    if code.value < 100 || code.value > 599 { return Invalid(token); }
    return Ok([code.value]);
  }

  // ---------------------------------------------------------------- the list

  /** The codes of all tokens in order, or the first token that is not one. */
  function AllCodes(tokens: seq<string>): Result {
    if tokens == [] then Ok([])
    else
      var before := AllCodes(tokens[..|tokens| - 1]);
      if before.Invalid? then before
      else
        var next := TokenCodes(tokens[|tokens| - 1]);
        if next.Invalid? then next else Ok(before.codes + next.codes)
  }

  function Trimmed(parts: seq<string>): seq<string> {
    seq(|parts|, i requires 0 <= i < |parts| => TrimSpace(parts[i]))
  }

  function CodesOf(raw: string): Result {
    if TrimSpace(raw) == "" then Ok([]) else AllCodes(Trimmed(Split(TrimSpace(raw), ',')))
  }

  /** `parseStatusCodesEnv` on the variable's value, or on the fallback. */
  method ParseStatusCodesEnv(value: string) returns (r: Result)
    ensures r == CodesOf(value)
  {
    var raw := TrimSpace(value);
    if raw == "" { return Ok([]); }
    var parts := Split(raw, ',');
    var statusCodes := [];
    ghost var tokens := Trimmed(parts);
    for i := 0 to |parts|
      invariant AllCodes(tokens[..i]) == Ok(statusCodes)
    {
      var parsed := ParseStatusCodeToken(TrimSpace(parts[i]));
      if parsed.Invalid? {
        FirstInvalid(tokens, i);
        return parsed;
      }
      NextCodes(tokens, i);
      statusCodes := statusCodes + parsed.codes;
    }
    assert tokens[..|tokens|] == tokens;
    return Ok(statusCodes);
  }

  lemma NextCodes(tokens: seq<string>, i: nat)
    requires i < |tokens| && AllCodes(tokens[..i]).Ok? && TokenCodes(tokens[i]).Ok?
    ensures AllCodes(tokens[..i + 1]) == Ok(AllCodes(tokens[..i]).codes + TokenCodes(tokens[i]).codes)
  {
    assert tokens[..i + 1][..i] == tokens[..i] && tokens[..i + 1][i] == tokens[i];
  }

  lemma {:induction false} FirstInvalid(tokens: seq<string>, i: nat)
    requires i < |tokens| && AllCodes(tokens[..i]).Ok? && TokenCodes(tokens[i]).Invalid?
    ensures AllCodes(tokens) == TokenCodes(tokens[i])
  {
    if i < |tokens| - 1 {
      var shorter := tokens[..|tokens| - 1];
      assert shorter[..i] == tokens[..i] && shorter[i] == tokens[i];
      FirstInvalid(shorter, i);
      assert AllCodes(shorter).Invalid?;
    }
  }

  /** Nothing outside 100 to 599 is ever accepted. */
  lemma {:induction false} OnlyCodes(tokens: seq<string>)
    requires AllCodes(tokens).Ok?
    ensures forall c | c in AllCodes(tokens).codes :: IsCode(c)
  {
    if tokens != [] { OnlyCodes(tokens[..|tokens| - 1]); }
  }

  // ---------------------------------------------------------------- printed lists

  /** What an operator may ask for. */
  datatype Item = One(code: int) | Range(first: int, last: int)

  predicate ValidItem(item: Item) {
    match item
    case One(code) => IsCode(code)
    case Range(first, last) => IsCode(first) && IsCode(last)
  }

  predicate Includes(item: Item, c: int) {
    match item
    case One(code) => c == code
    case Range(first, last) => first <= c <= last || last <= c <= first
  }

  /** An item with white space around it and around its dash. */
  datatype Token = Token(item: Item, left: string, beforeDash: string, afterDash: string, right: string)

  predicate ValidToken(t: Token) {
    ValidItem(t.item) && Blank(t.left) && Blank(t.beforeDash) && Blank(t.afterDash) && Blank(t.right)
  }

  function Decimal(n: nat): string {
    if n < 10 then ['0' + n as char] else Decimal(n / 10) + ['0' + (n % 10) as char]
  }

  function CoreText(t: Token): string
    requires ValidItem(t.item)
  {
    match t.item
    case One(code) => Decimal(code)
    case Range(first, last) => (Decimal(first) + t.beforeDash) + "-" + (t.afterDash + Decimal(last))
  }

  function TokenText(t: Token): string
    requires ValidItem(t.item)
  {
    t.left + CoreText(t) + t.right
  }

  function Texts(tokens: seq<Token>): seq<string>
    requires forall i | 0 <= i < |tokens| :: ValidItem(tokens[i].item)
  {
    seq(|tokens|, i requires 0 <= i < |tokens| => TokenText(tokens[i]))
  }

  // ---------------------------------------------------------------- reading a number back

  lemma {:induction false} DecimalRead(n: nat)
    ensures Decimal(n) != "" && AllDigits(Decimal(n)) && DigitsValue(Decimal(n)) == n
  {
    var s := Decimal(n);
    if n >= 10 {
      DecimalRead(n / 10);
      assert s[..|s| - 1] == Decimal(n / 10);
    } else {
      assert s[..0] == "" && DigitsValue("") == 0;
    }
  }

  lemma AtoiRead(n: nat)
    requires n < INT_LIMIT
    ensures Atoi(Decimal(n)) == Number(n)
  {
    DecimalRead(n);
    assert IsDigit(Decimal(n)[0]);
  }

  // ---------------------------------------------------------------- white space

  lemma TrimDropsFirst(c: char, s: string)
    requires IsSpace(c)
    ensures TrimSpace([c] + s) == TrimSpace(s)
  {
    assert ([c] + s)[1..] == s;
  }

  lemma {:induction false} TrimDropsLast(s: string, c: char)
    requires IsSpace(c)
    ensures TrimSpace(s + [c]) == TrimSpace(s)
  {
    if s == "" {
      assert s + [c] == [c] + "";
      TrimDropsFirst(c, "");
    } else if IsSpace(s[0]) {
      assert (s + [c])[1..] == s[1..] + [c];
      TrimDropsLast(s[1..], c);
    } else {
      assert (s + [c])[..|s|] == s;
    }
  }

  lemma {:induction false} TrimPadded(left: string, s: string, right: string)
    requires Blank(left) && Blank(right)
    ensures TrimSpace(left + s + right) == TrimSpace(s)
    decreases |left| + |right|
  {
    if left != "" {
      assert left + s + right == [left[0]] + (left[1..] + s + right);
      TrimDropsFirst(left[0], left[1..] + s + right);
      TrimPadded(left[1..], s, right);
    } else if right != "" {
      var n := |right| - 1;
      assert left + s + right == (left + s + right[..n]) + [right[n]];
      TrimDropsLast(left + s + right[..n], right[n]);
      TrimPadded(left, s, right[..n]);
    } else {
      assert left + s + right == s;
    }
  }

  lemma TrimSolid(s: string)
    requires s != "" && !IsSpace(s[0]) && !IsSpace(s[|s| - 1])
    ensures TrimSpace(s) == s
  {}

  lemma TrimNumber(left: string, n: nat, right: string)
    requires Blank(left) && Blank(right)
    ensures TrimSpace(left + Decimal(n) + right) == Decimal(n)
  {
    DecimalRead(n);
    var s := Decimal(n);
    assert IsDigit(s[0]) && IsDigit(s[|s| - 1]);
    TrimPadded(left, s, right);
    TrimSolid(s);
  }

  // ---------------------------------------------------------------- cutting a list at its commas

  lemma CutAt(a: string, c: char, b: string)
    requires c !in a
    ensures IndexOf(a + [c] + b, c) == |a|
    ensures (a + [c] + b)[..|a|] == a && (a + [c] + b)[|a| + 1..] == b
  {
    var s, k := a + [c] + b, IndexOf(a + [c] + b, c);
    assert s[|a|] == c;
    forall i | 0 <= i < |a| ensures s[i] != c { assert s[i] == a[i] && a[i] in a; }
    forall i | 0 <= i < k ensures s[i] != c { assert s[..k][i] in s[..k]; }
  }

  lemma {:induction false} SplitJoin(parts: seq<string>)
    requires parts != [] && forall i | 0 <= i < |parts| :: ',' !in parts[i]
    ensures Split(Join(parts, ","), ',') == parts
  {
    if |parts| > 1 {
      var rest := Join(parts[1..], ",");
      CutAt(parts[0], ',', rest);
      SplitJoin(parts[1..]);
      SplitCut(parts[0], rest);
      assert [parts[0]] + parts[1..] == parts;
    } else {
      assert parts == [parts[0]];
    }
  }

  lemma SplitCut(a: string, b: string)
    requires ',' !in a
    ensures Split(a + "," + b, ',') == [a] + Split(b, ',')
  {
    CutAt(a, ',', b);
  }

  lemma SplitWhole(a: string)
    requires ',' !in a
    ensures Split(a, ',') == [a]
  {}

  /** White space in front of a list belongs to its first part. */
  lemma SplitFirst(c: char, s: string)
    requires c != ','
    ensures Split([c] + s, ',') == [[c] + Split(s, ',')[0]] + Split(s, ',')[1..]
  {
    var k := IndexOf(s, ',');
    if k < |s| {
      var a, b := s[..k], s[k + 1..];
      assert s == a + "," + b;
      SplitCut(a, b);
      assert [c] + s == ([c] + a) + "," + b;
      SplitCut([c] + a, b);
      RestOfCons(a, Split(b, ','));
    } else {
      SplitWhole(s);
      SplitWhole([c] + s);
    }
  }

  lemma RestOfCons(a: string, parts: seq<string>)
    ensures ([a] + parts)[0] == a && ([a] + parts)[1..] == parts
  {}

  /** White space behind a list belongs to its last part. */
  lemma {:induction false} SplitLast(s: string, c: char)
    requires c != ','
    ensures var parts := Split(s, ',');
            Split(s + [c], ',') == parts[..|parts| - 1] + [parts[|parts| - 1] + [c]]
    decreases |s|
  {
    var k := IndexOf(s, ',');
    if k < |s| {
      var a, b := s[..k], s[k + 1..];
      assert s == a + "," + b;
      SplitCut(a, b);
      assert s + [c] == a + "," + (b + [c]);
      SplitCut(a, b + [c]);
      SplitLast(b, c);
      LastOfCons(a, Split(b, ','), c);
    } else {
      SplitWhole(s);
      SplitWhole(s + [c]);
    }
  }

  lemma LastOfCons(a: string, parts: seq<string>, c: char)
    requires parts != []
    ensures var whole := [a] + parts;
            [a] + (parts[..|parts| - 1] + [parts[|parts| - 1] + [c]]) == whole[..|whole| - 1] + [whole[|whole| - 1] + [c]]
  {}

  lemma TrimmedFirst(c: char, s: string)
    requires IsSpace(c)
    ensures Trimmed(Split([c] + s, ',')) == Trimmed(Split(s, ','))
  {
    SplitFirst(c, s);
    TrimDropsFirst(c, Split(s, ',')[0]);
  }

  lemma TrimmedLast(s: string, c: char)
    requires IsSpace(c)
    ensures Trimmed(Split(s + [c], ',')) == Trimmed(Split(s, ','))
  {
    SplitLast(s, c);
    var parts := Split(s, ',');
    TrimDropsLast(parts[|parts| - 1], c);
  }

  lemma {:induction false} TrimLeftFirst(s: string)
    ensures Trimmed(Split(TrimLeft(s), ',')) == Trimmed(Split(s, ','))
  {
    if s != "" && IsSpace(s[0]) {
      var first, rest := s[0], s[1..];
      assert s == [first] + rest;
      TrimLeftFirst(rest);
      TrimmedFirst(first, rest);
      assert TrimLeft(s) == TrimLeft(rest);
    }
  }

  lemma {:induction false} TrimRightFirst(s: string)
    ensures Trimmed(Split(TrimRight(s), ',')) == Trimmed(Split(s, ','))
  {
    if s != "" && IsSpace(s[|s| - 1]) {
      var front, last := s[..|s| - 1], s[|s| - 1];
      assert s == front + [last];
      TrimRightFirst(front);
      TrimmedLast(front, last);
      assert TrimRight(s) == TrimRight(front);
    }
  }

  /** Trimming the whole list first makes no difference to its trimmed parts. */
  lemma TrimFirst(s: string)
    ensures Trimmed(Split(TrimSpace(s), ',')) == Trimmed(Split(s, ','))
  {
    TrimLeftFirst(s);
    TrimRightFirst(TrimLeft(s));
  }

  // ---------------------------------------------------------------- what a list means

  lemma CoreSolid(t: Token)
    requires ValidToken(t)
    ensures var core := CoreText(t); core != "" && !IsSpace(core[0]) && !IsSpace(core[|core| - 1])
  {
    match t.item
    case One(code) =>
      DecimalRead(code);
      assert IsDigit(Decimal(code)[0]) && IsDigit(Decimal(code)[|Decimal(code)| - 1]);
    case Range(first, last) =>
      DecimalRead(first);
      DecimalRead(last);
      assert IsDigit(Decimal(first)[0]) && IsDigit(Decimal(last)[|Decimal(last)| - 1]);
  }

  lemma TokenTrimmed(t: Token)
    requires ValidToken(t)
    ensures TrimSpace(TokenText(t)) == CoreText(t) && TrimSpace(CoreText(t)) == CoreText(t)
  {
    CoreSolid(t);
    TrimSolid(CoreText(t));
    TrimPadded(t.left, CoreText(t), t.right);
  }

  lemma {:induction false} DigitsOnly(s: string, c: char)
    requires AllDigits(s) && !IsDigit(c)
    ensures c !in s
  {}

  function CodesFor(item: Item): seq<int> {
    match item
    case One(code) => [code]
    case Range(first, last) => Between(first, last)
  }

  /** A printed token is read back as the codes it includes. */
  lemma TokenDenotes(t: Token)
    requires ValidToken(t)
    ensures TokenCodes(CoreText(t)) == Ok(CodesFor(t.item))
    ensures forall c :: c in CodesFor(t.item) <==> Includes(t.item, c)
  {
    TokenTrimmed(t);
    CodesForIncludes(t.item);
    match t.item
    case One(code) =>
      DecimalRead(code);
      DigitsOnly(Decimal(code), '-');
      AtoiRead(code);
    case Range(first, last) =>
      RangeDenotes(first, last, t.beforeDash, t.afterDash);
  }

  lemma CodesForIncludes(item: Item)
    ensures forall c :: c in CodesFor(item) <==> Includes(item, c)
  {
    if item.Range? {
      var codes := Between(item.first, item.last);
      var low := if item.first > item.last then item.last else item.first;
      forall c | Includes(item, c) ensures c in codes { assert codes[c - low] == c; }
    }
  }

  lemma RangeDenotes(first: int, last: int, before: string, after: string)
    requires IsCode(first) && IsCode(last) && Blank(before) && Blank(after)
    ensures var t := (Decimal(first) + before) + "-" + (after + Decimal(last));
            TrimSpace(t) == t ==> TokenCodes(t) == Ok(Between(first, last))
  {
    DecimalRead(first);
    DigitsOnly(Decimal(first), '-');
    NoDash(before);
    CutAt(Decimal(first) + before, '-', after + Decimal(last));
    NumberBefore(first, before);
    NumberAfter(after, last);
    RangeRead((Decimal(first) + before) + "-" + (after + Decimal(last)), |Decimal(first) + before|, first, last);
  }

  lemma NumberBefore(n: nat, right: string)
    requires Blank(right) && n < INT_LIMIT
    ensures Atoi(TrimSpace(Decimal(n) + right)) == Number(n)
  {
    TrimNumber("", n, right);
    assert "" + Decimal(n) + right == Decimal(n) + right;
    AtoiRead(n);
  }

  lemma NumberAfter(left: string, n: nat)
    requires Blank(left) && n < INT_LIMIT
    ensures Atoi(TrimSpace(left + Decimal(n))) == Number(n)
  {
    TrimNumber(left, n, "");
    assert left + Decimal(n) + "" == left + Decimal(n);
    AtoiRead(n);
  }

  lemma RangeRead(t: string, k: nat, first: int, last: int)
    requires k < |t| && IndexOf(t, '-') == k && IsCode(first) && IsCode(last)
    requires Atoi(TrimSpace(t[..k])) == Number(first) && Atoi(TrimSpace(t[k + 1..])) == Number(last)
    ensures TrimSpace(t) == t ==> TokenCodes(t) == Ok(Between(first, last))
  {}

  lemma NoDash(s: string)
    requires Blank(s)
    ensures '-' !in s && ',' !in s
  {}

  lemma TokenHasNoComma(t: Token)
    requires ValidToken(t)
    ensures ',' !in TokenText(t)
  {
    NoDash(t.left);
    NoDash(t.right);
    match t.item
    case One(code) =>
      DecimalRead(code);
      DigitsOnly(Decimal(code), ',');
    case Range(first, last) =>
      DecimalRead(first);
      DecimalRead(last);
      DigitsOnly(Decimal(first), ',');
      DigitsOnly(Decimal(last), ',');
      NoDash(t.beforeDash);
      NoDash(t.afterDash);
  }

  predicate ValidTokens(tokens: seq<Token>) {
    forall i | 0 <= i < |tokens| :: ValidToken(tokens[i])
  }

  function Cores(tokens: seq<Token>): seq<string>
    requires ValidTokens(tokens)
  {
    seq(|tokens|, i requires 0 <= i < |tokens| => CoreText(tokens[i]))
  }

  ghost predicate Union(tokens: seq<Token>, codes: seq<int>) {
    forall c :: c in codes <==> exists i :: 0 <= i < |tokens| && Includes(tokens[i].item, c)
  }

  lemma {:induction false} CoresDenote(tokens: seq<Token>)
    requires ValidTokens(tokens)
    ensures AllCodes(Cores(tokens)).Ok? && Union(tokens, AllCodes(Cores(tokens)).codes)
  {
    if tokens != [] {
      var n := |tokens| - 1;
      CoresDenote(tokens[..n]);
      assert Cores(tokens)[..n] == Cores(tokens[..n]);
      TokenDenotes(tokens[n]);
      UnionSnoc(tokens, AllCodes(Cores(tokens[..n])).codes);
    }
  }

  lemma UnionSnoc(tokens: seq<Token>, codes: seq<int>)
    requires tokens != [] && Union(tokens[..|tokens| - 1], codes)
    ensures Union(tokens, codes + CodesFor(tokens[|tokens| - 1].item))
  {
    var n := |tokens| - 1;
    CodesForIncludes(tokens[n].item);
    forall c ensures c in codes + CodesFor(tokens[n].item) <==> exists i :: 0 <= i <= n && Includes(tokens[i].item, c) {
      if c in codes {
        var i :| 0 <= i < n && Includes(tokens[..n][i].item, c);
        assert Includes(tokens[i].item, c);
      }
      if i :| 0 <= i < n && Includes(tokens[i].item, c) {
        assert Includes(tokens[..n][i].item, c);
      }
    }
  }

  /** A printed list is accepted, and normalising what it says gives exactly the union of its items in ascending order;
      under a policy with these codes a status is retried if and only if some item includes it. */
  lemma ListDenotes(tokens: seq<Token>, p: Policy, status: int)
    requires tokens != [] && ValidTokens(tokens)
    ensures var r := CodesOf(Join(Texts(tokens), ","));
            && r.Ok? && AscendingCodes(NormalizeCodes(r.codes)) && Union(tokens, NormalizeCodes(r.codes))
            && (RetryLoop.ShouldRetryStatus(Normalize(p.(statusCodes := r.codes)), status) <==>
                exists i :: 0 <= i < |tokens| && Includes(tokens[i].item, status))
  {
    var raw := Join(Texts(tokens), ",");
    forall i | 0 <= i < |tokens| ensures ',' !in Texts(tokens)[i] { TokenHasNoComma(tokens[i]); }
    SplitJoin(Texts(tokens));
    TrimFirst(raw);
    forall i | 0 <= i < |tokens| ensures Trimmed(Texts(tokens))[i] == Cores(tokens)[i] { TokenTrimmed(tokens[i]); }
    assert Trimmed(Texts(tokens)) == Cores(tokens);
    if TrimSpace(raw) == "" {
      SplitWhole("");
      assert Cores(tokens)[0] == TrimSpace("");
      CoreSolid(tokens[0]);
      assert false;
    }
    CoresDenote(tokens);
    OnlyCodes(Cores(tokens));
    NormalizedUnion(tokens, AllCodes(Cores(tokens)).codes);
  }

  lemma NormalizedUnion(tokens: seq<Token>, codes: seq<int>)
    requires Union(tokens, codes) && forall c | c in codes :: IsCode(c)
    ensures Union(tokens, NormalizeCodes(codes))
  {
    forall c ensures c in NormalizeCodes(codes) <==> c in codes {}
  }
}
