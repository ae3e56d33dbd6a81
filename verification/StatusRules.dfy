/** The exact grammar of a status-code list: which texts are accepted, and as which codes. */
module StatusRules {
  import opened Text
  import opened StatusCodes

  // ---------------------------------------------------------------- numbers

  /** Three digits with any number of zeros in front, and perhaps a plus sign. */
  predicate Spells(s: string, c: int) {
    100 <= c <= 599 && (Padded(s, c) || (s != "" && s[0] == '+' && Padded(s[1..], c)))
  }

  predicate Padded(digits: string, c: int) {
    |digits| >= 3 && (forall i | 0 <= i < |digits| - 3 :: digits[i] == '0') && Three(digits[|digits| - 3..], c)
  }

  predicate Three(d: string, c: int)
    requires |d| == 3
  {
    && '0' <= d[0] <= '9' && '0' <= d[1] <= '9' && '0' <= d[2] <= '9'
    && c == 100 * (d[0] as int - 48) + 10 * (d[1] as int - 48) + (d[2] as int - 48)
  }

  lemma LastDigit(d: string)
    requires AllDigits(d) && d != ""
    ensures AllDigits(d[..|d| - 1]) && '0' <= d[|d| - 1] <= '9'
    ensures DigitsValue(d) == 10 * DigitsValue(d[..|d| - 1]) + (d[|d| - 1] as int - 48)
  {
    assert IsDigit(d[|d| - 1]);
  }

  /** The last three digits count a thousandth of the rest. */
  lemma LastThree(d: string)
    requires AllDigits(d) && |d| >= 3
    ensures var n := |d| - 3;
            AllDigits(d[..n]) && DigitsValue(d) == 1000 * DigitsValue(d[..n])
                                   + 100 * (d[n] as int - 48) + 10 * (d[n + 1] as int - 48) + (d[n + 2] as int - 48)
  {
    var n := |d| - 3;
    LastDigit(d);
    assert d[..n + 2][..n + 1] == d[..n + 1];
    LastDigit(d[..n + 2]);
    assert d[..n + 1][..n] == d[..n];
    LastDigit(d[..n + 1]);
  }

  lemma {:induction false} ZeroIff(d: string)
    requires AllDigits(d)
    ensures DigitsValue(d) == 0 <==> forall i | 0 <= i < |d| :: d[i] == '0'
  {
    if d != "" {
      var n := |d| - 1;
      LastDigit(d);
      ZeroIff(d[..n]);
      if DigitsValue(d) == 0 {
        forall i | 0 <= i <= n ensures d[i] == '0' {
          if i < n { assert d[i] == d[..n][i]; }
        }
      } else if d[n] == '0' {
        var i :| 0 <= i < |d[..n]| && d[..n][i] != '0';
        assert d[i] != '0';
      }
    }
  }

  lemma Short(d: string)
    requires AllDigits(d) && |d| < 3
    ensures DigitsValue(d) < 100
  {
    if d != "" {
      LastDigit(d);
      var e := d[..|d| - 1];
      if e != "" {
        LastDigit(e);
        assert e[..|e| - 1] == "";
      }
    }
  }

  lemma DigitsSpell(d: string, c: int)
    requires AllDigits(d) && 100 <= c <= 599
    ensures DigitsValue(d) == c <==> Padded(d, c)
  {
    if |d| < 3 {
      Short(d);
    } else {
      ThreeSpell(d, |d| - 3, c);
    }
  }

  lemma ThreeSpell(d: string, n: nat, c: int)
    requires AllDigits(d) && |d| == n + 3 && 100 <= c <= 599
    ensures DigitsValue(d) == c <==> Padded(d, c)
  {
    var x, y, z := d[n] as int - 48, d[n + 1] as int - 48, d[n + 2] as int - 48;
    LastThree(d);
    assert IsDigit(d[n]) && IsDigit(d[n + 1]) && IsDigit(d[n + 2]);
    ZeroPrefix(d, n);
    assert Three(d[n..], c) <==> c == 100 * x + 10 * y + z;
    NoThousands(DigitsValue(d), DigitsValue(d[..n]), 100 * x + 10 * y + z, c);
  }

  lemma ZeroPrefix(d: string, n: nat)
    requires n <= |d| && AllDigits(d[..n])
    ensures DigitsValue(d[..n]) == 0 <==> forall i | 0 <= i < n :: d[i] == '0'
  {
    ZeroIff(d[..n]);
    if DigitsValue(d[..n]) == 0 {
      forall i | 0 <= i < n ensures d[i] == '0' { assert d[..n][i] == '0'; }
    }
  }

  lemma NoThousands(value: nat, thousands: nat, rest: nat, c: int)
    requires value == 1000 * thousands + rest && rest < 1000 && 100 <= c <= 599
    ensures value == c <==> thousands == 0 && c == rest
  {}

  /** Exactly these texts are numbers between 100 and 599. */
  lemma AtoiIff(s: string, c: int)
    requires 100 <= c <= 599
    ensures Atoi(s) == Number(c) <==> Spells(s, c)
  {
    if s != "" && s[0] in "+-" {
      if Padded(s, c) { OnlyDigits(s, c); }
      AtoiDigits(s[1..], c);
      assert s[0] == '-' || s[0] == '+';
    } else {
      AtoiDigits(s, c);
    }
  }

  lemma AtoiDigits(d: string, c: int)
    requires 100 <= c <= 599
    ensures d != "" && AllDigits(d) && DigitsValue(d) == c <==> Padded(d, c)
  {
    if Padded(d, c) { OnlyDigits(d, c); }
    if AllDigits(d) { DigitsSpell(d, c); }
  }

  lemma OnlyDigits(d: string, c: int)
    requires Padded(d, c)
    ensures AllDigits(d) && IsDigit(d[0])
  {
    var n := |d| - 3;
    assert d[n] == d[n..][0] && d[n + 1] == d[n..][1] && d[n + 2] == d[n..][2];
    forall i | 0 <= i < |d| ensures IsDigit(d[i]) {
      if i >= n { assert i == n || i == n + 1 || i == n + 2; }
    }
  }

  lemma SpellsSolid(s: string, c: int)
    requires Spells(s, c)
    ensures s != "" && !IsSpace(s[0]) && !IsSpace(s[|s| - 1]) && '-' !in s && ',' !in s
  {
    if Padded(s, c) {
      DigitsSolid(s, c);
    } else {
      DigitsSolid(s[1..], c);
      assert s == "+" + s[1..];
    }
  }

  lemma DigitsSolid(d: string, c: int)
    requires Padded(d, c)
    ensures d != "" && !IsSpace(d[0]) && !IsSpace(d[|d| - 1]) && '-' !in d && ',' !in d
  {
    OnlyDigits(d, c);
    DigitAt(d, 0);
    DigitAt(d, |d| - 1);
    DigitsOnly(d, '-');
    DigitsOnly(d, ',');
  }

  lemma DigitAt(d: string, i: nat)
    requires i < |d| && AllDigits(d)
    ensures !IsSpace(d[i])
  {
    assert IsDigit(d[i]);
  }

  // ---------------------------------------------------------------- tokens

  /** The number `c` with white space around it. */
  ghost predicate WritesOne(t: string, c: int) {
    exists left: string, s: string, right: string :: IsWritten(t, left, s, right, c)
  }

  predicate IsWritten(t: string, left: string, s: string, right: string, c: int) {
    t == left + s + right && Blank(left) && Blank(right) && Spells(s, c)
  }

  /** Two numbers with a dash between them. */
  ghost predicate WritesRange(t: string, first: int, last: int) {
    exists a: string, b: string :: t == a + "-" + b && WritesOne(a, first) && WritesOne(b, last)
  }

  /** The numbers from the lower to the higher bound, in ascending order. */
  predicate CountsUp(codes: seq<int>, first: int, last: int) {
    if first <= last then |codes| == last - first + 1 && forall i | 0 <= i < |codes| :: codes[i] == first + i
    else |codes| == first - last + 1 && forall i | 0 <= i < |codes| :: codes[i] == last + i
  }

  ghost predicate Writes(t: string, codes: seq<int>) {
    || (exists c :: WritesOne(t, c) && codes == [c])
    || (exists first, last :: WritesRange(t, first, last) && CountsUp(codes, first, last))
  }

  lemma OneRead(t: string, left: string, s: string, right: string, c: int)
    requires IsWritten(t, left, s, right, c)
    ensures TrimSpace(t) == s && Atoi(s) == Number(c) && '-' !in s && 100 <= c <= 599
  {
    SpellsSolid(s, c);
    TrimPadded(left, s, right);
    TrimSolid(s);
    AtoiIff(s, c);
  }

  lemma OneAccepted(t: string, c: int)
    requires WritesOne(t, c)
    ensures TokenCodes(t) == Ok([c])
  {
    var left, s, right :| IsWritten(t, left, s, right, c);
    OneRead(t, left, s, right, c);
  }

  lemma RangeAccepted(t: string, first: int, last: int)
    requires WritesRange(t, first, last)
    ensures TokenCodes(t) == Ok(Between(first, last))
  {
    var a, b :| t == a + "-" + b && WritesOne(a, first) && WritesOne(b, last);
    var la, s, ra :| IsWritten(a, la, s, ra, first);
    var lb, u, rb :| IsWritten(b, lb, u, rb, last);
    OneRead(a, la, s, ra, first);
    OneRead(b, lb, u, rb, last);
    CoreOfRange(la, s, ra, first, lb, u, rb, last);
    RangeText(la, s, ra, lb, u, rb);
    Before(s, ra, first);
    After(lb, u, last);
    ReadRange(TrimSpace(t), |s + ra|, first, last);
  }

  lemma RangeText(la: string, s: string, ra: string, lb: string, u: string, rb: string)
    ensures (la + s + ra) + "-" + (lb + u + rb) == la + ((s + ra) + "-" + (lb + u)) + rb
  {}

  lemma ReadRange(core: string, k: nat, first: int, last: int)
    requires k < |core| && IndexOf(core, '-') == k && IsCode(first) && IsCode(last)
    requires Atoi(TrimSpace(core[..k])) == Number(first) && Atoi(TrimSpace(core[k + 1..])) == Number(last)
    ensures CoreCodes(core) == Ok(Between(first, last))
  {}

  lemma CoreOfRange(la: string, s: string, ra: string, first: int, lb: string, u: string, rb: string, last: int)
    requires Blank(la) && Blank(ra) && Blank(lb) && Blank(rb) && Spells(s, first) && Spells(u, last)
    ensures var core := (s + ra) + "-" + (lb + u);
            && TrimSpace(la + core + rb) == core && IndexOf(core, '-') == |s + ra| && |s + ra| < |core|
            && core[..|s + ra|] == s + ra && core[|s + ra| + 1..] == lb + u
  {
    var core := (s + ra) + "-" + (lb + u);
    SpellsSolid(s, first);
    SpellsSolid(u, last);
    NoDash(ra);
    CutAt(s + ra, '-', lb + u);
    assert core[0] == s[0] && core[|core| - 1] == u[|u| - 1];
    TrimPadded(la, core, rb);
    TrimSolid(core);
  }

  lemma Before(s: string, right: string, c: int)
    requires Spells(s, c) && Blank(right)
    ensures Atoi(TrimSpace(s + right)) == Number(c) && 100 <= c <= 599
  {
    assert s + right == "" + s + right;
    OneRead(s + right, "", s, right, c);
  }

  lemma After(left: string, s: string, c: int)
    requires Spells(s, c) && Blank(left)
    ensures Atoi(TrimSpace(left + s)) == Number(c) && 100 <= c <= 599
  {
    assert left + s == left + s + "";
    OneRead(left + s, left, s, "", c);
  }

  lemma TrimmedIsOne(t: string, c: int)
    requires Atoi(TrimSpace(t)) == Number(c) && 100 <= c <= 599
    ensures WritesOne(t, c)
  {
    var left, right := TrimSpaceIs(t);
    AtoiIff(TrimSpace(t), c);
    assert IsWritten(t, left, TrimSpace(t), right, c);
  }

  lemma MoreLeft(space: string, t: string, c: int)
    requires Blank(space) && WritesOne(t, c)
    ensures WritesOne(space + t, c)
  {
    var left, s, right :| IsWritten(t, left, s, right, c);
    Grouped(space, left, s, right);
    assert IsWritten(space + t, space + left, s, right, c);
  }

  lemma Grouped(a: string, b: string, c: string, d: string)
    ensures a + (b + c + d) == (a + b) + c + d && a + b + c + d == a + b + (c + d)
  {}

  lemma MoreRight(t: string, space: string, c: int)
    requires Blank(space) && WritesOne(t, c)
    ensures WritesOne(t + space, c)
  {
    var left, s, right :| IsWritten(t, left, s, right, c);
    Grouped(left, s, right, space);
    assert IsWritten(t + space, left, s, right + space, c);
  }

  lemma AcceptedRange(left: string, a: string, first: int, b: string, last: int, right: string)
    requires Blank(left) && Blank(right) && WritesOne(a, first) && WritesOne(b, last)
    ensures WritesRange(left + (a + "-" + b) + right, first, last)
  {
    MoreLeft(left, a, first);
    MoreRight(b, right, last);
    DashText(left, a, b, right);
  }

  lemma DashText(left: string, a: string, b: string, right: string)
    ensures left + (a + "-" + b) + right == (left + a) + "-" + (b + right)
  {}

  /** A token is accepted exactly if it is a written code or range, and then stands for its codes; the error of any
      other token names it without the white space around it. */
  lemma TokenIff(t: string, codes: seq<int>)
    ensures TokenCodes(t) == Ok(codes) <==> Writes(t, codes)
    ensures TokenCodes(t).Invalid? ==> TokenCodes(t) == Invalid(TrimSpace(t))
  {
    if Writes(t, codes) {
      WritesAccepted(t, codes);
    } else if TokenCodes(t) == Ok(codes) {
      AcceptedWrites(t, codes);
    }
  }

  lemma WritesAccepted(t: string, codes: seq<int>)
    requires Writes(t, codes)
    ensures TokenCodes(t) == Ok(codes)
  {
    if c :| WritesOne(t, c) && codes == [c] {
      OneAccepted(t, c);
    } else {
      var first, last :| WritesRange(t, first, last) && CountsUp(codes, first, last);
      RangeAccepted(t, first, last);
      CountedOnce(codes, first, last);
    }
  }

  lemma CountedOnce(codes: seq<int>, first: int, last: int)
    ensures CountsUp(codes, first, last) <==> codes == Between(first, last)
  {
    if CountsUp(codes, first, last) { assert codes == Between(first, last); }
  }

  lemma AcceptedWrites(t: string, codes: seq<int>)
    requires TokenCodes(t) == Ok(codes)
    ensures Writes(t, codes)
  {
    if IndexOf(TrimSpace(t), '-') == |TrimSpace(t)| {
      TrimmedIsOne(t, Atoi(TrimSpace(t)).value);
    } else {
      var a, first, b, last := ReadAsRange(t, codes);
      TrimmedIsOne(a, first);
      TrimmedIsOne(b, last);
      AroundDash(t, a, first, b, last);
      CountedOnce(codes, first, last);
    }
  }

  lemma ReadAsRange(t: string, codes: seq<int>) returns (a: string, first: int, b: string, last: int)
    requires TokenCodes(t) == Ok(codes) && IndexOf(TrimSpace(t), '-') < |TrimSpace(t)|
    ensures TrimSpace(t) == a + "-" + b && codes == Between(first, last)
    ensures Atoi(TrimSpace(a)) == Number(first) && 100 <= first <= 599
    ensures Atoi(TrimSpace(b)) == Number(last) && 100 <= last <= 599
  {
    var core := TrimSpace(t);
    var k := IndexOf(core, '-');
    Halves(core, k);
    a, b := core[..k], core[k + 1..];
    first, last := ReadBounds(t, k, a, b, codes);
  }

  lemma ReadBounds(t: string, k: nat, a: string, b: string, codes: seq<int>) returns (first: int, last: int)
    requires TokenCodes(t) == Ok(codes) && IndexOf(TrimSpace(t), '-') == k < |TrimSpace(t)|
    requires a == TrimSpace(t)[..k] && b == TrimSpace(t)[k + 1..]
    ensures Atoi(TrimSpace(a)) == Number(first) && 100 <= first <= 599
    ensures Atoi(TrimSpace(b)) == Number(last) && 100 <= last <= 599
    ensures codes == Between(first, last)
  {
    first, last := Atoi(TrimSpace(a)).value, Atoi(TrimSpace(b)).value;
  }

  lemma Halves(s: string, k: nat)
    requires k < |s| && s[k] == '-'
    ensures s == s[..k] + "-" + s[k + 1..]
  {}

  lemma AroundDash(t: string, a: string, first: int, b: string, last: int)
    requires TrimSpace(t) == a + "-" + b && WritesOne(a, first) && WritesOne(b, last)
    ensures WritesRange(t, first, last)
  {
    var left, right := TrimSpaceIs(t);
    AcceptedRange(left, a, first, b, last, right);
  }

  // ---------------------------------------------------------------- lists

  /** The pieces one after the other. */
  function Chain(pieces: seq<seq<int>>): seq<int> {
    if pieces == [] then [] else Chain(pieces[..|pieces| - 1]) + pieces[|pieces| - 1]
  }

  ghost predicate AllWritten(parts: seq<string>, pieces: seq<seq<int>>) {
    |pieces| == |parts| && forall i | 0 <= i < |parts| :: Writes(parts[i], pieces[i])
  }

  lemma TrimTwice(t: string)
    ensures TokenCodes(TrimSpace(t)) == TokenCodes(t)
  {
    var left, right := TrimSpaceIs(t);
    if TrimSpace(t) != "" { TrimSolid(TrimSpace(t)); }
  }

  lemma TrimmedLast(parts: seq<string>)
    requires parts != []
    ensures var n := |parts| - 1; Trimmed(parts)[..n] == Trimmed(parts[..n]) && Trimmed(parts)[n] == TrimSpace(parts[n])
  {}

  /** A list of tokens is accepted if its front and its last token are. */
  lemma LastCodes(parts: seq<string>)
    requires parts != []
    ensures var n := |parts| - 1;
            var before, next := AllCodes(Trimmed(parts[..n])), TokenCodes(parts[n]);
            && (AllCodes(Trimmed(parts)).Ok? <==> before.Ok? && next.Ok?)
            && (before.Ok? && next.Ok? ==> AllCodes(Trimmed(parts)) == Ok(before.codes + next.codes))
  {
    TrimmedLast(parts);
    TrimTwice(parts[|parts| - 1]);
  }

  lemma {:induction false} WrittenCodes(parts: seq<string>, pieces: seq<seq<int>>)
    requires AllWritten(parts, pieces)
    ensures AllCodes(Trimmed(parts)) == Ok(Chain(pieces))
  {
    if parts != [] {
      var n := |parts| - 1;
      WrittenCodes(parts[..n], pieces[..n]);
      TokenIff(parts[n], pieces[n]);
      LastCodes(parts);
    }
  }

  lemma {:induction false} CodesWritten(parts: seq<string>, codes: seq<int>) returns (pieces: seq<seq<int>>)
    requires AllCodes(Trimmed(parts)) == Ok(codes)
    ensures AllWritten(parts, pieces) && Chain(pieces) == codes
  {
    pieces := [];
    if parts != [] {
      var n := |parts| - 1;
      LastCodes(parts);
      var front := AllCodes(Trimmed(parts[..n])).codes;
      var before := CodesWritten(parts[..n], front);
      var last := TokenCodes(parts[n]).codes;
      TokenIff(parts[n], last);
      pieces := before + [last];
      WrittenSnoc(parts, before, last);
    }
  }

  lemma WrittenSnoc(parts: seq<string>, before: seq<seq<int>>, last: seq<int>)
    requires parts != [] && AllWritten(parts[..|parts| - 1], before) && Writes(parts[|parts| - 1], last)
    ensures AllWritten(parts, before + [last]) && Chain(before + [last]) == Chain(before) + last
  {
    assert (before + [last])[..|before|] == before;
  }

  lemma {:induction false} PartsJoin(s: string)
    ensures Join(Split(s, ','), ",") == s
    ensures forall i | 0 <= i < |Split(s, ',')| :: ',' !in Split(s, ',')[i]
    decreases |s|
  {
    var k := IndexOf(s, ',');
    if k < |s| {
      PartsJoin(s[k + 1..]);
      RestOfCons(s[..k], Split(s[k + 1..], ','));
      assert s == s[..k] + "," + s[k + 1..];
    }
  }

  lemma BlankIff(s: string)
    ensures Blank(s) <==> TrimSpace(s) == ""
  {
    var left, right := TrimSpaceIs(s);
    if Blank(s) {
      TrimPadded(s, "", "");
      assert s + "" + "" == s;
    } else {
      assert TrimSpace(s) == "" ==> s == left + right;
    }
  }

  lemma ListCodes(parts: seq<string>)
    requires parts != [] && !Blank(Join(parts, ",")) && forall i | 0 <= i < |parts| :: ',' !in parts[i]
    ensures CodesOf(Join(parts, ",")) == AllCodes(Trimmed(parts))
  {
    BlankIff(Join(parts, ","));
    SplitJoin(parts);
    TrimFirst(Join(parts, ","));
  }

  /** A list is accepted exactly if it is blank or every part between its commas is a written code or range; it stands
      for their codes in order. Every text is the list of such parts. */
  lemma ListIff(raw: string, parts: seq<string>, codes: seq<int>)
    requires parts != [] && Join(parts, ",") == raw && forall i | 0 <= i < |parts| :: ',' !in parts[i]
    ensures CodesOf(raw) == Ok(codes) <==>
            if Blank(raw) then codes == [] else exists pieces :: AllWritten(parts, pieces) && Chain(pieces) == codes
  {
    BlankIff(raw);
    if !Blank(raw) {
      ListCodes(parts);
      if AllCodes(Trimmed(parts)) == Ok(codes) {
        var pieces := CodesWritten(parts, codes);
      }
      if pieces :| AllWritten(parts, pieces) && Chain(pieces) == codes {
        WrittenCodes(parts, pieces);
      }
    }
  }

  ghost predicate Readable(t: string) {
    exists codes :: Writes(t, codes)
  }

  /** The first part that is not a written code or range is the error. */
  lemma FirstUnreadable(parts: seq<string>, i: nat)
    requires i < |parts| && (forall j | 0 <= j < |parts| :: ',' !in parts[j]) && !Blank(Join(parts, ","))
    requires (forall j | 0 <= j < i :: Readable(parts[j])) && !Readable(parts[i])
    ensures CodesOf(Join(parts, ",")) == Invalid(TrimSpace(parts[i]))
  {
    ListCodes(parts);
    ReadableCodes(parts, i);
    Unwritten(parts[i]);
    ErrorAt(parts, i);
  }

  lemma ErrorAt(parts: seq<string>, i: nat)
    requires i < |parts| && AllCodes(Trimmed(parts[..i])).Ok? && TokenCodes(parts[i]).Invalid?
    ensures AllCodes(Trimmed(parts)) == TokenCodes(parts[i])
  {
    assert Trimmed(parts)[..i] == Trimmed(parts[..i]);
    TrimTwice(parts[i]);
    FirstInvalid(Trimmed(parts), i);
  }

  lemma {:induction false} ReadableCodes(parts: seq<string>, i: nat)
    requires i <= |parts| && forall j | 0 <= j < i :: Readable(parts[j])
    ensures AllCodes(Trimmed(parts[..i])).Ok?
  {
    if i > 0 {
      ReadableCodes(parts, i - 1);
      assert parts[..i][..i - 1] == parts[..i - 1];
      var codes :| Writes(parts[i - 1], codes);
      TokenIff(parts[i - 1], codes);
      LastCodes(parts[..i]);
    }
  }

  lemma Unwritten(t: string)
    requires !Readable(t)
    ensures TokenCodes(t) == Invalid(TrimSpace(t))
  {
    var r := TokenCodes(t);
    TokenIff(t, if r.Ok? then r.codes else []);
  }
}
