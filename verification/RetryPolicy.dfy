/** retry.go: the normalised policy and its bounded exponential backoff. */
module RetryPolicy {
  import opened Sorting
  import opened Text

  /** Durations in nanoseconds; the multiplier is a real number. */
  datatype Policy = Policy(
    maxAttempts: int, initialBackoff: int, maxBackoff: int, multiplier: real,
    verbs: seq<string>, statusCodes: seq<int>, retryOnTransportErrors: bool, bodyBufferBytes: int)

  // ---------------------------------------------------------------- status codes

  predicate AscendingCodes(s: seq<int>) {
    forall i, j :: 0 <= i < j < |s| ==> s[i] < s[j]
  }

  /** The codes of `codes` from `low` to 599 in ascending order. */
  function CodesFrom(codes: set<int>, low: int): (s: seq<int>)
    requires low <= 600
    ensures AscendingCodes(s)
    ensures forall c :: c in s <==> c in codes && low <= c <= 599
    decreases 600 - low
  {
    if low == 600 then []
    else
      var rest := CodesFrom(codes, low + 1);
      assert forall i | 0 <= i < |rest| :: rest[i] in rest;
      if low in codes then [low] + rest else rest
  }

  function ToSet(s: seq<int>): set<int> {
    set c | c in s
  }

  function NormalizeCodes(codes: seq<int>): seq<int> {
    CodesFrom(ToSet(codes), 100)
  }

  lemma {:induction false} AscendingCodesUnique(s: seq<int>, t: seq<int>)
    requires AscendingCodes(s) && AscendingCodes(t) && forall c :: c in s <==> c in t
    ensures s == t
  {
    if t != [] { assert t[0] in t; }
    if s != [] {
      assert s[0] in s;
      assert s == [s[0]] + s[1..] && t == [t[0]] + t[1..];
      forall c ensures c in s[1..] <==> c in t[1..] {
        assert c in s[1..] <==> c in s && c != s[0];
        assert c in t[1..] <==> c in t && c != t[0];
      }
      AscendingCodesUnique(s[1..], t[1..]);
    }
  }

  predicate CodeLess(a: int, b: int) {
    a < b
  }

  /** `slices.Sort` on a list without duplicates. */
  function SortCodes(s: seq<int>): seq<int> {
    SortBy(CodeLess, s)
  }

  lemma {:induction false} InsertCodeAscending(s: seq<int>, x: int)
    requires AscendingCodes(s) && x !in s
    ensures AscendingCodes(Insert(CodeLess, s, x)) && forall c :: c in Insert(CodeLess, s, x) <==> c == x || c in s
  {
    if s != [] {
      assert s == [s[0]] + s[1..];
      InsertCodeAscending(s[1..], x);
      var rest := Insert(CodeLess, s[1..], x);
      if s[0] < x {
        forall i | 0 <= i < |rest| ensures s[0] < rest[i] {
          assert rest[i] in rest;
          assert rest[i] == x || rest[i] in s[1..];
        }
      }
    }
  }

  lemma {:induction false} SortCodesAscending(s: seq<int>)
    requires Distinct(s)
    ensures AscendingCodes(SortCodes(s)) && forall c :: c in SortCodes(s) <==> c in s
  {
    if s != [] {
      assert s == [s[0]] + s[1..] && s[0] !in s[1..];
      SortCodesAscending(s[1..]);
      InsertCodeAscending(SortCodes(s[1..]), s[0]);
    }
  }

  /** `normalizeStatusCodes`: valid codes, each once, ascending. */
  method NormalizeStatusCodes(codes: seq<int>) returns (normalized: seq<int>)
    ensures normalized == NormalizeCodes(codes)
  {
    if |codes| == 0 {
      AscendingCodesUnique([], NormalizeCodes(codes));
      return [];
    }
    var seen: set<int> := {};
    normalized := [];
    for i := 0 to |codes|
      invariant Distinct(normalized)
      invariant forall c :: c in normalized <==> c in codes[..i] && 100 <= c <= 599
      invariant forall c :: c in seen <==> c in normalized
    {
      var code := codes[i];
      TakeNext(codes, i);
      if 100 <= code <= 599 && code !in seen {
        seen := seen + {code};
        normalized := normalized + [code];
      }
    }
    assert codes[..|codes|] == codes;
    SortCodesAscending(normalized);
    AscendingCodesUnique(SortCodes(normalized), NormalizeCodes(codes));
    normalized := SortCodes(normalized);
  }

  // ---------------------------------------------------------------- request verbs

  /** ASCII upper case; HTTP verbs have no other letters. */
  function ToUpper(s: string): string {
    seq(|s|, i requires 0 <= i < |s| => if 'a' <= s[i] <= 'z' then s[i] - 'a' + 'A' else s[i])
  }

  ghost function NormalizeVerbs(verbs: seq<string>): seq<string> {
    Sorted(set v | v in verbs && TrimSpace(v) != "" :: ToUpper(TrimSpace(v)))
  }

  method NormalizeMethods(verbs: seq<string>) returns (normalized: seq<string>)
    ensures normalized == NormalizeVerbs(verbs)
  {
    ghost var all := set v | v in verbs && TrimSpace(v) != "" :: ToUpper(TrimSpace(v));
    var seen: set<string> := {};
    normalized := [];
    for i := 0 to |verbs|
      invariant seen == set v | v in verbs[..i] && TrimSpace(v) != "" :: ToUpper(TrimSpace(v))
      invariant Distinct(normalized) && forall v :: v in normalized <==> v in seen
    {
      TakeNext(verbs, i);
      var trimmed := ToUpper(TrimSpace(verbs[i]));
      assert trimmed == "" <==> TrimSpace(verbs[i]) == "";
      if trimmed != "" && trimmed !in seen {
        normalized := normalized + [trimmed];
      }
      if trimmed != "" {
        seen := seen + {trimmed};
      }
    }
    assert verbs[..|verbs|] == verbs;
    SortStringsIsSorted(normalized, all);
    normalized := SortStrings(normalized);
  }

  // ---------------------------------------------------------------- normalisation

  ghost function Normalize(p: Policy): Policy {
    var initial := if p.initialBackoff < 0 then 0 else p.initialBackoff;
    var top := if p.maxBackoff <= 0 then initial else p.maxBackoff;
    Policy(if p.maxAttempts < 1 then 1 else p.maxAttempts,
           initial,
           if top < initial then initial else top,
           if p.multiplier < 1.0 then 1.0 else p.multiplier,
           NormalizeVerbs(p.verbs),
           NormalizeCodes(p.statusCodes),
           p.retryOnTransportErrors,
           if p.bodyBufferBytes < 0 then 0 else p.bodyBufferBytes)
  }

  predicate InRange(p: Policy) {
    p.maxAttempts >= 1 && 0 <= p.initialBackoff <= p.maxBackoff && p.multiplier >= 1.0 && p.bodyBufferBytes >= 0
  }

  lemma NormalizeInRange(p: Policy)
    ensures InRange(Normalize(p))
    ensures InRange(p) ==> var q := Normalize(p);
              (q.maxAttempts, q.initialBackoff, q.maxBackoff, q.multiplier, q.bodyBufferBytes) ==
              (p.maxAttempts, p.initialBackoff, p.maxBackoff, p.multiplier, p.bodyBufferBytes)
  {}

  lemma {:induction false} TrimmedStays(s: string)
    ensures TrimSpace(ToUpper(TrimSpace(s))) == ToUpper(TrimSpace(s))
    ensures ToUpper(ToUpper(TrimSpace(s))) == ToUpper(TrimSpace(s))
  {
    var left, right := TrimSpaceIs(s);
    var t := TrimSpace(s);
    assert ToUpper(ToUpper(t)) == ToUpper(t);
    if t != "" {
      assert !IsSpace(ToUpper(t)[0]) && !IsSpace(ToUpper(t)[|t| - 1]);
    }
  }

  lemma VerbsStable(verbs: seq<string>)
    ensures NormalizeVerbs(NormalizeVerbs(verbs)) == NormalizeVerbs(verbs)
  {
    var normalized := NormalizeVerbs(verbs);
    var again := set v | v in normalized && TrimSpace(v) != "" :: ToUpper(TrimSpace(v));
    forall v | v in normalized ensures TrimSpace(v) == v && ToUpper(v) == v && v != "" {
      var u :| u in verbs && TrimSpace(u) != "" && v == ToUpper(TrimSpace(u));
      TrimmedStays(u);
    }
    forall v ensures v in normalized <==> v in again {
      if v in normalized { assert v == ToUpper(TrimSpace(v)); }
    }
    SortedEquals(normalized, again);
  }

  /** `enabled` normalises once more; that changes nothing. */
  lemma NormalizeIdempotent(p: Policy)
    ensures Normalize(Normalize(p)) == Normalize(p)
  {
    VerbsStable(p.verbs);
    AscendingCodesUnique(NormalizeCodes(NormalizeCodes(p.statusCodes)), NormalizeCodes(p.statusCodes));
  }

  function Larger(a: int, b: int): int {
    if a > b then a else b
  }

  /** Every limit is raised to its least sensible value, and the maximal backoff to the initial one. */
  lemma NormalizeRaises(p: Policy)
    ensures var q := Normalize(p);
            && q.maxAttempts == Larger(p.maxAttempts, 1) && q.bodyBufferBytes == Larger(p.bodyBufferBytes, 0)
            && q.initialBackoff == Larger(p.initialBackoff, 0) && q.maxBackoff == Larger(p.maxBackoff, q.initialBackoff)
            && q.multiplier == (if p.multiplier > 1.0 then p.multiplier else 1.0)
            && q.retryOnTransportErrors == p.retryOnTransportErrors
            && (forall c :: c in q.statusCodes <==> c in p.statusCodes && 100 <= c <= 599)
  {}

  // ---------------------------------------------------------------- which requests

  /** `shouldRetryRequest`; `upgrade` says whether the request asks for another protocol. */
  predicate ShouldRetryRequest(p: Policy, verb: string, upgrade: bool) {
    verb != "CONNECT" && !upgrade && ToUpper(TrimSpace(verb)) in p.verbs
  }

  /** The same letter, but for case. */
  predicate SameLetter(a: char, b: char) {
    || a == b
    || ('a' <= a <= 'z' && b as int == a as int - 32)
    || ('a' <= b <= 'z' && a as int == b as int - 32)
  }

  predicate SameVerb(a: string, b: string) {
    |a| == |b| && forall i | 0 <= i < |a| :: SameLetter(a[i], b[i])
  }

  lemma ToUpperIff(a: string, b: string)
    ensures ToUpper(a) == ToUpper(b) <==> SameVerb(a, b)
  {
    if ToUpper(a) == ToUpper(b) {
      assert |a| == |ToUpper(a)| == |ToUpper(b)| == |b|;
      forall i | 0 <= i < |a| ensures SameLetter(a[i], b[i]) { assert ToUpper(a)[i] == ToUpper(b)[i]; }
    }
    if SameVerb(a, b) {
      forall i | 0 <= i < |a| ensures ToUpper(a)[i] == ToUpper(b)[i] { assert SameLetter(a[i], b[i]); }
    }
  }

  /** A request may be retried exactly if it neither connects nor upgrades and its method is configured, in whatever case
      and with whatever white space around it. */
  lemma RequestIff(raw: Policy, verb: string, upgrade: bool)
    ensures ShouldRetryRequest(Normalize(raw), verb, upgrade) <==>
            && verb != "CONNECT" && !upgrade
            && exists v :: v in raw.verbs && TrimSpace(v) != "" && SameVerb(TrimSpace(v), TrimSpace(verb))
  {
    forall v ensures ToUpper(TrimSpace(v)) == ToUpper(TrimSpace(verb)) <==> SameVerb(TrimSpace(v), TrimSpace(verb)) {
      ToUpperIff(TrimSpace(v), TrimSpace(verb));
    }
  }

  // ---------------------------------------------------------------- backoff

  function Pow(x: real, n: nat): real {
    if n == 0 then 1.0 else x * Pow(x, n - 1)
  }

  function Cap(x: real, top: real): real {
    if x > top then top else x
  }

  /** The wait after attempt `attempt`, in whole nanoseconds. */
  function RetryBackoff(p: Policy, attempt: int): int {
    if attempt < 1 || p.initialBackoff <= 0 then 0
    else
      var delay := p.initialBackoff as real * Pow(p.multiplier, attempt - 1);
      var capped := Cap(delay, p.maxBackoff as real);
      if capped < 0.0 then 0 else capped.Floor
  }

  lemma {:induction false} PowGrows(x: real, n: nat)
    requires x >= 1.0
    ensures Pow(x, n) >= 1.0 && Pow(x, n + 1) >= Pow(x, n)
  {
    if n > 0 {
      PowGrows(x, n - 1);
      Scale(Pow(x, n - 1), Pow(x, n), x);
    }
  }

  lemma Scale(a: real, b: real, x: real)
    requires a <= b && x >= 0.0
    ensures x * a <= x * b
  {}

  lemma ScaleUp(a: real, x: real)
    requires 1.0 <= a && x >= 0.0
    ensures x <= x * a
  {
    Scale(1.0, a, x);
    assert x * 1.0 == x;
  }

  lemma FloorMonotone(a: real, b: real)
    requires a <= b
    ensures a.Floor <= b.Floor
  {}

  ghost function Capped(p: Policy, n: nat): real {
    Cap(p.initialBackoff as real * Pow(p.multiplier, n), p.maxBackoff as real)
  }

  lemma CappedGrows(p: Policy, n: nat)
    requires InRange(p)
    ensures p.initialBackoff as real <= Capped(p, n) <= p.maxBackoff as real
    ensures Capped(p, n) <= Capped(p, n + 1)
  {
    PowGrows(p.multiplier, n);
    var x, here, next := p.initialBackoff as real, Pow(p.multiplier, n), Pow(p.multiplier, n + 1);
    var a, b := Scaled(x, here, next);
    CapBetween(x, a, b, p.maxBackoff as real);
  }

  lemma Scaled(x: real, here: real, next: real) returns (a: real, b: real)
    requires x >= 0.0 && 1.0 <= here <= next
    ensures a == x * here && b == x * next && x <= a <= b
  {
    a, b := x * here, x * next;
    ScaleUp(here, x);
    Scale(here, next, x);
  }

  lemma CapBetween(x: real, a: real, b: real, top: real)
    requires x <= a <= b && x <= top
    ensures x <= Cap(a, top) <= top && Cap(a, top) <= Cap(b, top)
  {}

  lemma BackoffIsFloor(p: Policy, attempt: int)
    requires InRange(p) && p.initialBackoff > 0 && attempt >= 1
    ensures RetryBackoff(p, attempt) == Capped(p, attempt - 1).Floor
  {
    CappedGrows(p, attempt - 1);
  }

  lemma BackoffInRange(p: Policy, attempt: int)
    requires InRange(p) && p.initialBackoff > 0 && attempt >= 1
    ensures p.initialBackoff <= RetryBackoff(p, attempt) <= p.maxBackoff
    ensures RetryBackoff(p, attempt) <= RetryBackoff(p, attempt + 1)
  {
    var n := attempt - 1;
    CappedGrows(p, n);
    CappedGrows(p, n + 1);
    BackoffIsFloor(p, attempt);
    BackoffIsFloor(p, attempt + 1);
    FloorMonotone(p.initialBackoff as real, Capped(p, n));
    FloorMonotone(Capped(p, n), p.maxBackoff as real);
    FloorMonotone(Capped(p, n), Capped(p, n + 1));
  }

  /** Whatever the configured limits, after normalisation the wait lies between the initial and the maximal backoff and
      never shrinks. */
  lemma BackoffBoundedAndMonotone(raw: Policy, attempt: int)
    requires raw.initialBackoff > 0 && attempt >= 1
    ensures var p := Normalize(raw);
            && p.initialBackoff == raw.initialBackoff
            && p.initialBackoff <= RetryBackoff(p, attempt) <= RetryBackoff(p, attempt + 1) <= p.maxBackoff
  {
    NormalizeInRange(raw);
    BackoffInRange(Normalize(raw), attempt);
    BackoffInRange(Normalize(raw), attempt + 1);
  }

  lemma NoBackoffWithoutInitial(p: Policy, attempt: int)
    requires p.initialBackoff <= 0
    ensures RetryBackoff(p, attempt) == 0
  {}

  /** The backoff is geometric: for the sequence that starts with the initial backoff and grows by the multiplier, the
      wait after attempt k is its k-th member or the maximal backoff, whichever is less, in whole nanoseconds. */
  lemma BackoffIsGeometric(p: Policy, delays: nat -> real, k: nat)
    requires InRange(p) && p.initialBackoff > 0 && k >= 1
    requires delays(1) == p.initialBackoff as real
    requires forall i: nat | i >= 1 :: delays(i + 1) == delays(i) * p.multiplier
    ensures RetryBackoff(p, k) ==
            if delays(k) <= p.maxBackoff as real then delays(k).Floor else p.maxBackoff
  {
    DelayIs(p, delays, k);
    BackoffIsFloor(p, k);
  }

  lemma {:induction false} DelayIs(p: Policy, delays: nat -> real, k: nat)
    requires k >= 1 && delays(1) == p.initialBackoff as real
    requires forall i: nat | i >= 1 :: delays(i + 1) == delays(i) * p.multiplier
    ensures delays(k) == p.initialBackoff as real * Pow(p.multiplier, k - 1)
  {
    if k > 1 {
      DelayIs(p, delays, k - 1);
      assert delays(k - 1 + 1) == delays(k - 1) * p.multiplier;
      Reorder(p.initialBackoff as real, Pow(p.multiplier, k - 2), p.multiplier);
    }
  }

  lemma Reorder(a: real, b: real, c: real)
    ensures a * b * c == a * (c * b)
  {}
}
