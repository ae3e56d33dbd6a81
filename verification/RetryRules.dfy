/** retry.go: what the trace of a round trip holds, said of the answers alone. */
module RetryRules {
  import opened Text
  import opened RetryPolicy
  import opened RetryLoop

  /** The answer is one that the policy retries: a listed status, or a retryable failure if failures are retried. */
  predicate Asks(p: Policy, replayable: bool, answer: Upstream) {
    && replayable
    && (answer.Response? ==> answer.status in p.statusCodes)
    && (answer.Failure? ==> answer.retryable && p.retryOnTransportErrors)
  }

  ghost function FullTrace(p: Policy, replayable: bool, w: World): seq<Event>
    requires p.maxAttempts >= 1
  {
    TraceOf(p, replayable, w, Attempts(p, replayable, w, 1))
  }

  ghost function FullResult(p: Policy, replayable: bool, w: World): Result
    requires p.maxAttempts >= 1
  {
    ResultOf(p, replayable, w, Attempts(p, replayable, w, 1))
  }

  lemma {:induction false} InRounds(p: Policy, w: World, n: nat, e: Event)
    ensures e in Rounds(p, w, n) <==>
            match e
            case Attempt(k) => 1 <= k <= n
            case Wait(k, d) => 1 <= k <= n && d == RetryBackoff(p, k)
            case Close(k) => 1 <= k <= n && w.answer(k).Response?
  {
    if n > 0 {
      InRounds(p, w, n - 1, e);
      InRound(p, w, n, e);
    }
  }

  lemma InRound(p: Policy, w: World, n: nat, e: Event)
    ensures e in Round(p, w, n) <==>
            match e
            case Attempt(k) => k == n
            case Wait(k, d) => k == n && d == RetryBackoff(p, n)
            case Close(k) => k == n && w.answer(n).Response?
  {
    var first, rest := [Attempt(n), Wait(n, RetryBackoff(p, n))], if w.answer(n).Response? then [Close(n)] else [];
    assert Round(p, w, n) == first + rest;
  }

  /** Attempt n asks for another one, and there may be another one. */
  predicate Continues(p: Policy, replayable: bool, w: World, n: nat) {
    n < p.maxAttempts && Asks(p, replayable, w.answer(n))
  }

  lemma InTrace(p: Policy, replayable: bool, w: World, n: nat, e: Event)
    requires n >= 1
    ensures e in TraceOf(p, replayable, w, n) <==>
            match e
            case Attempt(k) => 1 <= k <= n
            case Wait(k, d) => d == RetryBackoff(p, k) && (1 <= k < n || (k == n && Continues(p, replayable, w, n)))
            case Close(k) => w.answer(k).Response?
                             && (1 <= k < n || (k == n && Continues(p, replayable, w, n) && w.waits(n)))
  {
    InRounds(p, w, n - 1, e);
    InRound(p, w, n, e);
  }

  /** One attempt is made at least, and a further one exactly if the one before was made, may be followed, got an answer
      that is retried, the wait after it ended normally, and the request could be cloned. */
  lemma AttemptIff(p: Policy, replayable: bool, w: World, k: nat)
    requires p.maxAttempts >= 1 && k >= 1
    ensures var trace := FullTrace(p, replayable, w);
            && Attempt(1) in trace
            && (Attempt(k + 1) in trace <==>
                && Attempt(k) in trace && k < p.maxAttempts && replayable
                && (match w.answer(k)
                    case Response(status) => status in p.statusCodes
                    case Failure(retryable) => retryable && p.retryOnTransportErrors)
                && w.waits(k) && w.clones(k + 1))
  {
    var n := Attempts(p, replayable, w, 1);
    InTrace(p, replayable, w, n, Attempt(1));
    InTrace(p, replayable, w, n, Attempt(k));
    InTrace(p, replayable, w, n, Attempt(k + 1));
    assert k < n ==> GoesOn(p, replayable, w, k);
  }

  /** A wait follows exactly those attempts that are retried if they may be, and lasts the backoff of that attempt; a
      response is closed exactly once such a wait has ended normally. */
  lemma WaitAndCloseIff(p: Policy, replayable: bool, w: World, k: nat, delay: int)
    requires p.maxAttempts >= 1 && k >= 1
    ensures var trace := FullTrace(p, replayable, w);
            var retried := Attempt(k) in trace && k < p.maxAttempts && Asks(p, replayable, w.answer(k));
            && (Wait(k, delay) in trace <==> retried && delay == RetryBackoff(p, k))
            && (Close(k) in trace <==> retried && w.answer(k).Response? && w.waits(k))
  {
    var n := Attempts(p, replayable, w, 1);
    InTrace(p, replayable, w, n, Attempt(k));
    InTrace(p, replayable, w, n, Wait(k, delay));
    InTrace(p, replayable, w, n, Close(k));
    assert k < n ==> GoesOn(p, replayable, w, k);
  }

  /** The result is that of the last attempt n: its response unless the next clone failed; its failure unless it was to
      be retried and the wait or the clone failed. */
  lemma ResultIs(p: Policy, replayable: bool, w: World, n: nat)
    requires p.maxAttempts >= 1 && n >= 1
    requires Attempt(n) in FullTrace(p, replayable, w) && Attempt(n + 1) !in FullTrace(p, replayable, w)
    ensures var retried := n < p.maxAttempts && Asks(p, replayable, w.answer(n));
            FullResult(p, replayable, w) ==
            if retried && w.waits(n) then CloneError(n + 1)
            else if w.answer(n).Response? then Returned(n)
            else if retried then WaitError(n)
            else TransportError(n)
    ensures FullResult(p, replayable, w).CloneError? ==> !w.clones(n + 1)
  {
    var last := Attempts(p, replayable, w, 1);
    InTrace(p, replayable, w, last, Attempt(n));
    InTrace(p, replayable, w, last, Attempt(n + 1));
    assert n == last;
  }

  /** `enabled`. */
  ghost predicate Enabled(raw: Policy) {
    var p := Normalize(raw);
    p.maxAttempts > 1 && p.verbs != [] && (p.statusCodes != [] || p.retryOnTransportErrors)
  }

  /** The transport is left out exactly when it could not retry anything: when it is out no request it would handle gets a
      second attempt, and when it is in some request does. */
  lemma EnabledIff(raw: Policy)
    ensures var p := Normalize(raw);
            Enabled(raw) <==>
            exists verb, w :: ShouldRetryRequest(p, verb, false) && p.maxAttempts >= 1 && Attempt(2) in FullTrace(p, true, w)
  {
    var p := Normalize(raw);
    if Enabled(raw) {
      var verb := SomeVerb(raw);
      var w := SomeWorld(raw);
      assert ShouldRetryRequest(p, verb, false) && p.maxAttempts >= 1 && Attempt(2) in FullTrace(p, true, w);
    }
    if verb, w :| ShouldRetryRequest(p, verb, false) && p.maxAttempts >= 1 && Attempt(2) in FullTrace(p, true, w) {
      OnlyIfEnabled(raw, verb, w);
    }
  }

  lemma SomeVerb(raw: Policy) returns (verb: string)
    requires Normalize(raw).verbs != []
    ensures ShouldRetryRequest(Normalize(raw), verb, false)
  {
    var first := Normalize(raw).verbs[0];
    StableVerb(raw, first);
    SmallConnect();
    verb := if first == "CONNECT" then "connect" else first;
  }

  lemma SomeWorld(raw: Policy) returns (w: World)
    requires Enabled(raw)
    ensures Normalize(raw).maxAttempts >= 1 && Attempt(2) in FullTrace(Normalize(raw), true, w)
  {
    var p := Normalize(raw);
    var answer := if p.statusCodes != [] then Response(p.statusCodes[0]) else Failure(true);
    w := World(_ => answer, _ => true, _ => true);
    AttemptIff(p, true, w, 1);
  }

  lemma OnlyIfEnabled(raw: Policy, verb: string, w: World)
    requires var p := Normalize(raw);
             ShouldRetryRequest(p, verb, false) && p.maxAttempts >= 1 && Attempt(2) in FullTrace(p, true, w)
    ensures Enabled(raw)
  {
    AttemptIff(Normalize(raw), true, w, 1);
  }

  /** Go compares the method with `CONNECT` before it changes its case. */
  lemma SmallConnect()
    ensures ToUpper(TrimSpace("connect")) == "CONNECT"
  {
    assert TrimLeft("connect") == "connect" && TrimRight("connect") == "connect";
    assert ToUpper("connect") == ['C', 'O', 'N', 'N', 'E', 'C', 'T'];
  }

  lemma StableVerb(raw: Policy, verb: string)
    requires verb in Normalize(raw).verbs
    ensures ToUpper(TrimSpace(verb)) == verb
  {
    var u :| u in raw.verbs && TrimSpace(u) != "" && verb == ToUpper(TrimSpace(u));
    TrimmedStays(u);
  }
}
