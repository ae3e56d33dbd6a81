/** retry.go: the attempts, waits and response closes of one round trip. */
module RetryLoop {
  import opened RetryPolicy

  /** What the upstream transport answers; a failure caused by cancellation or a deadline is not retryable. */
  datatype Upstream = Response(status: int) | Failure(retryable: bool)

  /** The world of one round trip, by attempt number: the answer, whether the wait after it ends normally, and whether
      the request can be cloned for it. */
  datatype World = World(answer: nat -> Upstream, waits: nat -> bool, clones: nat -> bool)

  datatype Event =
    | Attempt(n: nat)
    | Wait(n: nat, delay: int)
    | Close(n: nat)

  datatype Result =
    | Returned(n: nat)
    | TransportError(n: nat)
    | WaitError(n: nat)
    | CloneError(n: nat)

  function ShouldRetryStatus(p: Policy, status: int): bool {
    status in p.statusCodes
  }

  /** Whether the answer to an attempt that is not the last asks for another one. */
  predicate WantsRetry(p: Policy, replayable: bool, answer: Upstream) {
    && replayable
    && match answer
       case Response(status) => ShouldRetryStatus(p, status)
       case Failure(retryable) => p.retryOnTransportErrors && retryable
  }

  /** The round trip goes on to attempt n + 1. */
  predicate GoesOn(p: Policy, replayable: bool, w: World, n: nat) {
    n < p.maxAttempts && WantsRetry(p, replayable, w.answer(n)) && w.waits(n) && w.clones(n + 1)
  }

  /** The number of attempts that are made. */
  function Attempts(p: Policy, replayable: bool, w: World, from: nat): (n: nat)
    requires 1 <= from <= p.maxAttempts
    ensures from <= n <= p.maxAttempts && !GoesOn(p, replayable, w, n)
    ensures forall k | from <= k < n :: GoesOn(p, replayable, w, k)
    decreases p.maxAttempts - from
  {
    if GoesOn(p, replayable, w, from) then Attempts(p, replayable, w, from + 1) else from
  }

  /** Everything between attempt n and attempt n + 1, attempt n included. */
  function Round(p: Policy, w: World, n: nat): seq<Event> {
    [Attempt(n), Wait(n, RetryBackoff(p, n))] + if w.answer(n).Response? then [Close(n)] else []
  }

  function Rounds(p: Policy, w: World, n: nat): seq<Event> {
    if n == 0 then [] else Rounds(p, w, n - 1) + Round(p, w, n)
  }

  /** What is handed to the caller once attempt n was the last one. */
  function ResultOf(p: Policy, replayable: bool, w: World, n: nat): Result {
    var wants := n < p.maxAttempts && WantsRetry(p, replayable, w.answer(n));
    if wants && w.waits(n) then CloneError(n + 1)
    else if w.answer(n).Response? then Returned(n)
    else if wants then WaitError(n)
    else TransportError(n)
  }

  /** The events from the last attempt on. */
  function Tail(p: Policy, replayable: bool, w: World, n: nat): seq<Event> {
    if !(n < p.maxAttempts && WantsRetry(p, replayable, w.answer(n))) then [Attempt(n)]
    else if !w.waits(n) then [Attempt(n), Wait(n, RetryBackoff(p, n))]
    else Round(p, w, n)
  }

  function TraceOf(p: Policy, replayable: bool, w: World, n: nat): seq<Event>
    requires n >= 1
  {
    Rounds(p, w, n - 1) + Tail(p, replayable, w, n)
  }

  /** `RoundTrip` for a retryable request. The panic after the loop is unreachable. */
  method RoundTrip(p: Policy, replayable: bool, w: World) returns (r: Result, trace: seq<Event>)
    requires p.maxAttempts >= 1
    ensures var n := Attempts(p, replayable, w, 1);
            r == ResultOf(p, replayable, w, n) && trace == TraceOf(p, replayable, w, n)
  {
    trace, r := [], Returned(0);
    var attempt := 1;
    while attempt <= p.maxAttempts
      invariant 1 <= attempt <= p.maxAttempts
      invariant trace == Rounds(p, w, attempt - 1)
      invariant attempt > 1 ==> WantsRetry(p, replayable, w.answer(attempt - 1)) && w.waits(attempt - 1)
      invariant Attempts(p, replayable, w, 1) ==
                if attempt == 1 || w.clones(attempt) then Attempts(p, replayable, w, attempt) else attempt - 1
      decreases p.maxAttempts - attempt
    {
      if attempt > 1 && !w.clones(attempt) {
        return CloneError(attempt), trace;
      }
      ghost var before := trace;
      trace := trace + [Attempt(attempt)];
      var delay := RetryBackoff(p, attempt);
      match w.answer(attempt) {
        case Failure(retryable) =>
          if !replayable || !p.retryOnTransportErrors || !retryable || attempt == p.maxAttempts {
            return TransportError(attempt), trace;
          }
          trace := trace + [Wait(attempt, delay)];
          if !w.waits(attempt) {
            return WaitError(attempt), trace;
          }
        case Response(status) =>
          if !replayable || !ShouldRetryStatus(p, status) || attempt == p.maxAttempts {
            return Returned(attempt), trace;
          }
          trace := trace + [Wait(attempt, delay)];
          if !w.waits(attempt) {
            return Returned(attempt), trace;
          }
          trace := trace + [Close(attempt)];
      }
      assert trace == before + Round(p, w, attempt);
      attempt := attempt + 1;
    }
    assert false;
  }

  // ---------------------------------------------------------------- what the trace says

  function Count(trace: seq<Event>, e: Event): nat {
    if trace == [] then 0 else Count(trace[..|trace| - 1], e) + if trace[|trace| - 1] == e then 1 else 0
  }

  lemma {:induction false} CountConcat(a: seq<Event>, b: seq<Event>, e: Event)
    ensures Count(a + b, e) == Count(a, e) + Count(b, e)
  {
    if b == [] {
      assert a + b == a;
    } else {
      CountConcat(a, b[..|b| - 1], e);
      assert (a + b)[..|a + b| - 1] == a + b[..|b| - 1];
    }
  }

  lemma RoundCount(p: Policy, w: World, n: nat, k: nat)
    ensures Count(Round(p, w, n), Attempt(k)) == (if k == n then 1 else 0)
    ensures Count(Round(p, w, n), Close(k)) == (if k == n && w.answer(n).Response? then 1 else 0)
  {
    var first, second := [Attempt(n)], [Wait(n, RetryBackoff(p, n))];
    var third := if w.answer(n).Response? then [Close(n)] else [];
    assert Round(p, w, n) == first + second + third;
    CountConcat(first + second, third, Attempt(k));
    CountConcat(first, second, Attempt(k));
    CountConcat(first + second, third, Close(k));
    CountConcat(first, second, Close(k));
    One(Attempt(n), Attempt(k));
    One(Wait(n, RetryBackoff(p, n)), Attempt(k));
    One(Close(n), Attempt(k));
    One(Attempt(n), Close(k));
    One(Wait(n, RetryBackoff(p, n)), Close(k));
    One(Close(n), Close(k));
  }

  lemma One(x: Event, e: Event)
    ensures Count([x], e) == if x == e then 1 else 0
  {
    assert [x][..0] == [];
  }

  lemma {:induction false} RoundsCount(p: Policy, w: World, n: nat, k: nat)
    ensures Count(Rounds(p, w, n), Attempt(k)) == (if 1 <= k <= n then 1 else 0)
    ensures Count(Rounds(p, w, n), Close(k)) == (if 1 <= k <= n && w.answer(k).Response? then 1 else 0)
  {
    if n > 0 {
      RoundsCount(p, w, n - 1, k);
      RoundCount(p, w, n, k);
      CountConcat(Rounds(p, w, n - 1), Round(p, w, n), Attempt(k));
      CountConcat(Rounds(p, w, n - 1), Round(p, w, n), Close(k));
    }
  }

  /** Attempts 1 to n are made once each. A response is closed exactly when it was superseded by a later attempt, or
      when the clone for that attempt failed; so a returned response is never closed. */
  lemma RoundTripDiscipline(p: Policy, replayable: bool, w: World, k: nat)
    requires p.maxAttempts >= 1
    ensures var n := Attempts(p, replayable, w, 1);
            var trace, r := TraceOf(p, replayable, w, n), ResultOf(p, replayable, w, n);
            && n <= p.maxAttempts && (!replayable ==> n == 1)
            && Count(trace, Attempt(k)) == (if 1 <= k <= n then 1 else 0)
            && Count(trace, Close(k)) ==
               (if (1 <= k < n || (k == n && r.CloneError?)) && w.answer(k).Response? then 1 else 0)
            && (r.Returned? ==> r.n == n && Count(trace, Close(n)) == 0)
            && (r.TransportError? || r.WaitError? ==> r.n == n)
            && (r.Returned? || r.TransportError? || !w.waits(n) || !w.clones(n + 1))
  {
    var n := Attempts(p, replayable, w, 1);
    TraceCount(p, replayable, w, n, k);
    TraceCount(p, replayable, w, n, n);
  }

  lemma TailCount(p: Policy, replayable: bool, w: World, n: nat, k: nat)
    ensures Count(Tail(p, replayable, w, n), Attempt(k)) == (if k == n then 1 else 0)
    ensures Count(Tail(p, replayable, w, n), Close(k)) ==
            (if k == n && ResultOf(p, replayable, w, n).CloneError? && w.answer(n).Response? then 1 else 0)
  {
    var wait := Wait(n, RetryBackoff(p, n));
    RoundCount(p, w, n, k);
    One(Attempt(n), Attempt(k));
    One(Attempt(n), Close(k));
    One(wait, Attempt(k));
    One(wait, Close(k));
    assert [Attempt(n), wait] == [Attempt(n)] + [wait];
    CountConcat([Attempt(n)], [wait], Attempt(k));
    CountConcat([Attempt(n)], [wait], Close(k));
  }

  lemma TraceCount(p: Policy, replayable: bool, w: World, n: nat, k: nat)
    requires n >= 1
    ensures var trace, r := TraceOf(p, replayable, w, n), ResultOf(p, replayable, w, n);
            && Count(trace, Attempt(k)) == (if 1 <= k <= n then 1 else 0)
            && Count(trace, Close(k)) ==
               (if (1 <= k < n || (k == n && r.CloneError?)) && w.answer(k).Response? then 1 else 0)
  {
    var front, tail := Rounds(p, w, n - 1), Tail(p, replayable, w, n);
    RoundsCount(p, w, n - 1, k);
    TailCount(p, replayable, w, n, k);
    CountConcat(front, tail, Attempt(k));
    CountConcat(front, tail, Close(k));
  }

  /** Between two attempts there are the wait of the first, with its backoff, and then the close of its response. */
  lemma BetweenAttempts(p: Policy, replayable: bool, w: World, k: nat)
    requires p.maxAttempts >= 1 && 1 <= k < Attempts(p, replayable, w, 1)
    ensures var trace := TraceOf(p, replayable, w, Attempts(p, replayable, w, 1));
            var i, m := |Rounds(p, w, k)|, if w.answer(k).Response? then 3 else 2;
            && m <= i < |trace| && trace[i - m] == Attempt(k) && trace[i - m + 1] == Wait(k, RetryBackoff(p, k))
            && (w.answer(k).Response? ==> trace[i - 1] == Close(k)) && trace[i] == Attempt(k + 1)
  {
    var n := Attempts(p, replayable, w, 1);
    RoundsPrefix(p, w, k, n - 1);
    RoundsEnd(p, w, k);
    TraceGoesOn(Rounds(p, w, k), Rounds(p, w, n - 1), Tail(p, replayable, w, n));
    assert Tail(p, replayable, w, n)[0] == Attempt(n);
  }

  lemma RoundsEnd(p: Policy, w: World, k: nat)
    requires k >= 1
    ensures var i, m := |Rounds(p, w, k)|, if w.answer(k).Response? then 3 else 2;
            && m <= i && Rounds(p, w, k)[i - m] == Attempt(k) && Rounds(p, w, k)[i - m + 1] == Wait(k, RetryBackoff(p, k))
            && (w.answer(k).Response? ==> Rounds(p, w, k)[i - 1] == Close(k))
  {
    var before, last := Rounds(p, w, k - 1), Round(p, w, k);
    assert Rounds(p, w, k) == before + last;
  }

  lemma TraceGoesOn(part: seq<Event>, front: seq<Event>, tail: seq<Event>)
    requires part <= front && tail != []
    ensures |part| < |front + tail| && part <= front + tail
    ensures (front + tail)[|part|] == if part == front then tail[0] else front[|part|]
  {}

  lemma {:induction false} RoundsPrefix(p: Policy, w: World, k: nat, n: nat)
    requires 1 <= k <= n
    ensures Rounds(p, w, k) <= Rounds(p, w, n)
    ensures k < n ==> |Rounds(p, w, k)| < |Rounds(p, w, n)| && Rounds(p, w, n)[|Rounds(p, w, k)|] == Attempt(k + 1)
  {
    if k < n { RoundsPrefix(p, w, k, n - 1); }
  }

  // ---------------------------------------------------------------- waiting time

  function TotalWait(trace: seq<Event>): int {
    if trace == [] then 0
    else
      var last := trace[|trace| - 1];
      TotalWait(trace[..|trace| - 1]) + if last.Wait? then last.delay else 0
  }

  lemma {:induction false} TotalWaitConcat(a: seq<Event>, b: seq<Event>)
    ensures TotalWait(a + b) == TotalWait(a) + TotalWait(b)
  {
    if b == [] {
      assert a + b == a;
    } else {
      TotalWaitConcat(a, b[..|b| - 1]);
      assert (a + b)[..|a + b| - 1] == a + b[..|b| - 1];
    }
  }

  lemma BackoffWithin(p: Policy, n: nat)
    requires InRange(p) && n >= 1
    ensures 0 <= RetryBackoff(p, n) <= p.maxBackoff
  {
    if p.initialBackoff > 0 { BackoffInRange(p, n); } else { NoBackoffWithoutInitial(p, n); }
  }

  lemma ShortWaits(p: Policy, n: nat)
    ensures TotalWait([Attempt(n)]) == 0
    ensures TotalWait([Attempt(n), Wait(n, RetryBackoff(p, n))]) == RetryBackoff(p, n)
  {
    var a, b := [Attempt(n)], [Wait(n, RetryBackoff(p, n))];
    assert a[..0] == [] && b[..0] == [] && a + b == [Attempt(n), Wait(n, RetryBackoff(p, n))];
    TotalWaitConcat(a, b);
  }

  lemma RoundWait(p: Policy, w: World, n: nat)
    ensures TotalWait(Round(p, w, n)) == RetryBackoff(p, n)
  {
    ShortWaits(p, n);
    var tail := if w.answer(n).Response? then [Close(n)] else [];
    assert [Close(n)][..0] == [];
    TotalWaitConcat([Attempt(n), Wait(n, RetryBackoff(p, n))], tail);
  }

  lemma {:induction false} RoundsWait(p: Policy, w: World, n: nat)
    requires InRange(p)
    ensures TotalWait(Rounds(p, w, n)) <= n * p.maxBackoff
  {
    if n > 0 {
      RoundsWait(p, w, n - 1);
      RoundWait(p, w, n);
      TotalWaitConcat(Rounds(p, w, n - 1), Round(p, w, n));
      BackoffWithin(p, n);
      OneMore(n, p.maxBackoff);
    }
  }

  lemma OneMore(n: int, x: int)
    ensures (n - 1) * x + x == n * x
  {}

  lemma TailWait(p: Policy, replayable: bool, w: World, n: nat)
    requires InRange(p) && 1 <= n <= p.maxAttempts
    ensures TotalWait(Tail(p, replayable, w, n)) <= if n == p.maxAttempts then 0 else p.maxBackoff
  {
    BackoffWithin(p, n);
    ShortWaits(p, n);
    RoundWait(p, w, n);
  }

  lemma WaitsInRange(p: Policy, replayable: bool, w: World)
    requires InRange(p)
    ensures TotalWait(TraceOf(p, replayable, w, Attempts(p, replayable, w, 1))) <= (p.maxAttempts - 1) * p.maxBackoff
  {
    var n := Attempts(p, replayable, w, 1);
    RoundsWait(p, w, n - 1);
    TailWait(p, replayable, w, n);
    TotalWaitConcat(Rounds(p, w, n - 1), Tail(p, replayable, w, n));
    if n < p.maxAttempts {
      OneMore(n, p.maxBackoff);
      Times(n, p.maxAttempts - 1, p.maxBackoff);
    }
  }

  lemma Times(a: int, b: int, x: int)
    requires a <= b && x >= 0
    ensures a * x <= b * x
  {}

  /** Whatever the configured limits, after normalisation all waits of one round trip together ask for at most
      (maxAttempts - 1) times the maximal backoff. */
  lemma TotalWaitBounded(raw: Policy, replayable: bool, w: World)
    ensures var p := Normalize(raw);
            p.maxAttempts >= 1 &&
            TotalWait(TraceOf(p, replayable, w, Attempts(p, replayable, w, 1))) <= (p.maxAttempts - 1) * p.maxBackoff
  {
    NormalizeInRange(raw);
    WaitsInRange(Normalize(raw), replayable, w);
  }
}
