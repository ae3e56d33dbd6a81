/** retry.go: the attempt loop over a prepared body. */
module RetryRound {
  import opened RetryPolicy
  import opened RetryLoop
  import opened RetryBody

  /** A request whose clone for attempt k fails only if it has no body to send again, or if the caller's own `GetBody`
      fails then, which `getBodyOk` tells. */
  predicate CanClone(q: Snapshot, getBodyOk: nat -> bool, limit: int, k: nat) {
    AttemptBody(PrepareSpec(q, limit).request, k).Cloned? && (CallsGetBody(q) ==> getBodyOk(k))
  }

  /** The caller's own `GetBody` is what attempts after the first read from. */
  predicate CallsGetBody(q: Snapshot) {
    q.body.Stream? && q.getBody.Getter?
  }

  function WorldOf(q: Snapshot, limit: int, answer: nat -> Upstream, waits: nat -> bool, getBodyOk: nat -> bool): World {
    World(answer, waits, (k: nat) => CanClone(q, getBodyOk, limit, k))
  }

  /** `RoundTrip` from the start: the body is prepared, and if that can be read, the attempts are made. */
  method RoundTripWithBody(p: Policy, request: Request, answer: nat -> Upstream, waits: nat -> bool, getBodyOk: nat -> bool)
    returns (prepared: Prepared, r: Result, trace: seq<Event>)
    requires p.maxAttempts >= 1 && p.bodyBufferBytes <= MAX_INT64
    modifies request
    ensures var q := old(request.Fields());
            var spec := PrepareSpec(q, p.bodyBufferBytes);
            var w := WorldOf(q, p.bodyBufferBytes, answer, waits, getBodyOk);
            var n := Attempts(p, spec.answer.Replayable?, w, 1);
            && prepared == spec.answer && request.Fields() == spec.request
            && (prepared.ReadFailed? ==> trace == [])
            && (!prepared.ReadFailed? ==>
                  r == ResultOf(p, spec.answer.Replayable?, w, n) && trace == TraceOf(p, spec.answer.Replayable?, w, n))
  {
    ghost var q := request.Fields();
    var own := request.body.Stream? && request.getBody.Getter?;
    r, trace := Returned(0), [];
    ghost var buffered, captured;
    prepared, buffered, captured := request.Prepare(p.bodyBufferBytes);
    if prepared.ReadFailed? { return; }
    var fields := request.Fields();
    var w := World(answer, waits, (k: nat) => AttemptBody(fields, k).Cloned? && (own ==> getBodyOk(k)));
    ghost var spec := WorldOf(q, p.bodyBufferBytes, answer, waits, getBodyOk);
    r, trace := RoundTrip(p, prepared.Replayable?, w);
    SameWorld(p, prepared.Replayable?, w, spec, 1);
  }

  /** Round trips depend on a world only through what it answers. */
  lemma {:induction false} SameWorld(p: Policy, replayable: bool, w: World, v: World, from: nat)
    requires 1 <= from <= p.maxAttempts
    requires w.answer == v.answer && w.waits == v.waits && forall k :: w.clones(k) == v.clones(k)
    ensures var n := Attempts(p, replayable, w, from);
            && Attempts(p, replayable, v, from) == n && ResultOf(p, replayable, v, n) == ResultOf(p, replayable, w, n)
            && TraceOf(p, replayable, v, n) == TraceOf(p, replayable, w, n)
    decreases p.maxAttempts - from
  {
    if GoesOn(p, replayable, w, from) { SameWorld(p, replayable, w, v, from + 1); }
    SameRounds(p, w, v, Attempts(p, replayable, w, from) - 1);
  }

  lemma {:induction false} SameRounds(p: Policy, w: World, v: World, n: nat)
    requires w.answer == v.answer
    ensures Rounds(p, v, n) == Rounds(p, w, n)
  {
    if n > 0 { SameRounds(p, w, v, n - 1); }
  }

  /** Unless the body could not be read, every attempt that a round trip makes sends exactly the original bytes, and the
      round trip ends in a clone error only if the caller's own `GetBody` failed; so never over a buffered body. */
  lemma AttemptsSendTheBody(p: Policy, q: Snapshot, answer: nat -> Upstream, waits: nat -> bool, getBodyOk: nat -> bool)
    requires p.maxAttempts >= 1 && p.bodyBufferBytes <= MAX_INT64 && GetterGivesBody(q)
    requires !PrepareSpec(q, p.bodyBufferBytes).answer.ReadFailed? && !BeyondInt64(q, p.bodyBufferBytes)
    ensures var spec := PrepareSpec(q, p.bodyBufferBytes);
            var w := WorldOf(q, p.bodyBufferBytes, answer, waits, getBodyOk);
            var n := Attempts(p, spec.answer.Replayable?, w, 1);
            && (forall k | 1 <= k <= n :: SendsAgain(spec.request, k, q))
            && (ResultOf(p, spec.answer.Replayable?, w, n).CloneError? ==> CallsGetBody(q) && !getBodyOk(n + 1))
  {
    var limit := p.bodyBufferBytes;
    var spec := PrepareSpec(q, limit);
    var replayable := spec.answer.Replayable?;
    var w := WorldOf(q, limit, answer, waits, getBodyOk);
    var n := Attempts(p, replayable, w, 1);
    forall k | 1 <= k <= n ensures SendsAgain(spec.request, k, q) {
      if k > 1 { assert GoesOn(p, replayable, w, k - 1); }
      ReplayIsLossless(q, limit, k);
    }
    if ResultOf(p, replayable, w, n).CloneError? {
      ReplayIsLossless(q, limit, n + 1);
      assert !w.clones(n + 1);
    }
  }

  /** Attempt k can be made and sends the bytes of the original body. */
  ghost predicate SendsAgain(request: Snapshot, k: nat, q: Snapshot) {
    var clone := AttemptBody(request, k);
    clone.Cloned? && BodyData(clone.body) == BodyData(q.body)
  }
}
