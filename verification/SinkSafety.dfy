/** What holds in every reachable state of the sink, under every interleaving of its steps. */
module SinkSafety {
  import opened Partition
  import opened SinkProtocol

  // ---------------------------------------------------------------- batches and bytes

  lemma BytesSnoc(batch: seq<Event>, e: Event)
    ensures Bytes(batch + [e]) == Bytes(batch) + Size(e)
  {
    assert (batch + [e])[..|batch|] == batch;
  }

  lemma {:induction false} BytesConcat(a: seq<Event>, b: seq<Event>)
    ensures Bytes(a + b) == Bytes(a) + Bytes(b)
  {
    if b == [] {
      assert a + b == a;
    } else {
      var init, e := b[..|b| - 1], b[|b| - 1];
      BytesConcat(a, init);
      BytesSnoc(a + init, e);
      assert a + b == a + init + [e];
    }
  }

  lemma BytesOfPiece(front: seq<Event>, piece: seq<Event>, back: seq<Event>)
    ensures Bytes(piece) <= Bytes(front + piece + back)
  {
    BytesConcat(front + piece, back);
    BytesConcat(front, piece);
  }

  lemma PacksHereditary(c: Config)
    ensures Hereditary(Packs(c))
  {
    forall b: seq<Event>, i, j | 0 <= i <= j <= |b| && Packs(c)(b) ensures Packs(c)(b[i..j]) { PieceFits(c, b, i, j); }
  }

  lemma PieceFits(c: Config, batch: seq<Event>, i: nat, j: nat)
    requires i <= j <= |batch| && Fits(c, batch)
    ensures Fits(c, batch[i..j])
  {
    assert batch == batch[..i] + batch[i..j] + batch[j..];
    BytesOfPiece(batch[..i], batch[i..j], batch[j..]);
  }

  lemma DeliveredSnoc(s: State, f: Flush)
    ensures Batches(s.flushed + [f]) == Batches(s.flushed) + [f.batch]
    ensures Concat(Batches(s.flushed + [f])) == Delivered(s) + f.batch
  {
    assert Batches(s.flushed + [f]) == Batches(s.flushed) + [f.batch];
    ConcatSnoc(Batches(s.flushed), f.batch);
  }

  ghost predicate GreedySoFar(c: Config, s: State) {
    && (s.batch == [] ==> s.flushed == [])
    && Greedy(Packs(c), Delivered(s) + s.batch) == Batches(s.flushed) + if s.batch == [] then [] else [s.batch]
  }

  lemma GreedyParts(c: Config, s: State)
    requires GreedySoFar(c, s) && s.batch != []
    ensures var parts := Greedy(Packs(c), Delivered(s) + s.batch);
            parts != [] && parts[..|parts| - 1] == Batches(s.flushed) && parts[|parts| - 1] == s.batch
  {}

  /** Taking over `e` extends the open batch when it fits or is the first event, and opens the next one otherwise. */
  lemma GreedyTakes(c: Config, s: State, e: Event)
    requires GreedySoFar(c, s)
    ensures Greedy(Packs(c), Delivered(s) + s.batch + [e]) ==
            if s.batch == [] || Fits(c, s.batch + [e]) then Batches(s.flushed) + [s.batch + [e]]
            else Batches(s.flushed) + [s.batch] + [[e]]
  {
    var done := Delivered(s) + s.batch;
    assert (done + [e])[..|done|] == done;
    if s.batch == [] {
      assert done == [] && [] + [e] == [e] && Batches(s.flushed) == [];
    } else {
      GreedyParts(c, s);
    }
  }

  // ---------------------------------------------------------------- one step

  lemma EnqueueConserved(c: Config, s: State, e: Event, cancelled: bool)
    requires Conserved(s) && Accounted(s)
    ensures Conserved(EnqueueStep(c, s, e, cancelled)) && Accounted(EnqueueStep(c, s, e, cancelled))
  {
    var s' := EnqueueStep(c, s, e, cancelled);
    var placed := Delivered(s) + s.batch + InHand(s);
    assert Delivered(s') + s'.batch + InHand(s') == placed;
    assert placed + (s.queue + [e]) == placed + s.queue + [e];
  }

  lemma EnqueueBounded(c: Config, s: State, e: Event, cancelled: bool)
    requires Bounded(c, s)
    ensures Bounded(c, EnqueueStep(c, s, e, cancelled))
  {
    forall x | x in s.accepted + [e] && |e.message| <= c.maxEventBytes ensures |x.message| <= c.maxEventBytes {
      assert x in s.accepted || x == e;
    }
  }

  lemma EnqueueControl(c: Config, s: State, e: Event, cancelled: bool)
    requires ControlOk(s)
    ensures ControlOk(EnqueueStep(c, s, e, cancelled))
  {
    assert Delivered(EnqueueStep(c, s, e, cancelled)) == Delivered(s);
  }

  lemma EnqueuePacked(c: Config, s: State, e: Event, cancelled: bool)
    requires Packed(c, s)
    ensures Packed(c, EnqueueStep(c, s, e, cancelled))
  {
    var s' := EnqueueStep(c, s, e, cancelled);
    assert Delivered(s') == Delivered(s) && InHand(s') == InHand(s);
  }

  lemma EnqueueKeeps(c: Config, s: State, e: Event, cancelled: bool)
    requires Inv(c, s)
    ensures Inv(c, EnqueueStep(c, s, e, cancelled))
  {
    EnqueueConserved(c, s, e, cancelled);
    EnqueueBounded(c, s, e, cancelled);
    EnqueueControl(c, s, e, cancelled);
    EnqueuePacked(c, s, e, cancelled);
  }

  lemma TakeHead(a: seq<Event>, b: seq<Event>, q: seq<Event>)
    requires q != []
    ensures a + (b + [q[0]]) + [] + q[1..] == a + b + [] + q
    ensures a + b + [q[0]] + q[1..] == a + b + [] + q
  {
    assert q == [q[0]] + q[1..];
  }

  ghost predicate CanTake(s: State) {
    (s.pc == Select || s.pc == Drain) && s.queue != []
  }

  function Appended(s: State): State
    requires s.queue != []
  {
    Continue(s.(queue := s.queue[1..]), ToAppend(s.queue[0]))
  }

  lemma AppendConserved(s: State)
    requires Conserved(s) && Accounted(s) && CanTake(s)
    ensures Conserved(Appended(s)) && Accounted(Appended(s))
  {
    TakeHead(Delivered(s), s.batch, s.queue);
    assert Delivered(Appended(s)) == Delivered(s);
  }

  lemma AppendBounded(c: Config, s: State)
    requires Bounded(c, s) && CanTake(s) && (!MustFlush(c, s.batch, s.batchBytes, s.queue[0]) || s.batch == [])
    ensures Bounded(c, Appended(s))
  {
    BytesSnoc(s.batch, s.queue[0]);
  }

  lemma AppendControl(s: State)
    requires ControlOk(s) && CanTake(s)
    ensures ControlOk(Appended(s))
  {
    assert Delivered(Appended(s)) == Delivered(s);
  }

  lemma GreedyAppended(c: Config, s: State)
    requires GreedySoFar(c, s) && s.queue != [] && (s.batch == [] || Fits(c, s.batch + [s.queue[0]]))
    ensures GreedySoFar(c, Appended(s))
  {
    var e, s' := s.queue[0], Appended(s);
    GreedyTakes(c, s, e);
    assert s'.flushed == s.flushed && s'.batch == s.batch + [e];
    assert Delivered(s') == Delivered(s);
    ConcatOne(Delivered(s), s.batch, e);
  }

  lemma ConcatOne(a: seq<Event>, b: seq<Event>, e: Event)
    ensures a + (b + [e]) == a + b + [e]
  {}

  lemma AppendPacked(c: Config, s: State)
    requires Packed(c, s) && s.batchBytes == Bytes(s.batch) && CanTake(s)
    requires !MustFlush(c, s.batch, s.batchBytes, s.queue[0]) || s.batch == []
    ensures Packed(c, Appended(s))
  {
    if !s.ticked {
      if s.batch != [] { JoinsWhenItFits(c, s.batch, s.queue[0]); }
      GreedyAppended(c, s);
    }
  }

  lemma JoinsWhenItFits(c: Config, batch: seq<Event>, e: Event)
    requires !MustFlush(c, batch, Bytes(batch), e)
    ensures Fits(c, batch + [e])
  {
    BytesSnoc(batch, e);
  }

  /** The queue's head joins the batch. */
  lemma AppendKeeps(c: Config, s: State)
    requires Inv(c, s) && CanTake(s) && (!MustFlush(c, s.batch, s.batchBytes, s.queue[0]) || s.batch == [])
    ensures Inv(c, Appended(s))
  {
    AppendConserved(s);
    AppendBounded(c, s);
    AppendControl(s);
    AppendPacked(c, s);
  }

  /** The queue's head waits until the full batch is flushed. */
  lemma HoldKeeps(c: Config, s: State, e: Event)
    requires Inv(c, s) && (s.pc == Select || s.pc == Drain) && s.queue != [] && e == s.queue[0]
    requires MustFlush(c, s.batch, s.batchBytes, e) && s.batch != []
    ensures Inv(c, StartFlush(s.(queue := s.queue[1..]), ToAppend(e)))
  {
    var s' := StartFlush(s.(queue := s.queue[1..]), ToAppend(e));
    assert Conserved(s') by { TakeHead(Delivered(s), s.batch, s.queue); }
    assert Bounded(c, s');
    assert ControlOk(s');
    assert Packed(c, s') by { BytesSnoc(s.batch, e); }
  }

  /** A retryable answer that is not the last changes only the list of calls. */
  lemma CallKeeps(c: Config, s: State)
    requires Inv(c, s) && s.pc.Flushing? && |s.calls| + 1 < MAX_FLUSH_ATTEMPTS
    ensures Inv(c, PutStep(s, Retryable))
  {
    var s' := PutStep(s, Retryable);
    assert s' == s.(calls := s.calls + [Call(s.batch, Retryable)]);
    assert Delivered(s') == Delivered(s) && InHand(s') == InHand(s);
    CallControl(s);
    assert Packed(c, s') by { assert Packed(c, s); }
  }

  lemma CallControl(s: State)
    requires ControlOk(s) && s.pc.Flushing? && |s.calls| + 1 < MAX_FLUSH_ATTEMPTS
    ensures ControlOk(s.(calls := s.calls + [Call(s.batch, Retryable)]))
  {
    assert Delivered(s.(calls := s.calls + [Call(s.batch, Retryable)])) == Delivered(s);
  }

  lemma LastCallDone(c: Config, s: State, outcome: Outcome)
    requires ControlOk(s) && s.pc.Flushing?
    requires outcome != Retryable || |s.calls| + 1 == MAX_FLUSH_ATTEMPTS
    ensures FlushDone(Flush(s.batch, s.calls + [Call(s.batch, outcome)]))
  {}

  ghost predicate LastCall(s: State, outcome: Outcome) {
    s.pc.Flushing? && (outcome != Retryable || |s.calls| + 1 == MAX_FLUSH_ATTEMPTS)
  }

  /** The flush is over: its batch moves to the history, and the event that waited for it opens the next batch. */
  lemma Finished(s: State, outcome: Outcome)
    requires LastCall(s, outcome) && ControlOk(s)
    ensures var s', f := PutStep(s, outcome), Flush(s.batch, s.calls + [Call(s.batch, outcome)]);
            && s'.batch == InHand(s) && InHand(s') == [] && !s'.pc.Flushing? && s'.calls == []
            && s'.flushed == s.flushed + [f] && Delivered(s') == Delivered(s) + s.batch
            && Batches(s'.flushed) == Batches(s.flushed) + [s.batch]
  {
    DeliveredSnoc(s, Flush(s.batch, s.calls + [Call(s.batch, outcome)]));
    assert [] + InHand(s) == InHand(s);
  }

  lemma FinishConserved(s: State, outcome: Outcome)
    requires Conserved(s) && Accounted(s) && LastCall(s, outcome) && ControlOk(s)
    ensures Conserved(PutStep(s, outcome)) && Accounted(PutStep(s, outcome))
  {
    Finished(s, outcome);
  }

  lemma FinishBounded(c: Config, s: State, outcome: Outcome)
    requires Bounded(c, s) && LastCall(s, outcome) && ControlOk(s)
    ensures Bounded(c, PutStep(s, outcome))
  {
    LastCallDone(c, s, outcome);
    Finished(s, outcome);
    OneEventFits(c, InHand(s));
    FlushedSnoc(c, s.flushed, Flush(s.batch, s.calls + [Call(s.batch, outcome)]));
    BoundedAfter(c, s, PutStep(s, outcome));
  }

  lemma OneEventFits(c: Config, batch: seq<Event>)
    requires |batch| <= 1
    ensures Fits(c, batch) && Bytes(batch) == if batch == [] then 0 else Size(batch[0])
  {
    if batch != [] {
      assert batch == [batch[0]];
      BytesOne(batch[0]);
    }
  }

  lemma BytesOne(e: Event)
    ensures Bytes([e]) == |e.message| + 26
  {
    assert [e][..0] == [] && Bytes([]) == 0;
  }

  lemma BoundedAfter(c: Config, s: State, t: State)
    requires |s.queue| <= c.queueSize && forall e | e in s.accepted :: |e.message| <= c.maxEventBytes
    requires t.queue == s.queue && t.accepted == s.accepted && FlushesFit(c, t.flushed)
    requires Fits(c, t.batch) && t.batchBytes == Bytes(t.batch)
    ensures Bounded(c, t)
  {}

  lemma FlushedSnoc(c: Config, flushed: seq<Flush>, f: Flush)
    requires FlushesFit(c, flushed) && f.batch != [] && Fits(c, f.batch) && FlushDone(f)
    ensures FlushesFit(c, flushed + [f])
  {
    assert forall g | g in flushed + [f] :: g in flushed || g == f;
  }

  lemma FinishControl(s: State, outcome: Outcome)
    requires LastCall(s, outcome) && ControlOk(s)
    ensures ControlOk(PutStep(s, outcome))
  {
    Finished(s, outcome);
  }

  lemma FinishPacked(c: Config, s: State, outcome: Outcome)
    requires Packed(c, s) && LastCall(s, outcome) && ControlOk(s)
    ensures Packed(c, PutStep(s, outcome))
  {
    Finished(s, outcome);
    assert Delivered(s) + s.batch + [] == Delivered(s) + s.batch;
    if !s.ticked && s.pc.resume.ToAppend? { GreedyTakes(c, s, s.pc.resume.event); }
  }

  lemma FinishKeeps(c: Config, s: State, outcome: Outcome)
    requires Inv(c, s) && LastCall(s, outcome)
    ensures Inv(c, PutStep(s, outcome))
  {
    FinishConserved(s, outcome);
    FinishBounded(c, s, outcome);
    FinishControl(s, outcome);
    FinishPacked(c, s, outcome);
  }

  lemma FlushKeeps(c: Config, s: State, resume: Resume)
    requires Inv(c, s)
    requires (resume == ToLoop && s.pc == Select && s.ticked) || (resume == ToExit && s.pc == Drain && s.queue == [])
    ensures Inv(c, StartFlush(s, resume))
  {
    var t := StartFlush(s, resume);
    assert t == s.(pc := t.pc, calls := t.calls);
    assert Delivered(t) == Delivered(s) && InHand(t) == InHand(s) == [];
    FlushControl(s, resume);
    assert Packed(c, t) by { assert Packed(c, s); }
  }

  lemma FlushControl(s: State, resume: Resume)
    requires ControlOk(s) && Conserved(s)
    requires (resume == ToLoop && s.pc == Select) || (resume == ToExit && s.pc == Drain && s.queue == [])
    ensures ControlOk(StartFlush(s, resume))
  {
    var t := StartFlush(s, resume);
    assert Delivered(t) == Delivered(s);
    if resume == ToExit { assert s.accepted == Delivered(s) + s.batch + [] + []; }
  }

  /** Every step keeps the invariant. */
  lemma StepKeeps(c: Config, s: State, a: Action)
    requires Inv(c, s) && Enabled(s, a)
    ensures Inv(c, Next(c, s, a))
  {
    match a
    case Enqueue(e, cancelled) => EnqueueKeeps(c, s, e, cancelled);
    case Stop =>
    case Receive =>
      if MustFlush(c, s.batch, s.batchBytes, s.queue[0]) && s.batch != [] {
        HoldKeeps(c, s, s.queue[0]);
      } else {
        AppendKeeps(c, s);
      }
    case Tick => FlushKeeps(c, s.(ticked := true), ToLoop);
    case SeeStop =>
    case DrainEmpty => FlushKeeps(c, s, ToExit);
    case Put(outcome) =>
      if outcome == Retryable && |s.calls| + 1 < MAX_FLUSH_ATTEMPTS { CallKeeps(c, s); }
      else { FinishKeeps(c, s, outcome); }
  }

  /** What has been handed to `PutLogEvents` only grows. */
  lemma DeliveredGrows(c: Config, s: State, a: Action)
    requires ControlOk(s) && Enabled(s, a)
    ensures Delivered(s) <= Delivered(Next(c, s, a))
  {
    if a.Put? && LastCall(s, a.outcome) {
      Finished(s, a.outcome);
    } else {
      assert Next(c, s, a).flushed == s.flushed;
    }
  }

  // ---------------------------------------------------------------- every reachable state

  lemma {:induction false} RunKeeps(c: Config, s: State, run: seq<Action>)
    requires Inv(c, s) && CanRun(c, s, run)
    ensures Inv(c, Run(c, s, run))
    decreases |run|
  {
    if run != [] {
      StepKeeps(c, s, run[0]);
      RunKeeps(c, Next(c, s, run[0]), run[1..]);
    }
  }

  lemma InitInv(c: Config)
    ensures Inv(c, INITIAL)
  {}

  /** Nothing is lost, duplicated or reordered: what was accepted is what was flushed, then the pending batch, then
      the event waiting for a flush, then the queue. Every enqueue attempt was accepted, dropped or cancelled. */
  lemma ConservationAndOrder(c: Config, run: seq<Action>)
    requires CanRun(c, INITIAL, run)
    ensures var s := Run(c, INITIAL, run);
            && s.accepted == Delivered(s) + s.batch + InHand(s) + s.queue
            && s.attempts == |s.accepted| + s.dropped + s.cancelled
            && s.batchBytes == Bytes(s.batch)
  {
    InitInv(c);
    RunKeeps(c, INITIAL, run);
  }

  /** The event a step offers: within the size limit and not cancelled. */
  function OfferOf(c: Config, a: Action): seq<Event> {
    if a.Enqueue? && |a.event.message| <= c.maxEventBytes && !a.cancelled then [a.event] else []
  }

  predicate IsTooLarge(c: Config, a: Action) {
    a.Enqueue? && |a.event.message| > c.maxEventBytes
  }

  predicate IsCancelled(c: Config, a: Action) {
    a.Enqueue? && |a.event.message| <= c.maxEventBytes && a.cancelled
  }

  function Offered(c: Config, run: seq<Action>): seq<Event> {
    if run == [] then [] else OfferOf(c, run[0]) + Offered(c, run[1..])
  }

  function TooLarge(c: Config, run: seq<Action>): nat {
    if run == [] then 0 else (if IsTooLarge(c, run[0]) then 1 else 0) + TooLarge(c, run[1..])
  }

  function Cancelled(c: Config, run: seq<Action>): nat {
    if run == [] then 0 else (if IsCancelled(c, run[0]) then 1 else 0) + Cancelled(c, run[1..])
  }

  /** From `s` to `t`, `more` of the offered events were accepted and everything else was counted. */
  ghost predicate Accounts(c: Config, s: State, t: State, offered: seq<Event>, tooLarge: nat, cancelled: nat, more: seq<Event>) {
    && t.accepted == s.accepted + more && Subsequence(more, offered)
    && t.cancelled == s.cancelled + cancelled && t.dropped == s.dropped + tooLarge + |offered| - |more|
    && (|s.queue| + |offered| <= c.queueSize ==> more == offered)
  }

  lemma StepAccounts(c: Config, s: State, a: Action) returns (gained: seq<Event>)
    requires Enabled(s, a)
    ensures |OfferOf(c, a)| <= 1 && (gained == [] || gained == OfferOf(c, a))
    ensures Accounts(c, s, Next(c, s, a), OfferOf(c, a), if IsTooLarge(c, a) then 1 else 0,
                     if IsCancelled(c, a) then 1 else 0, gained)
    ensures |Next(c, s, a).queue| <= |s.queue| + |gained|
  {
    gained := if |s.queue| < c.queueSize then OfferOf(c, a) else [];
    assert s.accepted + [] == s.accepted;
    assert gained != [] ==> gained[1..] == [];
  }

  lemma Accumulate(c: Config, s: State, t: State, u: State, first: seq<Event>, large: nat, cancels: nat,
                   gained: seq<Event>, offered: seq<Event>, tooLarge: nat, cancelled: nat, more: seq<Event>)
    requires Accounts(c, s, t, first, large, cancels, gained) && |first| <= 1 && (gained == [] || gained == first)
    requires Accounts(c, t, u, offered, tooLarge, cancelled, more) && |t.queue| <= |s.queue| + |gained|
    ensures Accounts(c, s, u, first + offered, large + tooLarge, cancels + cancelled, gained + more)
  {
    assert s.accepted + gained + more == s.accepted + (gained + more);
    if gained == [] {
      assert gained + more == more;
      if first == [] { assert first + offered == offered; }
      else { assert (first + offered)[1..] == offered; }
    } else {
      assert (first + offered)[1..] == offered && (gained + more)[1..] == more;
    }
  }

  lemma {:induction false} RunAccounts(c: Config, s: State, run: seq<Action>) returns (more: seq<Event>)
    requires CanRun(c, s, run)
    ensures Accounts(c, s, Run(c, s, run), Offered(c, run), TooLarge(c, run), Cancelled(c, run), more)
    decreases |run|
  {
    if run == [] {
      more := [];
      assert s.accepted + [] == s.accepted;
    } else {
      var a := run[0];
      var next := Next(c, s, a);
      var gained := StepAccounts(c, s, a);
      var rest := RunAccounts(c, next, run[1..]);
      Accumulate(c, s, next, Run(c, s, run), OfferOf(c, a), if IsTooLarge(c, a) then 1 else 0,
                 if IsCancelled(c, a) then 1 else 0, gained,
                 Offered(c, run[1..]), TooLarge(c, run[1..]), Cancelled(c, run[1..]), rest);
      more := gained + rest;
    }
  }

  /** Over a whole run: the accepted events are a subsequence of the offered ones; whatever was too large, or offered
      and not accepted, was counted as dropped; cancelled attempts are counted apart; and as long as no more was offered
      than the queue holds, everything offered was accepted. */
  lemma OffersAreAccounted(c: Config, run: seq<Action>)
    requires CanRun(c, INITIAL, run)
    ensures var s, offered := Run(c, INITIAL, run), Offered(c, run);
            && Subsequence(s.accepted, offered) && s.cancelled == Cancelled(c, run)
            && s.dropped == TooLarge(c, run) + |offered| - |s.accepted|
            && s.attempts == |offered| + TooLarge(c, run) + Cancelled(c, run)
            && (|offered| <= c.queueSize ==> s.accepted == offered)
  {
    var more := RunAccounts(c, INITIAL, run);
    assert [] + more == more;
    ConservationAndOrder(c, run);
  }

  lemma SizeBound(c: Config, batch: seq<Event>, limit: nat)
    requires forall e | e in batch :: |e.message| <= limit
    requires |batch| == 1
    ensures Bytes(batch) <= limit + EVENT_OVERHEAD
  {
    assert batch == [batch[0]];
    BytesOne(batch[0]);
  }

  /** A call that was made, by a finished flush or by the one in progress. */
  ghost predicate Made(s: State, call: Call) {
    call in s.calls || exists f :: f in s.flushed && call in f.calls
  }

  function CallBound(c: Config): nat {
    if c.maxBatchBytes >= c.maxEventBytes + 26 then c.maxBatchBytes else c.maxEventBytes + 26
  }

  /** Every `PutLogEvents` call carries a non-empty batch within the count limit and, in bytes, within the larger of
      the batch limit and one maximal event. Every flush makes one to three such calls, all with the same batch; one
      in progress has made fewer than three, all with the pending batch and answered retryable. */
  lemma CallsAreBounded(c: Config, run: seq<Action>, call: Call)
    requires CanRun(c, INITIAL, run) && Made(Run(c, INITIAL, run), call)
    ensures call.events != [] && |call.events| <= c.maxBatchSize && Bytes(call.events) <= CallBound(c)
    ensures var s := Run(c, INITIAL, run);
            && (forall f | f in s.flushed :: FlushDone(f) && 1 <= |f.calls| <= 3 &&
                  (|f.calls| == 3 || f.calls[|f.calls| - 1].outcome != Retryable))
            && |s.calls| < 3 && forall k | k in s.calls :: k == Call(s.batch, Retryable)
  {
    InitInv(c);
    RunKeeps(c, INITIAL, run);
    var s := Run(c, INITIAL, run);
    if call in s.calls {
      forall e | e in s.batch ensures e in s.accepted { assert e in Delivered(s) + s.batch; }
      BatchWithin(c, s, s.batch);
    } else {
      var f :| f in s.flushed && call in f.calls;
      var i :| 0 <= i < |s.flushed| && s.flushed[i] == f;
      forall e | e in f.batch ensures e in s.accepted { InDelivered(Batches(s.flushed), i, e); }
      BatchWithin(c, s, f.batch);
    }
  }

  lemma BatchWithin(c: Config, s: State, batch: seq<Event>)
    requires Bounded(c, s) && Fits(c, batch) && batch != [] && forall e | e in batch :: e in s.accepted
    ensures Bytes(batch) <= CallBound(c)
  {
    if |batch| == 1 { SizeBound(c, batch, c.maxEventBytes); }
  }

  lemma {:induction false} InDelivered(parts: seq<seq<Event>>, i: nat, e: Event)
    requires i < |parts| && e in parts[i]
    ensures e in Concat(parts)
  {
    if i < |parts| - 1 { InDelivered(parts[..|parts| - 1], i, e); }
  }

  /** The bytes of a batch are those of its messages, and 26 more for each. */
  lemma {:induction false} BytesAreMessages(batch: seq<Event>)
    ensures Bytes(batch) == |Messages(batch)| + 26 * |batch|
  {
    if batch != [] {
      BytesAreMessages(batch[1..]);
      BytesOne(batch[0]);
      BytesConcat([batch[0]], batch[1..]);
      assert batch == [batch[0]] + batch[1..];
    }
  }

  function Messages(batch: seq<Event>): seq<bv8> {
    if batch == [] then [] else batch[0].message + Messages(batch[1..])
  }

  /** Limits that are given are kept; the others become 1024 events, 1000 per batch, 900 KiB per batch, 256 KiB each. */
  lemma LimitsAreKept(o: Options)
    ensures var n := Normalize(o);
            && Positive(n)
            && n.queueSize == (if o.queueSize > 0 then o.queueSize else 1024)
            && n.maxBatchSize == (if o.maxBatchSize > 0 then o.maxBatchSize else 1000)
            && n.maxBatchBytes == (if o.maxBatchBytes > 0 then o.maxBatchBytes else 921600)
            && n.maxEventBytes == (if o.maxEventBytes > 0 then o.maxEventBytes else 262144)
  {}

  /** With the default limits no call exceeds 900 KiB. */
  lemma DefaultBound(c: Config, run: seq<Action>, call: Call)
    requires c == Normalize(Options(0, 0, 0, 0))
    requires CanRun(c, INITIAL, run) && Made(Run(c, INITIAL, run), call)
    ensures Bytes(call.events) <= 900 * 1024
  {
    CallsAreBounded(c, run, call);
  }

  /** Without ticks, a finished sink has used the fewest batches that any in-order packing of the delivered events
      within the limits can have. */
  lemma FewestBatches(c: Config, run: seq<Action>, parts: seq<seq<Event>>)
    requires CanRun(c, INITIAL, run) && !Run(c, INITIAL, run).ticked && Run(c, INITIAL, run).pc == Done
    requires Admitted(Packs(c), parts) && Concat(parts) == Delivered(Run(c, INITIAL, run))
    ensures |Run(c, INITIAL, run).flushed| <= |parts|
  {
    InitInv(c);
    RunKeeps(c, INITIAL, run);
    PacksHereditary(c);
    var s := Run(c, INITIAL, run);
    assert Delivered(s) + [] == Delivered(s) && Batches(s.flushed) + [] == Batches(s.flushed);
    GreedyOptimal(Packs(c), Delivered(s), parts);
  }

  /** `Close` returns nil only in a `Done` state, and then every event accepted before stop closed has been in at
      least one `PutLogEvents` call; nothing at all is missing exactly when the queue is empty. */
  lemma DrainDelivers(c: Config, run: seq<Action>)
    requires CanRun(c, INITIAL, run) && Run(c, INITIAL, run).pc == Done
    ensures var s := Run(c, INITIAL, run);
            && s.acceptedAtStop <= |Delivered(s)| && Delivered(s) <= s.accepted
            && (Delivered(s) == s.accepted <==> s.queue == [])
            && forall f | f in s.flushed :: f.calls != [] && f.calls[0].events == f.batch
  {
    InitInv(c);
    RunKeeps(c, INITIAL, run);
    var s := Run(c, INITIAL, run);
    assert s.accepted == Delivered(s) + s.queue;
    assert |s.accepted| == |Delivered(s)| + |s.queue|;
    assert s.queue == [] ==> Delivered(s) + s.queue == Delivered(s);
  }
}
