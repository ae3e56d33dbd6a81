/** sink.go: the code of the consumer and of `enqueueMessage`; each call of it is a run of the protocol. */
module SinkWorker {
  import opened SinkProtocol
  import opened SinkSafety
  import opened SinkDrain
  import SinkTick

  datatype EnqueueResult = Accepted | TooLarge | Cancelled | QueueFull

  lemma {:induction false} RunConcat(c: Config, s: State, a: seq<Action>, b: seq<Action>)
    requires CanRun(c, s, a) && CanRun(c, Run(c, s, a), b)
    ensures CanRun(c, s, a + b) && Run(c, s, a + b) == Run(c, Run(c, s, a), b)
    decreases |a|
  {
    if a == [] {
      assert a + b == b;
    } else {
      RunConcat(c, Next(c, s, a[0]), a[1..], b);
      assert (a + b)[1..] == a[1..] + b;
    }
  }

  lemma RunNext(c: Config, s: State, a: seq<Action>, next: Action)
    requires CanRun(c, s, a) && Enabled(Run(c, s, a), next)
    ensures CanRun(c, s, a + [next]) && Run(c, s, a + [next]) == Next(c, Run(c, s, a), next)
  {
    var t := Run(c, s, a);
    assert CanRun(c, Next(c, t, next), []) && [next][1..] == [];
    assert CanRun(c, t, [next]) && Run(c, t, [next]) == Next(c, t, next);
    RunConcat(c, s, a, [next]);
  }

  /** The state after a flush: the batch is gone, and the waiting event, if any, opens the next one. */
  ghost predicate Resumed(s: State, s': State) {
    && s.pc.Flushing? && s'.batch == InHand(s) && s'.batchBytes == Bytes(InHand(s))
    && s'.queue == s.queue && s'.dropped == s.dropped && s'.draining == s.draining
    && s'.pc == (if s.pc.resume.ToExit? then Done else if s.draining then Drain else Select)
  }

  predicate FlushGoesOn(s: State, outcome: Outcome) {
    outcome == Retryable && |s.calls| + 1 < MAX_FLUSH_ATTEMPTS
  }

  lemma PutResumes(s: State, outcome: Outcome)
    requires s.pc.Flushing?
    ensures if FlushGoesOn(s, outcome) then PutStep(s, outcome) == s.(calls := s.calls + [Call(s.batch, outcome)])
            else Resumed(s, PutStep(s, outcome))
  {
    if !FlushGoesOn(s, outcome) {
      ContinueResumes(s, s.(flushed := s.flushed + [Flush(s.batch, s.calls + [Call(s.batch, outcome)])],
                            calls := [], batch := [], batchBytes := 0));
    }
  }

  lemma ContinueResumes(s: State, over: State)
    requires s.pc.Flushing? && over.batch == [] && over.batchBytes == 0
    requires over.queue == s.queue && over.dropped == s.dropped && over.draining == s.draining
    ensures Resumed(s, Continue(over, s.pc.resume))
  {
    match s.pc.resume
    case ToAppend(e) =>
      BytesOne(e);
      assert [] + [e] == [e];
    case _ =>
  }

  lemma TraceControl(c: Config, trace: seq<Action>)
    requires CanRun(c, INITIAL, trace)
    ensures ControlOk(Run(c, INITIAL, trace))
  {
    InitInv(c);
    RunKeeps(c, INITIAL, trace);
  }

  /** What receiving the head of the queue leads to: a flush it waits for, or a longer batch. */
  lemma ReceiveLeadsTo(c: Config, s: State)
    requires ControlOk(s) && CanTake(s)
    ensures var held, e := Next(c, s, Receive), s.queue[0];
            && held.queue == s.queue[1..] && held.dropped == s.dropped && held.draining == s.draining
            && s.pc == (if s.draining then Drain else Select)
            && if MustFlush(c, s.batch, s.batchBytes, e) && s.batch != []
               then held.pc == Flushing(ToAppend(e)) && held.calls == [] && held.batch == s.batch && InHand(held) == [e]
               else held.pc == s.pc && held.batch == s.batch + [e] && held.batchBytes == s.batchBytes + Size(e)
  {}

  class Worker {
    const c: Config
    var queue: seq<Event>
    var batch: seq<Event>
    var batchBytes: nat
    var dropped: nat
    ghost var trace: seq<Action>

    /** The protocol state this worker is in. */
    ghost function Proto(): State
      requires CanRun(c, INITIAL, trace)
      reads this
    {
      Run(c, INITIAL, trace)
    }

    ghost predicate Holds(s: State)
      reads this
    {
      s.queue == queue && s.batch == batch && s.batchBytes == batchBytes && s.dropped == dropped
    }

    ghost predicate Valid()
      reads this
    {
      CanRun(c, INITIAL, trace) && Holds(Proto()) && !Proto().pc.Flushing?
    }

    constructor (c: Config)
      ensures Valid() && trace == [] && this.c == c
    {
      this.c := c;
      queue, batch, batchBytes, dropped, trace := [], [], 0, 0, [];
    }

    method EnqueueMessage(message: seq<bv8>, timestamp: int, cancelled: bool) returns (r: EnqueueResult)
      requires Valid()
      modifies this
      ensures Valid() && trace == old(trace) + [Enqueue(Event(message, timestamp), cancelled)]
      ensures r == if |message| > c.maxEventBytes then TooLarge
                   else if cancelled then Cancelled
                   else if |old(queue)| < c.queueSize then Accepted else QueueFull
      ensures r.Accepted? <==> queue == old(queue) + [Event(message, timestamp)]
    {
      ghost var step := Enqueue(Event(message, timestamp), cancelled);
      RunNext(c, INITIAL, trace, step);
      trace := trace + [step];
      if |message| > c.maxEventBytes {
        dropped := dropped + 1;
        return TooLarge;
      }
      var event := Event(message, timestamp);
      if cancelled {
        return Cancelled;
      }
      if |queue| < c.queueSize {
        queue := queue + [event];
        return Accepted;
      }
      dropped := dropped + 1;
      return QueueFull;
    }

    /** `flush`: at most three calls with the same batch, ending early on success or a fatal answer. `answer(i)` is
        what the i-th call returns; `s` is the protocol state. */
    method Flush(answer: nat -> Outcome, ghost s: State) returns (ghost puts: seq<Action>)
      requires batch != [] ==> s.pc.Flushing? && s.calls == [] && s.batch == batch
      modifies this`batch, this`batchBytes
      ensures batch == [] && (batchBytes == 0 || old(batch) == [])
      ensures (forall a | a in puts :: a.Put?) && CanRun(c, s, puts)
      ensures if old(batch) == [] then puts == [] && batchBytes == old(batchBytes) else Resumed(s, Run(c, s, puts))
    {
      puts := [];
      if |batch| == 0 {
        return;
      }
      var attempt, finished := 0, false;
      while attempt < MAX_FLUSH_ATTEMPTS && !finished
        invariant attempt <= MAX_FLUSH_ATTEMPTS
        invariant forall a | a in puts :: a.Put?
        invariant CanRun(c, s, puts)
        invariant var now := Run(c, s, puts);
                  if finished || attempt == MAX_FLUSH_ATTEMPTS then Resumed(s, now)
                  else now == s.(calls := now.calls) && |now.calls| == attempt
      {
        var outcome := answer(attempt);
        PutResumes(Run(c, s, puts), outcome);
        RunNext(c, s, puts, Put(outcome));
        puts := puts + [Put(outcome)];
        attempt := attempt + 1;
        finished := outcome != Retryable;
      }
      batch := [];
      batchBytes := 0;
    }

    /** `appendEvent` for the event just received. */
    method AppendEvent(event: Event, answer: nat -> Outcome) returns (ghost run: seq<Action>)
      requires CanRun(c, INITIAL, trace) && CanTake(Proto())
      requires Proto().queue == [event] + queue && Proto().batch == batch && Proto().batchBytes == batchBytes
      requires Proto().dropped == dropped
      modifies this`batch, this`batchBytes, this`trace
      ensures Valid() && trace == old(trace) + run && forall a | a in run :: DrainAction(a)
      ensures Proto().draining == old(Proto().draining) && Proto().pc == old(Proto().pc)
    {
      ghost var before := Proto();
      ghost var held := Next(c, before, Receive);
      TraceControl(c, trace);
      ReceiveLeadsTo(c, before);
      RunNext(c, INITIAL, trace, Receive);
      assert before.queue[1..] == queue && before.queue[0] == event;
      BytesOne(event);
      assert [] + [event] == [event];
      run, trace := [Receive], trace + [Receive];
      var size := Size(event);
      if |batch| >= c.maxBatchSize || batchBytes + size > c.maxBatchBytes {
        ghost var puts := Flush(answer, held);
        RunConcat(c, INITIAL, trace, puts);
        run, trace := run + puts, trace + puts;
      }
      batch := batch + [event];
      batchBytes := batchBytes + size;
    }

    /** The ticker's branch of the select: everything taken from the queue so far has been sent when it returns. */
    method Tick(answer: nat -> Outcome) returns (ghost puts: seq<Action>)
      requires Valid() && Proto().pc == Select
      modifies this`batch, this`batchBytes, this`trace
      ensures Valid() && trace == old(trace) + [Action.Tick] + puts && forall a | a in puts :: a.Put?
      ensures batch == [] && Proto().pc == Select && Delivered(old(Proto())) + old(batch) <= Delivered(Proto())
    {
      ghost var before := Proto();
      ghost var ticking := Next(c, before, Action.Tick);
      TraceControl(c, trace);
      RunNext(c, INITIAL, trace, Action.Tick);
      ghost var was := trace;
      trace := trace + [Action.Tick];
      puts := Flush(answer, ticking);
      RunConcat(c, INITIAL, trace, puts);
      trace := trace + puts;
      assert CanRun(c, ticking, puts) && Proto() == Run(c, ticking, puts);
      SinkTick.TickSends(c, was, puts, Success);
    }

    /** The inner loop after stop, when no producer is active: every event left in the queue is taken, then the last
        batch is flushed. `answer(n)(i)` is what the i-th call of the n-th possible flush returns. */
    method DrainQueue(answer: nat -> nat -> Outcome) returns (ghost run: seq<Action>)
      requires Valid() && Proto().pc == Drain
      modifies this
      ensures CanRun(c, INITIAL, trace) && trace == old(trace) + run && forall a | a in run :: DrainAction(a)
      ensures Valid() && Proto().pc == Done && queue == [] && Delivered(Proto()) == Proto().accepted
    {
      run := [];
      var flushes: nat := 0;
      while |queue| > 0
        invariant Valid() && Proto().pc == Drain
        invariant trace == old(trace) + run && forall a | a in run :: DrainAction(a)
        decreases |queue|
      {
        var event := queue[0];
        queue := queue[1..];
        ghost var more := AppendEvent(event, answer(flushes));
        flushes := flushes + 1;
        run := run + more;
      }
      ghost var last := FinishDrain(answer(flushes));
      run := run + last;
    }

    /** The default branch of that loop: the last flush, and the return. */
    method FinishDrain(answer: nat -> Outcome) returns (ghost run: seq<Action>)
      requires Valid() && Proto().pc == Drain && queue == []
      modifies this
      ensures CanRun(c, INITIAL, trace) && trace == old(trace) + run && forall a | a in run :: DrainAction(a)
      ensures Valid() && Proto().pc == Done && queue == [] && Delivered(Proto()) == Proto().accepted
    {
      RunNext(c, INITIAL, trace, DrainEmpty);
      trace, run := trace + [DrainEmpty], [DrainEmpty];
      ghost var puts := Flush(answer, Proto());
      RunConcat(c, INITIAL, trace, puts);
      run, trace := run + puts, trace + puts;
      DrainDelivers(c, trace);
    }
  }
}
