/** sink.go: the drain after stop ends, and what can be left behind. */
module SinkDrain {
  import opened SinkProtocol
  import opened SinkSafety

  /** The consumer's own steps once it has seen stop. */
  predicate DrainAction(a: Action) {
    a.Receive? || a.DrainEmpty? || a.Put?
  }

  /** Consumer steps that are left at most, if no event arrives any more. */
  function StepsLeft(s: State): nat
    requires |s.calls| <= MAX_FLUSH_ATTEMPTS
  {
    match s.pc
    case Done => 0
    case Flushing(ToExit) => MAX_FLUSH_ATTEMPTS - |s.calls|
    case Flushing(_) => 5 * |s.queue| + 5 + MAX_FLUSH_ATTEMPTS - |s.calls|
    case _ => 5 * |s.queue| + 5
  }

  /** In a drain some consumer step is possible until the sink is done. */
  lemma DrainCanStep(s: State)
    requires ControlOk(s) && s.draining && s.pc != Done
    ensures exists a :: DrainAction(a) && Enabled(s, a)
  {
    var a := if s.pc.Flushing? then Put(Success) else if s.queue != [] then Receive else DrainEmpty;
    assert DrainAction(a) && Enabled(s, a);
  }

  /** Every consumer step of a drain brings the end nearer. */
  lemma DrainStepAdvances(c: Config, s: State, a: Action)
    requires ControlOk(s) && s.draining && DrainAction(a) && Enabled(s, a)
    ensures var s' := Next(c, s, a);
            |s'.calls| <= MAX_FLUSH_ATTEMPTS && StepsLeft(s') < StepsLeft(s) && s'.draining
  {
    match a
    case Receive =>
    case DrainEmpty =>
    case Put(_) =>
  }

  /** Without further producers a drain of a queue with n events is over within 5n + 5 consumer steps. */
  lemma {:induction false} DrainEnds(c: Config, s: State, run: seq<Action>)
    requires Inv(c, s) && s.draining && CanRun(c, s, run) && forall a | a in run :: DrainAction(a)
    ensures |run| <= StepsLeft(s)
    ensures s.pc == Drain ==> |run| <= 5 * |s.queue| + 5
    ensures |run| == StepsLeft(s) ==> Run(c, s, run).pc == Done
    decreases |run|
  {
    if run == [] {
      if s.pc != Done { assert StepsLeft(s) > 0; }
    } else {
      assert DrainAction(run[0]);
      DrainStepAdvances(c, s, run[0]);
      StepKeeps(c, s, run[0]);
      assert forall a | a in run[1..] :: a in run;
      DrainEnds(c, Next(c, s, run[0]), run[1..]);
    }
  }

  /** The consumer stops only when it is done. */
  lemma StuckIsDone(c: Config, s: State)
    requires Inv(c, s) && s.draining
    ensures (forall a | DrainAction(a) :: !Enabled(s, a)) <==> s.pc == Done
  {
    if s.pc != Done { DrainCanStep(s); }
  }

  /** Once done, the consumer never takes anything out of the queue again. */
  lemma {:induction false} DoneIsFinal(c: Config, s: State, run: seq<Action>)
    requires Inv(c, s) && s.pc == Done && CanRun(c, s, run)
    ensures Run(c, s, run).pc == Done && Run(c, s, run).flushed == s.flushed && s.queue <= Run(c, s, run).queue
    decreases |run|
  {
    if run != [] {
      StepKeeps(c, s, run[0]);
      DoneIsFinal(c, Next(c, s, run[0]), run[1..]);
    }
  }

  /** The last look at the queue was taken when `sent` had been accepted, and the exit is under way. */
  ghost predicate Sealed(s: State, sent: seq<Event>) {
    || (s.pc == Done && Delivered(s) == sent)
    || (s.pc == Flushing(ToExit) && Delivered(s) + s.batch == sent)
  }

  lemma LookSeals(c: Config, s: State)
    requires Conserved(s) && Enabled(s, DrainEmpty)
    ensures Sealed(Next(c, s, DrainEmpty), s.accepted)
  {
    var t := Next(c, s, DrainEmpty);
    assert t.flushed == s.flushed && t.batch == s.batch;
    assert Delivered(t) == Delivered(s);
    assert InHand(s) == [] && s.queue == [];
    assert Delivered(s) + s.batch + [] + [] == Delivered(s) + s.batch;
    assert s.batch == [] ==> Delivered(s) + s.batch == Delivered(s);
  }

  lemma SealedStep(c: Config, s: State, a: Action, sent: seq<Event>)
    requires ControlOk(s) && Sealed(s, sent) && Enabled(s, a)
    ensures a != DrainEmpty && Sealed(Next(c, s, a), sent)
  {
    match a
    case Enqueue(e, cancelled) => SameSeal(s, EnqueueStep(c, s, e, cancelled), sent);
    case Put(outcome) =>
      if LastCall(s, outcome) { Finished(s, outcome); } else { SameSeal(s, Next(c, s, a), sent); }
    case _ =>
  }

  lemma SameSeal(s: State, t: State, sent: seq<Event>)
    requires Sealed(s, sent) && t.pc == s.pc && t.flushed == s.flushed && t.batch == s.batch
    ensures Sealed(t, sent)
  {
    assert Delivered(t) == Delivered(s);
  }

  lemma {:induction false} SealedRun(c: Config, s: State, run: seq<Action>, sent: seq<Event>)
    requires Inv(c, s) && Sealed(s, sent) && CanRun(c, s, run)
    ensures Sealed(Run(c, s, run), sent) && DrainEmpty !in run
    decreases |run|
  {
    if run != [] {
      SealedStep(c, s, run[0], sent);
      StepKeeps(c, s, run[0]);
      SealedRun(c, Next(c, s, run[0]), run[1..], sent);
    }
  }

  predicate Exiting(s: State) {
    s.pc == Done || s.pc == Flushing(ToExit)
  }

  lemma StaysBefore(c: Config, s: State, a: Action)
    requires !Exiting(s) && Enabled(s, a) && a != DrainEmpty
    ensures !Exiting(Next(c, s, a))
  {}

  /** The first look that finds the queue empty, in a run that ends done. */
  lemma {:induction false} FindLook(c: Config, s: State, run: seq<Action>) returns (k: nat)
    requires !Exiting(s) && CanRun(c, s, run) && Run(c, s, run).pc == Done
    ensures k < |run| && run[k] == DrainEmpty && forall i | 0 <= i < k :: run[i] != DrainEmpty
    ensures CanRun(c, s, run[..k]) && CanRun(c, Run(c, s, run[..k]), run[k..])
    ensures Run(c, Run(c, s, run[..k]), run[k..]) == Run(c, s, run)
    decreases |run|
  {
    if run[0] == DrainEmpty {
      assert run[..0] == [] && run[0..] == run;
      return 0;
    }
    StaysBefore(c, s, run[0]);
    var i := FindLook(c, Next(c, s, run[0]), run[1..]);
    k := i + 1;
    assert run[..k][1..] == run[1..][..i] && run[..k][0] == run[0];
    assert run[1..][i..] == run[k..];
    assert forall j | 0 < j < k :: run[j] == run[1..][j - 1];
  }

  /** Of every finished sink: the one time the drain found the queue empty decides. What had been accepted by then was
      sent, in order; what was accepted later never is. */
  lemma SentExactlyBeforeLastLook(c: Config, run: seq<Action>) returns (k: nat)
    requires CanRun(c, INITIAL, run) && Run(c, INITIAL, run).pc == Done
    ensures k < |run| && run[k] == DrainEmpty && (forall i | 0 <= i < |run| && run[i] == DrainEmpty :: i == k)
    ensures CanRun(c, INITIAL, run[..k]) && Delivered(Run(c, INITIAL, run)) == Run(c, INITIAL, run[..k]).accepted
  {
    k := FindLook(c, INITIAL, run);
    var look, rest := Run(c, INITIAL, run[..k]), run[k..];
    InitInv(c);
    RunKeeps(c, INITIAL, run[..k]);
    FinishesFromLook(c, look, rest);
    forall i | k < i < |run| ensures run[i] != DrainEmpty { assert rest[1..][i - k - 1] == run[i]; }
  }

  lemma FinishesFromLook(c: Config, look: State, rest: seq<Action>)
    requires Inv(c, look) && CanRun(c, look, rest) && rest != [] && rest[0] == DrainEmpty
    requires Run(c, look, rest).pc == Done
    ensures Delivered(Run(c, look, rest)) == look.accepted && DrainEmpty !in rest[1..]
  {
    LookSeals(c, look);
    StepKeeps(c, look, DrainEmpty);
    SealedRun(c, Next(c, look, DrainEmpty), rest[1..], look.accepted);
  }

  /** So an event accepted after the last look at the queue is stranded: `Close` returns nil and it is never sent. */
  lemma LateEventIsStranded(c: Config, e: Event)
    requires |e.message| <= c.maxEventBytes
    ensures var run := [Stop, SeeStop, DrainEmpty, Enqueue(e, false)];
            CanRun(c, INITIAL, run) &&
            var s := Run(c, INITIAL, run);
            s.pc == Done && s.accepted == [e] && s.queue == [e] && s.flushed == []
  {
    var s1 := Next(c, INITIAL, Stop);
    var s2 := Next(c, s1, SeeStop);
    var s3 := Next(c, s2, DrainEmpty);
    var s4 := Next(c, s3, Enqueue(e, false));
    assert [] + [e] == [e];
    assert Run(c, s4, []) == s4 && CanRun(c, s4, []);
    assert Run(c, s3, [Enqueue(e, false)]) == s4;
    assert Run(c, s2, [DrainEmpty, Enqueue(e, false)]) == s4 by {
      assert [DrainEmpty, Enqueue(e, false)][1..] == [Enqueue(e, false)];
    }
    assert Run(c, s1, [SeeStop, DrainEmpty, Enqueue(e, false)]) == s4 by {
      assert [SeeStop, DrainEmpty, Enqueue(e, false)][1..] == [DrainEmpty, Enqueue(e, false)];
    }
    var run := [Stop, SeeStop, DrainEmpty, Enqueue(e, false)];
    assert run[1..] == [SeeStop, DrainEmpty, Enqueue(e, false)];
  }
}
