/** retry.go and handler.go: making a request body replayable, and which of its bytes pass the capturing tee. */
module RetryBody {
  import opened Partition
  import opened Capture

  const MAX_INT64 := 0x7fff_ffff_ffff_ffff

  /** A stretch of a body; reading a `teed` stretch also writes it to the handler's capture buffer. */
  datatype Piece = Piece(data: Bytes, teed: bool)

  type Reader = seq<Piece>

  /** A missing body, `http.NoBody`, or a stream that delivers its pieces and then ends, or fails if `fails`. */
  datatype Body = Missing | NoBody | Stream(reader: Reader, fails: bool)

  datatype Getter = NoGetter | Getter(reader: Reader)

  datatype Prepared = Replayable | NotReplayable | ReadFailed

  function Data(r: Reader): Bytes {
    if r == [] then [] else r[0].data + Data(r[1..])
  }

  function BodyData(b: Body): Bytes {
    if b.Stream? then Data(b.reader) else []
  }

  /** The bytes that pass the tee when the first n bytes are read. */
  function Teed(r: Reader, n: nat): Bytes {
    if r == [] || n == 0 then []
    else if n <= |r[0].data| then (if r[0].teed then r[0].data[..n] else [])
    else (if r[0].teed then r[0].data else []) + Teed(r[1..], n - |r[0].data|)
  }

  /** What is left after reading n bytes. */
  function Drop(r: Reader, n: nat): Reader {
    if r == [] || n == 0 then r
    else if n < |r[0].data| then [Piece(r[0].data[n..], r[0].teed)] + r[1..]
    else Drop(r[1..], n - |r[0].data|)
  }

  lemma {:induction false} DropData(r: Reader, n: nat)
    requires n <= |Data(r)|
    ensures Data(Drop(r, n)) == Data(r)[n..]
  {
    if r != [] && n > 0 {
      if n < |r[0].data| {
        var cut := [Piece(r[0].data[n..], r[0].teed)] + r[1..];
        assert cut[1..] == r[1..];
      } else {
        DropData(r[1..], n - |r[0].data|);
      }
    }
  }

  // ---------------------------------------------------------------- preparing, as a function

  datatype Snapshot = Snapshot(body: Body, getBody: Getter, contentLength: int)

  /** What preparing leaves: its answer, the request, the bytes read into memory, and what of them passed the tee. */
  datatype Preparation = Preparation(answer: Prepared, request: Snapshot, buffered: Bytes, captured: Bytes)

  function BufferLimit(limit: int): nat
    requires 0 < limit
  {
    if limit >= MAX_INT64 - 1 then MAX_INT64 else limit + 1
  }

  /** The request replays `payload` from memory, past the tee. */
  function Buffered(payload: Bytes): Snapshot {
    if payload == [] then Snapshot(NoBody, Getter([]), 0)
    else Snapshot(Stream([Piece(payload, false)], false), Getter([Piece(payload, false)]), |payload|)
  }

  predicate LeftAlone(q: Snapshot, limit: int) {
    !q.body.Stream? || q.getBody.Getter? || limit <= 0 || q.contentLength > limit
  }

  function PrepareSpec(q: Snapshot, limit: int): Preparation {
    if LeftAlone(q, limit) then
      Preparation(if !q.body.Stream? || q.getBody.Getter? then Replayable else NotReplayable, q, [], [])
    else
      var data, top := Data(q.body.reader), BufferLimit(limit);
      var payload := Prefix(data, top);
      var captured := Teed(q.body.reader, |payload|);
      if |data| < top && q.body.fails then Preparation(ReadFailed, q.(body := Stream([], true)), payload, captured)
      else if |payload| > limit then
        Preparation(NotReplayable,
                    q.(body := Stream([Piece(payload, false)] + Drop(q.body.reader, top), q.body.fails)), payload,
                    captured)
      else Preparation(Replayable, Buffered(payload), payload, captured)
  }

  datatype Clone = NotCloned | Cloned(body: Body)

  /** The body of attempt k: the request's own first, then one from `cloneRequestForRetry`. */
  function AttemptBody(q: Snapshot, k: nat): Clone {
    if k <= 1 || !q.body.Stream? then Cloned(q.body)
    else if q.getBody.Getter? then Cloned(Stream(q.getBody.reader, false))
    else NotCloned
  }

  ghost predicate Untapped(b: Body) {
    b.Stream? ==> forall p | p in b.reader :: !p.teed
  }

  /** Attempt k can be made, sends exactly `data`, and passes the tee nothing. */
  ghost predicate Sends(q: Snapshot, k: nat, data: Bytes) {
    var clone := AttemptBody(q, k);
    clone.Cloned? && BodyData(clone.body) == data && Untapped(clone.body)
  }

  lemma OnePieceData(p: Bytes, teed: bool)
    ensures Data([Piece(p, teed)]) == p
  {
    assert [Piece(p, teed)][1..] == [];
  }

  lemma ReplaysFromMemory(payload: Bytes)
    ensures forall k :: Sends(Buffered(payload), k, payload)
  {
    OnePieceData(payload, false);
  }

  class Request {
    var body: Body
    var getBody: Getter
    var contentLength: int

    constructor (body: Body, getBody: Getter, contentLength: int)
      ensures Fields() == Snapshot(body, getBody, contentLength)
    {
      this.body, this.getBody, this.contentLength := body, getBody, contentLength;
    }

    function Fields(): Snapshot
      reads this
    {
      Snapshot(body, getBody, contentLength)
    }

    /** `prepareRetryableRequestBody`. */
    method Prepare(limit: int) returns (answer: Prepared, ghost buffered: Bytes, ghost captured: Bytes)
      requires limit <= MAX_INT64
      modifies this
      ensures Preparation(answer, Fields(), buffered, captured) == PrepareSpec(old(Fields()), limit)
    {
      buffered, captured := [], [];
      if !body.Stream? { return Replayable, buffered, captured; }
      if getBody.Getter? { return Replayable, buffered, captured; }
      if limit <= 0 { return NotReplayable, buffered, captured; }
      if contentLength > limit && contentLength >= 0 { return NotReplayable, buffered, captured; }
      var bufferLimit := limit + 1;
      if limit >= MAX_INT64 - 1 { bufferLimit := MAX_INT64; }
      var source, fails := body.reader, body.fails;
      var (payload, failed) := ReadAtMost(Data(source), fails, bufferLimit);
      buffered, captured := payload, Teed(source, |payload|);
      if failed {
        body := Stream([], fails);
        return ReadFailed, buffered, captured;
      }
      if |payload| > limit {
        body := Stream([Piece(payload, false)] + Drop(source, bufferLimit), fails);
        return NotReplayable, buffered, captured;
      }
      SetReplayable(payload);
      return Replayable, buffered, captured;
    }

    /** `setReplayableRequestBody`: from now on every attempt sends `payload`, declares its length and reads past the tee. */
    method SetReplayable(payload: Bytes)
      modifies this
      ensures Fields() == Buffered(payload)
      ensures forall k :: Sends(Fields(), k, payload) && contentLength == |payload|
    {
      ReplaysFromMemory(payload);
      if |payload| == 0 {
        body, getBody, contentLength := NoBody, Getter([]), 0;
        return;
      }
      body := Stream([Piece(payload, false)], false);
      getBody := Getter([Piece(payload, false)]);
      contentLength := |payload|;
    }
  }

  // ---------------------------------------------------------------- what each attempt sends

  /** `GetBody`, where a request has one, gives the body's bytes again, as net/http demands. */
  ghost predicate GetterGivesBody(q: Snapshot) {
    q.body.Stream? && q.getBody.Getter? ==> Data(q.getBody.reader) == Data(q.body.reader)
  }

  /** The one body that is too long even for the largest limit. */
  ghost predicate BeyondInt64(q: Snapshot, limit: int) {
    limit == MAX_INT64 && |BodyData(q.body)| > MAX_INT64
  }

  /** Unless reading fails, every attempt that is made sends exactly the original bytes, except for a body longer than
      2^63 - 1 bytes under the largest limit, which is cut. */
  lemma ReplayIsLossless(q: Snapshot, limit: int, k: nat)
    requires limit <= MAX_INT64 && GetterGivesBody(q) && k >= 1
    requires !PrepareSpec(q, limit).answer.ReadFailed?
    requires PrepareSpec(q, limit).answer.Replayable? || k == 1
    ensures var sent := AttemptBody(PrepareSpec(q, limit).request, k);
            sent.Cloned? && (BodyData(sent.body) == BodyData(q.body) <==> LeftAlone(q, limit) || !BeyondInt64(q, limit))
  {
    var p := PrepareSpec(q, limit);
    if !LeftAlone(q, limit) {
      var data, top := Data(q.body.reader), BufferLimit(limit);
      OnePieceData(Prefix(data, top), false);
      if p.answer.NotReplayable? { RejoinedData(q.body.reader, top); }
    }
  }

  /** What was read and what was not make up the body again. */
  lemma RejoinedData(r: Reader, top: nat)
    requires top <= |Data(r)|
    ensures Data([Piece(Prefix(Data(r), top), false)] + Drop(r, top)) == Data(r)
  {
    var front, rest := [Piece(Prefix(Data(r), top), false)], Drop(r, top);
    DropData(r, top);
    assert (front + rest)[1..] == rest;
    assert Data(r) == Data(r)[..top] + Data(r)[top..];
  }

  /** When reading succeeds, a body without `GetBody` is replayable exactly if the limit is positive and neither the
      declared nor the real length exceeds it. */
  lemma ReplayableExactly(q: Snapshot, limit: int)
    requires limit <= MAX_INT64 && q.body.Stream? && q.getBody.NoGetter? && !q.body.fails
    requires !BeyondInt64(q, limit)
    ensures PrepareSpec(q, limit).answer.Replayable? <==>
            limit > 0 && q.contentLength <= limit && |BodyData(q.body)| <= limit
  {}

  /** A body is left alone if there is none, if it has `GetBody`, if nothing may be buffered, or if it is declared longer
      than the limit; the first two are replayable as they are. Any other body is read, and reading it fails exactly if it
      breaks off before more than the limit has been read. */
  lemma PrepareCases(q: Snapshot, limit: int)
    requires limit <= MAX_INT64
    ensures var p := PrepareSpec(q, limit);
            if !q.body.Stream? || q.getBody.Getter? then p == Preparation(Replayable, q, [], [])
            else if limit <= 0 || q.contentLength > limit then p == Preparation(NotReplayable, q, [], [])
            else
              && (p.answer.ReadFailed? <==>
                    q.body.fails && |BodyData(q.body)| < if limit < 0x7fff_ffff_ffff_ffff then limit + 1 else limit)
              && (p.answer.Replayable? ==> p.request.contentLength == |p.buffered| && p.request.getBody.Getter?)
              && (p.answer.NotReplayable? ==> p.request.contentLength == q.contentLength && p.request.getBody.NoGetter?
                                              && p.request.body.Stream? && p.request.body.fails == q.body.fails)
  {}

  /** Whatever the body and the outcome, at most limit + 1 bytes are read into memory: the front of the body, and the
      front of what the prepared request sends. */
  lemma BufferingIsBounded(q: Snapshot, limit: int)
    requires limit <= MAX_INT64
    ensures var p := PrepareSpec(q, limit);
            && |p.buffered| <= (if limit > 0 then limit + 1 else 0) && p.buffered <= BodyData(q.body)
            && |p.captured| <= |p.buffered|
            && (!p.answer.ReadFailed? ==> p.buffered <= BodyData(p.request.body))
  {
    if !LeftAlone(q, limit) {
      var data, top := Data(q.body.reader), BufferLimit(limit);
      TeedLength(q.body.reader, |Prefix(data, top)|);
      OnePieceData(Prefix(data, top), false);
      var front, rest := [Piece(Prefix(data, top), false)], Drop(q.body.reader, top);
      assert (front + rest)[1..] == rest;
    }
  }

  lemma {:induction false} TeedLength(r: Reader, n: nat)
    ensures |Teed(r, n)| <= n
  {
    if r != [] && n > |r[0].data| { TeedLength(r[1..], n - |r[0].data|); }
  }

  // ---------------------------------------------------------------- what the handler captures

  /** The body as the handler passes it on: all of it teed, and so is every copy `GetBody` makes. */
  function Handed(data: Bytes, fails: bool, hasGetBody: bool, contentLength: int): Snapshot {
    Snapshot(Stream([Piece(data, true)], fails), if hasGetBody then Getter([Piece(data, true)]) else NoGetter,
             contentLength)
  }

  /** What passes the tee when attempt i + 1 consumes `consumed[i]` bytes of its body. */
  function CapturedBy(q: Snapshot, consumed: seq<nat>): Bytes {
    if consumed == [] then []
    else
      var last := |consumed| - 1;
      CapturedBy(q, consumed[..last]) +
      match AttemptBody(q, last + 1)
      case Cloned(Stream(reader, _)) => Teed(reader, consumed[last])
      case _ => []
  }

  function Sum(ns: seq<nat>): nat {
    if ns == [] then 0 else Sum(ns[..|ns| - 1]) + ns[|ns| - 1]
  }

  ghost predicate AtMost(ns: seq<nat>, m: nat) {
    forall i | 0 <= i < |ns| :: ns[i] <= m
  }

  lemma {:induction false} UnteedAddsNothing(q: Snapshot, consumed: seq<nat>)
    requires Untapped(q.body) && (q.getBody.Getter? ==> Untapped(Stream(q.getBody.reader, false)))
    ensures CapturedBy(q, consumed) == []
  {
    if consumed != [] {
      var last := |consumed| - 1;
      UnteedAddsNothing(q, consumed[..last]);
      match AttemptBody(q, last + 1)
      case Cloned(Stream(reader, _)) => UnteedReader(reader, consumed[last]);
      case _ =>
    }
  }

  lemma {:induction false} UnteedReader(r: Reader, n: nat)
    requires Untapped(Stream(r, false))
    ensures Teed(r, n) == []
  {
    if r != [] && n > |r[0].data| { UnteedReader(r[1..], n - |r[0].data|); }
  }

  lemma HandedTeed(data: Bytes, n: nat)
    ensures Teed([Piece(data, true)], n) == Prefix(data, n)
  {
    assert [Piece(data, true)][1..] == [];
  }

  lemma CapturedByOne(q: Snapshot, consumed: seq<nat>)
    requires |consumed| <= 1 && q.body.Stream?
    ensures CapturedBy(q, consumed) == Teed(q.body.reader, if consumed == [] then 0 else consumed[0])
  {
    if consumed != [] { assert consumed[..0] == []; }
  }

  lemma PrefixSplit(data: Bytes, m: nat, n: nat)
    requires m <= n <= |data|
    ensures data[..m] + data[m..][..n - m] == data[..n]
  {
    assert data[m..][..n - m] == data[m..n];
  }

  /** Above the limit the first limit + 1 bytes were captured while buffering, the rest as the one attempt reads on. */
  lemma OverLimitCapture(data: Bytes, limit: nat, c: nat)
    requires limit < |data| && c <= |data|
    ensures var reader := [Piece(data[..limit + 1], false)] + Drop([Piece(data, true)], limit + 1);
            data[..limit + 1] + Teed(reader, c) == data[..if c < limit + 1 then limit + 1 else c]
    ensures Teed([Piece(data, true)], limit + 1) == data[..limit + 1]
  {
    var rest := Drop([Piece(data, true)], limit + 1);
    var reader := [Piece(data[..limit + 1], false)] + rest;
    assert reader[1..] == rest && [Piece(data, true)][1..] == [];
    if limit + 1 < |data| {
      assert rest == [Piece(data[limit + 1..], true)];
      assert rest[1..] == [];
      if c > limit + 1 {
        PrefixSplit(data, limit + 1, c);
      }
    }
  }

  /** Without `GetBody`, however many attempts follow, the handler captures a prefix of the body once, and it covers
      everything any attempt consumed. */
  lemma CapturedOnce(data: Bytes, contentLength: int, limit: int, consumed: seq<nat>) returns (m: nat)
    requires AtMost(consumed, |data|) && limit <= MAX_INT64
    requires !BeyondInt64(Handed(data, false, false, contentLength), limit)
    requires PrepareSpec(Handed(data, false, false, contentLength), limit).answer.NotReplayable? ==> |consumed| <= 1
    ensures var p := PrepareSpec(Handed(data, false, false, contentLength), limit);
            m <= |data| && p.captured + CapturedBy(p.request, consumed) == data[..m] && AtMost(consumed, m)
  {
    var q := Handed(data, false, false, contentLength);
    var p := PrepareSpec(q, limit);
    if p.answer.Replayable? {
      CapturedWhileBuffering(data, contentLength, limit, consumed);
      assert data + [] == data[..|data|];
      return |data|;
    }
    var c := if consumed == [] then 0 else consumed[0];
    NotReplayedIsStream(q, limit);
    CapturedByOne(p.request, consumed);
    if LeftAlone(q, limit) {
      HandedTeed(data, c);
      assert [] + Prefix(data, c) == data[..c];
      return c;
    }
    CapturedOverLimit(data, contentLength, limit, c);
    return if c > limit then c else limit + 1;
  }

  lemma NotReplayedIsStream(q: Snapshot, limit: int)
    requires !q.body.Stream? || !q.body.fails
    requires !PrepareSpec(q, limit).answer.Replayable?
    ensures PrepareSpec(q, limit).answer.NotReplayable? && PrepareSpec(q, limit).request.body.Stream?
    ensures LeftAlone(q, limit) ==> PrepareSpec(q, limit).request == q && PrepareSpec(q, limit).captured == []
  {}

  lemma CapturedWhileBuffering(data: Bytes, contentLength: int, limit: int, consumed: seq<nat>)
    requires limit <= MAX_INT64 && !BeyondInt64(Handed(data, false, false, contentLength), limit)
    requires PrepareSpec(Handed(data, false, false, contentLength), limit).answer.Replayable?
    ensures var p := PrepareSpec(Handed(data, false, false, contentLength), limit);
            p.captured == data && CapturedBy(p.request, consumed) == []
  {
    var p := PrepareSpec(Handed(data, false, false, contentLength), limit);
    OnePieceData(data, true);
    assert Prefix(data, BufferLimit(limit)) == data;
    HandedTeed(data, |data|);
    UnteedAddsNothing(p.request, consumed);
  }

  lemma CapturedOverLimit(data: Bytes, contentLength: int, limit: int, c: nat)
    requires limit <= MAX_INT64 && c <= |data|
    requires var q := Handed(data, false, false, contentLength);
             !LeftAlone(q, limit) && PrepareSpec(q, limit).answer.NotReplayable?
    ensures var p := PrepareSpec(Handed(data, false, false, contentLength), limit);
            p.request.body.Stream? && limit < |data| &&
            p.captured + Teed(p.request.body.reader, c) == data[..if c > limit then c else limit + 1]
  {
    OnePieceData(data, true);
    assert BufferLimit(limit) == limit + 1 && Prefix(data, limit + 1) == data[..limit + 1];
    OverLimitCapture(data, limit, c);
  }

  /** What each attempt consumes, one after the other. */
  function Shares(data: Bytes, consumed: seq<nat>): seq<Bytes> {
    seq(|consumed|, i requires 0 <= i < |consumed| => Prefix(data, consumed[i]))
  }

  lemma SharesSnoc(data: Bytes, consumed: seq<nat>)
    requires consumed != []
    ensures var last := |consumed| - 1;
            Concat(Shares(data, consumed)) == Concat(Shares(data, consumed[..last])) + Prefix(data, consumed[last])
  {
    var last := |consumed| - 1;
    assert Shares(data, consumed)[..last] == Shares(data, consumed[..last]);
  }

  lemma HandedAttempt(data: Bytes, fails: bool, contentLength: int, k: nat, n: nat)
    ensures var clone := AttemptBody(Handed(data, fails, true, contentLength), k);
            clone.Cloned? && clone.body.Stream? && Teed(clone.body.reader, n) == Prefix(data, n)
  {
    HandedTeed(data, n);
  }

  /** With `GetBody` every attempt's share is captured again: the fronts of the body, attempt by attempt. */
  lemma {:induction false} CapturedPerAttempt(data: Bytes, fails: bool, contentLength: int, consumed: seq<nat>)
    ensures CapturedBy(Handed(data, fails, true, contentLength), consumed) == Concat(Shares(data, consumed))
  {
    if consumed != [] {
      var last := |consumed| - 1;
      CapturedPerAttempt(data, fails, contentLength, consumed[..last]);
      SharesSnoc(data, consumed);
      HandedAttempt(data, fails, contentLength, last + 1, consumed[last]);
    }
  }

  lemma {:induction false} SharesLength(data: Bytes, consumed: seq<nat>)
    requires AtMost(consumed, |data|)
    ensures |Concat(Shares(data, consumed))| == Sum(consumed)
  {
    if consumed != [] {
      SharesLength(data, consumed[..|consumed| - 1]);
      SharesSnoc(data, consumed);
    }
  }

  /** The most any attempt consumed. */
  function Most(consumed: seq<nat>): nat {
    if consumed == [] then 0
    else
      var before, last := Most(consumed[..|consumed| - 1]), consumed[|consumed| - 1];
      if before > last then before else last
  }

  lemma {:induction false} MostIsMax(consumed: seq<nat>)
    ensures AtMost(consumed, Most(consumed)) && (consumed != [] ==> Most(consumed) in consumed)
  {
    if consumed != [] {
      var init := consumed[..|consumed| - 1];
      MostIsMax(init);
      assert forall i | 0 <= i < |init| :: init[i] == consumed[i];
      assert consumed == init + [consumed[|consumed| - 1]];
    }
  }

  ghost predicate AtMostOneReads(consumed: seq<nat>) {
    forall i, j | 0 <= i < j < |consumed| :: consumed[i] == 0 || consumed[j] == 0
  }

  /** Where at most one attempt consumed anything, its share is all there is. */
  lemma {:induction false} OneShare(data: Bytes, consumed: seq<nat>)
    requires AtMostOneReads(consumed) && AtMost(consumed, |data|)
    ensures Concat(Shares(data, consumed)) == Prefix(data, Most(consumed))
  {
    if consumed != [] {
      var last := |consumed| - 1;
      var init := consumed[..last];
      SharesSnoc(data, consumed);
      OneShare(data, init);
      MostIsMax(init);
      assert forall i | 0 <= i < |init| :: init[i] == consumed[i];
    }
  }

  lemma {:induction false} SumIsMax(ns: seq<nat>, m: nat)
    requires AtMost(ns, m) && (ns != [] ==> m in ns) && (ns == [] ==> m == 0)
    ensures Sum(ns) >= m
    ensures Sum(ns) == m <==> forall i, j | 0 <= i < j < |ns| :: ns[i] == 0 || ns[j] == 0
  {
    if ns != [] {
      var init, last := ns[..|ns| - 1], ns[|ns| - 1];
      assert forall i | 0 <= i < |init| :: init[i] == ns[i];
      SumAtLeast(init);
      var i :| 0 <= i < |ns| && ns[i] == m;
      if i == |ns| - 1 {
        SumZero(init);
      } else {
        assert init[i] == m;
        SumIsMax(init, m);
      }
    }
  }

  lemma {:induction false} SumAtLeast(ns: seq<nat>)
    ensures forall i | 0 <= i < |ns| :: ns[i] <= Sum(ns)
  {
    if ns != [] { SumAtLeast(ns[..|ns| - 1]); }
  }

  lemma {:induction false} SumZero(ns: seq<nat>)
    ensures Sum(ns) == 0 <==> forall i | 0 <= i < |ns| :: ns[i] == 0
  {
    if ns != [] { SumZero(ns[..|ns| - 1]); }
  }

  /** What the handler captures of a body with `GetBody`. */
  ghost function CapturedWithGetBody(data: Bytes, fails: bool, contentLength: int, limit: int, consumed: seq<nat>): Bytes {
    var p := PrepareSpec(Handed(data, fails, true, contentLength), limit);
    p.captured + CapturedBy(p.request, consumed)
  }

  /** So with `GetBody` the captured bytes are the consumed front of the body, each byte once, if and only if at most
      one attempt consumed any. */
  lemma CapturedOnceWithGetBodyIff(data: Bytes, fails: bool, contentLength: int, limit: int, consumed: seq<nat>)
    requires AtMost(consumed, |data|)
    ensures CapturedWithGetBody(data, fails, contentLength, limit, consumed) == Prefix(data, Most(consumed)) <==>
            AtMostOneReads(consumed)
  {
    CapturedPerAttempt(data, fails, contentLength, consumed);
    MostIsMax(consumed);
    assert [] + Concat(Shares(data, consumed)) == Concat(Shares(data, consumed));
    if AtMostOneReads(consumed) {
      OneShare(data, consumed);
    } else {
      assert Most(consumed) <= |data|;
      SharesLength(data, consumed);
      SumIsMax(consumed, Most(consumed));
    }
  }

  /** Before any attempt is made: nothing will be captured twice, whatever the attempts consume, if and only if the body
      is empty or at most one attempt is allowed. */
  lemma NeverCapturedTwiceIff(data: Bytes, fails: bool, contentLength: int, limit: int, attempts: nat)
    ensures (forall consumed | AtMost(consumed, |data|) && |consumed| <= attempts ::
               CapturedWithGetBody(data, fails, contentLength, limit, consumed) == Prefix(data, Most(consumed)))
            <==> data == [] || attempts <= 1
  {
    if data == [] || attempts <= 1 {
      forall consumed | AtMost(consumed, |data|) && |consumed| <= attempts
        ensures CapturedWithGetBody(data, fails, contentLength, limit, consumed) == Prefix(data, Most(consumed))
      {
        CapturedOnceWithGetBodyIff(data, fails, contentLength, limit, consumed);
      }
    } else {
      CapturedOnceWithGetBodyIff(data, fails, contentLength, limit, [1, 1]);
      assert AtMost([1, 1], |data|) && [1, 1][0] == 1 && [1, 1][1] == 1;
    }
  }

  /** One byte, two attempts that read it: it is captured twice. */
  lemma OneByteTwice(x: bv8, limit: int)
    ensures CapturedWithGetBody([x], false, 1, limit, [1, 1]) == [x, x]
  {
    CapturedPerAttempt([x], false, 1, [1, 1]);
    var shares := Shares([x], [1, 1]);
    assert shares == [[x], [x]] && shares[..1] == [[x]] && shares[..1][..0] == [];
    assert Concat(shares[..1]) == [x];
  }
}
