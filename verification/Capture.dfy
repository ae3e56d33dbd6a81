/** capture.go and readBody of runner.go: recording a bounded prefix of the bytes that pass. */
module Capture {
  import opened Partition

  type Bytes = seq<bv8>

  const DEFAULT_LIMIT := 64 * 1024

  function EffectiveLimit(limit: int): nat {
    if limit <= 0 then DEFAULT_LIMIT else limit
  }

  function Prefix(data: Bytes, limit: nat): Bytes {
    if |data| <= limit then data else data[..limit]
  }

  /** The k-th write brought more than fitted, or came when the buffer was full. */
  predicate OverranAt(limit: nat, chunks: seq<Bytes>, k: nat)
    requires k < |chunks|
  {
    |Concat(chunks[..k])| + |chunks[k]| > limit || |Concat(chunks[..k])| >= limit
  }

  ghost predicate Overran(limit: nat, chunks: seq<Bytes>) {
    exists k | 0 <= k < |chunks| :: OverranAt(limit, chunks, k)
  }

  class CaptureBuffer {
    const limit: nat
    var buf: Bytes
    var total: nat
    var truncated: bool
    ghost var written: seq<Bytes>

    /** The buffer is the first `limit` bytes of everything written, however it was cut into writes. */
    ghost predicate Valid()
      reads this
    {
      && limit > 0
      && buf == Prefix(Concat(written), limit)
      && total == |Concat(written)|
      && truncated == Overran(limit, written)
    }

    constructor (limit: int)
      ensures Valid() && written == [] && this.limit == if limit > 0 then limit else 65536
    {
      this.limit := EffectiveLimit(limit);
      buf, total, truncated, written := [], 0, false, [];
    }

    method Write(body: Bytes) returns (n: nat)
      requires Valid()
      modifies this
      ensures Valid() && written == old(written) + [body] && n == |body|
    {
      OverranSnoc(limit, written, body);
      ghost var before := Concat(written);
      assert (written + [body])[..|written|] == written;
      written := written + [body];
      assert Concat(written) == before + body;
      total := total + |body|;
      var remaining := limit - |buf|;
      if remaining <= 0 {
        truncated := true;
        assert Prefix(before + body, limit) == Prefix(before, limit);
        return |body|;
      }
      assert buf == before;
      var chunk := body;
      if |chunk| > remaining {
        chunk := chunk[..remaining];
        truncated := true;
      }
      buf := buf + chunk;
      assert buf == Prefix(before + body, limit);
      return |body|;
    }

    method Snapshot() returns (body: Bytes, cut: bool)
      requires Valid()
      ensures body == Prefix(Concat(written), limit) && cut == Overran(limit, written)
    {
      body, cut := buf, truncated;
    }
  }

  lemma OverranSnoc(limit: nat, chunks: seq<Bytes>, body: Bytes)
    ensures Overran(limit, chunks + [body]) <==>
            Overran(limit, chunks) || |Concat(chunks)| + |body| > limit || |Concat(chunks)| >= limit
  {
    var longer, n := chunks + [body], |chunks|;
    assert longer[..n] == chunks && longer[n] == body;
    forall k | 0 <= k < n ensures OverranAt(limit, longer, k) == OverranAt(limit, chunks, k) {
      assert longer[..k] == chunks[..k] && longer[k] == chunks[k];
    }
    if k :| 0 <= k < n && OverranAt(limit, chunks, k) { assert OverranAt(limit, longer, k); }
    assert OverranAt(limit, longer, n) ==> Overran(limit, longer);
  }

  lemma {:induction false} PrefixLength(chunks: seq<Bytes>, k: nat)
    requires k < |chunks|
    ensures |Concat(chunks[..k])| + |chunks[k]| <= |Concat(chunks)|
  {
    var n := |chunks| - 1;
    if k == n {
      assert chunks[..n] == chunks[..k];
    } else {
      PrefixLength(chunks[..n], k);
      assert chunks[..n][..k] == chunks[..k];
    }
  }

  /** The flag says more than fitted, except that an empty write to a full buffer sets it too. */
  lemma {:induction false} TruncatedExactly(limit: nat, chunks: seq<Bytes>)
    requires limit > 0
    ensures Overran(limit, chunks) <==>
            |Concat(chunks)| > limit ||
            exists k | 0 <= k < |chunks| :: chunks[k] == [] && |Concat(chunks[..k])| == limit
  {
    if chunks != [] {
      var n := |chunks| - 1;
      var init, last := chunks[..n], chunks[n];
      assert chunks == init + [last];
      TruncatedExactly(limit, init);
      OverranSnoc(limit, init, last);
      assert forall k | 0 <= k < n :: init[..k] == chunks[..k] && init[k] == chunks[k];
      assert chunks[..n] == init;
      if k :| 0 <= k < |chunks| && chunks[k] == [] && |Concat(chunks[..k])| == limit {
        assert k < n ==> init[k] == [] && |Concat(init[..k])| == limit;
      }
      if k :| 0 <= k < n && init[k] == [] && |Concat(init[..k])| == limit {
        assert chunks[k] == [] && |Concat(chunks[..k])| == limit;
      }
    }
  }

  /** The tee writes non-empty chunks only, so for it the flag is exact and the buffer does not depend on the chunks. */
  lemma ChunkingIrrelevant(limit: nat, chunks: seq<Bytes>, other: seq<Bytes>)
    requires limit > 0 && Concat(chunks) == Concat(other)
    requires (forall c | c in chunks :: c != []) && (forall c | c in other :: c != [])
    ensures Overran(limit, chunks) <==> |Concat(chunks)| > limit
    ensures Overran(limit, chunks) <==> Overran(limit, other)
  {
    TruncatedExactly(limit, chunks);
    TruncatedExactly(limit, other);
    assert forall k | 0 <= k < |chunks| :: chunks[k] in chunks;
    assert forall k | 0 <= k < |other| :: other[k] in other;
  }

  // ---------------------------------------------------------------- the one-shot counterpart

  datatype BodyRead = BodyRead(payload: Bytes, cut: bool, failed: bool)

  /** `io.ReadAll(io.LimitReader(r, n))` on a source that delivers `data` and then ends, or fails if `fails`. */
  function ReadAtMost(data: Bytes, fails: bool, n: nat): (Bytes, bool) {
    (Prefix(data, n), fails && |data| < n)
  }

  /** `readBody`: payload, whether it was cut, and whether reading failed. */
  function ReadBody(data: Bytes, fails: bool, limit: int): (r: BodyRead)
    ensures var most := if limit > 0 then limit else 65536;
            && r.cut == (|data| > most) && r.payload == (if r.cut then data[..most] else data)
            && r.failed == (fails && !r.cut)
  {
    var most := EffectiveLimit(limit);
    var (payload, failed) := ReadAtMost(data, fails, most + 1);
    if |payload| > most then BodyRead(payload[..most], true, failed) else BodyRead(payload, false, failed)
  }

  /** Bytes teed through a capture buffer in any chunks leave the payload and the flag that `readBody` gives. */
  lemma CaptureAgreesWithReadBody(capture: CaptureBuffer, limit: int, fails: bool)
    requires capture.Valid() && capture.limit == EffectiveLimit(limit)
    requires forall c | c in capture.written :: c != []
    ensures var r := ReadBody(Concat(capture.written), fails, limit);
            capture.buf == r.payload && capture.truncated == r.cut && capture.total == |Concat(capture.written)|
  {
    ChunkingIrrelevant(capture.limit, capture.written, capture.written);
  }
}
