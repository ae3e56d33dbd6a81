/** What a whole metric list becomes: the events both sinks write, and the metrics of one proxied request. */
module EmfEvents {
  import opened Partition
  import opened EmfBatch
  import opened EmfParts
  import opened EmfBuild

  // ---------------------------------------------------------------- the greedy split

  ghost function Batches(reserved: set<string>, data: seq<Datum>): seq<seq<Datum>> {
    Greedy(Admits(reserved), data)
  }

  /** A successful split keeps every datum, in order, in admissible non-empty batches, and no split into
      admissible batches has fewer. */
  lemma SplitIsComplete(reserved: set<string>, data: seq<Datum>)
    requires AllEncodable(reserved, data)
    ensures Concat(Batches(reserved, data)) == data
    ensures forall b | b in Batches(reserved, data) :: b != [] && Admissible(reserved, b)
    ensures forall parts | Admitted(Admits(reserved), parts) && Concat(parts) == data ::
              |Batches(reserved, data)| <= |parts|
  {
    var ok := Admits(reserved);
    GreedyConcat(ok, data);
    EachEncodable(reserved, data);
    forall i | 0 <= i < |data| ensures ok([data[i]]) { SingleAdmissible(reserved, data[i]); }
    GreedyAdmitted(ok, data);
    AdmitsHereditary(reserved);
    forall parts | Admitted(ok, parts) && Concat(parts) == data ensures |Greedy(ok, data)| <= |parts| {
      GreedyOptimal(ok, data, parts);
    }
  }

  /** A batch that is split again, with the same or fewer reserved names, stays one batch. */
  lemma SplitIsStable(small: set<string>, reserved: set<string>, batch: seq<Datum>)
    requires small <= reserved && Admissible(reserved, batch) && batch != []
    ensures Batches(small, batch) == [batch] && AllEncodable(small, batch)
  {
    assert [] + batch == batch;
    AdmissibleSuffix(small, reserved, [], batch);
    AdmitsHereditary(small);
    GreedyWhole(Admits(small), batch);
    AllOfAdmissible(small, batch);
  }

  lemma AllOfAdmissible(reserved: set<string>, batch: seq<Datum>)
    requires Admissible(reserved, batch)
    ensures AllEncodable(reserved, batch)
  {
    forall d | d in batch ensures Encodable(reserved, d) {
      var i :| 0 <= i < |batch| && batch[i] == d;
      AdmissibleEncodable(reserved, batch, i);
    }
    EachEncodable(reserved, batch);
  }

  lemma AdmissibleConsistent(reserved: set<string>, batch: seq<Datum>)
    requires Admissible(reserved, batch)
    ensures Consistent(batch)
  {
    forall d | d in batch ensures Recorded(FixedBy(batch), d) { AdmissibleRecorded(reserved, batch, d); }
  }

  // ---------------------------------------------------------------- one event

  datatype Envelope = Envelope(timestamp: int, parts: Parts)

  ghost predicate Encodes(event: Result<Envelope>, namespace: string, timestamp: int, batch: seq<Datum>) {
    event == Ok(Envelope(timestamp, PartsFor(namespace, batch)))
  }

  /** `buildEMF` splits its data once more and refuses anything but one batch. */
  method BuildEMF(namespace: string, timestamp: int, data: seq<Datum>, reserved: set<string>) returns (r: Result<Envelope>)
    ensures r.Ok? <==> AllEncodable(reserved, data) && |Batches(reserved, data)| == 1
    ensures r.Ok? ==> Encodes(r, namespace, timestamp, data)
    ensures r.Err? ==> !r.error.ConflictingValues?
  {
    var split := PartitionDatums(data, reserved);
    if split.Err? { return Err(split.error); }
    var batches := split.value;
    if |batches| != 1 { return Err(ExpectedOneBatch(|batches|)); }
    SplitIsComplete(reserved, data);
    assert batches == [batches[0]] && batches[..0] == [];
    assert Concat(batches) == [] + batches[0];
    assert batches[0] == data;
    AdmissibleConsistent(reserved, data);
    var built := BuildEMFParts(namespace, batches[0]);
    match built
    case Err(error) => return Err(error);
    case Ok(parts) => return Ok(Envelope(timestamp, parts));
  }

  // ---------------------------------------------------------------- all events of a log entry

  /** Every batch of a split, split again as `buildEMF` does, is one batch. */
  lemma BatchEncodes(small: set<string>, reserved: set<string>, data: seq<Datum>, i: nat)
    requires small <= reserved && AllEncodable(reserved, data) && i < |Batches(reserved, data)|
    ensures AllEncodable(small, Batches(reserved, data)[i]) && |Batches(small, Batches(reserved, data)[i])| == 1
  {
    SplitIsComplete(reserved, data);
    var b := Batches(reserved, data)[i];
    assert b in Batches(reserved, data);
    SplitIsStable(small, reserved, b);
  }

  /** One event per batch; the first carries the time `first`, every other one `later`. */
  ghost predicate Encoded(events: seq<Result<Envelope>>, namespace: string, first: int, later: int, batches: seq<seq<Datum>>) {
    && |events| == |batches|
    && forall i | 0 <= i < |events| :: Encodes(events[i], namespace, if i == 0 then first else later, batches[i])
  }

  lemma EncodedNext(events: seq<Result<Envelope>>, event: Result<Envelope>, namespace: string, first: int, later: int,
                    batches: seq<seq<Datum>>, i: nat)
    requires i < |batches| && Encoded(events, namespace, first, later, batches[..i])
    requires Encodes(event, namespace, if i == 0 then first else later, batches[i])
    ensures Encoded(events + [event], namespace, first, later, batches[..i + 1])
  {}

  lemma MetricKeysAreReserved()
    ensures METRIC_ROOT_KEYS <= LOG_ROOT_KEYS
  {}

  /** `logWithMetrics` of either sink: the first batch goes into the log event, every other one into an event of its
      own. A batch that fails to encode would leave an error in the list; none does. The entry's time is read once for
      the log event and once for the others, which makes a difference for an entry without a time. */
  method LogWithMetrics(namespace: string, logTime: int, metricTime: int, data: seq<Datum>)
    returns (r: Result<seq<Result<Envelope>>>)
    ensures namespace == "" ==> r == Ok([])
    ensures namespace != "" ==> (r.Ok? <==> AllEncodable(LOG_ROOT_KEYS, data))
    ensures r.Err? ==> exists i :: FirstUnencodable(LOG_ROOT_KEYS, data, i) && r.error == Unencodable(data[i].name)
    ensures namespace != "" && r.Ok? ==> Encoded(r.value, namespace, logTime, metricTime, Batches(LOG_ROOT_KEYS, data))
    ensures r.Ok? ==> forall i | 0 <= i < |r.value| ::
                        r.value[i].Ok? && r.value[i].value.timestamp == if i == 0 then logTime else metricTime
  {
    if |data| == 0 || namespace == "" { return Ok([]); }
    var split := PartitionDatums(data, LOG_ROOT_KEYS);
    if split.Err? { return Err(split.error); }
    var batches := split.value;
    if |batches| == 0 { return Ok([]); }
    MetricKeysAreReserved();
    BatchEncodes(LOG_ROOT_KEYS, LOG_ROOT_KEYS, data, 0);
    var first := BuildEMF(namespace, logTime, batches[0], LOG_ROOT_KEYS);
    var events := [first];
    EncodedNext([], first, namespace, logTime, metricTime, batches, 0);
    for i := 1 to |batches|
      invariant Encoded(events, namespace, logTime, metricTime, batches[..i])
    {
      BatchEncodes(METRIC_ROOT_KEYS, LOG_ROOT_KEYS, data, i);
      var event := BuildEMF(namespace, metricTime, batches[i], METRIC_ROOT_KEYS);
      EncodedNext(events, event, namespace, logTime, metricTime, batches, i);
      events := events + [event];
    }
    assert batches[..|batches|] == batches;
    return Ok(events);
  }

  /** `Publish` of the CloudWatch sink: metrics without a log entry, one event per batch. No metrics need no namespace. */
  method Publish(namespace: string, timestamp: int, data: seq<Datum>) returns (r: Result<seq<Result<Envelope>>>)
    ensures r == Err(NoNamespace) <==> data != [] && namespace == ""
    ensures r.Ok? <==> data == [] || (namespace != "" && AllEncodable(METRIC_ROOT_KEYS, data))
    ensures r.Err? && namespace != "" ==>
              exists i :: FirstUnencodable(METRIC_ROOT_KEYS, data, i) && r.error == Unencodable(data[i].name)
    ensures r.Ok? ==> Encoded(r.value, namespace, timestamp, timestamp, Batches(METRIC_ROOT_KEYS, data))
    ensures r.Ok? ==> forall i | 0 <= i < |r.value| :: r.value[i].Ok? && r.value[i].value.timestamp == timestamp
  {
    if |data| == 0 { return Ok([]); }
    if namespace == "" { return Err(NoNamespace); }
    var split := PartitionDatums(data, METRIC_ROOT_KEYS);
    if split.Err? { return Err(split.error); }
    var batches := split.value;
    var events := [];
    for i := 0 to |batches|
      invariant Encoded(events, namespace, timestamp, timestamp, batches[..i])
    {
      BatchEncodes(METRIC_ROOT_KEYS, METRIC_ROOT_KEYS, data, i);
      var event := BuildEMF(namespace, timestamp, batches[i], METRIC_ROOT_KEYS);
      EncodedNext(events, event, namespace, timestamp, timestamp, batches, i);
      events := events + [event];
    }
    assert batches[..|batches|] == batches;
    return Ok(events);
  }

  lemma BatchTells(namespace: string, data: seq<Datum>, batch: seq<Datum>, m: string, d: Datum)
    requires AllEncodable(LOG_ROOT_KEYS, data) && NoOwnNames(data) && batch in Batches(LOG_ROOT_KEYS, data)
    requires forall e, k | e in data && k in e.dimensions :: '\0' !in k
    ensures Decodes(PartsFor(namespace, batch), m, d) <==> m == namespace && d in batch
  {
    SplitIsComplete(LOG_ROOT_KEYS, data);
    forall e | e in batch ensures e in data { InSomePiece(Batches(LOG_ROOT_KEYS, data), e); }
    CleanKeysTold(LOG_ROOT_KEYS, batch);
    FaithfulIff(LOG_ROOT_KEYS, namespace, batch);
  }

  /** With NUL-free keys and no datum named like its own key, the events together say exactly what the data said, and
      say it under the given namespace only. */
  lemma EventsTellTheData(events: seq<Result<Envelope>>, namespace: string, first: int, later: int, data: seq<Datum>,
                          m: string, d: Datum)
    requires AllEncodable(LOG_ROOT_KEYS, data) && NoOwnNames(data)
    requires forall e, k | e in data && k in e.dimensions :: '\0' !in k
    requires Encoded(events, namespace, first, later, Batches(LOG_ROOT_KEYS, data))
    ensures m == namespace && d in data <==>
            exists i :: 0 <= i < |events| && events[i].Ok? && Decodes(events[i].value.parts, m, d)
  {
    var batches := Batches(LOG_ROOT_KEYS, data);
    forall i | 0 <= i < |events|
      ensures events[i].Ok? && (m == namespace && d in batches[i] <==> Decodes(events[i].value.parts, m, d))
    {
      assert batches[i] in batches && Encodes(events[i], namespace, if i == 0 then first else later, batches[i]);
      BatchTells(namespace, data, batches[i], m, d);
    }
    assert Concat(batches) == data by { SplitIsComplete(LOG_ROOT_KEYS, data); }
    InSomePiece(batches, d);
    SomeEventTells(events, batches, namespace, m, d);
  }

  lemma SomeEventTells(events: seq<Result<Envelope>>, batches: seq<seq<Datum>>, namespace: string, m: string, d: Datum)
    requires |events| == |batches|
    requires forall i | 0 <= i < |events| ::
               events[i].Ok? && (m == namespace && d in batches[i] <==> Decodes(events[i].value.parts, m, d))
    ensures m == namespace && (exists p :: p in batches && d in p) <==>
            exists i :: 0 <= i < |events| && events[i].Ok? && Decodes(events[i].value.parts, m, d)
  {
    if m == namespace && exists p :: p in batches && d in p {
      var p :| p in batches && d in p;
      var i :| 0 <= i < |batches| && batches[i] == p;
      assert Decodes(events[i].value.parts, m, d);
    }
    if i :| 0 <= i < |events| && Decodes(events[i].value.parts, m, d) {
      assert batches[i] in batches;
    }
  }

  lemma {:induction false} InSomePiece<T>(parts: seq<seq<T>>, x: T)
    ensures x in Concat(parts) <==> exists p :: p in parts && x in p
  {
    if parts != [] {
      InSomePiece(parts[..|parts| - 1], x);
      assert parts == parts[..|parts| - 1] + [parts[|parts| - 1]];
    }
  }
}
