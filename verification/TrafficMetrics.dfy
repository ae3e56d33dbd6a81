/** handler.go: the metrics of one proxied request, which always share the event of its log entry. */
module TrafficMetrics {
  import opened EmfBatch
  import opened EmfParts
  import opened EmfEvents

  const UNIT_COUNT := "Count"
  const UNIT_MILLISECONDS := "Milliseconds"
  const UNIT_BYTES := "Bytes"

  function StatusBucket(status: int): string {
    if 200 <= status < 300 then "2XXStatusCode"
    else if 400 <= status < 500 then "4XXStatusCode"
    else if 500 <= status < 600 then "5XXStatusCode"
    else ""
  }

  /** Latency in nanoseconds, sizes in bytes. */
  function TrafficSet(dimensions: map<string, string>, latency: int, requestBytes: int, responseBytes: int): seq<Datum> {
    [Datum("RequestCount", 1.0, UNIT_COUNT, dimensions),
     Datum("Latency", latency as real / 1000000.0, UNIT_MILLISECONDS, dimensions),
     Datum("RequestBodySize", requestBytes as real, UNIT_BYTES, dimensions),
     Datum("ResponseBodySize", responseBytes as real, UNIT_BYTES, dimensions)]
  }

  function Aggregate(appName: string): map<string, string> {
    map["AppName" := appName]
  }

  function PerRequest(appName: string, path: string, verb: string): map<string, string> {
    map["AppName" := appName, "Endpoint" := path, "Method" := verb]
  }

  function BuildMetrics(appName: string, path: string, verb: string, status: int, latency: int,
                        requestBytes: int, responseBytes: int): seq<Datum>
  {
    var all, each := Aggregate(appName), PerRequest(appName, path, verb);
    var bucket := StatusBucket(status);
    TrafficSet(all, latency, requestBytes, responseBytes) + TrafficSet(each, latency, requestBytes, responseBytes)
    + if bucket == "" then [] else [Datum(bucket, 1.0, UNIT_COUNT, all), Datum(bucket, 1.0, UNIT_COUNT, each)]
  }

  /** The bucket carries the status's leading digit, for the classes that are counted. */
  lemma BucketIsClass(status: int)
    ensures StatusBucket(status) ==
            if status / 100 in {2, 4, 5} then [('0' as int + status / 100) as char] + "XXStatusCode" else ""
  {
    assert status / 100 == 2 ==> "2XXStatusCode" == ['2'] + "XXStatusCode";
    assert status / 100 == 4 ==> "4XXStatusCode" == ['4'] + "XXStatusCode";
    assert status / 100 == 5 ==> "5XXStatusCode" == ['5'] + "XXStatusCode";
  }

  ghost predicate IsTrafficMetric(latency: int, requestBytes: int, responseBytes: int, name: string, value: real, unit: string) {
    || (name == "RequestCount" && value == 1.0 && unit == "Count")
    || (name == "Latency" && value == latency as real / 1000000.0 && unit == "Milliseconds")
    || (name == "RequestBodySize" && value == requestBytes as real && unit == "Bytes")
    || (name == "ResponseBodySize" && value == responseBytes as real && unit == "Bytes")
  }

  /** What one request has to tell, for either set of dimensions. */
  ghost predicate RequestMetric(status: int, latency: int, requestBytes: int, responseBytes: int, name: string,
                                value: real, unit: string)
  {
    || IsTrafficMetric(latency, requestBytes, responseBytes, name, value, unit)
    || (status / 100 in {2, 4, 5} && name == [('0' as int + status / 100) as char] + "XXStatusCode" && value == 1.0
        && unit == "Count")
  }

  lemma InTrafficSet(m: map<string, string>, latency: int, requestBytes: int, responseBytes: int, d: Datum)
    ensures d in TrafficSet(m, latency, requestBytes, responseBytes) <==>
            d.dimensions == m && IsTrafficMetric(latency, requestBytes, responseBytes, d.name, d.value, d.unit)
  {
    assert |TrafficSet(m, latency, requestBytes, responseBytes)| == 4;
  }

  lemma InMetrics(appName: string, path: string, verb: string, status: int, latency: int, requestBytes: int,
                  responseBytes: int, d: Datum)
    ensures d in BuildMetrics(appName, path, verb, status, latency, requestBytes, responseBytes) <==>
            && (d.dimensions == Aggregate(appName) || d.dimensions == PerRequest(appName, path, verb))
            && RequestMetric(status, latency, requestBytes, responseBytes, d.name, d.value, d.unit)
  {
    var all, each := Aggregate(appName), PerRequest(appName, path, verb);
    BucketIsClass(status);
    InTrafficSet(all, latency, requestBytes, responseBytes, d);
    InTrafficSet(each, latency, requestBytes, responseBytes, d);
  }

  // ---------------------------------------------------------------- a simple sufficient test

  /** Neither datum stands in the way of the other. */
  ghost predicate Compatible(d: Datum, e: Datum) {
    && d.name !in e.dimensions
    && (d.name == e.name ==> d.value == e.value && d.unit == e.unit)
    && (forall k | k in d.dimensions && k in e.dimensions :: d.dimensions[k] == e.dimensions[k])
  }

  lemma {:induction false} FixedOrigin(batch: seq<Datum>)
    ensures forall n | n in FixedBy(batch).metrics ::
              exists d :: d in batch && d.name == n && FixedBy(batch).metrics[n] == MetricValue(d.value, d.unit)
    ensures forall k | k in FixedBy(batch).dimensions ::
              exists d :: d in batch && k in d.dimensions && FixedBy(batch).dimensions[k] == d.dimensions[k]
    ensures |FixedBy(batch).metrics| <= |batch|
  {
    if batch != [] {
      FixedOrigin(batch[..|batch| - 1]);
      assert batch == batch[..|batch| - 1] + [batch[|batch| - 1]];
      var a, d := FixedBy(batch[..|batch| - 1]), batch[|batch| - 1];
      assert a.metrics[d.name := MetricValue(d.value, d.unit)].Keys == a.metrics.Keys + {d.name};
    }
  }

  lemma {:induction false} CompatibleAdmissible(reserved: set<string>, batch: seq<Datum>)
    requires |batch| <= MAX_METRICS
    requires forall d | d in batch :: Encodable(reserved, d)
    requires forall d, e | d in batch && e in batch :: Compatible(d, e)
    ensures Admissible(reserved, batch)
  {
    if batch != [] {
      var init, d := batch[..|batch| - 1], batch[|batch| - 1];
      assert batch == init + [d];
      CompatibleAdmissible(reserved, init);
      CompatibleAccepted(reserved, init, d);
    }
  }

  lemma CompatibleAccepted(reserved: set<string>, init: seq<Datum>, d: Datum)
    requires |init| < MAX_METRICS && Encodable(reserved, d)
    requires forall e | e in init :: Compatible(d, e) && Compatible(e, d)
    ensures Accepts(reserved, FixedBy(init), d)
  {
    FixedOrigin(init);
    forall k | k in d.dimensions ensures KeyFits(reserved, FixedBy(init), k, d.dimensions[k]) {}
  }

  // ---------------------------------------------------------------- the metrics of a request

  /** Metric names and dimension keys of a request start with a capital or a digit, reserved names with neither. */
  lemma ReservedFronts()
    ensures forall k | k in LOG_ROOT_KEYS :: k != "" && k[0] >= '_'
  {}

  ghost predicate TrafficKeys(m: map<string, string>, appName: string, path: string, verb: string) {
    m == Aggregate(appName) || m == PerRequest(appName, path, verb)
  }

  ghost predicate MetricFront(name: string) {
    name != "" && name[0] in {'R', 'L', '2', '4', '5'}
  }

  lemma TrafficKeysFacts(m: map<string, string>, appName: string, path: string, verb: string)
    requires TrafficKeys(m, appName, path, verb)
    ensures |m| <= 3
    ensures forall k | k in m :: k != "" && k[0] in {'A', 'E', 'M'} && '\0' !in k
    ensures forall k | k in m :: m[k] == PerRequest(appName, path, verb)[k]
  {
    assert m.Keys <= {"AppName", "Endpoint", "Method"};
    SubsetSize(m.Keys, {"AppName", "Endpoint", "Method"});
  }

  /** Value and unit of a traffic metric depend on its name only. */
  ghost predicate Traffic(d: Datum, appName: string, path: string, verb: string, latency: int,
                          requestBytes: int, responseBytes: int)
  {
    && TrafficKeys(d.dimensions, appName, path, verb) && MetricFront(d.name)
    && d.value == (if d.name == "Latency" then latency as real / 1000000.0
                   else if d.name == "RequestBodySize" then requestBytes as real
                   else if d.name == "ResponseBodySize" then responseBytes as real
                   else 1.0)
    && d.unit == (if d.name == "Latency" then UNIT_MILLISECONDS
                  else if d.name == "RequestBodySize" || d.name == "ResponseBodySize" then UNIT_BYTES
                  else UNIT_COUNT)
  }

  lemma SetIsTraffic(m: map<string, string>, appName: string, path: string, verb: string, latency: int,
                     requestBytes: int, responseBytes: int)
    requires TrafficKeys(m, appName, path, verb)
    ensures forall d | d in TrafficSet(m, latency, requestBytes, responseBytes) ::
              Traffic(d, appName, path, verb, latency, requestBytes, responseBytes)
  {}

  lemma MetricsAreTraffic(appName: string, path: string, verb: string, status: int, latency: int,
                          requestBytes: int, responseBytes: int, d: Datum)
    requires d in BuildMetrics(appName, path, verb, status, latency, requestBytes, responseBytes)
    ensures Traffic(d, appName, path, verb, latency, requestBytes, responseBytes)
  {
    SetIsTraffic(Aggregate(appName), appName, path, verb, latency, requestBytes, responseBytes);
    SetIsTraffic(PerRequest(appName, path, verb), appName, path, verb, latency, requestBytes, responseBytes);
  }

  lemma TrafficCompatible(appName: string, path: string, verb: string, latency: int, requestBytes: int,
                          responseBytes: int, d: Datum, e: Datum)
    requires Traffic(d, appName, path, verb, latency, requestBytes, responseBytes)
    requires Traffic(e, appName, path, verb, latency, requestBytes, responseBytes)
    ensures Compatible(d, e)
  {
    TrafficKeysFacts(d.dimensions, appName, path, verb);
    TrafficKeysFacts(e.dimensions, appName, path, verb);
  }

  lemma TrafficEncodable(appName: string, path: string, verb: string, latency: int, requestBytes: int,
                         responseBytes: int, d: Datum)
    requires Traffic(d, appName, path, verb, latency, requestBytes, responseBytes)
    ensures Encodable(LOG_ROOT_KEYS, d)
  {
    TrafficKeysFacts(d.dimensions, appName, path, verb);
    ReservedFronts();
  }

  /** Whatever the request, its metrics form one batch beside the log entry and are read back unchanged. */
  lemma TrafficSharesOneEvent(namespace: string, appName: string, path: string, verb: string, status: int,
                              latency: int, requestBytes: int, responseBytes: int)
    ensures var data := BuildMetrics(appName, path, verb, status, latency, requestBytes, responseBytes);
            Batches(LOG_ROOT_KEYS, data) == [data] && Faithful(PartsFor(namespace, data), namespace, data)
  {
    var data := BuildMetrics(appName, path, verb, status, latency, requestBytes, responseBytes);
    forall d | d in data
      ensures Encodable(LOG_ROOT_KEYS, d) && d.name !in d.dimensions && forall k | k in d.dimensions :: '\0' !in k
    {
      MetricsAreTraffic(appName, path, verb, status, latency, requestBytes, responseBytes, d);
      TrafficEncodable(appName, path, verb, latency, requestBytes, responseBytes, d);
      TrafficKeysFacts(d.dimensions, appName, path, verb);
    }
    forall d, e | d in data && e in data ensures Compatible(d, e) {
      MetricsAreTraffic(appName, path, verb, status, latency, requestBytes, responseBytes, d);
      MetricsAreTraffic(appName, path, verb, status, latency, requestBytes, responseBytes, e);
      TrafficCompatible(appName, path, verb, latency, requestBytes, responseBytes, d, e);
    }
    CompatibleAdmissible(LOG_ROOT_KEYS, data);
    SplitIsStable(LOG_ROOT_KEYS, LOG_ROOT_KEYS, data);
    CleanKeysTold(LOG_ROOT_KEYS, data);
    FaithfulIff(LOG_ROOT_KEYS, namespace, data);
  }

  /** Reading the one event of a request back gives, under the given namespace, for the application and for the
      endpoint and method, exactly the request count, the latency in milliseconds, both body sizes, and the bucket of a
      counted status class. */
  lemma EventTellsTheRequest(namespace: string, appName: string, path: string, verb: string, status: int,
                             latency: int, requestBytes: int, responseBytes: int, m: string, d: Datum)
    ensures var data := BuildMetrics(appName, path, verb, status, latency, requestBytes, responseBytes);
            Decodes(PartsFor(namespace, data), m, d) <==>
            && m == namespace
            && (d.dimensions == map["AppName" := appName] ||
                d.dimensions == map["AppName" := appName, "Endpoint" := path, "Method" := verb])
            && RequestMetric(status, latency, requestBytes, responseBytes, d.name, d.value, d.unit)
  {
    TrafficSharesOneEvent(namespace, appName, path, verb, status, latency, requestBytes, responseBytes);
    InMetrics(appName, path, verb, status, latency, requestBytes, responseBytes, d);
  }
}
