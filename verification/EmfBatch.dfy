/** emf.go: splitting a metric list into batches that one EMF event can carry. */
module EmfBatch {
  import opened Partition

  const MAX_METRICS := 100
  const MAX_DIMENSIONS := 30

  const LOG_ROOT_KEYS: set<string> := {"_aws", "_q", "_t", "app_name", "aws_meta", "delay", "request", "response"}
  const METRIC_ROOT_KEYS: set<string> := {"_aws", "_q", "_t", "app_name", "aws_meta"}

  datatype Datum = Datum(name: string, value: real, unit: string, dimensions: map<string, string>)

  datatype MetricValue = MetricValue(value: real, unit: string)

  datatype Result<+T> = Ok(value: T) | Err(error: Error)

  datatype Error =
    | Unencodable(metric: string)
    | ExpectedOneBatch(got: nat)
    | ConflictingValues(metric: string)
    | NotAnObject
    | NoNamespace

  // ---------------------------------------------------------------- the admission test, as functions

  /** What a batch has fixed so far: the value of every dimension key and of every metric name in it. */
  datatype Fixed = Fixed(dimensions: map<string, string>, metrics: map<string, MetricValue>)

  function Add(a: Fixed, d: Datum): Fixed {
    Fixed(a.dimensions + d.dimensions, a.metrics[d.name := MetricValue(d.value, d.unit)])
  }

  function FixedBy(batch: seq<Datum>): Fixed {
    if batch == [] then Fixed(map[], map[]) else Add(FixedBy(batch[..|batch| - 1]), batch[|batch| - 1])
  }

  predicate KeyFits(reserved: set<string>, a: Fixed, key: string, value: string) {
    key != "" && key !in reserved && key !in a.metrics && (key in a.dimensions ==> a.dimensions[key] == value)
  }

  predicate NameFits(reserved: set<string>, a: Fixed, d: Datum) {
    && d.name != ""
    && |a.metrics| < MAX_METRICS
    && d.name !in reserved
    && d.name !in a.dimensions
    && (d.name in a.metrics ==> a.metrics[d.name] == MetricValue(d.value, d.unit))
    && |d.dimensions| <= MAX_DIMENSIONS
  }

  predicate Accepts(reserved: set<string>, a: Fixed, d: Datum) {
    NameFits(reserved, a, d) && forall k | k in d.dimensions :: KeyFits(reserved, a, k, d.dimensions[k])
  }

  /** Every datum of `batch` passed the test when it was added. */
  predicate Admissible(reserved: set<string>, batch: seq<Datum>) {
    batch == [] ||
    (var n := |batch| - 1; Admissible(reserved, batch[..n]) && Accepts(reserved, FixedBy(batch[..n]), batch[n]))
  }

  function Admits(reserved: set<string>): seq<Datum> -> bool {
    batch => Admissible(reserved, batch)
  }

  /** A datum that fits an empty batch. */
  predicate Encodable(reserved: set<string>, d: Datum) {
    && d.name != "" && d.name !in reserved
    && |d.dimensions| <= MAX_DIMENSIONS
    && forall k | k in d.dimensions :: k != "" && k !in reserved
  }

  predicate AllEncodable(reserved: set<string>, data: seq<Datum>) {
    data == [] || (Encodable(reserved, data[|data| - 1]) && AllEncodable(reserved, data[..|data| - 1]))
  }

  lemma {:induction false} EachEncodable(reserved: set<string>, data: seq<Datum>)
    ensures AllEncodable(reserved, data) <==> forall d | d in data :: Encodable(reserved, d)
  {
    if data != [] {
      EachEncodable(reserved, data[..|data| - 1]);
      assert data == data[..|data| - 1] + [data[|data| - 1]];
    }
  }

  // ---------------------------------------------------------------- the test only gets stricter

  ghost predicate Weaker(a: Fixed, b: Fixed) {
    && (forall k | k in a.dimensions :: k in b.dimensions && a.dimensions[k] == b.dimensions[k])
    && (forall k | k in a.metrics :: k in b.metrics && a.metrics[k] == b.metrics[k])
  }

  lemma SubmapSize<K, V>(a: map<K, V>, b: map<K, V>)
    requires forall k | k in a :: k in b
    ensures |a| <= |b|
  {
    assert a.Keys <= b.Keys;
    SubsetSize(a.Keys, b.Keys);
  }

  lemma SubsetSize<K>(a: set<K>, b: set<K>)
    requires a <= b
    ensures |a| <= |b|
  {
    assert b == a + (b - a);
  }

  /** The admission test is antitone in what the batch has fixed and in the reserved names. */
  lemma AcceptsAntitone(small: set<string>, reserved: set<string>, a: Fixed, b: Fixed, d: Datum)
    requires Weaker(a, b) && small <= reserved && Accepts(reserved, b, d)
    ensures Accepts(small, a, d)
  {
    SubmapSize(a.metrics, b.metrics);
    forall k | k in d.dimensions ensures KeyFits(small, a, k, d.dimensions[k]) {
      assert KeyFits(reserved, b, k, d.dimensions[k]);
    }
  }

  lemma FixedBySnoc(batch: seq<Datum>, d: Datum)
    ensures FixedBy(batch + [d]) == Add(FixedBy(batch), d)
  {
    assert (batch + [d])[..|batch|] == batch;
  }

  lemma WeakerAdd(a: Fixed, b: Fixed, d: Datum)
    requires Weaker(a, b)
    ensures Weaker(Add(a, d), Add(b, d))
  {}

  /** A batch that starts later fixes no more. */
  lemma {:induction false} SuffixFixesLess(front: seq<Datum>, rest: seq<Datum>)
    ensures Weaker(FixedBy(rest), FixedBy(front + rest))
  {
    if rest != [] {
      var init, d := rest[..|rest| - 1], rest[|rest| - 1];
      SuffixFixesLess(front, init);
      WeakerAdd(FixedBy(init), FixedBy(front + init), d);
      FixedBySnoc(front + init, d);
      assert front + rest == front + init + [d];
    }
  }

  lemma AdmissibleSnoc(reserved: set<string>, batch: seq<Datum>, d: Datum)
    ensures Admissible(reserved, batch + [d]) <==>
            Admissible(reserved, batch) && Accepts(reserved, FixedBy(batch), d)
  {
    assert (batch + [d])[..|batch|] == batch;
  }

  lemma {:induction false} AdmissiblePrefix(reserved: set<string>, batch: seq<Datum>, j: nat)
    requires Admissible(reserved, batch) && j <= |batch|
    ensures Admissible(reserved, batch[..j])
  {
    if j == |batch| {
      assert batch[..j] == batch;
    } else {
      AdmissiblePrefix(reserved, batch[..|batch| - 1], j);
      assert batch[..|batch| - 1][..j] == batch[..j];
    }
  }

  /** Dropping a front, and reserving fewer names, keeps a batch admissible. */
  lemma {:induction false} AdmissibleSuffix(small: set<string>, reserved: set<string>, front: seq<Datum>, rest: seq<Datum>)
    requires small <= reserved && Admissible(reserved, front + rest)
    ensures Admissible(small, rest)
  {
    if rest != [] {
      var init, d := rest[..|rest| - 1], rest[|rest| - 1];
      assert front + rest == front + init + [d];
      AdmissibleSnoc(reserved, front + init, d);
      AdmissibleSuffix(small, reserved, front, init);
      SuffixFixesLess(front, init);
      AcceptsAntitone(small, reserved, FixedBy(init), FixedBy(front + init), d);
    }
  }

  lemma SplitPrefix<T>(s: seq<T>, i: nat, j: nat)
    requires i <= j <= |s|
    ensures s[..j] == s[..i] + s[i..j]
  {}

  lemma AdmissiblePiece(reserved: set<string>, batch: seq<Datum>, i: nat, j: nat)
    requires Admissible(reserved, batch) && i <= j <= |batch|
    ensures Admissible(reserved, batch[i..j])
  {
    AdmissiblePrefix(reserved, batch, j);
    SplitPrefix(batch, i, j);
    AdmissibleSuffix(reserved, reserved, batch[..i], batch[i..j]);
  }

  lemma AdmitsHereditary(reserved: set<string>)
    ensures Hereditary(Admits(reserved))
  {
    forall s: seq<Datum>, i, j | 0 <= i <= j <= |s| && Admits(reserved)(s) ensures Admits(reserved)(s[i..j]) {
      AdmissiblePiece(reserved, s, i, j);
    }
  }

  lemma SingleAdmissible(reserved: set<string>, d: Datum)
    ensures Admissible(reserved, [d]) <==> Encodable(reserved, d)
    ensures Accepts(reserved, FixedBy([]), d) <==> Encodable(reserved, d)
  {
    AdmissibleSnoc(reserved, [], d);
    assert [] + [d] == [d];
  }

  /** An admissible batch has only encodable datums. */
  lemma AdmissibleEncodable(reserved: set<string>, batch: seq<Datum>, i: nat)
    requires Admissible(reserved, batch) && i < |batch|
    ensures Encodable(reserved, batch[i])
  {
    AdmissiblePiece(reserved, batch, i, i + 1);
    assert batch[i..i + 1] == [batch[i]];
    SingleAdmissible(reserved, batch[i]);
  }

  // ---------------------------------------------------------------- the batch under construction

  method PutAll(into: map<string, string>, values: map<string, string>) returns (m: map<string, string>)
    ensures m == into + values
  {
    m := into;
    var left := values.Keys;
    while left != {}
      invariant left <= values.Keys
      invariant m == into + (values - left)
      decreases left
    {
      var key :| key in left;
      m := m[key := values[key]];
      left := left - {key};
    }
    assert values - {} == values;
  }

  class BatchState {
    var datums: seq<Datum>
    var dimensionValues: map<string, string>
    var metricValues: map<string, MetricValue>
    const reservedRoot: set<string>

    ghost predicate Valid()
      reads this
    {
      FixedBy(datums) == Fixed(dimensionValues, metricValues)
    }

    constructor (reserved: set<string>)
      ensures Valid() && datums == [] && reservedRoot == reserved
    {
      datums, dimensionValues, metricValues, reservedRoot := [], map[], map[], reserved;
    }

    method CanAdd(datum: Datum) returns (ok: bool)
      requires Valid()
      ensures ok == Accepts(reservedRoot, FixedBy(datums), datum)
    {
      if datum.name == "" { return false; }
      if |metricValues| >= MAX_METRICS { return false; }
      if datum.name in reservedRoot { return false; }
      if datum.name in dimensionValues { return false; }
      if datum.name in metricValues {
        var existing := metricValues[datum.name];
        if existing.value != datum.value || existing.unit != datum.unit { return false; }
      }
      if |datum.dimensions| > MAX_DIMENSIONS { return false; }
      ok := KeysFit(datum.dimensions);
    }

    /** The loop at the end of `canAdd`. */
    method KeysFit(dimensions: map<string, string>) returns (ok: bool)
      ensures ok <==> forall k | k in dimensions ::
                KeyFits(reservedRoot, Fixed(dimensionValues, metricValues), k, dimensions[k])
    {
      ghost var a := Fixed(dimensionValues, metricValues);
      var left := dimensions.Keys;
      while left != {}
        invariant left <= dimensions.Keys
        invariant forall k | k in dimensions.Keys - left :: KeyFits(reservedRoot, a, k, dimensions[k])
        decreases left
      {
        var key :| key in left;
        var value := dimensions[key];
        if key == "" { return false; }
        if key in reservedRoot { return false; }
        if key in metricValues { return false; }
        if key in dimensionValues && dimensionValues[key] != value { return false; }
        left := left - {key};
      }
      return true;
    }

    method Add(datum: Datum)
      requires Valid()
      modifies this
      ensures Valid() && datums == old(datums) + [datum]
    {
      datums := datums + [datum];
      metricValues := metricValues[datum.name := MetricValue(datum.value, datum.unit)];
      dimensionValues := PutAll(dimensionValues, datum.dimensions);
      FixedBySnoc(old(datums), datum);
    }
  }

  lemma FirstDatum(reserved: set<string>, d: Datum)
    ensures Greedy(Admits(reserved), [d]) == [[d]]
    ensures Admissible(reserved, [d]) <==> Encodable(reserved, d)
    ensures Accepts(reserved, FixedBy([]), d) <==> Encodable(reserved, d)
  {
    SingleAdmissible(reserved, d);
    assert [d][..0] == [];
  }

  /** The closed batches and the open one are the greedy split of what has been read. */
  ghost predicate Progress(reserved: set<string>, done: seq<Datum>, batches: seq<seq<Datum>>, open: seq<Datum>) {
    && Admissible(reserved, open) && AllEncodable(reserved, done)
    && (done == [] <==> open == [])
    && (if done == [] then batches == [] else batches + [open] == Greedy(Admits(reserved), done))
  }

  lemma AllEncodableSnoc(reserved: set<string>, done: seq<Datum>, d: Datum)
    requires AllEncodable(reserved, done) && Encodable(reserved, d)
    ensures AllEncodable(reserved, done + [d])
  {
    assert (done + [d])[..|done|] == done;
  }

  lemma GreedyNext<T>(ok: seq<T> -> bool, done: seq<T>, batches: seq<seq<T>>, open: seq<T>, d: T)
    requires batches + [open] == Greedy(ok, done)
    ensures Greedy(ok, done + [d]) == if ok(open + [d]) then batches + [open + [d]] else batches + [open] + [[d]]
  {
    var parts := batches + [open];
    assert parts[..|parts| - 1] == batches && parts[|parts| - 1] == open;
    assert (done + [d])[..|done|] == done;
  }

  lemma Joins(reserved: set<string>, done: seq<Datum>, batches: seq<seq<Datum>>, open: seq<Datum>, d: Datum)
    requires Progress(reserved, done, batches, open)
    requires Accepts(reserved, FixedBy(open), d) && Encodable(reserved, d)
    ensures Progress(reserved, done + [d], batches, open + [d])
  {
    AllEncodableSnoc(reserved, done, d);
    AdmissibleSnoc(reserved, open, d);
    if done == [] {
      FirstDatum(reserved, d);
      assert open + [d] == [d] && done + [d] == [d] && batches + [[d]] == [[d]];
    } else {
      GreedyNext(Admits(reserved), done, batches, open, d);
    }
  }

  lemma Opens(reserved: set<string>, done: seq<Datum>, batches: seq<seq<Datum>>, open: seq<Datum>, d: Datum)
    requires Progress(reserved, done, batches, open) && open != []
    requires !Accepts(reserved, FixedBy(open), d) && Encodable(reserved, d)
    ensures Progress(reserved, done + [d], batches + [open], [d])
  {
    AllEncodableSnoc(reserved, done, d);
    AdmissibleSnoc(reserved, open, d);
    FirstDatum(reserved, d);
    GreedyNext(Admits(reserved), done, batches, open, d);
  }

  lemma AcceptedIsEncodable(reserved: set<string>, a: Fixed, d: Datum)
    requires Accepts(reserved, a, d)
    ensures Encodable(reserved, d)
  {
    forall k | k in d.dimensions ensures k != "" && k !in reserved {
      assert KeyFits(reserved, a, k, d.dimensions[k]);
    }
  }

  ghost predicate FirstUnencodable(reserved: set<string>, data: seq<Datum>, i: int) {
    0 <= i < |data| && !Encodable(reserved, data[i]) && AllEncodable(reserved, data[..i])
  }

  lemma NotAllEncodable(reserved: set<string>, data: seq<Datum>, i: nat)
    requires FirstUnencodable(reserved, data, i)
    ensures !AllEncodable(reserved, data)
  {
    EachEncodable(reserved, data);
  }

  /** `partitionDatums`: the greedy split, or the first datum that no batch can carry. */
  method PartitionDatums(data: seq<Datum>, reserved: set<string>) returns (r: Result<seq<seq<Datum>>>)
    ensures r.Ok? <==> AllEncodable(reserved, data)
    ensures r.Ok? ==> r.value == Greedy(Admits(reserved), data)
    ensures r.Err? ==> exists i :: FirstUnencodable(reserved, data, i) && r.error == Unencodable(data[i].name)
  {
    if |data| == 0 { return Ok([]); }
    var state := new BatchState(reserved);
    var batches: seq<seq<Datum>> := [];
    for i := 0 to |data|
      invariant state.Valid() && state.reservedRoot == reserved && fresh(state)
      invariant Progress(reserved, data[..i], batches, state.datums)
    {
      var datum := data[i];
      assert data[..i + 1] == data[..i] + [datum];
      FirstDatum(reserved, datum);
      var ok := state.CanAdd(datum);
      if ok {
        AcceptedIsEncodable(reserved, FixedBy(state.datums), datum);
        Joins(reserved, data[..i], batches, state.datums, datum);
      } else {
        if |state.datums| == 0 {
          NotAllEncodable(reserved, data, i);
          return Err(Unencodable(datum.name));
        }
        ghost var open, closed := state.datums, batches;
        batches := batches + [state.datums];
        state := new BatchState(reserved);
        ok := state.CanAdd(datum);
        if !ok {
          NotAllEncodable(reserved, data, i);
          return Err(Unencodable(datum.name));
        }
        Opens(reserved, data[..i], closed, open, datum);
        assert [] + [datum] == [datum];
      }
      state.Add(datum);
    }
    assert data[..|data|] == data;
    if |state.datums| > 0 { batches := batches + [state.datums]; }
    return Ok(batches);
  }
}
