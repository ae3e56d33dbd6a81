/** emf.go: the loops that compile a batch, and what a whole metric list becomes. */
module EmfBuild {
  import opened Sorting
  import opened EmfBatch
  import opened EmfParts

  // ---------------------------------------------------------------- sorting metric specs by name

  function NamesOf(ms: seq<MetricSpec>): seq<string> {
    seq(|ms|, i requires 0 <= i < |ms| => ms[i].name)
  }

  predicate SpecLess(a: MetricSpec, b: MetricSpec) {
    Less(a.name, b.name)
  }

  /** Go's `sort.Slice` by name; the names in one directive are distinct. */
  function SortSpecs(ms: seq<MetricSpec>): seq<MetricSpec> {
    SortBy(SpecLess, ms)
  }

  lemma {:induction false} InsertSpecNames(ms: seq<MetricSpec>, x: MetricSpec)
    ensures NamesOf(Insert(SpecLess, ms, x)) == Insert(Less, NamesOf(ms), x.name)
    ensures forall m :: m in Insert(SpecLess, ms, x) <==> m == x || m in ms
  {
    if ms != [] {
      assert ms == [ms[0]] + ms[1..];
      assert NamesOf(ms)[1..] == NamesOf(ms[1..]);
      InsertSpecNames(ms[1..], x);
      assert NamesOf([ms[0]] + Insert(SpecLess, ms[1..], x)) == [ms[0].name] + NamesOf(Insert(SpecLess, ms[1..], x));
      assert NamesOf([x] + ms) == [x.name] + NamesOf(ms);
    } else {
      assert NamesOf([x]) == [x.name];
    }
  }

  lemma {:induction false} SortSpecsNames(ms: seq<MetricSpec>)
    ensures NamesOf(SortSpecs(ms)) == SortStrings(NamesOf(ms))
    ensures forall m :: m in SortSpecs(ms) <==> m in ms
  {
    if ms != [] {
      assert ms == [ms[0]] + ms[1..];
      assert NamesOf(ms)[1..] == NamesOf(ms[1..]);
      SortSpecsNames(ms[1..]);
      InsertSpecNames(SortSpecs(ms[1..]), ms[0]);
    }
  }

  /** The specs collected for a group: one for each of its names, with the unit the metric has in the batch. */
  ghost predicate Collected(ms: seq<MetricSpec>, names: set<string>, metrics: map<string, MetricValue>) {
    && Distinct(NamesOf(ms))
    && (forall n :: n in NamesOf(ms) <==> n in names)
    && (forall m | m in ms :: m.unit == UnitOf(metrics, m.name))
  }

  lemma SortedSpecs(ms: seq<MetricSpec>, names: set<string>, metrics: map<string, MetricValue>)
    requires Collected(ms, names, metrics)
    ensures SortSpecs(ms) == SpecsFor(Sorted(names), metrics)
  {
    SortSpecsNames(ms);
    SortStringsIsSorted(NamesOf(ms), names);
    var out, keys := SortSpecs(ms), Sorted(names);
    assert NamesOf(out) == keys;
    forall i | 0 <= i < |out| ensures out[i] == SpecsFor(keys, metrics)[i] {
      assert out[i] in out;
      assert NamesOf(out)[i] == out[i].name;
    }
  }

  // ---------------------------------------------------------------- one datum more

  lemma GroupsSnoc(done: seq<Datum>, d: Datum, g: string)
    ensures Groups(done + [d]) == Groups(done) + {GroupKey(d)}
    ensures NamesIn(done + [d], g) == NamesIn(done, g) + (if GroupKey(d) == g then {d.name} else {})
    ensures g in Groups(done) ==> FirstOf(done + [d], g) == FirstOf(done, g)
    ensures g !in Groups(done) && g == GroupKey(d) ==> FirstOf(done + [d], g) == d && NamesIn(done, g) == {}
  {
    assert (done + [d])[..|done|] == done;
    assert forall x :: x in done + [d] <==> x in done || x == d;
  }

  /** What the loop knows about group `g`. */
  ghost predicate Built(namespace: string, done: seq<Datum>, metrics: map<string, MetricValue>, g: string,
                        directive: Directive, names: set<string>)
  {
    && g in Groups(done)
    && directive.namespace == namespace && directive.dimensions == [KeysOf(FirstOf(done, g))]
    && names == NamesIn(done, g) && Collected(directive.metrics, names, metrics)
  }

  lemma StillBuilt(namespace: string, done: seq<Datum>, metrics: map<string, MetricValue>, g: string,
                   directive: Directive, names: set<string>, d: Datum)
    requires Built(namespace, done, metrics, g, directive, names) && g != GroupKey(d)
    requires forall e | e in done :: e.name in metrics
    requires d.name in metrics ==> metrics[d.name] == MetricValue(d.value, d.unit)
    ensures Built(namespace, done + [d], metrics[d.name := MetricValue(d.value, d.unit)], g, directive, names)
  {
    GroupsSnoc(done, d, g);
    SpecsKeepUnits(directive.metrics, names, metrics, d);
  }

  lemma SpecsKeepUnits(ms: seq<MetricSpec>, names: set<string>, metrics: map<string, MetricValue>, d: Datum)
    requires Collected(ms, names, metrics) && forall n | n in names :: n in metrics
    requires d.name in metrics ==> metrics[d.name] == MetricValue(d.value, d.unit)
    ensures Collected(ms, names, metrics[d.name := MetricValue(d.value, d.unit)])
  {
    forall m | m in ms ensures m.name in names {
      var i :| 0 <= i < |ms| && ms[i] == m;
      assert NamesOf(ms)[i] == m.name;
    }
  }

  lemma CollectedSnoc(ms: seq<MetricSpec>, names: set<string>, metrics: map<string, MetricValue>, x: MetricSpec)
    requires Collected(ms, names, metrics) && x.name !in names && x.unit == UnitOf(metrics, x.name)
    ensures Collected(ms + [x], names + {x.name}, metrics)
  {
    assert NamesOf(ms + [x]) == NamesOf(ms) + [x.name];
  }

  ghost predicate AllBuilt(namespace: string, done: seq<Datum>, metrics: map<string, MetricValue>,
                           grouped: map<string, Directive>, names: map<string, set<string>>)
  {
    && grouped.Keys == Groups(done) && names.Keys == Groups(done)
    && forall g | g in grouped :: Built(namespace, done, metrics, g, grouped[g], names[g])
  }

  // ---------------------------------------------------------------- the loops of buildEMFParts

  /** A group of `done`, or an empty one about to be opened for `d`. */
  ghost predicate Opened(namespace: string, done: seq<Datum>, metrics: map<string, MetricValue>, d: Datum,
                         directive: Directive, names: set<string>)
  {
    if GroupKey(d) in Groups(done) then Built(namespace, done, metrics, GroupKey(d), directive, names)
    else directive == Directive(namespace, [KeysOf(d)], []) && names == {}
  }

  lemma BuiltWithNext(namespace: string, done: seq<Datum>, metrics: map<string, MetricValue>, d: Datum,
                      directive: Directive, names: set<string>)
    requires Opened(namespace, done, metrics, d, directive, names)
    requires forall e | e in done :: e.name in metrics
    requires d.name in metrics ==> metrics[d.name] == MetricValue(d.value, d.unit)
    ensures Built(namespace, done + [d], metrics[d.name := MetricValue(d.value, d.unit)], GroupKey(d),
                  if d.name in names then directive
                  else directive.(metrics := directive.metrics + [MetricSpec(d.name, d.unit)]),
                  names + {d.name})
  {
    GroupsSnoc(done, d, GroupKey(d));
    var metrics' := metrics[d.name := MetricValue(d.value, d.unit)];
    if GroupKey(d) in Groups(done) {
      SpecsKeepUnits(directive.metrics, names, metrics, d);
    } else {
      assert NamesOf([]) == [];
    }
    assert Collected(directive.metrics, names, metrics');
    if d.name in names {
      assert names + {d.name} == names;
    } else {
      CollectedSnoc(directive.metrics, names, metrics', MetricSpec(d.name, d.unit));
    }
  }

  lemma AllBuiltWithNext(namespace: string, done: seq<Datum>, metrics: map<string, MetricValue>,
                         grouped: map<string, Directive>, names: map<string, set<string>>, d: Datum,
                         directive: Directive, groupNames: set<string>)
    requires AllBuilt(namespace, done, metrics, grouped, names)
    requires forall e | e in done :: e.name in metrics
    requires d.name in metrics ==> metrics[d.name] == MetricValue(d.value, d.unit)
    requires Built(namespace, done + [d], metrics[d.name := MetricValue(d.value, d.unit)], GroupKey(d),
                   directive, groupNames)
    ensures AllBuilt(namespace, done + [d], metrics[d.name := MetricValue(d.value, d.unit)],
                     grouped[GroupKey(d) := directive], names[GroupKey(d) := groupNames])
  {
    GroupsSnoc(done, d, GroupKey(d));
    var metrics' := metrics[d.name := MetricValue(d.value, d.unit)];
    forall g | g in grouped && g != GroupKey(d)
      ensures Built(namespace, done + [d], metrics', g, grouped[g], names[g])
    {
      OtherStillBuilt(namespace, done, metrics, grouped, names, d, g);
    }
    OneGroupReplaced(namespace, done + [d], metrics', grouped, names, GroupKey(d), directive, groupNames);
  }

  lemma OneGroupReplaced(namespace: string, done: seq<Datum>, metrics: map<string, MetricValue>,
                         grouped: map<string, Directive>, names: map<string, set<string>>, key: string,
                         directive: Directive, groupNames: set<string>)
    requires grouped.Keys == names.Keys && grouped.Keys + {key} == Groups(done)
    requires forall g | g in grouped && g != key :: Built(namespace, done, metrics, g, grouped[g], names[g])
    requires Built(namespace, done, metrics, key, directive, groupNames)
    ensures AllBuilt(namespace, done, metrics, grouped[key := directive], names[key := groupNames])
  {
    var grouped', names' := grouped[key := directive], names[key := groupNames];
    forall g | g in grouped' ensures Built(namespace, done, metrics, g, grouped'[g], names'[g]) {
      if g != key { assert g in grouped; }
    }
  }

  lemma OtherStillBuilt(namespace: string, done: seq<Datum>, metrics: map<string, MetricValue>,
                        grouped: map<string, Directive>, names: map<string, set<string>>, d: Datum, g: string)
    requires AllBuilt(namespace, done, metrics, grouped, names) && g in grouped && g != GroupKey(d)
    requires forall e | e in done :: e.name in metrics
    requires d.name in metrics ==> metrics[d.name] == MetricValue(d.value, d.unit)
    ensures Built(namespace, done + [d], metrics[d.name := MetricValue(d.value, d.unit)], g, grouped[g], names[g])
  {
    StillBuilt(namespace, done, metrics, g, grouped[g], names[g], d);
  }

  /** The directive of the datum's group, created on first use, lists the datum's name once. */
  method AddToGroup(namespace: string, grouped: map<string, Directive>, names: map<string, set<string>>, datum: Datum,
                    ghost done: seq<Datum>, ghost metrics: map<string, MetricValue>)
    returns (grouped': map<string, Directive>, names': map<string, set<string>>)
    requires AllBuilt(namespace, done, metrics, grouped, names)
    requires forall e | e in done :: e.name in metrics
    requires datum.name in metrics ==> metrics[datum.name] == MetricValue(datum.value, datum.unit)
    ensures AllBuilt(namespace, done + [datum], metrics[datum.name := MetricValue(datum.value, datum.unit)],
                     grouped', names')
  {
    var keys := SortedKeys(datum.dimensions);
    var groupKey := Strings.Join(keys, "\0");
    var directive, groupNames := Directive(namespace, [keys], []), {};
    if groupKey in grouped {
      directive, groupNames := grouped[groupKey], names[groupKey];
    }
    BuiltWithNext(namespace, done, metrics, datum, directive, groupNames);
    if datum.name !in groupNames {
      directive := directive.(metrics := directive.metrics + [MetricSpec(datum.name, datum.unit)]);
    }
    groupNames := groupNames + {datum.name};
    AllBuiltWithNext(namespace, done, metrics, grouped, names, datum, directive, groupNames);
    grouped', names' := grouped[groupKey := directive], names[groupKey := groupNames];
  }

  method RootFields(dimensions: map<string, string>, metrics: map<string, MetricValue>) returns (fields: seq<Field>)
    ensures fields == FieldsFor(Fixed(dimensions, metrics))
  {
    var keys := SortedKeys(dimensions);
    fields := [];
    for i := 0 to |keys|
      invariant |fields| == i && forall j | 0 <= j < i :: fields[j] == Field(keys[j], Text(dimensions[keys[j]]))
    {
      assert keys[i] in keys;
      fields := fields + [Field(keys[i], Text(dimensions[keys[i]]))];
    }
    assert fields == DimensionFields(keys, dimensions);
    fields := AppendMetricFields(fields, metrics);
  }

  method AppendMetricFields(front: seq<Field>, metrics: map<string, MetricValue>) returns (fields: seq<Field>)
    ensures fields == front + MetricFields(Sorted(metrics.Keys), metrics)
  {
    var names := SortedKeys(metrics);
    fields := front;
    for i := 0 to |names|
      invariant |fields| == |front| + i && fields[..|front|] == front
      invariant forall j | 0 <= j < i :: fields[|front| + j] == Field(names[j], Number(metrics[names[j]].value))
    {
      assert names[i] in names;
      fields := fields + [Field(names[i], Number(metrics[names[i]].value))];
    }
    assert fields[|front|..] == MetricFields(names, metrics);
    assert fields == fields[..|front|] + fields[|front|..];
  }

  lemma BuiltIsFinal(namespace: string, data: seq<Datum>, g: string, directive: Directive, names: set<string>)
    requires Built(namespace, data, FixedBy(data).metrics, g, directive, names)
    ensures directive.(metrics := SortSpecs(directive.metrics)) == DirectiveFor(namespace, data, g)
  {
    SortedSpecs(directive.metrics, names, FixedBy(data).metrics);
  }

  lemma DirectivesSnoc(namespace: string, data: seq<Datum>, groups: seq<string>, g: string)
    requires forall x | x in groups + [g] :: x in Groups(data)
    ensures g in Groups(data) && forall x | x in groups :: x in Groups(data)
    ensures DirectivesFor(namespace, data, groups + [g]) ==
            DirectivesFor(namespace, data, groups) + [DirectiveFor(namespace, data, g)]
  {
    assert g in groups + [g];
    if groups == [] {
      assert [] + [g] == [g];
    } else {
      assert (groups + [g])[1..] == groups[1..] + [g];
      DirectivesSnoc(namespace, data, groups[1..], g);
      assert groups[0] in groups + [g];
    }
  }

  method SortedDirectives(namespace: string, grouped: map<string, Directive>, ghost names: map<string, set<string>>,
                          ghost data: seq<Datum>) returns (directives: seq<Directive>)
    requires AllBuilt(namespace, data, FixedBy(data).metrics, grouped, names)
    ensures directives == DirectivesFor(namespace, data, Sorted(Groups(data)))
  {
    var groupKeys := SortedKeys(grouped);
    directives := [];
    for i := 0 to |groupKeys|
      invariant directives == DirectivesFor(namespace, data, groupKeys[..i])
    {
      var g := groupKeys[i];
      assert g in groupKeys;
      BuiltIsFinal(namespace, data, g, grouped[g], names[g]);
      TakeNext(groupKeys, i);
      DirectivesSnoc(namespace, data, groupKeys[..i], g);
      var directive := grouped[g];
      directives := directives + [directive.(metrics := SortSpecs(directive.metrics))];
    }
    assert groupKeys[..|groupKeys|] == groupKeys;
  }

  ghost predicate Agrees(data: seq<Datum>, metrics: map<string, MetricValue>) {
    forall d | d in data :: d.name in metrics && metrics[d.name] == MetricValue(d.value, d.unit)
  }

  /** No two datums have the same name and different values or units. */
  ghost predicate Consistent(data: seq<Datum>) {
    forall d, e | d in data && e in data && d.name == e.name :: d.value == e.value && d.unit == e.unit
  }

  lemma Conflicting(data: seq<Datum>, i: nat, metrics: map<string, MetricValue>)
    requires i < |data| && Agrees(data[..i], metrics) && metrics == FixedBy(data[..i]).metrics
    requires data[i].name in metrics && metrics[data[i].name] != MetricValue(data[i].value, data[i].unit)
    ensures !Consistent(data)
  {
    FixedNames(data[..i]);
    var d :| d in data[..i] && d.name == data[i].name;
    assert d in data && data[i] in data;
  }

  /** `buildEMFParts` fails exactly on conflicting values, and otherwise builds the parts described above. */
  method BuildEMFParts(namespace: string, data: seq<Datum>) returns (r: Result<Parts>)
    ensures r.Ok? <==> Consistent(data)
    ensures r.Ok? ==> r.value == PartsFor(namespace, data)
    ensures r.Err? ==> r.error.ConflictingValues?
  {
    var dimensionFields: map<string, string>, metricFields: map<string, MetricValue> := map[], map[];
    var grouped: map<string, Directive>, names: map<string, set<string>> := map[], map[];
    for i := 0 to |data|
      invariant Agrees(data[..i], metricFields)
      invariant FixedBy(data[..i]) == Fixed(dimensionFields, metricFields)
      invariant AllBuilt(namespace, data[..i], metricFields, grouped, names)
    {
      var datum := data[i];
      assert data[..i + 1] == data[..i] + [datum];
      FixedBySnoc(data[..i], datum);
      if datum.name in metricFields {
        var existing := metricFields[datum.name];
        if existing.value != datum.value || existing.unit != datum.unit {
          Conflicting(data, i, metricFields);
          return Err(ConflictingValues(datum.name));
        }
      }
      grouped, names := AddToGroup(namespace, grouped, names, datum, data[..i], metricFields);
      metricFields := metricFields[datum.name := MetricValue(datum.value, datum.unit)];
      dimensionFields := PutAll(dimensionFields, datum.dimensions);
    }
    assert data[..|data|] == data;
    var fields := RootFields(dimensionFields, metricFields);
    var directives := SortedDirectives(namespace, grouped, names, data);
    return Ok(Parts(fields, directives));
  }
}
