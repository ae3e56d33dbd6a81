/** emf.go: what a batch may hold, said of its datums alone, and which root names a metric can take. */
module EmfRules {
  import opened Sorting
  import opened EmfBatch
  import opened EmfParts
  import Strings = Text

  function Names(batch: seq<Datum>): set<string> {
    set d | d in batch :: d.name
  }

  /** A datum that some event can carry: a usable name, and at most 30 usable dimension keys. */
  ghost predicate Usable(reserved: set<string>, d: Datum) {
    && d.name != "" && d.name !in reserved && |d.dimensions| <= 30
    && forall k | k in d.dimensions :: k != "" && k !in reserved
  }

  /** `e` may follow `d`: they agree where they share a name or a key, and neither name is a key of the other. */
  ghost predicate Follows(d: Datum, e: Datum) {
    && (d.name == e.name ==> d.value == e.value && d.unit == e.unit)
    && (forall k | k in d.dimensions && k in e.dimensions :: d.dimensions[k] == e.dimensions[k])
    && e.name !in d.dimensions && d.name !in e.dimensions
  }

  /** What an event may carry: a datum joins only while there are fewer than 100 metric names. */
  ghost predicate Legal(reserved: set<string>, batch: seq<Datum>) {
    && (forall i | 0 <= i < |batch| :: |Names(batch[..i])| < 100)
    && (forall i | 0 <= i < |batch| :: Usable(reserved, batch[i]))
    && (forall i, j | 0 <= i < j < |batch| :: Follows(batch[i], batch[j]))
  }

  ghost predicate MayJoin(reserved: set<string>, batch: seq<Datum>, d: Datum) {
    && |Names(batch)| < 100 && Usable(reserved, d) && forall e | e in batch :: Follows(e, d)
  }

  lemma LegalSnoc(reserved: set<string>, batch: seq<Datum>)
    requires batch != []
    ensures Legal(reserved, batch) <==>
            Legal(reserved, batch[..|batch| - 1]) && MayJoin(reserved, batch[..|batch| - 1], batch[|batch| - 1])
  {
    var n := |batch| - 1;
    var init, last := batch[..n], batch[n];
    assert forall i | 0 <= i <= n :: init[..i] == batch[..i];
    if Legal(reserved, batch) {
      forall e | e in init ensures Follows(e, last) {
        var i :| 0 <= i < n && init[i] == e;
        assert batch[i] == e;
      }
    }
    if Legal(reserved, init) && MayJoin(reserved, init, last) {
      forall i, j | 0 <= i < j < |batch| ensures Follows(batch[i], batch[j]) {
        if j == n { assert batch[i] == init[i] && init[i] in init; } else { assert Follows(init[i], init[j]); }
      }
      forall i | 0 <= i < |batch| ensures Usable(reserved, batch[i]) { if i < n { assert batch[i] == init[i]; } }
    }
  }

  lemma NamesFixed(batch: seq<Datum>)
    ensures FixedBy(batch).metrics.Keys == Names(batch) && |FixedBy(batch).metrics| == |Names(batch)|
  {
    FixedNames(batch);
    assert forall n :: n in FixedBy(batch).metrics.Keys <==> n in Names(batch);
    assert |FixedBy(batch).metrics| == |FixedBy(batch).metrics.Keys|;
  }

  lemma AcceptedMayJoin(reserved: set<string>, batch: seq<Datum>, d: Datum)
    requires Admissible(reserved, batch) && Accepts(reserved, FixedBy(batch), d)
    ensures MayJoin(reserved, batch, d)
  {
    var a := FixedBy(batch);
    NamesFixed(batch);
    FixedNames(batch);
    forall k | k in d.dimensions ensures k != "" && k !in reserved { assert KeyFits(reserved, a, k, d.dimensions[k]); }
    forall e | e in batch ensures Follows(e, d) {
      AdmissibleRecorded(reserved, batch, e);
      forall k | k in d.dimensions ensures KeyFits(reserved, a, k, d.dimensions[k]) {}
    }
  }

  lemma JoiningIsAccepted(reserved: set<string>, batch: seq<Datum>, d: Datum)
    requires Admissible(reserved, batch) && MayJoin(reserved, batch, d)
    ensures Accepts(reserved, FixedBy(batch), d)
  {
    var a := FixedBy(batch);
    NamesFixed(batch);
    FixedNames(batch);
    if d.name in a.metrics {
      var e :| e in batch && e.name == d.name;
      AdmissibleRecorded(reserved, batch, e);
      assert Follows(e, d);
    }
    forall k | k in d.dimensions ensures KeyFits(reserved, a, k, d.dimensions[k]) {
      if k in a.dimensions {
        var e :| e in batch && k in e.dimensions;
        AdmissibleRecorded(reserved, batch, e);
        assert Follows(e, d);
      }
    }
  }

  /** Passing the admission test datum by datum is exactly being legal. */
  lemma {:induction false} AdmissibleIff(reserved: set<string>, batch: seq<Datum>)
    ensures Admissible(reserved, batch) <==> Legal(reserved, batch)
  {
    if batch != [] {
      var n := |batch| - 1;
      AdmissibleIff(reserved, batch[..n]);
      LegalSnoc(reserved, batch);
      if Admissible(reserved, batch[..n]) {
        if Accepts(reserved, FixedBy(batch[..n]), batch[n]) { AcceptedMayJoin(reserved, batch[..n], batch[n]); }
        if MayJoin(reserved, batch[..n], batch[n]) { JoiningIsAccepted(reserved, batch[..n], batch[n]); }
      }
    }
  }

  predicate Uses(d: Datum, name: string) {
    d.name == name || name in d.dimensions
  }

  /** The root names of a log entry, of which `global_hash` is not reserved. */
  predicate EntryName(name: string) {
    name in {"_q", "_t", "app_name", "aws_meta", "global_hash", "delay", "request", "response", "_aws"}
  }

  /** A metric field repeats a root name of its log entry exactly if that name is `global_hash` and some datum uses it. */
  lemma OnlyGlobalHashRepeats(namespace: string, batch: seq<Datum>, name: string)
    requires Admissible(LOG_ROOT_KEYS, batch) && EntryName(name)
    ensures (exists f :: f in PartsFor(namespace, batch).fields && f.name == name) <==>
            name == "global_hash" && exists d :: d in batch && Uses(d, name)
  {
    NameListed(FixedBy(batch), name);
    FixedNames(batch);
    AdmissibleIff(LOG_ROOT_KEYS, batch);
    forall d | d in batch && Uses(d, name) ensures name == "global_hash" {
      assert Usable(LOG_ROOT_KEYS, d);
    }
    if d :| d in batch && d.name == name { assert Uses(d, name); }
    if d :| d in batch && name in d.dimensions { assert Uses(d, name); }
  }

  lemma NameListed(a: Fixed, name: string)
    ensures (exists f :: f in FieldsFor(a) && f.name == name) <==> name in a.metrics || name in a.dimensions
  {
    if name in a.metrics { FieldListed(a, name, Number(a.metrics[name].value)); }
    if name in a.dimensions { FieldListed(a, name, FieldValue.Text(a.dimensions[name])); }
    if f :| f in FieldsFor(a) && f.name == name { FieldListed(a, name, f.value); }
  }

  /** There is such a datum. */
  lemma GlobalHashIsAdmitted(value: real, unit: string)
    ensures Admissible(LOG_ROOT_KEYS, [Datum("global_hash", value, unit, map[])])
  {
    SingleAdmissible(LOG_ROOT_KEYS, Datum("global_hash", value, unit, map[]));
  }

  /** Any name but the empty one and the reserved ones can be used; in events without a log entry fewer are reserved. */
  lemma UsableNames(name: string, value: real, unit: string)
    ensures var d := Datum(name, value, unit, map[]);
            && (Admissible(LOG_ROOT_KEYS, [d]) <==>
                name !in {"", "_aws", "_q", "_t", "app_name", "aws_meta", "delay", "request", "response"})
            && (Admissible(METRIC_ROOT_KEYS, [d]) <==> name !in {"", "_aws", "_q", "_t", "app_name", "aws_meta"})
  {
    SingleAdmissible(LOG_ROOT_KEYS, Datum(name, value, unit, map[]));
    SingleAdmissible(METRIC_ROOT_KEYS, Datum(name, value, unit, map[]));
  }

  // ---------------------------------------------------------------- the order of what is written

  function SpecNames(ms: seq<MetricSpec>): seq<string> {
    seq(|ms|, i requires 0 <= i < |ms| => ms[i].name)
  }

  /** Texts in key order, then numbers in name order. */
  ghost predicate FieldsInOrder(fields: seq<Field>) {
    forall i, j | 0 <= i < j < |fields| ::
      if fields[i].value.Text? == fields[j].value.Text? then Less(fields[i].name, fields[j].name)
      else fields[i].value.Text?
  }

  ghost predicate DirectivesInOrder(directives: seq<Directive>) {
    && (forall x | x in directives :: |x.dimensions| == 1 && Ascending(x.dimensions[0]) && Ascending(SpecNames(x.metrics)))
    && (forall i, j | 0 <= i < j < |directives| && |directives[i].dimensions| == |directives[j].dimensions| == 1 ::
          Less(Strings.Join(directives[i].dimensions[0], "\0"), Strings.Join(directives[j].dimensions[0], "\0")))
  }

  /** Every list in an event is sorted, so an event does not depend on the order in which maps yield their keys. */
  lemma PartsAreSorted(namespace: string, data: seq<Datum>)
    ensures FieldsInOrder(PartsFor(namespace, data).fields)
    ensures DirectivesInOrder(PartsFor(namespace, data).directives)
  {
    FieldsSorted(FixedBy(data));
    DirectivesSorted(namespace, data, Sorted(Groups(data)));
  }

  lemma FieldsSorted(a: Fixed)
    ensures FieldsInOrder(FieldsFor(a))
  {
    var ks, ns, fields := Sorted(a.dimensions.Keys), Sorted(a.metrics.Keys), FieldsFor(a);
    forall i, j | 0 <= i < j < |fields|
      ensures if fields[i].value.Text? == fields[j].value.Text? then Less(fields[i].name, fields[j].name)
              else fields[i].value.Text?
    {
      FieldNames(a, i);
      FieldNames(a, j);
      assert fields[i].value.Text? <==> i < |ks|;
      assert fields[j].value.Text? <==> j < |ks|;
    }
  }

  lemma {:induction false} DirectiveAt(namespace: string, data: seq<Datum>, groups: seq<string>, i: nat)
    requires i < |groups| && forall g | g in groups :: g in Groups(data)
    ensures |DirectivesFor(namespace, data, groups)| == |groups|
    ensures DirectivesFor(namespace, data, groups)[i] == DirectiveFor(namespace, data, groups[i])
  {
    if i > 0 {
      DirectiveAt(namespace, data, groups[1..], i - 1);
    } else if |groups| > 1 {
      DirectiveAt(namespace, data, groups[1..], 0);
    }
  }

  lemma DirectiveSorted(namespace: string, data: seq<Datum>, g: string)
    requires g in Groups(data)
    ensures var x := DirectiveFor(namespace, data, g);
            && |x.dimensions| == 1 && Ascending(x.dimensions[0]) && Strings.Join(x.dimensions[0], "\0") == g
            && Ascending(SpecNames(x.metrics))
  {
    var names := Sorted(NamesIn(data, g));
    assert SpecNames(SpecsFor(names, FixedBy(data).metrics)) == names;
    assert GroupKey(FirstOf(data, g)) == g;
  }

  lemma DirectivesSorted(namespace: string, data: seq<Datum>, groups: seq<string>)
    requires Ascending(groups) && forall g | g in groups :: g in Groups(data)
    ensures DirectivesInOrder(DirectivesFor(namespace, data, groups))
  {
    var directives := DirectivesFor(namespace, data, groups);
    if groups != [] { DirectiveAt(namespace, data, groups, 0); }
    forall i | 0 <= i < |groups| ensures |directives| == |groups| && directives[i] == DirectiveFor(namespace, data, groups[i]) {
      DirectiveAt(namespace, data, groups, i);
    }
    forall x | x in directives ensures |x.dimensions| == 1 && Ascending(x.dimensions[0]) && Ascending(SpecNames(x.metrics)) {
      var i :| 0 <= i < |directives| && directives[i] == x;
      assert groups[i] in groups;
      DirectiveSorted(namespace, data, groups[i]);
    }
    forall i, j | 0 <= i < j < |directives|
      ensures |directives[i].dimensions| == |directives[j].dimensions| == 1 ==>
              Less(Strings.Join(directives[i].dimensions[0], "\0"), Strings.Join(directives[j].dimensions[0], "\0"))
    {
      assert groups[i] in groups && groups[j] in groups;
      DirectiveSorted(namespace, data, groups[i]);
      DirectiveSorted(namespace, data, groups[j]);
    }
  }
}
