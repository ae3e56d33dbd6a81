/** emf.go: compiling one batch into shared root fields and grouped directives, and reading it back. */
module EmfParts {
  import opened Sorting
  import opened EmfBatch
  import Strings = Text

  datatype FieldValue = Text(text: string) | Number(number: real)

  datatype Field = Field(name: string, value: FieldValue)

  datatype MetricSpec = MetricSpec(name: string, unit: string)

  datatype Directive = Directive(namespace: string, dimensions: seq<seq<string>>, metrics: seq<MetricSpec>)

  datatype Parts = Parts(fields: seq<Field>, directives: seq<Directive>)

  // ---------------------------------------------------------------- what is built, as functions

  ghost function KeysOf(d: Datum): seq<string> {
    Sorted(d.dimensions.Keys)
  }

  ghost function GroupKey(d: Datum): string {
    Strings.Join(KeysOf(d), "\0")
  }

  ghost function Groups(data: seq<Datum>): set<string> {
    set d | d in data :: GroupKey(d)
  }

  /** The names that metrics of group `g` have. */
  ghost function NamesIn(data: seq<Datum>, g: string): set<string> {
    set d | d in data && GroupKey(d) == g :: d.name
  }

  /** The datum whose keys the directive of group `g` carries: the first one of the group. */
  ghost function FirstOf(data: seq<Datum>, g: string): (d: Datum)
    requires g in Groups(data)
    ensures d in data && GroupKey(d) == g
  {
    var init := data[..|data| - 1];
    assert forall d | d in data :: d in init || d == data[|data| - 1];
    if g in Groups(init) then FirstOf(init, g) else data[|data| - 1]
  }

  function UnitOf(metrics: map<string, MetricValue>, name: string): string {
    if name in metrics then metrics[name].unit else ""
  }

  function SpecsFor(names: seq<string>, metrics: map<string, MetricValue>): seq<MetricSpec> {
    seq(|names|, i requires 0 <= i < |names| => MetricSpec(names[i], UnitOf(metrics, names[i])))
  }

  /** One directive per key-set text, with the metrics of that group in name order. */
  ghost function DirectiveFor(namespace: string, data: seq<Datum>, g: string): Directive
    requires g in Groups(data)
  {
    Directive(namespace, [KeysOf(FirstOf(data, g))], SpecsFor(Sorted(NamesIn(data, g)), FixedBy(data).metrics))
  }

  ghost function DirectivesFor(namespace: string, data: seq<Datum>, groups: seq<string>): seq<Directive>
    requires forall g | g in groups :: g in Groups(data)
  {
    if groups == [] then []
    else [DirectiveFor(namespace, data, groups[0])] + DirectivesFor(namespace, data, groups[1..])
  }

  function DimensionFields(keys: seq<string>, values: map<string, string>): seq<Field> {
    seq(|keys|, i requires 0 <= i < |keys| => Field(keys[i], Text(if keys[i] in values then values[keys[i]] else "")))
  }

  function MetricFields(keys: seq<string>, values: map<string, MetricValue>): seq<Field> {
    seq(|keys|, i requires 0 <= i < |keys| => Field(keys[i], Number(if keys[i] in values then values[keys[i]].value else 0.0)))
  }

  /** Root fields: dimensions in key order, then metrics in name order. */
  ghost function FieldsFor(a: Fixed): seq<Field> {
    DimensionFields(Sorted(a.dimensions.Keys), a.dimensions) + MetricFields(Sorted(a.metrics.Keys), a.metrics)
  }

  ghost function PartsFor(namespace: string, data: seq<Datum>): Parts {
    Parts(FieldsFor(FixedBy(data)), DirectivesFor(namespace, data, Sorted(Groups(data))))
  }

  // ---------------------------------------------------------------- reading an event back

  /** What a reader of the event finds under a namespace: a metric of some directive, with that directive's dimension
      keys, its value and the key values taken from the root fields. */
  ghost predicate Decodes(p: Parts, namespace: string, d: Datum) {
    exists directive, keys ::
      directive in p.directives && directive.namespace == namespace && keys in directive.dimensions
      && DecodesFrom(p.fields, directive.metrics, keys, d)
  }

  ghost predicate DecodesFrom(fields: seq<Field>, metrics: seq<MetricSpec>, keys: seq<string>, d: Datum) {
    && MetricSpec(d.name, d.unit) in metrics
    && Field(d.name, Number(d.value)) in fields
    && (forall k :: k in d.dimensions <==> k in keys)
    && (forall k | k in d.dimensions :: Field(k, Text(d.dimensions[k])) in fields)
  }

  ghost predicate DistinctNames(fields: seq<Field>) {
    forall i, j | 0 <= i < j < |fields| :: fields[i].name != fields[j].name
  }

  /** Every root name occurs once, and the metrics read back are exactly those of the batch, under its namespace. */
  ghost predicate Faithful(p: Parts, namespace: string, batch: seq<Datum>) {
    DistinctNames(p.fields) && forall m, d :: Decodes(p, m, d) <==> m == namespace && d in batch
  }

  // ---------------------------------------------------------------- facts about an admissible batch

  lemma {:induction false} FixedNames(data: seq<Datum>)
    ensures forall n :: n in FixedBy(data).metrics <==> exists d :: d in data && d.name == n
    ensures forall k :: k in FixedBy(data).dimensions <==> exists d :: d in data && k in d.dimensions
  {
    if data != [] {
      FixedNames(data[..|data| - 1]);
      assert data == data[..|data| - 1] + [data[|data| - 1]];
    }
  }

  /** `d` is recorded in `a` with its own value, unit and dimensions. */
  ghost predicate Recorded(a: Fixed, d: Datum) {
    && d.name in a.metrics && a.metrics[d.name] == MetricValue(d.value, d.unit)
    && (forall k | k in d.dimensions :: k in a.dimensions && a.dimensions[k] == d.dimensions[k])
  }

  lemma StillRecorded(reserved: set<string>, a: Fixed, d: Datum, next: Datum)
    requires Recorded(a, d) && Accepts(reserved, a, next)
    ensures Recorded(Add(a, next), d)
  {
    forall k | k in d.dimensions && k in next.dimensions ensures next.dimensions[k] == d.dimensions[k] {
      assert KeyFits(reserved, a, k, next.dimensions[k]);
    }
  }

  lemma {:induction false} AdmissibleRecorded(reserved: set<string>, batch: seq<Datum>, d: Datum)
    requires Admissible(reserved, batch) && d in batch
    ensures Recorded(FixedBy(batch), d)
  {
    var init, last := batch[..|batch| - 1], batch[|batch| - 1];
    if d in init {
      AdmissibleRecorded(reserved, init, d);
      StillRecorded(reserved, FixedBy(init), d, last);
    } else {
      assert d == last;
    }
  }

  /** A name that is both metric and dimension key comes from a datum that has its own name as a key. */
  lemma {:induction false} SharedNameIsOwn(reserved: set<string>, batch: seq<Datum>, n: string)
    requires Admissible(reserved, batch)
    requires n in FixedBy(batch).metrics && n in FixedBy(batch).dimensions
    ensures exists d :: d in batch && d.name == n && n in d.dimensions
  {
    var init, last := batch[..|batch| - 1], batch[|batch| - 1];
    var a := FixedBy(init);
    if n in a.metrics && n in a.dimensions {
      SharedNameIsOwn(reserved, init, n);
    } else if n in last.dimensions {
      assert KeyFits(reserved, a, n, last.dimensions[n]);
      assert last.name == n && last in batch;
    }
  }

  lemma OwnNameIsShared(batch: seq<Datum>, d: Datum)
    requires d in batch && d.name in d.dimensions
    ensures d.name in FixedBy(batch).metrics && d.name in FixedBy(batch).dimensions
  {
    FixedNames(batch);
  }

  // ---------------------------------------------------------------- what the parts list

  lemma FieldListed(a: Fixed, n: string, v: FieldValue)
    ensures Field(n, v) in FieldsFor(a) <==>
            match v
            case Text(t) => n in a.dimensions && a.dimensions[n] == t
            case Number(x) => n in a.metrics && a.metrics[n].value == x
  {
    var ks, ns := Sorted(a.dimensions.Keys), Sorted(a.metrics.Keys);
    var ds, ms := DimensionFields(ks, a.dimensions), MetricFields(ns, a.metrics);
    assert forall f :: f in FieldsFor(a) <==> f in ds || f in ms;
    match v
    case Text(t) =>
      if n in a.dimensions {
        assert n in ks;
        var i :| 0 <= i < |ks| && ks[i] == n;
        assert ds[i] == Field(n, Text(a.dimensions[n]));
      }
    case Number(x) =>
      if n in a.metrics {
        assert n in ns;
        var i :| 0 <= i < |ns| && ns[i] == n;
        assert ms[i] == Field(n, Number(a.metrics[n].value));
      }
  }

  lemma FieldNames(a: Fixed, i: nat)
    requires i < |FieldsFor(a)|
    ensures var ks, ns := Sorted(a.dimensions.Keys), Sorted(a.metrics.Keys);
            |FieldsFor(a)| == |ks| + |ns| && FieldsFor(a)[i].name == (if i < |ks| then ks[i] else ns[i - |ks|])
  {}

  lemma PlaceOf(keys: set<string>, n: string) returns (i: nat)
    requires n in keys
    ensures i < |Sorted(keys)| && Sorted(keys)[i] == n
  {
    assert n in Sorted(keys);
    i :| 0 <= i < |Sorted(keys)| && Sorted(keys)[i] == n;
  }

  lemma NameRepeats(fields: seq<Field>, i: nat, j: nat)
    requires i < j < |fields| && fields[i].name == fields[j].name
    ensures !DistinctNames(fields)
  {}

  lemma SharedNameRepeats(a: Fixed, n: string)
    requires n in a.dimensions && n in a.metrics
    ensures !DistinctNames(FieldsFor(a))
  {
    var i := PlaceOf(a.dimensions.Keys, n);
    var j := PlaceOf(a.metrics.Keys, n);
    var k := |Sorted(a.dimensions.Keys)| + j;
    assert |FieldsFor(a)| == |Sorted(a.dimensions.Keys)| + |Sorted(a.metrics.Keys)|;
    FieldNames(a, i);
    FieldNames(a, k);
    NameRepeats(FieldsFor(a), i, k);
  }

  lemma DisjointNamesDistinct(a: Fixed)
    requires a.dimensions.Keys !! a.metrics.Keys
    ensures DistinctNames(FieldsFor(a))
  {
    var ks, ns, fields := Sorted(a.dimensions.Keys), Sorted(a.metrics.Keys), FieldsFor(a);
    AscendingDistinct(ks);
    AscendingDistinct(ns);
    forall i, j | 0 <= i < j < |fields| ensures fields[i].name != fields[j].name {
      FieldNames(a, i);
      FieldNames(a, j);
      if i < |ks| <= j {
        assert ks[i] in ks && ns[j - |ks|] in ns;
      }
    }
  }

  lemma SpecListed(names: seq<string>, metrics: map<string, MetricValue>, n: string, unit: string)
    ensures MetricSpec(n, unit) in SpecsFor(names, metrics) <==> n in names && unit == UnitOf(metrics, n)
  {
    if n in names {
      var i :| 0 <= i < |names| && names[i] == n;
      assert SpecsFor(names, metrics)[i] == MetricSpec(n, UnitOf(metrics, n));
    }
  }

  lemma {:induction false} DirectiveListed(namespace: string, data: seq<Datum>, groups: seq<string>, x: Directive)
    requires forall g | g in groups :: g in Groups(data)
    ensures x in DirectivesFor(namespace, data, groups) <==>
            exists g :: g in groups && x == DirectiveFor(namespace, data, g)
  {
    if groups != [] {
      DirectiveListed(namespace, data, groups[1..], x);
      assert groups == [groups[0]] + groups[1..];
    }
  }

  /** The directive of group `g` and the root fields tell `d`. */
  ghost predicate Tells(data: seq<Datum>, g: string, d: Datum)
    requires g in Groups(data)
  {
    var a := FixedBy(data);
    && d.name in NamesIn(data, g)
    && d.name in a.metrics && a.metrics[d.name] == MetricValue(d.value, d.unit)
    && d.dimensions.Keys == FirstOf(data, g).dimensions.Keys
    && forall k | k in d.dimensions :: k in a.dimensions && a.dimensions[k] == d.dimensions[k]
  }

  lemma DecodesGroup(namespace: string, data: seq<Datum>, g: string, d: Datum)
    requires g in Groups(data)
    ensures var x := DirectiveFor(namespace, data, g);
            DecodesFrom(FieldsFor(FixedBy(data)), x.metrics, x.dimensions[0], d) <==> Tells(data, g, d)
  {
    var a := FixedBy(data);
    SpecListed(Sorted(NamesIn(data, g)), a.metrics, d.name, d.unit);
    FieldListed(a, d.name, Number(d.value));
    forall k | k in d.dimensions
      ensures Field(k, Text(d.dimensions[k])) in FieldsFor(a) <==> k in a.dimensions && a.dimensions[k] == d.dimensions[k]
    {
      FieldListed(a, k, Text(d.dimensions[k]));
    }
    assert (forall k :: k in d.dimensions <==> k in KeysOf(FirstOf(data, g))) <==>
           d.dimensions.Keys == FirstOf(data, g).dimensions.Keys;
  }

  lemma DecodesIff(namespace: string, data: seq<Datum>, m: string, d: Datum)
    ensures Decodes(PartsFor(namespace, data), m, d) <==> m == namespace && exists g :: g in Groups(data) && Tells(data, g, d)
  {
    var p, groups := PartsFor(namespace, data), Sorted(Groups(data));
    if Decodes(p, m, d) {
      var x, keys :| x in p.directives && x.namespace == m && keys in x.dimensions && DecodesFrom(p.fields, x.metrics, keys, d);
      DirectiveListed(namespace, data, groups, x);
      var g :| g in groups && x == DirectiveFor(namespace, data, g);
      DecodesGroup(namespace, data, g, d);
    }
    if g :| g in Groups(data) && Tells(data, g, d) {
      var x := DirectiveFor(namespace, data, g);
      DecodesGroup(namespace, data, g, d);
      DirectiveListed(namespace, data, groups, x);
      assert x.dimensions[0] in x.dimensions;
    }
  }

  // ---------------------------------------------------------------- when the meaning is kept

  /** No datum has its own name among its dimension keys. */
  ghost predicate NoOwnNames(batch: seq<Datum>) {
    forall d | d in batch :: d.name !in d.dimensions
  }

  /** Datums with the same joined key text have the same keys. */
  ghost predicate KeySetsTold(batch: seq<Datum>) {
    forall d, e | d in batch && e in batch && GroupKey(d) == GroupKey(e) :: d.dimensions.Keys == e.dimensions.Keys
  }

  lemma InBatchIsTold(reserved: set<string>, batch: seq<Datum>, d: Datum)
    requires Admissible(reserved, batch) && KeySetsTold(batch) && d in batch
    ensures GroupKey(d) in Groups(batch) && Tells(batch, GroupKey(d), d)
  {
    AdmissibleRecorded(reserved, batch, d);
    assert FirstOf(batch, GroupKey(d)) in batch;
  }

  lemma SameRecord(a: Fixed, d: Datum, e: Datum)
    requires Recorded(a, d) && Recorded(a, e) && d.name == e.name && d.dimensions.Keys == e.dimensions.Keys
    ensures d == e
  {
    assert forall k | k in d.dimensions :: d.dimensions[k] == e.dimensions[k];
    assert d.dimensions == e.dimensions;
  }

  lemma ToldIsInBatch(reserved: set<string>, batch: seq<Datum>, g: string, d: Datum)
    requires Admissible(reserved, batch) && KeySetsTold(batch) && g in Groups(batch) && Tells(batch, g, d)
    ensures d in batch
  {
    var e :| e in batch && GroupKey(e) == g && e.name == d.name;
    AdmissibleRecorded(reserved, batch, e);
    SameRecord(FixedBy(batch), d, e);
  }

  lemma UntoldIsLost(batch: seq<Datum>, g: string, d: Datum)
    requires d in batch && g in Groups(batch) && Tells(batch, g, d)
    ensures g == GroupKey(d) && d.dimensions.Keys == FirstOf(batch, GroupKey(d)).dimensions.Keys
  {
    assert KeysOf(d) == KeysOf(FirstOf(batch, g));
  }

  /** Main result: an admissible batch survives the encoding exactly when no datum is named like one of its own
      dimension keys and no two key sets of the batch have the same joined text. */
  lemma FaithfulIff(reserved: set<string>, namespace: string, batch: seq<Datum>)
    requires Admissible(reserved, batch)
    ensures Faithful(PartsFor(namespace, batch), namespace, batch) <==> NoOwnNames(batch) && KeySetsTold(batch)
  {
    DistinctFieldsIff(reserved, batch);
    if KeySetsTold(batch) {
      forall m, d ensures Decodes(PartsFor(namespace, batch), m, d) <==> m == namespace && d in batch {
        DecodesIff(namespace, batch, m, d);
        if d in batch { InBatchIsTold(reserved, batch, d); }
        if g :| g in Groups(batch) && Tells(batch, g, d) { ToldIsInBatch(reserved, batch, g, d); }
      }
    }
    if forall m, d :: Decodes(PartsFor(namespace, batch), m, d) <==> m == namespace && d in batch {
      forall d, e | d in batch && e in batch && GroupKey(d) == GroupKey(e) ensures d.dimensions.Keys == e.dimensions.Keys {
        DecodedKeysAreFirst(namespace, batch, d);
        DecodedKeysAreFirst(namespace, batch, e);
      }
    }
  }

  lemma DecodedKeysAreFirst(namespace: string, batch: seq<Datum>, d: Datum)
    requires d in batch && Decodes(PartsFor(namespace, batch), namespace, d)
    ensures d.dimensions.Keys == FirstOf(batch, GroupKey(d)).dimensions.Keys
  {
    DecodesIff(namespace, batch, namespace, d);
    var g :| g in Groups(batch) && Tells(batch, g, d);
    UntoldIsLost(batch, g, d);
  }

  lemma DistinctFieldsIff(reserved: set<string>, batch: seq<Datum>)
    requires Admissible(reserved, batch)
    ensures DistinctNames(FieldsFor(FixedBy(batch))) <==> NoOwnNames(batch)
  {
    var a := FixedBy(batch);
    if n :| n in a.dimensions && n in a.metrics {
      SharedNameIsOwn(reserved, batch, n);
      SharedNameRepeats(a, n);
    } else {
      DisjointNamesDistinct(a);
      forall d | d in batch ensures d.name !in d.dimensions {
        if d.name in d.dimensions { OwnNameIsShared(batch, d); }
      }
    }
  }

  // ---------------------------------------------------------------- NUL-free keys

  ghost predicate CleanKeys(keys: seq<string>) {
    forall k | k in keys :: k != "" && '\0' !in k
  }

  lemma {:induction false} JoinInjective(ks: seq<string>, ls: seq<string>)
    requires CleanKeys(ks) && CleanKeys(ls) && Strings.Join(ks, "\0") == Strings.Join(ls, "\0")
    ensures ks == ls
  {
    JoinFront(ks);
    JoinFront(ls);
    if ks != [] {
      var k, l, text := ks[0], ls[0], Strings.Join(ks, "\0");
      assert k in ks && l in ls;
      assert forall i | 0 <= i < |k| :: text[i] == k[i] && k[i] in k;
      assert forall i | 0 <= i < |l| :: text[i] == l[i] && l[i] in l;
      assert |k| < |text| ==> text[|k|] == '\0';
      assert |l| < |text| ==> text[|l|] == '\0';
      assert |k| == |l| && k == text[..|k|] && l == text[..|l|];
      if |ks| > 1 {
        assert Strings.Join(ks[1..], "\0") == Strings.Join(ks, "\0")[|k| + 1..] == Strings.Join(ls[1..], "\0");
        assert forall x | x in ks[1..] :: x in ks;
        assert forall x | x in ls[1..] :: x in ls;
        JoinInjective(ks[1..], ls[1..]);
      }
      assert ks == [k] + ks[1..] && ls == [l] + ls[1..];
    }
  }

  lemma JoinFront(ks: seq<string>)
    requires CleanKeys(ks)
    ensures var text := Strings.Join(ks, "\0");
            && (text == "" <==> ks == [])
            && (ks != [] ==> |ks[0]| <= |text| && text[..|ks[0]|] == ks[0])
            && (|ks| > 1 ==> |text| > |ks[0]| && text[|ks[0]|] == '\0')
            && (|ks| > 1 ==> text[|ks[0]| + 1..] == Strings.Join(ks[1..], "\0"))
            && (|ks| == 1 ==> text == ks[0])
  {
    if ks != [] { assert ks[0] in ks; }
  }

  /** Keys without NUL are told apart, so for them only own names can spoil the encoding. */
  lemma CleanKeysTold(reserved: set<string>, batch: seq<Datum>)
    requires Admissible(reserved, batch)
    requires forall d, k | d in batch && k in d.dimensions :: '\0' !in k
    ensures KeySetsTold(batch)
  {
    forall d, e | d in batch && e in batch && GroupKey(d) == GroupKey(e) ensures d.dimensions.Keys == e.dimensions.Keys {
      CleanKeysOf(reserved, batch, d);
      CleanKeysOf(reserved, batch, e);
      JoinInjective(KeysOf(d), KeysOf(e));
      assert forall k :: k in d.dimensions.Keys <==> k in KeysOf(d);
      assert forall k :: k in e.dimensions.Keys <==> k in KeysOf(e);
    }
  }

  lemma CleanKeysOf(reserved: set<string>, batch: seq<Datum>, d: Datum)
    requires Admissible(reserved, batch) && d in batch
    requires forall k | k in d.dimensions :: '\0' !in k
    ensures CleanKeys(KeysOf(d))
  {
    var i :| 0 <= i < |batch| && batch[i] == d;
    AdmissibleEncodable(reserved, batch, i);
  }
}
