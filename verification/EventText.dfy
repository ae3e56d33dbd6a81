/** The bytes of one event in both sinks: the log entry, a line break after its summary, and the metric members. */
module EventText {
  import opened Json
  import opened Newline
  import opened EmfBatch
  import opened EmfParts
  import opened EmfEvents

  datatype Category = Traffic | Health

  const SUMMARY_KEY: Escaped := "_q"
  const TYPE_KEY: Escaped := "_t"
  const APP_KEY: Escaped := "app_name"
  const AWS_KEY: Escaped := "_aws"

  /** A log entry as `json.Marshal` sees it: texts are escaped already, and `others` are the members from `aws_meta` on. */
  datatype Entry = Entry(category: Category, summary: Escaped, appName: Escaped, others: seq<Member>,
                         requestTime: int, responseTime: int)

  /** What the metric members and the `_aws` envelope look like once rendered. */
  datatype Rendered = Rendered(fields: seq<Member>, envelope: Value)

  function CategoryName(category: Category): Escaped {
    match category
    case Traffic => "TRAFFIC"
    case Health => "HEALTH"
  }

  predicate HasSummary(entry: Entry) {
    entry.category.Traffic? && entry.summary != ""
  }

  function TextMember(name: Escaped, text: Escaped): Member {
    Member(name, [Quoted(text)])
  }

  /** The members after the summary. Health entries lose their application name with their summary. */
  function AfterSummary(entry: Entry): seq<Member> {
    [TextMember(TYPE_KEY, CategoryName(entry.category))]
    + (if entry.category.Traffic? && entry.appName != "" then [TextMember(APP_KEY, entry.appName)] else [])
    + entry.others
  }

  function EntryMembers(entry: Entry): seq<Member> {
    (if HasSummary(entry) then [TextMember(SUMMARY_KEY, entry.summary)] else []) + AfterSummary(entry)
  }

  function EmfMembers(rendered: Rendered): seq<Member> {
    rendered.fields + [Member(AWS_KEY, rendered.envelope)]
  }

  /** `logging.Marshal`. */
  function Marshal(entry: Entry): string {
    Flat(ObjectPieces(EntryMembers(entry)))
  }

  // ---------------------------------------------------------------- appended members

  /** `appendEMF`: the text must end an object, and the new members go in front of its last brace. */
  method AppendEMF(base: string, rendered: Rendered) returns (r: Result<string>)
    ensures r.Err? <==> base == "" || base[|base| - 1] != '}'
    ensures r.Ok? ==> r.value == Appended(base, EmfMembers(rendered))
  {
    if |base| == 0 || base[|base| - 1] != '}' {
      return Err(NotAnObject);
    }
    var text := WriteMembers(base[..|base| - 1], rendered);
    return Ok(text);
  }

  /** The loop over the fields, the `_aws` member and the last brace, which `appendEMF` and `marshalMetricEvent` share. */
  method WriteMembers(front: string, rendered: Rendered) returns (buffer: string)
    ensures buffer == front + Flat(Following(EmfMembers(rendered))) + "}"
  {
    buffer := front;
    var fields := rendered.fields;
    for i := 0 to |fields|
      invariant buffer == front + Flat(Following(fields[..i]))
    {
      FollowingNext(front, fields, i);
      buffer := buffer + "," + Flat(MemberPieces(fields[i]));
    }
    assert fields[..|fields|] == fields;
    FollowingSnoc(front, fields, Member(AWS_KEY, rendered.envelope));
    buffer := buffer + "," + Flat(MemberPieces(Member(AWS_KEY, rendered.envelope))) + "}";
  }

  function Appended(base: string, ms: seq<Member>): string
    requires base != ""
  {
    base[..|base| - 1] + Flat(Following(ms)) + "}"
  }

  lemma FollowingSnoc(front: string, ms: seq<Member>, m: Member)
    ensures front + Flat(Following(ms + [m])) == front + Flat(Following(ms)) + "," + Flat(MemberPieces(m))
  {
    FollowingConcat(ms, [m]);
    FollowingOne(m);
    FlatConcat(Following(ms), [Mark(',')] + MemberPieces(m));
    FlatCons(Mark(','), MemberPieces(m));
    ConcatOfFour(front, Flat(Following(ms)), ",", Flat(MemberPieces(m)));
  }

  lemma FollowingOne(m: Member)
    ensures Following([m]) == [Mark(',')] + MemberPieces(m)
  {
    assert [m][1..] == [];
  }

  lemma ConcatOfFour(a: string, b: string, c: string, d: string)
    ensures a + (b + (c + d)) == a + b + c + d
  {}

  lemma FollowingNext(front: string, ms: seq<Member>, i: nat)
    requires i < |ms|
    ensures front + Flat(Following(ms[..i + 1])) == front + Flat(Following(ms[..i])) + "," + Flat(MemberPieces(ms[i]))
  {
    assert ms[..i + 1] == ms[..i] + [ms[i]];
    FollowingSnoc(front, ms[..i], ms[i]);
  }

  /** Appending to an object with members gives the object that has the new members last. */
  lemma AppendedIsObject(ms: seq<Member>, ns: seq<Member>)
    requires ms != []
    ensures EndsObject(Flat(ObjectPieces(ms)))
    ensures Appended(Flat(ObjectPieces(ms)), ns) == Flat(ObjectPieces(ms + ns))
  {
    ObjectConcat(ms, ns);
    AppendedAfter([Mark('{')] + MemberPieces(ms[0]) + Following(ms[1..]), ns);
  }

  lemma ObjectConcat(ms: seq<Member>, ns: seq<Member>)
    requires ms != []
    ensures ObjectPieces(ms + ns) == [Mark('{')] + MemberPieces(ms[0]) + Following(ms[1..]) + Following(ns) + [Mark('}')]
  {
    RestOfConcat(ms, ns);
    FollowingConcat(ms[1..], ns);
    ConcatAssociates([Mark('{')] + MemberPieces(ms[0]), Following(ms[1..]), Following(ns));
  }

  lemma RestOfConcat<T>(ms: seq<T>, ns: seq<T>)
    requires ms != []
    ensures ms + ns != [] && (ms + ns)[0] == ms[0] && (ms + ns)[1..] == ms[1..] + ns
  {}

  lemma ConcatAssociates<T>(a: seq<T>, b: seq<T>, c: seq<T>)
    ensures a + (b + c) == a + b + c
  {}

  predicate EndsObject(base: string) {
    base != "" && base[|base| - 1] == '}'
  }

  lemma AppendedAfter(open: seq<Piece>, ns: seq<Member>)
    ensures EndsObject(Flat(open + [Mark('}')]))
    ensures Appended(Flat(open + [Mark('}')]), ns) == Flat(open + Following(ns) + [Mark('}')])
  {
    FlatClosed(open);
    FlatClosed(open + Following(ns));
    FlatConcat(open, Following(ns));
  }

  lemma FlatClosed(ps: seq<Piece>)
    ensures Flat(ps + [Mark('}')]) == Flat(ps) + "}"
  {
    FlatConcat(ps, [Mark('}')]);
    assert Flat([Mark('}')]) == "}";
  }

  // ---------------------------------------------------------------- the line break in an entry

  function SummaryText(summary: Escaped): string {
    "{\"_q\":\"" + summary + "\","
  }

  /** An object from its second member on. */
  function Tail(ms: seq<Member>): seq<Piece>
    requires ms != []
  {
    MemberPieces(ms[0]) + Following(ms[1..]) + [Mark('}')]
  }

  lemma TailLexical(ms: seq<Member>)
    requires ms != []
    ensures Compact(Tail(ms))
  {
    FollowingCompact(ms[1..]);
    CompactConcat([Quoted(ms[0].name), Mark(':')], ms[0].value);
    CompactConcat(MemberPieces(ms[0]), Following(ms[1..]));
    CompactConcat(MemberPieces(ms[0]) + Following(ms[1..]), [Mark('}')]);
  }

  function Head(summary: Escaped): seq<Piece> {
    [Mark('{'), Quoted(SUMMARY_KEY), Mark(':'), Quoted(summary), Mark(',')]
  }

  lemma HeadText(summary: Escaped, ps: seq<Piece>)
    ensures Flat(Head(summary) + ps) == SummaryText(summary) + Flat(ps)
  {
    FlatConcat(Head(summary), ps);
    var key, text := [Quoted(SUMMARY_KEY), Mark(':')], [Quoted(summary), Mark(',')];
    FlatTwo(key[0], key[1]);
    FlatTwo(text[0], text[1]);
    FlatConcat(key, text);
    FlatCons(Mark('{'), key + text);
    assert Head(summary) == [Mark('{')] + (key + text);
    HeadLetters(summary);
  }

  lemma HeadLetters(s: string)
    ensures "{" + ("\"" + "_q" + "\"" + ":" + ("\"" + s + "\"" + ",")) == "{\"_q\":\"" + s + "\","
  {
    assert "{" + ("\"" + "_q" + "\"" + ":" + "\"") == "{\"_q\":\"";
  }

  lemma FlatTwo(a: Piece, b: Piece)
    ensures Flat([a, b]) == Text1(a) + Text1(b)
  {
    FlatCons(a, [b]);
    FlatCons(b, []);
    assert [a] + [b] == [a, b] && [b] + [] == [b];
  }

  lemma SummaryFirst(summary: Escaped, ms: seq<Member>)
    requires ms != []
    ensures ObjectPieces([TextMember(SUMMARY_KEY, summary)] + ms) == Head(summary) + Tail(ms)
  {
    var q := TextMember(SUMMARY_KEY, summary);
    RestOfConcat([q], ms);
    assert [q][1..] + ms == ms;
    HeadBefore(summary, MemberPieces(ms[0]), Following(ms[1..]));
  }

  lemma HeadBefore(summary: Escaped, ps: seq<Piece>, qs: seq<Piece>)
    ensures [Mark('{')] + ([Quoted(SUMMARY_KEY), Mark(':')] + [Quoted(summary)]) + ([Mark(',')] + ps + qs) + [Mark('}')]
              == Head(summary) + (ps + qs + [Mark('}')])
  {
    var rest := ps + qs + [Mark('}')];
    assert [Mark(',')] + ps + qs + [Mark('}')] == [Mark(',')] + rest;
  }

  /** In an entry with a summary the line break comes right after the comma behind `_q`. */
  lemma BreaksAfterSummary(summary: Escaped, ms: seq<Member>)
    requires ms != []
    ensures Broken(Flat(ObjectPieces([TextMember(SUMMARY_KEY, summary)] + ms)))
              == SummaryText(summary) + "\n" + Flat(Tail(ms))
  {
    SummaryFirst(summary, ms);
    TailLexical(ms);
    BreaksOutsideStrings(Head(summary) + Tail(ms));
    BreaksHead(summary, Tail(ms));
    HeadText(summary, [Mark('\n')] + Tail(ms));
    FlatCons(Mark('\n'), Tail(ms));
  }

  lemma BreaksHead(summary: Escaped, ps: seq<Piece>)
    ensures BrokenPieces(Head(summary) + ps) == Head(summary) + ([Mark('\n')] + ps)
  {
    BreakComma(ps);
    BreakNext(Quoted(summary), [Mark(',')] + ps);
    BreakNext(Mark(':'), [Quoted(summary)] + ([Mark(',')] + ps));
    BreakNext(Quoted(SUMMARY_KEY), [Mark(':')] + ([Quoted(summary)] + ([Mark(',')] + ps)));
    BreakNext(Mark('{'), [Quoted(SUMMARY_KEY)] + ([Mark(':')] + ([Quoted(summary)] + ([Mark(',')] + ps))));
    HeadCons(summary, ps);
    HeadCons(summary, [Mark('\n')] + ps);
  }

  lemma HeadCons(summary: Escaped, ps: seq<Piece>)
    ensures Head(summary) + ps
              == [Mark('{')] + ([Quoted(SUMMARY_KEY)] + ([Mark(':')] + ([Quoted(summary)] + ([Mark(',')] + ps))))
  {}

  lemma BreakComma(ps: seq<Piece>)
    ensures BrokenPieces([Mark(',')] + ps) == [Mark(',')] + ([Mark('\n')] + ps)
  {
    assert ([Mark(',')] + ps)[1..] == ps;
  }

  lemma BreakNext(p: Piece, ps: seq<Piece>)
    requires p != Mark(',')
    ensures BrokenPieces([p] + ps) == [p] + BrokenPieces(ps)
  {
    assert ([p] + ps)[1..] == ps;
  }

  /** `logging.MarshalForCloudWatch`: an entry with a summary has its line break directly behind the comma after `_q`. */
  method MarshalForCloudWatch(entry: Entry) returns (r: string)
    ensures HasSummary(entry) ==> r == SummaryText(entry.summary) + "\n" + Flat(Tail(AfterSummary(entry)))
    ensures !HasSummary(entry) ==> r == Flat(ObjectPieces(AfterSummary(entry)))
  {
    var body := Marshal(entry);
    if entry.category.Health? || entry.summary == "" {
      assert [] + AfterSummary(entry) == AfterSummary(entry);
      return body;
    }
    BreaksAfterSummary(entry.summary, AfterSummary(entry));
    r := InsertNewlineAfterSummary(body);
  }

  /** Appending after the line break. */
  lemma AppendedToBroken(summary: Escaped, ms: seq<Member>, ns: seq<Member>)
    requires ms != []
    ensures var base := SummaryText(summary) + "\n" + Flat(Tail(ms));
            EndsObject(base) && Appended(base, ns) == SummaryText(summary) + "\n" + Flat(Tail(ms + ns))
  {
    AppendedAfter(MemberPieces(ms[0]) + Following(ms[1..]), ns);
    TailConcat(ms, ns);
    AppendedBehind(SummaryText(summary) + "\n", Flat(Tail(ms)), ns);
  }

  lemma TailConcat(ms: seq<Member>, ns: seq<Member>)
    requires ms != []
    ensures Tail(ms + ns) == MemberPieces(ms[0]) + Following(ms[1..]) + Following(ns) + [Mark('}')]
  {
    RestOfConcat(ms, ns);
    FollowingConcat(ms[1..], ns);
    ConcatAssociates(MemberPieces(ms[0]), Following(ms[1..]), Following(ns));
  }

  lemma AppendedBehind(front: string, base: string, ns: seq<Member>)
    requires base != ""
    ensures Appended(front + base, ns) == front + Appended(base, ns)
  {
    assert (front + base)[..|front + base| - 1] == front + base[..|base| - 1];
  }

  // ---------------------------------------------------------------- the two renderings of one event

  /** `entryTimestamp`; `now` is the clock. */
  function EntryTimestamp(entry: Entry, now: int): int {
    if entry.responseTime > 0 then entry.responseTime
    else if entry.requestTime > 0 then entry.requestTime
    else now
  }

  /** `marshalLogWithMetrics`. `render` stands for the JSON of the metric values. */
  method MarshalLogWithMetrics(entry: Entry, namespace: string, data: seq<Datum>, now: int, render: Envelope -> Rendered)
    returns (r: Result<string>)
    ensures r.Ok? <==> AllEncodable(LOG_ROOT_KEYS, data) && |Batches(LOG_ROOT_KEYS, data)| == 1
    ensures r.Ok? ==> r.value == CloudWatchText(entry, EmfOf(entry, namespace, data, now, render))
  {
    var base := MarshalForCloudWatch(entry);
    var built := BuildEMF(namespace, EntryTimestamp(entry, now), data, LOG_ROOT_KEYS);
    if built.Err? { return Err(built.error); }
    BaseText(entry, render(built.value));
    r := AppendEMF(base, render(built.value));
  }

  /** `marshalStdoutLogWithMetrics`. */
  method MarshalStdoutLogWithMetrics(entry: Entry, namespace: string, data: seq<Datum>, now: int,
                                     render: Envelope -> Rendered)
    returns (r: Result<string>)
    ensures r.Ok? <==> AllEncodable(LOG_ROOT_KEYS, data) && |Batches(LOG_ROOT_KEYS, data)| == 1
    ensures r.Ok? ==> r.value == StdoutText(entry, EmfOf(entry, namespace, data, now, render))
  {
    var built := BuildEMF(namespace, EntryTimestamp(entry, now), data, LOG_ROOT_KEYS);
    if built.Err? { return Err(built.error); }
    BaseText(entry, render(built.value));
    r := AppendEMF(Marshal(entry), render(built.value));
  }

  ghost function EmfOf(entry: Entry, namespace: string, data: seq<Datum>, now: int, render: Envelope -> Rendered): Rendered {
    render(Envelope(EntryTimestamp(entry, now), PartsFor(namespace, data)))
  }

  /** One JSON object: the entry's members, then the metric members. */
  function StdoutText(entry: Entry, emf: Rendered): string {
    Flat(ObjectPieces(EntryMembers(entry) + EmfMembers(emf)))
  }

  /** The same object; a traffic entry with a summary has one line break, right after the comma behind `_q`. */
  function CloudWatchText(entry: Entry, emf: Rendered): string {
    if HasSummary(entry)
    then SummaryText(entry.summary) + "\n" + Flat(Tail(AfterSummary(entry) + EmfMembers(emf)))
    else StdoutText(entry, emf)
  }

  /** The text both sinks start from, and what becomes of it. */
  lemma BaseText(entry: Entry, emf: Rendered)
    ensures EndsObject(Marshal(entry)) && Appended(Marshal(entry), EmfMembers(emf)) == StdoutText(entry, emf)
    ensures HasSummary(entry) ==>
              var base := SummaryText(entry.summary) + "\n" + Flat(Tail(AfterSummary(entry)));
              EndsObject(base) && Appended(base, EmfMembers(emf)) == CloudWatchText(entry, emf)
    ensures !HasSummary(entry) ==> Flat(ObjectPieces(AfterSummary(entry))) == Marshal(entry)
  {
    AppendedIsObject(EntryMembers(entry), EmfMembers(emf));
    if HasSummary(entry) {
      AppendedToBroken(entry.summary, AfterSummary(entry), EmfMembers(emf));
    } else {
      assert [] + AfterSummary(entry) == AfterSummary(entry);
    }
  }

  function DropNewlines(s: string): string {
    if s == "" then "" else (if s[0] == '\n' then "" else [s[0]]) + DropNewlines(s[1..])
  }

  lemma {:induction false} DropConcat(s: string, t: string)
    ensures DropNewlines(s + t) == DropNewlines(s) + DropNewlines(t)
  {
    if s == "" {
      assert s + t == t;
    } else {
      assert (s + t)[1..] == s[1..] + t;
      DropConcat(s[1..], t);
    }
  }

  lemma {:induction false} EscapedHasNone(t: string)
    requires EscapedText(t)
    ensures DropNewlines(t) == t
  {
    if t == "" {
    } else if t[0] != '\\' {
      EscapedHasNone(t[1..]);
    } else {
      var n := if t[1] == 'u' then 6 else 2;
      EscapedHasNone(t[n..]);
      PlainPair(t[..2]);
      if n == 6 {
        PlainHasNone(t[2..6]);
        assert t[..6][..2] == t[..2] && t[..6][2..] == t[2..6];
        DropSplit(t[..6], 2);
      }
      DropSplit(t, n);
    }
  }

  lemma DropSplit(t: string, n: nat)
    requires n <= |t| && DropNewlines(t[..n]) == t[..n] && DropNewlines(t[n..]) == t[n..]
    ensures DropNewlines(t) == t
  {
    assert t == t[..n] + t[n..];
    DropConcat(t[..n], t[n..]);
  }

  lemma PlainPair(t: string)
    requires |t| == 2 && t[0] != '\n' && t[1] != '\n'
    ensures DropNewlines(t) == t
  {
    assert t[1..] == [t[1]];
    assert DropNewlines(t[1..]) == [t[1]];
  }

  lemma {:induction false} PlainHasNone(t: string)
    requires forall i | 0 <= i < |t| :: IsHex(t[i])
    ensures DropNewlines(t) == t
  {
    if t != "" { PlainHasNone(t[1..]); }
  }

  lemma {:induction false} CompactHasNone(ps: seq<Piece>)
    requires Compact(ps)
    ensures DropNewlines(Flat(ps)) == Flat(ps)
  {
    if ps != [] {
      CompactHasNone(ps[1..]);
      PieceHasNone(ps[0]);
      DropConcat(Text1(ps[0]), Flat(ps[1..]));
    }
  }

  lemma PieceHasNone(p: Piece)
    requires ValidPiece(p) && (p.Mark? ==> p.c > ' ')
    ensures DropNewlines(Text1(p)) == Text1(p)
  {
    if p.Quoted? {
      EscapedHasNone(p.text);
      DropConcat("\"", p.text);
      DropConcat("\"" + p.text, "\"");
    }
  }

  lemma WithoutLineBreak(entry: Entry, emf: Rendered)
    ensures DropNewlines(CloudWatchText(entry, emf)) == StdoutText(entry, emf)
    ensures |CloudWatchText(entry, emf)| == |StdoutText(entry, emf)| + (if HasSummary(entry) then 1 else 0)
  {
    ObjectCompact(EntryMembers(entry) + EmfMembers(emf));
    CompactHasNone(ObjectPieces(EntryMembers(entry) + EmfMembers(emf)));
    if HasSummary(entry) {
      var ms := AfterSummary(entry) + EmfMembers(emf);
      ConcatAssociates([TextMember(SUMMARY_KEY, entry.summary)], AfterSummary(entry), EmfMembers(emf));
      SummaryFirst(entry.summary, ms);
      HeadText(entry.summary, Tail(ms));
      BreakDropped(SummaryText(entry.summary), Flat(Tail(ms)));
    }
  }

  /** Without its line break the text sent to CloudWatch is byte for byte the text written to standard output, which
      has none. The clock plays no part once the entry has a time. */
  lemma SameBytes(entry: Entry, namespace: string, data: seq<Datum>, now: int, later: int, render: Envelope -> Rendered)
    requires entry.responseTime > 0 || entry.requestTime > 0
    ensures var sent := CloudWatchText(entry, EmfOf(entry, namespace, data, now, render));
            var written := StdoutText(entry, EmfOf(entry, namespace, data, later, render));
            DropNewlines(sent) == written && |sent| == |written| + (if HasSummary(entry) then 1 else 0)
  {
    WithoutLineBreak(entry, EmfOf(entry, namespace, data, now, render));
  }

  lemma BreakDropped(s: string, t: string)
    ensures DropNewlines(s + "\n" + t) == DropNewlines(s + t)
  {
    DropConcat(s + "\n", t);
    DropConcat(s, "\n");
    DropConcat(s, t);
  }

  // ---------------------------------------------------------------- events that carry metrics only

  /** `marshalMetricEvent`; `summary` stands for the JSON of its list of metric names. */
  method MarshalMetricEvent(category: Category, summary: Escaped, appName: Escaped, namespace: string, timestamp: int,
                            data: seq<Datum>, newlineAfterSummary: bool, render: Envelope -> Rendered)
    returns (r: Result<string>)
    ensures r.Ok? <==> AllEncodable(METRIC_ROOT_KEYS, data) && |Batches(METRIC_ROOT_KEYS, data)| == 1
    ensures r.Ok? ==> r.value == MetricText(category, summary, appName,
                                            render(Envelope(timestamp, PartsFor(namespace, data))), newlineAfterSummary)
  {
    var built := BuildEMF(namespace, timestamp, data, METRIC_ROOT_KEYS);
    if built.Err? { return Err(built.error); }
    var emf := render(built.value);
    var text := WriteMembers(MetricFront(category, summary, appName, newlineAfterSummary), emf);
    MetricFrontFits(category, summary, appName, newlineAfterSummary, emf);
    return Ok(text);
  }

  function MetricMembers(category: Category, appName: Escaped): seq<Member> {
    [TextMember(TYPE_KEY, CategoryName(category))] + if category.Traffic? then [TextMember(APP_KEY, appName)] else []
  }

  function MetricText(category: Category, summary: Escaped, appName: Escaped, emf: Rendered, newline: bool): string {
    var ms := MetricMembers(category, appName) + EmfMembers(emf);
    if category.Health? then Flat(ObjectPieces(ms))
    else if newline then SummaryText(summary) + "\n" + Flat(Tail(ms))
    else Flat(ObjectPieces([TextMember(SUMMARY_KEY, summary)] + ms))
  }

  lemma TailText(m: Member, ms: seq<Member>)
    ensures Flat(Tail([m] + ms)) == Flat(MemberPieces(m)) + Flat(Following(ms)) + "}"
  {
    assert ([m] + ms)[1..] == ms;
    FlatClosed(MemberPieces(m) + Following(ms));
    FlatConcat(MemberPieces(m), Following(ms));
  }

  lemma ObjectText(m: Member, ms: seq<Member>)
    ensures Flat(ObjectPieces([m] + ms)) == "{" + Flat(MemberPieces(m)) + Flat(Following(ms)) + "}"
  {
    TailText(m, ms);
    FlatCons(Mark('{'), Tail([m] + ms));
    OpenBefore(MemberPieces(m), Following(ms));
    assert ([m] + ms)[1..] == ms;
    ConcatAssociates("{", Flat(MemberPieces(m)) + Flat(Following(ms)), "}");
    ConcatAssociates("{", Flat(MemberPieces(m)), Flat(Following(ms)));
  }

  lemma OpenBefore(ps: seq<Piece>, qs: seq<Piece>)
    ensures [Mark('{')] + ps + qs + [Mark('}')] == [Mark('{')] + (ps + qs + [Mark('}')])
  {}

  lemma SummaryMember(summary: Escaped)
    ensures "{" + Flat(MemberPieces(TextMember(SUMMARY_KEY, summary))) + "," == SummaryText(summary)
  {
    HeadText(summary, []);
    var ps := MemberPieces(TextMember(SUMMARY_KEY, summary));
    assert Head(summary) + [] == [Mark('{')] + (ps + [Mark(',')]);
    FlatCons(Mark('{'), ps + [Mark(',')]);
    FlatConcat(ps, [Mark(',')]);
    assert Flat([Mark(',')]) == ",";
    ConcatAssociates("{", Flat(ps), ",");
  }

  /** The buffer before the metric members. */
  function MetricFront(category: Category, summary: Escaped, appName: Escaped, newline: bool): string {
    var kind, app := TextMember(TYPE_KEY, CategoryName(category)), TextMember(APP_KEY, appName);
    if category.Health? then "{" + Flat(MemberPieces(kind))
    else "{" + Flat(MemberPieces(TextMember(SUMMARY_KEY, summary))) + (if newline then ",\n" else ",")
         + Flat(MemberPieces(kind)) + "," + Flat(MemberPieces(app))
  }

  lemma MetricFrontFits(category: Category, summary: Escaped, appName: Escaped, newline: bool, emf: Rendered)
    ensures MetricFront(category, summary, appName, newline) + Flat(Following(EmfMembers(emf))) + "}"
              == MetricText(category, summary, appName, emf, newline)
  {
    var kind, app, ns := TextMember(TYPE_KEY, CategoryName(category)), TextMember(APP_KEY, appName), EmfMembers(emf);
    if category.Health? {
      HealthFrontFits(kind, ns);
    } else {
      TrafficFrontFits(summary, newline, kind, app, ns);
      ConcatAssociates([kind], [app], ns);
    }
  }

  lemma HealthFrontFits(kind: Member, ns: seq<Member>)
    ensures "{" + Flat(MemberPieces(kind)) + Flat(Following(ns)) + "}" == Flat(ObjectPieces([kind] + [] + ns))
  {
    ObjectText(kind, ns);
    assert [kind] + [] + ns == [kind] + ns;
  }

  lemma TrafficFrontFits(summary: Escaped, newline: bool, kind: Member, app: Member, ns: seq<Member>)
    ensures var ms := [kind] + ([app] + ns);
            "{" + Flat(MemberPieces(TextMember(SUMMARY_KEY, summary))) + (if newline then ",\n" else ",")
              + Flat(MemberPieces(kind)) + "," + Flat(MemberPieces(app)) + Flat(Following(ns)) + "}"
            == if newline then SummaryText(summary) + "\n" + Flat(Tail(ms))
               else Flat(ObjectPieces([TextMember(SUMMARY_KEY, summary)] + ms))
  {
    MetricTail(kind, app, ns);
    MetricHead(summary, kind, [app] + ns);
    FrontLetters("{" + Flat(MemberPieces(TextMember(SUMMARY_KEY, summary))), newline, Flat(MemberPieces(kind)),
                 Flat(MemberPieces(app)), Flat(Following(ns)));
  }

  lemma MetricTail(kind: Member, app: Member, ns: seq<Member>)
    ensures Flat(Tail([kind] + ([app] + ns)))
              == Flat(MemberPieces(kind)) + ("," + Flat(MemberPieces(app)) + Flat(Following(ns))) + "}"
  {
    TailText(kind, [app] + ns);
    FollowingOne(app);
    FollowingConcat([app], ns);
    FlatConcat([Mark(',')] + MemberPieces(app), Following(ns));
    FlatCons(Mark(','), MemberPieces(app));
  }

  lemma MetricHead(summary: Escaped, m: Member, ms: seq<Member>)
    ensures "{" + Flat(MemberPieces(TextMember(SUMMARY_KEY, summary))) + "," == SummaryText(summary)
    ensures Flat(ObjectPieces([TextMember(SUMMARY_KEY, summary)] + ([m] + ms)))
              == SummaryText(summary) + Flat(Tail([m] + ms))
  {
    SummaryMember(summary);
    SummaryFirst(summary, [m] + ms);
    HeadText(summary, Tail([m] + ms));
  }

  lemma FrontLetters(q: string, newline: bool, kind: string, app: string, rest: string)
    ensures q + (if newline then ",\n" else ",") + kind + "," + app + rest + "}"
              == q + "," + (if newline then "\n" else "") + (kind + ("," + app + rest) + "}")
  {
    assert q + ",\n" == q + "," + "\n";
    assert q + "," == q + "," + "";
  }

  /** The line break written by hand is the one the scanner would have placed. */
  lemma SameLineBreak(summary: Escaped, appName: Escaped, emf: Rendered)
    ensures MetricText(Traffic, summary, appName, emf, true) == Broken(MetricText(Traffic, summary, appName, emf, false))
  {
    BreaksAfterSummary(summary, MetricMembers(Traffic, appName) + EmfMembers(emf));
  }
}
