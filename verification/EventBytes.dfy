/** The characters of an event, with every name and mark written out. */
module EventBytes {
  import opened Text
  import opened Json
  import opened Newline
  import opened EmfBatch
  import opened EmfParts
  import opened EmfEvents
  import opened EventText

  function MemberText(m: Member): string {
    "\"" + m.name + "\":" + Flat(m.value)
  }

  function MemberTexts(ms: seq<Member>): seq<string> {
    seq(|ms|, i requires 0 <= i < |ms| => MemberText(ms[i]))
  }

  // ---------------------------------------------------------------- objects

  lemma MemberFlat(m: Member)
    ensures Flat(MemberPieces(m)) == MemberText(m)
  {
    FlatConcat([Quoted(m.name), Mark(':')], m.value);
    FlatTwo(Quoted(m.name), Mark(':'));
    NameLetters(m.name);
  }

  lemma NameLetters(name: string)
    ensures "\"" + name + "\"" + ":" == "\"" + name + "\":"
  {}

  lemma QuotedMember(name: Escaped, text: Escaped)
    ensures MemberText(TextMember(name, text)) == "\"" + name + "\":\"" + text + "\""
  {
    assert Flat([Quoted(text)]) == "\"" + text + "\"";
    TextLetters("\"" + name + "\":", text);
  }

  lemma TextLetters(front: string, text: string)
    ensures front + ("\"" + text + "\"") == front + "\"" + text + "\""
  {}

  lemma {:induction false} FollowingJoined(first: string, ms: seq<Member>)
    ensures first + Flat(Following(ms)) == Join([first] + MemberTexts(ms), ",")
    decreases |ms|
  {
    var parts := [first] + MemberTexts(ms);
    if ms == [] {
      assert parts == [first];
    } else {
      FollowingConcat([ms[0]], ms[1..]);
      assert [ms[0]] + ms[1..] == ms;
      FollowingOne(ms[0]);
      FlatConcat([Mark(',')] + MemberPieces(ms[0]), Following(ms[1..]));
      FlatCons(Mark(','), MemberPieces(ms[0]));
      MemberFlat(ms[0]);
      FollowingJoined(MemberText(ms[0]), ms[1..]);
      assert parts[1..] == [MemberText(ms[0])] + MemberTexts(ms[1..]);
      ConcatAssociates(",", MemberText(ms[0]), Flat(Following(ms[1..])));
      ConcatAssociates(first, ",", MemberText(ms[0]) + Flat(Following(ms[1..])));
    }
  }

  /** An object's text: its members in order between braces, a comma between any two. */
  lemma ObjectIs(ms: seq<Member>)
    requires ms != []
    ensures Flat(ObjectPieces(ms)) == "{" + Join(MemberTexts(ms), ",") + "}"
  {
    ConsText(ms[0], ms[1..]);
    ObjectText(ms[0], ms[1..]);
    assert [ms[0]] + ms[1..] == ms;
    ConcatAssociates("{", MemberText(ms[0]), Flat(Following(ms[1..])));
  }

  lemma TailIs(ms: seq<Member>)
    requires ms != []
    ensures Flat(Tail(ms)) == Join(MemberTexts(ms), ",") + "}"
  {
    ConsText(ms[0], ms[1..]);
    TailText(ms[0], ms[1..]);
    assert [ms[0]] + ms[1..] == ms;
  }

  lemma ConsText(m: Member, rest: seq<Member>)
    ensures Flat(MemberPieces(m)) == MemberText(m)
    ensures MemberText(m) + Flat(Following(rest)) == Join(MemberTexts([m] + rest), ",")
  {
    MemberFlat(m);
    FollowingJoined(MemberText(m), rest);
    TextsConcat([m], rest);
    TextsOne(m);
  }

  lemma TextsConcat(ms: seq<Member>, ns: seq<Member>)
    ensures MemberTexts(ms + ns) == MemberTexts(ms) + MemberTexts(ns)
  {}

  lemma TextsOne(m: Member)
    ensures MemberTexts([m]) == [MemberText(m)]
  {}

  // ---------------------------------------------------------------- log entries

  /** The members an entry and its metrics are written with. */
  function EntryParts(entry: Entry, emf: Rendered): seq<string> {
    match entry.category
    case Traffic =>
      [ "\"_t\":\"TRAFFIC\"" ] + (if entry.appName == "" then [] else ["\"app_name\":\"" + entry.appName + "\""])
      + MemberTexts(entry.others) + EmfTexts(emf)
    case Health =>
      ["\"_t\":\"HEALTH\""] + MemberTexts(entry.others) + EmfTexts(emf)
  }

  /** The fields at the root, then the envelope. */
  function EmfTexts(emf: Rendered): seq<string> {
    MemberTexts(emf.fields) + ["\"_aws\":" + Flat(emf.envelope)]
  }

  lemma EmfMemberTexts(emf: Rendered)
    ensures MemberTexts(EmfMembers(emf)) == EmfTexts(emf)
  {
    TextsConcat(emf.fields, [Member(AWS_KEY, emf.envelope)]);
    TextsOne(Member(AWS_KEY, emf.envelope));
    assert "\"" + "_aws" + "\":" == "\"_aws\":";
  }

  lemma KindText(category: Category)
    ensures MemberText(TextMember(TYPE_KEY, CategoryName(category)))
            == match category case Traffic => "\"_t\":\"TRAFFIC\"" case Health => "\"_t\":\"HEALTH\""
  {
    QuotedMember(TYPE_KEY, CategoryName(category));
    KindLetters();
  }

  lemma KindLetters()
    ensures "\"" + "_t" + "\":\"" + "TRAFFIC" + "\"" == "\"_t\":\"TRAFFIC\""
    ensures "\"" + "_t" + "\":\"" + "HEALTH" + "\"" == "\"_t\":\"HEALTH\""
  {}

  lemma AppText(appName: Escaped)
    ensures MemberText(TextMember(APP_KEY, appName)) == "\"app_name\":\"" + appName + "\""
  {
    QuotedMember(APP_KEY, appName);
    AppLetters();
  }

  lemma AppLetters()
    ensures "\"" + "app_name" + "\":\"" == "\"app_name\":\""
  {}

  lemma SummaryPart(summary: Escaped)
    ensures MemberText(TextMember(SUMMARY_KEY, summary)) == "\"_q\":\"" + summary + "\""
  {
    QuotedMember(SUMMARY_KEY, summary);
    SummaryLetters();
  }

  lemma SummaryLetters()
    ensures "\"" + "_q" + "\":\"" == "\"_q\":\""
  {}

  lemma AfterSummaryTexts(entry: Entry, emf: Rendered)
    ensures MemberTexts(AfterSummary(entry) + EmfMembers(emf)) == EntryParts(entry, emf)
  {
    var kind := [TextMember(TYPE_KEY, CategoryName(entry.category))];
    var app := if entry.category.Traffic? && entry.appName != "" then [TextMember(APP_KEY, entry.appName)] else [];
    KindText(entry.category);
    AppText(entry.appName);
    TextsOne(kind[0]);
    TextsOne(TextMember(APP_KEY, entry.appName));
    TextsConcat(kind, app);
    TextsConcat(kind + app, entry.others);
    TextsConcat(AfterSummary(entry), EmfMembers(emf));
    EmfMemberTexts(emf);
    if app == [] { assert MemberTexts(kind + app) == MemberTexts(kind); }
    ConcatAssociates(MemberTexts(kind) + MemberTexts(app), MemberTexts(entry.others), EmfTexts(emf));
  }

  /** The text on standard output. Only a traffic entry has a summary, and its summary stands first. */
  lemma StdoutTextIs(entry: Entry, emf: Rendered)
    ensures var first := if entry.category == Traffic && entry.summary != "" then ["\"_q\":\"" + entry.summary + "\""] else [];
            StdoutText(entry, emf) == "{" + Join(first + EntryParts(entry, emf), ",") + "}"
  {
    ObjectIs(EntryMembers(entry) + EmfMembers(emf));
    AfterSummaryTexts(entry, emf);
    if HasSummary(entry) {
      var q := TextMember(SUMMARY_KEY, entry.summary);
      ConcatAssociates([q], AfterSummary(entry), EmfMembers(emf));
      TextsConcat([q], AfterSummary(entry) + EmfMembers(emf));
      TextsOne(q);
      SummaryPart(entry.summary);
    } else {
      assert [] + AfterSummary(entry) == AfterSummary(entry);
      assert [] + EntryParts(entry, emf) == EntryParts(entry, emf);
    }
  }

  /** The text sent to CloudWatch: one line break, behind the comma after the summary. */
  lemma CloudWatchTextIs(entry: Entry, emf: Rendered)
    ensures CloudWatchText(entry, emf) ==
            if entry.category == Traffic && entry.summary != ""
            then "{\"_q\":\"" + entry.summary + "\",\n" + Join(EntryParts(entry, emf), ",") + "}"
            else "{" + Join(EntryParts(entry, emf), ",") + "}"
  {
    AfterSummaryTexts(entry, emf);
    if HasSummary(entry) {
      TailIs(AfterSummary(entry) + EmfMembers(emf));
      BreakLetters("{\"_q\":\"" + entry.summary, Join(EntryParts(entry, emf), ","));
    } else {
      StdoutTextIs(entry, emf);
      assert [] + EntryParts(entry, emf) == EntryParts(entry, emf);
    }
  }

  lemma BreakLetters(front: string, rest: string)
    ensures front + "\"," + "\n" + (rest + "}") == front + "\",\n" + rest + "}"
  {
    assert front + "\"," + "\n" == front + "\",\n";
  }

  // ---------------------------------------------------------------- events that carry metrics only

  /** The text of a metric event. A health event has neither summary nor application name. */
  lemma MetricTextIs(category: Category, summary: Escaped, appName: Escaped, emf: Rendered, newline: bool)
    ensures category == Health ==>
              MetricText(category, summary, appName, emf, newline) == "{" + Join(["\"_t\":\"HEALTH\""] + EmfTexts(emf), ",") + "}"
    ensures category == Traffic ==>
              var rest := Join(["\"_t\":\"TRAFFIC\"", "\"app_name\":\"" + appName + "\""] + EmfTexts(emf), ",") + "}";
              MetricText(category, summary, appName, emf, newline)
              == "{\"_q\":\"" + summary + "\"," + (if newline then "\n" else "") + rest
  {
    var ms := MetricMembers(category, appName) + EmfMembers(emf);
    MetricMemberTexts(category, appName, emf);
    if category.Health? {
      ObjectIs(ms);
    } else {
      TailIs(ms);
      SummaryFirst(summary, ms);
      HeadText(summary, Tail(ms));
      var front := "{\"_q\":\"" + summary + "\",";
      assert front + "" == front;
    }
  }

  lemma MetricMemberTexts(category: Category, appName: Escaped, emf: Rendered)
    ensures MemberTexts(MetricMembers(category, appName) + EmfMembers(emf))
            == (match category case Traffic => ["\"_t\":\"TRAFFIC\"", "\"app_name\":\"" + appName + "\""]
                               case Health => ["\"_t\":\"HEALTH\""]) + EmfTexts(emf)
  {
    KindText(category);
    AppText(appName);
    EmfMemberTexts(emf);
    TextsConcat(MetricMembers(category, appName), EmfMembers(emf));
    TextsOne(TextMember(TYPE_KEY, CategoryName(category)));
    TextsOne(TextMember(APP_KEY, appName));
    TextsConcat([TextMember(TYPE_KEY, CategoryName(category))], [TextMember(APP_KEY, appName)]);
  }

  // ---------------------------------------------------------------- the time of an event

  /** The metrics are dated by the response, else by the request; the clock is read for an entry with neither. */
  lemma EventTime(entry: Entry, namespace: string, data: seq<Datum>, now: int, render: Envelope -> Rendered)
    ensures entry.responseTime > 0 ==>
              EmfOf(entry, namespace, data, now, render) == render(Envelope(entry.responseTime, PartsFor(namespace, data)))
    ensures entry.responseTime <= 0 < entry.requestTime ==>
              EmfOf(entry, namespace, data, now, render) == render(Envelope(entry.requestTime, PartsFor(namespace, data)))
    ensures entry.responseTime <= 0 && entry.requestTime <= 0 ==>
              EmfOf(entry, namespace, data, now, render) == render(Envelope(now, PartsFor(namespace, data)))
  {}
}
