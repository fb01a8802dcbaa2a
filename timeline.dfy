/** Timeline construction (`build_timeline`, app.py:188-207), from the document text
    on: every sentence in which a date is found yields one record, and the records
    are stably sorted by their `YYYY-MM-DD` date text. */
module Timeline {
  import opened Wrappers
  import opened Text
  import opened Sorting
  import opened Sentences
  import opened Dates
  import opened Events
  import opened Persons

  /** One row of the timeline: `{"Date", "Event", "Description", "Persons"}`. */
  datatype Record = Record(date: string, event: string, description: string, persons: string)

  /** The Persons field of a sentence without names. */
  const NoPersons: string := "N/A"

  /** `", ".join(names) if names else "N/A"`. */
  function PersonsField(names: seq<string>): string {
    if names == [] then NoPersons else Join(names, ", ")
  }

  /** The sort key, `lambda x: x["Date"]`. */
  function DateKey(r: Record): string {
    r.date
  }

  /** The sentences, in order, in which a date is found, each with its date. */
  function Dated(sentences: seq<string>, normalize: Normalizer): seq<(string, CalendarDate)>
  {
    if sentences == [] then []
    else
      var last := sentences[|sentences| - 1];
      Dated(sentences[..|sentences| - 1], normalize)
      + match ExtractDate(last, normalize)
        case Some(d) => [(last, d)]
        case None => []
  }

  /** `ns` lists the elements of `names`, each once. */
  ghost predicate IsEnumeration(ns: seq<string>, names: set<string>) {
    Distinct(ns) && forall n :: n in ns <==> n in names
  }

  /** `r` is the record built for sentence `s` with date `d`. The Persons field joins the
      sentence's names in the order the set yields them, which is left open. */
  ghost predicate Describes(r: Record, s: string, d: CalendarDate) {
    && r.date == IsoDate(d)
    && r.event == DetectEvent(s)
    && r.description == s
    && exists ns :: IsEnumeration(ns, SentenceNames(s)) && r.persons == PersonsField(ns)
  }

  /** Record `i` is the record of the `i`-th dated sentence, for every `i`. */
  ghost predicate DescribeAll(records: seq<Record>, dated: seq<(string, CalendarDate)>) {
    |records| == |dated| && forall i :: 0 <= i < |records| ==> Describes(records[i], dated[i].0, dated[i].1)
  }

  lemma DescribeAllAppend(records: seq<Record>, dated: seq<(string, CalendarDate)>, r: Record, s: string, d: CalendarDate)
    requires DescribeAll(records, dated) && Describes(r, s, d)
    ensures DescribeAll(records + [r], dated + [(s, d)])
  {
  }

  /** The loop of `build_timeline`: for each sentence in which a date is found, in
      order, one record is appended. */
  method AppendRecords(sentences: seq<string>, normalize: Normalizer) returns (records: seq<Record>)
    ensures DescribeAll(records, Dated(sentences, normalize))
  {
    records := [];
    for i := 0 to |sentences|
      invariant DescribeAll(records, Dated(sentences[..i], normalize))
    {
      DatedStep(sentences, i, normalize);
      var sent := sentences[i];
      var date := ExtractDate(sent, normalize);
      if date.Some? {
        var persons := ExtractPersonsFromSentence(sent);
        var record := Record(IsoDate(date.value), DetectEvent(sent), sent, PersonsField(persons));
        assert IsEnumeration(persons, SentenceNames(sent));
        assert Describes(record, sent, date.value);
        DescribeAllAppend(records, Dated(sentences[..i], normalize), record, sent, date.value);
        records := records + [record];
      }
    }
    assert sentences[..|sentences|] == sentences;
  }

  /** `build_timeline` on the document text, with the date normaliser as a parameter.
      `appended` is the list in the order the records were appended, before sorting. */
  method BuildTimeline(text: string, normalize: Normalizer) returns (timeline: seq<Record>, ghost appended: seq<Record>)
    ensures DescribeAll(appended, Dated(SplitSentences(text), normalize))
    ensures timeline == SortBy(appended, DateKey)
    ensures SortedBy(timeline, DateKey) && multiset(timeline) == multiset(appended)
    ensures forall k :: WithKey(timeline, DateKey, k) == WithKey(appended, DateKey, k)
    ensures AllSpace(text) ==> timeline == []
    ensures InCalendarOrder(timeline)
  {
    var sentences := SplitSentences(text);
    var records := AppendRecords(sentences, normalize);
    appended := records;
    timeline := SortBy(records, DateKey);
    forall k | true ensures WithKey(timeline, DateKey, k) == WithKey(appended, DateKey, k) {
      SortByIsStable(records, DateKey, k);
    }
    if AllSpace(text) {
      BlankTextHasNoSentences(text);
    }
    SortedInCalendarOrder(timeline, appended, Dated(sentences, normalize));
  }

  // ---------------------------------------------------------------- lemmas

  /** One more sentence adds its record exactly when its date is found. */
  lemma DatedStep(sentences: seq<string>, i: nat, normalize: Normalizer)
    requires i < |sentences|
    ensures Dated(sentences[..i + 1], normalize)
            == Dated(sentences[..i], normalize)
               + match ExtractDate(sentences[i], normalize)
                 case Some(d) => [(sentences[i], d)]
                 case None => []
  {
    assert sentences[..i + 1][..i] == sentences[..i];
  }

  /** The dated sentences are exactly the sentences whose date is found, with that date. */
  lemma {:induction false} DatedMembers(sentences: seq<string>, normalize: Normalizer, s: string, d: CalendarDate)
    ensures (s, d) in Dated(sentences, normalize) <==> s in sentences && ExtractDate(s, normalize) == Some(d)
  {
    if sentences != [] {
      var init, last := sentences[..|sentences| - 1], sentences[|sentences| - 1];
      DatedMembers(init, normalize, s, d);
      LastSplit(sentences, s);
    }
  }

  /** A non-empty sequence is its initial part followed by its last element. */
  lemma LastSplit<T>(xs: seq<T>, x: T)
    requires xs != []
    ensures xs == xs[..|xs| - 1] + [xs[|xs| - 1]]
    ensures x in xs <==> x in xs[..|xs| - 1] || x == xs[|xs| - 1]
  {
    assert xs == xs[..|xs| - 1] + [xs[|xs| - 1]];
  }

  /** A Persons field is "N/A" exactly when the sentence has no names: a name starts
      with an upper-case letter followed by a lower-case one, and "N/A" does not. */
  lemma PersonsFieldNoPersons(ns: seq<string>)
    requires forall n :: n in ns ==> IsName(n)
    ensures PersonsField(ns) == NoPersons <==> ns == []
  {
    if ns != [] {
      assert IsName(ns[0]);
      RunShape(ns[0], MaxNameWords, false);
      JoinStartsWithFirst(ns, ", ");
      var j := Join(ns, ", ");
      assert j[1] == ns[0][1];
      assert IsLower(j[1]);
      assert !IsLower(NoPersons[1]);
    }
  }

  /** Every name of a non-empty list is in its Persons field, the names in list order
      with ", " between each two. */
  lemma PersonsFieldHasNames(ns: seq<string>, k: nat)
    requires k < |ns|
    ensures OccursAt(PersonsField(ns), ns[k], |Concat(ns[..k])| + 2 * k)
    ensures |PersonsField(ns)| == |Concat(ns)| + 2 * (|ns| - 1)
  {
    JoinHasEach(ns, ", ", k);
    JoinLength(ns, ", ");
  }

  /** The Persons field of every record is "N/A" exactly when its sentence has no names. */
  lemma RecordPersons(r: Record, s: string, d: CalendarDate)
    requires Describes(r, s, d)
    ensures r.persons == NoPersons <==> SentenceNames(s) == {}
  {
    var ns :| IsEnumeration(ns, SentenceNames(s)) && r.persons == PersonsField(ns);
    SentenceNamesAreNames(s);
    PersonsFieldNoPersons(ns);
    if ns != [] {
      assert ns[0] in SentenceNames(s);
    }
  }

  /** Sorting by the date text is chronological: records whose dates are `dates`,
      sorted by date text, are in calendar order. */
  lemma Chronological(timeline: seq<Record>, dates: seq<CalendarDate>)
    requires |dates| == |timeline| && SortedBy(timeline, DateKey)
    requires forall i :: 0 <= i < |timeline| ==> timeline[i].date == IsoDate(dates[i])
    ensures forall i, j :: 0 <= i < j < |timeline| ==> DateLe(dates[i], dates[j])
  {
    forall i, j | 0 <= i < j < |timeline| ensures DateLe(dates[i], dates[j]) {
      IsoDateOrder(dates[i], dates[j]);
    }
  }

  /** The date text of `r` is the rendering of a calendar date. */
  ghost predicate HasCalendarDate(r: Record) {
    exists d: CalendarDate :: r.date == IsoDate(d)
  }

  /** The records' date texts render calendar dates that are in chronological order. */
  ghost predicate InCalendarOrder(timeline: seq<Record>) {
    exists dates: seq<CalendarDate> ::
      && |dates| == |timeline|
      && (forall i :: 0 <= i < |timeline| ==> timeline[i].date == IsoDate(dates[i]))
      && (forall i, j :: 0 <= i < j < |timeline| ==> DateLe(dates[i], dates[j]))
  }

  /** The calendar dates behind records whose date texts all render one. */
  lemma {:induction false} CalendarDatesOf(rs: seq<Record>) returns (dates: seq<CalendarDate>)
    requires forall r :: r in rs ==> HasCalendarDate(r)
    ensures |dates| == |rs| && forall i :: 0 <= i < |rs| ==> rs[i].date == IsoDate(dates[i])
  {
    if rs == [] {
      dates := [];
    } else {
      assert HasCalendarDate(rs[0]);
      var d: CalendarDate :| rs[0].date == IsoDate(d);
      var rest := CalendarDatesOf(rs[1..]);
      dates := [d] + rest;
    }
  }

  /** Records that describe dated sentences, sorted by date text, are in calendar order. */
  lemma SortedInCalendarOrder(timeline: seq<Record>, records: seq<Record>, dated: seq<(string, CalendarDate)>)
    requires DescribeAll(records, dated)
    requires SortedBy(timeline, DateKey) && multiset(timeline) == multiset(records)
    ensures InCalendarOrder(timeline)
  {
    forall r | r in timeline ensures HasCalendarDate(r) {
      assert r in multiset(records);
      var i :| 0 <= i < |records| && records[i] == r;
      assert Describes(records[i], dated[i].0, dated[i].1);
    }
    var dates := CalendarDatesOf(timeline);
    Chronological(timeline, dates);
  }

  /** Records with the same date text have the same calendar date. */
  lemma SameKeySameDate(r1: Record, s1: string, d1: CalendarDate, r2: Record, s2: string, d2: CalendarDate)
    requires Describes(r1, s1, d1) && Describes(r2, s2, d2)
    ensures DateKey(r1) == DateKey(r2) <==> d1 == d2
  {
    IsoDateOrder(d1, d2);
  }

  /** Every record's event is one of the six labels or "Other". */
  lemma RecordEvent(r: Record, s: string, d: CalendarDate)
    requires Describes(r, s, d)
    ensures r.event in ["Filing", "Hearing", "Interim Order", "Transfer", "Judgment", "Appeal", "Other"]
  {
  }
}
