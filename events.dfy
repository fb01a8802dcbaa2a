/** Event classification (`EVENT_KEYWORDS` and `detect_event`, app.py:129-145): an
    ordered table of labels with their keywords; a sentence gets the first label,
    in table order, one of whose keywords occurs in the lower-cased sentence. */
module Events {
  import opened Wrappers
  import opened Text

  /** Labels with their keywords, in the order the dictionary was written. */
  type KeywordTable = seq<(string, seq<string>)>

  const EventKeywords: KeywordTable := [
    ("Filing", ["filed", "instituted"]),
    ("Hearing", ["heard", "arguments"]),
    ("Interim Order", ["interim", "ex-parte", "stay"]),
    ("Transfer", ["transferred"]),
    ("Judgment", ["judgment", "decision", "held"]),
    ("Appeal", ["appeal"])
  ]

  /** The label of a sentence that mentions no keyword. */
  const OtherEvent: string := "Other"

  /** Some keyword of `words` is a substring of `t`. */
  function MentionsAny(t: string, words: seq<string>): (b: bool)
    ensures b <==> exists j :: 0 <= j < |words| && Contains(t, words[j])
  {
    if words == [] then false
    else
      var b := Contains(t, words[0]) || MentionsAny(t, words[1..]);
      assert b ==> exists j :: 0 <= j < |words| && Contains(t, words[j]) by {
        if !Contains(t, words[0]) && b {
          var j :| 0 <= j < |words[1..]| && Contains(t, words[1..][j]);
          assert Contains(t, words[j + 1]);
        }
      }
      assert (exists j :: 0 <= j < |words| && Contains(t, words[j])) ==> b by {
        if j :| 0 <= j < |words| && Contains(t, words[j]) {
          if j > 0 { assert words[1..][j - 1] == words[j]; }
        }
      }
      b
  }

  /** The first entry from `from` on whose keywords `t` mentions. */
  function FirstMentioned(table: KeywordTable, t: string, from: nat): (r: Option<nat>)
    requires from <= |table|
    ensures r.Some? ==> from <= r.value < |table| && MentionsAny(t, table[r.value].1)
    ensures r.Some? ==> forall j :: from <= j < r.value ==> !MentionsAny(t, table[j].1)
    ensures r.None? ==> forall j :: from <= j < |table| ==> !MentionsAny(t, table[j].1)
    decreases |table| - from
  {
    if from == |table| then None
    else if MentionsAny(t, table[from].1) then Some(from)
    else FirstMentioned(table, t, from + 1)
  }

  /** `detect_event(sentence)` over a given table. */
  function DetectEventIn(table: KeywordTable, sentence: string): (r: string)
    ensures r == OtherEvent || exists i :: 0 <= i < |table| && r == table[i].0
  {
    match FirstMentioned(table, Lower(sentence), 0)
    case Some(i) => table[i].0
    case None => OtherEvent
  }

  /** `detect_event(sentence)` over the table of the application. */
  function DetectEvent(sentence: string): (r: string)
    ensures r in ["Filing", "Hearing", "Interim Order", "Transfer", "Judgment", "Appeal", "Other"]
  {
    DetectEventIn(EventKeywords, sentence)
  }

  // ---------------------------------------------------------------- lemmas

  /** The label is that of the first entry with a keyword in the lower-cased sentence. */
  lemma DetectEventPicksFirst(table: KeywordTable, sentence: string, i: nat)
    requires i < |table| && MentionsAny(Lower(sentence), table[i].1)
    requires forall j :: 0 <= j < i ==> !MentionsAny(Lower(sentence), table[j].1)
    ensures DetectEventIn(table, sentence) == table[i].0
  {
  }

  /** With no label spelled "Other" in the table, "Other" means that no keyword occurs. */
  lemma DetectEventOther(table: KeywordTable, sentence: string)
    requires forall i :: 0 <= i < |table| ==> table[i].0 != OtherEvent
    ensures DetectEventIn(table, sentence) == OtherEvent
            <==> forall i :: 0 <= i < |table| ==> !MentionsAny(Lower(sentence), table[i].1)
  {
  }

  /** A sentence and its lower-case form get the same label. */
  lemma DetectEventIgnoresCase(table: KeywordTable, sentence: string)
    ensures DetectEventIn(table, Lower(sentence)) == DetectEventIn(table, sentence)
  {
    LowerIdempotent(sentence);
  }

  /** No label of the application's table is "Other". */
  lemma NoTableLabelIsOther()
    ensures forall i :: 0 <= i < |EventKeywords| ==> EventKeywords[i].0 != OtherEvent
  {
  }

  /** `interim` wins over `appeal`: the Interim Order entry comes before the Appeal
      entry, so once neither a filing nor a hearing keyword occurs, a sentence that
      mentions `interim` is an Interim Order whatever else it mentions. */
  lemma InterimBeforeAppeal(sentence: string)
    requires Contains(Lower(sentence), "interim")
    requires !MentionsAny(Lower(sentence), ["filed", "instituted"])
    requires !MentionsAny(Lower(sentence), ["heard", "arguments"])
    ensures DetectEvent(sentence) == "Interim Order"
  {
    assert EventKeywords[2].1[0] == "interim";
    DetectEventPicksFirst(EventKeywords, sentence, 2);
  }
}
