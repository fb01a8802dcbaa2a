/** Date detection (`extract_date`, app.py:117-126) and the `YYYY-MM-DD` rendering
    of a found date (app.py:201). Two hand-written date shapes are searched for,
    in a fixed order; the first shape found anywhere in the sentence wins and its
    matched text goes to the external normaliser (`dateparser.parse`), which is
    a parameter here. */
module Dates {
  import opened Wrappers
  import opened Text

  // ---------------------------------------------------------------- calendar

  datatype Date = Date(year: int, month: int, day: int)

  predicate IsLeapYear(y: int) { y % 4 == 0 && (y % 100 != 0 || y % 400 == 0) }

  function DaysInMonth(y: int, m: int): int
    requires 1 <= m <= 12
  {
    if m == 2 then (if IsLeapYear(y) then 29 else 28)
    else if m == 4 || m == 6 || m == 9 || m == 11 then 30
    else 31
  }

  /** The dates a Python `datetime` can hold. */
  predicate ValidDate(d: Date) {
    1 <= d.year <= 9999 && 1 <= d.month <= 12 && 1 <= d.day <= DaysInMonth(d.year, d.month)
  }

  type CalendarDate = d: Date | ValidDate(d) witness Date(1, 1, 1)

  /** The external normaliser: turns a matched date text into a calendar date, or fails. */
  type Normalizer = string -> Option<CalendarDate>

  /** Chronological order. */
  predicate DateLe(a: Date, b: Date) {
    a.year < b.year || (a.year == b.year && (a.month < b.month || (a.month == b.month && a.day <= b.day)))
  }

  // ---------------------------------------------------------------- shapes

  const MonthAbbreviations: seq<string> :=
    ["Jan", "Feb", "Mar", "Apr", "May", "Jun", "Jul", "Aug", "Sep", "Oct", "Nov", "Dec"]

  /** `Jan|Feb|...|Dec`. */
  predicate IsMonthAbbreviation(w: string) {
    w in MonthAbbreviations
  }

  const MonthNames: seq<string> :=
    ["January", "February", "March", "April", "May", "June", "July",
     "August", "September", "October", "November", "December"]

  /** `m` is `\d{1,2}\s(?:Jan|...|Dec)[a-z]*\s\d{4}` with `d` day digits and `l` extra
      lower-case letters after the abbreviation. */
  predicate DayMonthYearWith(m: string, d: nat, l: nat) {
    && |m| == d + l + 9
    && AllDigits(m[..d])
    && IsSpace(m[d])
    && IsMonthAbbreviation(m[d + 1..d + 4])
    && AllLower(m[d + 4..d + 4 + l])
    && IsSpace(m[d + 4 + l])
    && AllDigits(m[d + 5 + l..])
  }

  /** The strings the first date pattern matches in full. */
  ghost predicate IsDayMonthYear(m: string) {
    exists d, l :: 1 <= d <= 2 && DayMonthYearWith(m, d, l)
  }

  /** `m` is `(?:January|...|December)\s\d{1,2},\s\d{4}` with month `k` and `d` day digits. */
  predicate MonthDayYearWith(m: string, k: nat, d: nat) {
    && k < |MonthNames|
    && DayCommaYearWith(m, |MonthNames[k]|, d)
    && m[..|MonthNames[k]|] == MonthNames[k]
  }

  /** From offset `n` on, `m` is `\s\d{1,2},\s\d{4}` with `d` day digits. */
  predicate DayCommaYearWith(m: string, n: nat, d: nat) {
    && |m| == n + d + 7
    && IsSpace(m[n])
    && AllDigits(m[n + 1..n + 1 + d])
    && m[n + 1 + d] == ','
    && IsSpace(m[n + 2 + d])
    && AllDigits(m[n + 3 + d..])
  }

  /** The strings the second date pattern matches in full. */
  ghost predicate IsMonthDayYear(m: string) {
    exists k, d :: 1 <= d <= 2 && MonthDayYearWith(m, k, d)
  }

  // ---------------------------------------------------------------- matchers

  /** The first pattern anchored at `p`. Every quantifier in it can only succeed
      greedily (a shorter day or letter run would be followed by a character the
      next element refuses), so the match at `p` is unique. */
  function DayMonthYearAt(s: string, p: nat): Option<string>
  {
    if p >= |s| || !IsDigit(s[p]) then None
    else
      var q := if p + 1 < |s| && IsDigit(s[p + 1]) then p + 2 else p + 1;
      if q + 4 > |s| || !IsSpace(s[q]) || !IsMonthAbbreviation(s[q + 1..q + 4]) then None
      else
        var r := LowerRunEnd(s, q + 4);
        if r + 5 > |s| || !IsSpace(s[r]) || !AllDigits(s[r + 1..r + 5]) then None
        else Some(s[p..r + 5])
  }

  /** The first month name, in alternation order from `k`, that occurs at `p`. */
  function MonthNameAt(s: string, p: nat, k: nat): (r: Option<nat>)
    ensures r.Some? ==> k <= r.value < |MonthNames| && OccursAt(s, MonthNames[r.value], p)
    ensures r.None? ==> forall j :: k <= j < |MonthNames| ==> !OccursAt(s, MonthNames[j], p)
    decreases |MonthNames| - k
  {
    if k >= |MonthNames| then None
    else if OccursAt(s, MonthNames[k], p) then Some(k)
    else MonthNameAt(s, p, k + 1)
  }

  /** The second pattern anchored at `p`: a month name, then the rest of the pattern. */
  function MonthDayYearAt(s: string, p: nat): Option<string>
  {
    match MonthNameAt(s, p, 0)
    case None => None
    case Some(k) => DayCommaYearAt(s, p, p + |MonthNames[k]|)
  }

  /** `\s\d{1,2},\s\d{4}` at `q`, for a match that started at `p`. */
  function DayCommaYearAt(s: string, p: nat, q: nat): Option<string>
    requires p <= q
  {
    if q + 1 >= |s| || !IsSpace(s[q]) || !IsDigit(s[q + 1]) then None
    else
      var c := if q + 2 < |s| && IsDigit(s[q + 2]) then q + 3 else q + 2;
      if c + 6 > |s| || s[c] != ',' || !IsSpace(s[c + 1]) || !AllDigits(s[c + 2..c + 6]) then None
      else Some(s[p..c + 6])
  }

  /** `re.search`: the leftmost position from `p` on where `at` matches, with its match. */
  function Search(s: string, p: nat, at: (string, nat) -> Option<string>): (r: Option<(nat, string)>)
    ensures r.Some? ==> p <= r.value.0 <= |s| && at(s, r.value.0) == Some(r.value.1)
    ensures r.Some? ==> forall k :: p <= k < r.value.0 ==> at(s, k).None?
    ensures r.None? ==> forall k :: p <= k <= |s| ==> at(s, k).None?
    decreases |s| + 1 - p
  {
    if p > |s| then None
    else match at(s, p)
      case Some(m) => Some((p, m))
      case None => Search(s, p + 1, at)
  }

  /** `extract_date(sentence)`: the first pattern is searched for over the whole
      sentence first; only when it occurs nowhere is the second one tried. Whatever
      the normaliser makes of the winning match is the answer, even a failure. */
  function ExtractDate(sentence: string, normalize: Normalizer): Option<CalendarDate>
  {
    match Search(sentence, 0, DayMonthYearAt)
    case Some((_, m)) => normalize(m)
    case None =>
      match Search(sentence, 0, MonthDayYearAt)
      case Some((_, m)) => normalize(m)
      case None => None
  }

  // ---------------------------------------------------------------- matcher lemmas

  lemma DayMonthYearAtSound(s: string, p: nat)
    requires DayMonthYearAt(s, p).Some?
    ensures var m := DayMonthYearAt(s, p).value; OccursAt(s, m, p) && IsDayMonthYear(m)
  {
    var q := if p + 1 < |s| && IsDigit(s[p + 1]) then p + 2 else p + 1;
    var r := LowerRunEnd(s, q + 4);
    var d, l := q - p, r - (q + 4);
    DayDigitsRun(s, p, d);
    DayMonthYearFromGuards(s, p, d, l);
  }

  /** The day digits the matcher takes at `p` form a digit run. */
  lemma DayDigitsRun(s: string, p: nat, d: nat)
    requires p < |s| && IsDigit(s[p])
    requires d == (if p + 1 < |s| && IsDigit(s[p + 1]) then 2 else 1)
    ensures AllDigits(s[p..p + d])
  {
    assert s[p..p + d][0] == s[p];
    if d == 2 {
      assert s[p..p + d][1] == s[p + 1];
    }
  }

  /** A text that passes each test of the first pattern at `p` holds a match there. */
  lemma DayMonthYearFromGuards(s: string, p: nat, d: nat, l: nat)
    requires p + d + 9 + l <= |s|
    requires AllDigits(s[p..p + d]) && IsSpace(s[p + d]) && IsMonthAbbreviation(s[p + d + 1..p + d + 4])
    requires AllLower(s[p + d + 4..p + d + 4 + l]) && IsSpace(s[p + d + 4 + l])
    requires AllDigits(s[p + d + 5 + l..p + d + 9 + l])
    ensures DayMonthYearWith(s[p..p + d + 9 + l], d, l)
  {
    var e := p + d + 9 + l;
    var m := s[p..e];
    SliceOfSlice(s, p, e, 0, d);
    SliceOfSlice(s, p, e, d + 1, d + 4);
    SliceOfSlice(s, p, e, d + 4, d + 4 + l);
    SliceOfSlice(s, p, e, d + 5 + l, |m|);
    assert m[d + 5 + l..] == m[d + 5 + l..|m|];
    assert m[d] == s[p + d] && m[d + 4 + l] == s[p + d + 4 + l];
  }

  lemma DayMonthYearAtComplete(s: string, p: nat, m: string)
    requires OccursAt(s, m, p) && IsDayMonthYear(m)
    ensures DayMonthYearAt(s, p) == Some(m)
  {
    var d: nat, l: nat :| 1 <= d <= 2 && DayMonthYearWith(m, d, l);
    var q, r := p + d, p + d + 4 + l;
    DayDigitsGuard(s, p, m, d, l, q);
    MonthYearGuard(s, p, m, d, l, q, r);
    DayMonthYearAtFrom(s, p, q, r);
  }

  /** The first matcher at `p`, once its day digits end at `q` and its letter run at `r`. */
  lemma DayMonthYearAtFrom(s: string, p: nat, q: nat, r: nat)
    requires p < |s| && IsDigit(s[p]) && q == (if p + 1 < |s| && IsDigit(s[p + 1]) then p + 2 else p + 1)
    requires q + 4 <= r && r + 5 <= |s| && IsSpace(s[q]) && IsMonthAbbreviation(s[q + 1..q + 4])
    requires LowerRunEnd(s, q + 4) == r && IsSpace(s[r]) && AllDigits(s[r + 1..r + 5])
    ensures DayMonthYearAt(s, p) == Some(s[p..r + 5])
  {
  }

  /** On a full match at `p`, the matcher's day digits are those of the match. */
  lemma DayDigitsGuard(s: string, p: nat, m: string, d: nat, l: nat, q: nat)
    requires OccursAt(s, m, p) && 1 <= d <= 2 && DayMonthYearWith(m, d, l) && q == p + d
    ensures p < |s| && IsDigit(s[p])
    ensures q == (if p + 1 < |s| && IsDigit(s[p + 1]) then p + 2 else p + 1)
  {
    assert s[p..p + |m|] == m;
    assert s[p] == m[..d][0];
    if d == 2 {
      assert s[p + 1] == m[..d][1];
    } else {
      assert s[p + 1] == m[1];
    }
  }

  /** On a full match at `p` with `d` day digits, ending at `q`, and `l` letters after
      the abbreviation, ending at `r`, the matcher's remaining tests pass and its match is `m`. */
  lemma MonthYearGuard(s: string, p: nat, m: string, d: nat, l: nat, q: nat, r: nat)
    requires OccursAt(s, m, p) && 1 <= d <= 2 && DayMonthYearWith(m, d, l)
    requires q == p + d && r == q + 4 + l
    ensures q + 4 <= r && r + 5 <= |s| && s[p..r + 5] == m
    ensures IsSpace(s[q]) && IsMonthAbbreviation(s[q + 1..q + 4])
    ensures LowerRunEnd(s, q + 4) == r
    ensures IsSpace(s[r]) && AllDigits(s[r + 1..r + 5])
  {
    assert s[q] == m[d];
    AbbreviationAt(s, p, m, d, q);
    LettersAt(s, p, m, d, l, q, r);
    YearAt(s, p, m, d, l, r);
  }

  lemma AbbreviationAt(s: string, p: nat, m: string, d: nat, q: nat)
    requires OccursAt(s, m, p) && d + 4 <= |m| && q == p + d && IsMonthAbbreviation(m[d + 1..d + 4])
    ensures IsMonthAbbreviation(s[q + 1..q + 4])
  {
    SliceOfSlice(s, p, p + |m|, d + 1, d + 4);
  }

  lemma LettersAt(s: string, p: nat, m: string, d: nat, l: nat, q: nat, r: nat)
    requires OccursAt(s, m, p) && d + 5 + l <= |m| && q == p + d && r == q + 4 + l
    requires AllLower(m[d + 4..d + 4 + l]) && IsSpace(m[d + 4 + l])
    ensures LowerRunEnd(s, q + 4) == r
  {
    SliceOfSlice(s, p, p + |m|, d + 4, d + 4 + l);
    assert s[r] == m[d + 4 + l];
    LowerRunEndUnique(s, q + 4, r);
  }

  lemma YearAt(s: string, p: nat, m: string, d: nat, l: nat, r: nat)
    requires OccursAt(s, m, p) && |m| == d + l + 9 && r == p + d + 4 + l
    requires IsSpace(m[d + 4 + l]) && AllDigits(m[d + 5 + l..])
    ensures r + 5 <= |s| && s[p..r + 5] == m && IsSpace(s[r]) && AllDigits(s[r + 1..r + 5])
  {
    SliceOfSlice(s, p, p + |m|, d + 5 + l, |m|);
    assert m[d + 5 + l..] == m[d + 5 + l..|m|];
    assert s[r] == m[d + 4 + l];
  }

  /** The first matcher finds exactly the full matches of the first pattern. */
  lemma DayMonthYearAtMatches(s: string, p: nat, m: string)
    ensures DayMonthYearAt(s, p) == Some(m) <==> OccursAt(s, m, p) && IsDayMonthYear(m)
  {
    if DayMonthYearAt(s, p) == Some(m) {
      DayMonthYearAtSound(s, p);
    }
    if OccursAt(s, m, p) && IsDayMonthYear(m) {
      DayMonthYearAtComplete(s, p, m);
    }
  }

  /** Each month name starts with its abbreviation, and the abbreviations differ,
      so no name is a prefix of another. */
  lemma MonthNamesDiffer(i: nat, j: nat)
    requires i < |MonthNames| && j < |MonthNames| && i != j
    ensures MonthNames[i][..3] != MonthNames[j][..3]
  {
    assert forall k :: 0 <= k < |MonthNames| ==> MonthNames[k][..3] == MonthAbbreviations[k];
  }

  lemma MonthNameUnique(s: string, p: nat, i: nat, j: nat)
    requires i < |MonthNames| && j < |MonthNames|
    requires OccursAt(s, MonthNames[i], p) && OccursAt(s, MonthNames[j], p)
    ensures i == j
  {
    assert MonthNames[i][..3] == s[p..p + 3] == MonthNames[j][..3];
    if i != j {
      MonthNamesDiffer(i, j);
    }
  }

  lemma DayCommaYearAtSound(s: string, p: nat, n: nat) returns (d: nat)
    requires DayCommaYearAt(s, p, p + n).Some?
    ensures var m := DayCommaYearAt(s, p, p + n).value;
            OccursAt(s, m, p) && 1 <= d <= 2 && DayCommaYearWith(m, n, d)
  {
    var q := p + n;
    var c := if q + 2 < |s| && IsDigit(s[q + 2]) then q + 3 else q + 2;
    var e := c + 6;
    d := c - q - 1;
    var m := s[p..e];
    assert DayCommaYearAt(s, p, p + n).value == m;
    SliceOfSlice(s, p, e, n + 1, n + 1 + d);
    assert AllDigits(m[n + 1..n + 1 + d]);
    SliceOfSlice(s, p, e, n + 3 + d, |m|);
    assert AllDigits(m[n + 3 + d..]);
    assert DayCommaYearWith(m, n, d);
  }

  /** A match that starts with `name` at `p` has `name` as its prefix. */
  lemma NamePrefix(s: string, p: nat, name: string, m: string)
    requires OccursAt(s, name, p) && OccursAt(s, m, p) && |name| <= |m|
    ensures m[..|name|] == name
  {
    SliceOfSlice(s, p, p + |m|, 0, |name|);
  }

  lemma MonthDayYearFrom(m: string, k: nat, name: string, d: nat)
    requires k < |MonthNames| && name == MonthNames[k] && 1 <= d <= 2
    requires DayCommaYearWith(m, |name|, d) && m[..|name|] == name
    ensures IsMonthDayYear(m)
  {
    assert MonthDayYearWith(m, k, d);
  }

  lemma MonthDayYearAtSound(s: string, p: nat)
    requires MonthDayYearAt(s, p).Some?
    ensures var m := MonthDayYearAt(s, p).value; OccursAt(s, m, p) && IsMonthDayYear(m)
  {
    var k := MonthNameAt(s, p, 0).value;
    var name := MonthNames[k];
    var n := |name|;
    assert MonthDayYearAt(s, p) == DayCommaYearAt(s, p, p + n);
    var d := DayCommaYearAtSound(s, p, n);
    var m := DayCommaYearAt(s, p, p + n).value;
    NamePrefix(s, p, name, m);
    MonthDayYearFrom(m, k, name, d);
  }

  lemma DayCommaYearAtComplete(s: string, p: nat, m: string, n: nat, d: nat)
    requires OccursAt(s, m, p) && 1 <= d <= 2 && DayCommaYearWith(m, n, d)
    ensures DayCommaYearAt(s, p, p + n) == Some(m)
  {
    var e := p + |m|;
    var q := p + n;
    assert s[p..e] == m;
    assert IsSpace(s[q]);
    assert IsDigit(s[q + 1]) by { assert IsDigit(m[n + 1..n + 1 + d][0]); }
    var c := q + 1 + d;
    assert c == (if q + 2 < |s| && IsDigit(s[q + 2]) then q + 3 else q + 2) by {
      if d == 2 {
        assert IsDigit(m[n + 1..n + 1 + d][1]);
      } else {
        assert s[q + 2] == m[n + 2] == ',';
      }
    }
    assert s[c] == m[n + 1 + d] == ',';
    assert IsSpace(s[c + 1]) by { assert s[c + 1] == m[n + 2 + d]; }
    assert AllDigits(s[c + 2..c + 6]) by {
      assert m[n + 3 + d..] == m[n + 3 + d..|m|];
      SliceOfSlice(s, p, e, n + 3 + d, |m|);
    }
  }

  lemma MonthDayYearAtComplete(s: string, p: nat, m: string)
    requires OccursAt(s, m, p) && IsMonthDayYear(m)
    ensures MonthDayYearAt(s, p) == Some(m)
  {
    var k: nat, d: nat :| 1 <= d <= 2 && MonthDayYearWith(m, k, d);
    var name := MonthNames[k];
    PrefixOccurs(s, p, name, m);
    MonthNameAtFinds(s, p, k);
    DayCommaYearAtComplete(s, p, m, |name|, d);
  }

  /** A prefix of a match at `p` occurs at `p`. */
  lemma PrefixOccurs(s: string, p: nat, name: string, m: string)
    requires OccursAt(s, m, p) && |name| <= |m| && m[..|name|] == name
    ensures OccursAt(s, name, p)
  {
    SliceOfSlice(s, p, p + |m|, 0, |name|);
  }

  /** The month-name alternation picks the one month name that occurs at `p`. */
  lemma MonthNameAtFinds(s: string, p: nat, k: nat)
    requires k < |MonthNames| && OccursAt(s, MonthNames[k], p)
    ensures MonthNameAt(s, p, 0) == Some(k)
  {
    var k' := MonthNameAt(s, p, 0).value;
    MonthNameUnique(s, p, k, k');
  }

  /** The second matcher finds exactly the full matches of the second pattern. */
  lemma MonthDayYearAtMatches(s: string, p: nat, m: string)
    ensures MonthDayYearAt(s, p) == Some(m) <==> OccursAt(s, m, p) && IsMonthDayYear(m)
  {
    if MonthDayYearAt(s, p) == Some(m) {
      MonthDayYearAtSound(s, p);
    }
    if OccursAt(s, m, p) && IsMonthDayYear(m) {
      MonthDayYearAtComplete(s, p, m);
    }
  }

  // ---------------------------------------------------------------- extract_date

  /** No full match of the first pattern starts before `i`. */
  ghost predicate NoDayMonthYearBefore(s: string, i: int) {
    forall k, m :: 0 <= k < i && OccursAt(s, m, k) ==> !IsDayMonthYear(m)
  }

  ghost predicate NoMonthDayYearBefore(s: string, i: int) {
    forall k, m :: 0 <= k < i && OccursAt(s, m, k) ==> !IsMonthDayYear(m)
  }

  lemma NoDayMonthYearMatcher(s: string, i: nat)
    requires NoDayMonthYearBefore(s, i)
    ensures forall k :: 0 <= k < i ==> DayMonthYearAt(s, k).None?
  {
    forall k | 0 <= k < i ensures DayMonthYearAt(s, k).None? {
      if DayMonthYearAt(s, k).Some? {
        DayMonthYearAtSound(s, k);
      }
    }
  }

  lemma NoMonthDayYearMatcher(s: string, i: nat)
    requires NoMonthDayYearBefore(s, i)
    ensures forall k :: 0 <= k < i ==> MonthDayYearAt(s, k).None?
  {
    forall k | 0 <= k < i ensures MonthDayYearAt(s, k).None? {
      if MonthDayYearAt(s, k).Some? {
        MonthDayYearAtSound(s, k);
      }
    }
  }

  /** A search from `p` stops at the first position where `at` matches. */
  lemma {:induction false} SearchFindsFirst(s: string, p: nat, at: (string, nat) -> Option<string>, i: nat, m: string)
    requires p <= i <= |s| && at(s, i) == Some(m)
    requires forall k :: p <= k < i ==> at(s, k).None?
    ensures Search(s, p, at) == Some((i, m))
    decreases i - p
  {
    if p < i {
      SearchFindsFirst(s, p + 1, at, i, m);
    }
  }

  /** When the day-month-year shape occurs, its leftmost occurrence decides the date,
      whatever the other shape does. */
  lemma ExtractDateFirstShape(s: string, normalize: Normalizer, i: nat, m: string)
    requires OccursAt(s, m, i) && IsDayMonthYear(m)
    requires NoDayMonthYearBefore(s, i)
    ensures ExtractDate(s, normalize) == normalize(m)
  {
    DayMonthYearAtComplete(s, i, m);
    NoDayMonthYearMatcher(s, i);
    SearchFindsFirst(s, 0, DayMonthYearAt, i, m);
  }

  /** The month-day-year shape is consulted only when the first shape occurs nowhere. */
  lemma ExtractDateSecondShape(s: string, normalize: Normalizer, i: nat, m: string)
    requires NoDayMonthYearBefore(s, |s| + 1)
    requires OccursAt(s, m, i) && IsMonthDayYear(m)
    requires NoMonthDayYearBefore(s, i)
    ensures ExtractDate(s, normalize) == normalize(m)
  {
    NoDayMonthYearMatcher(s, |s| + 1);
    assert Search(s, 0, DayMonthYearAt).None?;
    MonthDayYearAtComplete(s, i, m);
    NoMonthDayYearMatcher(s, i);
    SearchFindsFirst(s, 0, MonthDayYearAt, i, m);
  }

  /** A sentence with neither shape has no date. */
  lemma ExtractDateNoShape(s: string, normalize: Normalizer)
    requires NoDayMonthYearBefore(s, |s| + 1) && NoMonthDayYearBefore(s, |s| + 1)
    ensures ExtractDate(s, normalize) == None
  {
    NoDayMonthYearMatcher(s, |s| + 1);
    NoMonthDayYearMatcher(s, |s| + 1);
  }

  /** Every date found is the normaliser's reading of a substring of one of the two shapes. */
  lemma ExtractDateFromShape(s: string, normalize: Normalizer)
    requires ExtractDate(s, normalize).Some?
    ensures exists i, m :: OccursAt(s, m, i) && (IsDayMonthYear(m) || IsMonthDayYear(m))
                           && ExtractDate(s, normalize) == normalize(m)
  {
    match Search(s, 0, DayMonthYearAt)
    case Some((i, m)) =>
      DayMonthYearAtSound(s, i);
    case None =>
      var (i, m) := Search(s, 0, MonthDayYearAt).value;
      MonthDayYearAtSound(s, i);
  }

  /** Three dates written in the two shapes. */
  lemma ExampleShapes()
    ensures IsDayMonthYear("5 Jan 2020")
    ensures IsMonthDayYear("January 5, 2020")
    ensures IsDayMonthYear("12 March 2021")
  {
    assert "5 Jan 2020"[2..5] == "Jan";
    assert DayMonthYearWith("5 Jan 2020", 1, 0);
    assert MonthDayYearWith("January 5, 2020", 0, 1);
    assert "12 March 2021"[3..6] == "Mar";
    assert DayMonthYearWith("12 March 2021", 2, 2);
  }

  // ---------------------------------------------------------------- YYYY-MM-DD

  function Pow10(n: nat): nat {
    if n == 0 then 1 else 10 * Pow10(n - 1)
  }

  function DigitChar(d: int): char
    requires 0 <= d < 10
  {
    ('0' as int + d) as char
  }

  /** `n` in decimal, zero-padded (or cut) to `width` digits. */
  function Pad(n: nat, width: nat): (r: string)
    ensures |r| == width
  {
    if width == 0 then [] else Pad(n / 10, width - 1) + [DigitChar(n % 10)]
  }

  /** A string of decimal digits read as a number. */
  function Value(ds: string): int
  {
    if ds == [] then 0 else 10 * Value(ds[..|ds| - 1]) + (ds[|ds| - 1] as int - '0' as int)
  }

  /** A number below `10^width` is padded to digits that read back as the number. */
  lemma {:induction false} PadReadsBack(n: nat, width: nat)
    requires n < Pow10(width)
    ensures AllDigits(Pad(n, width)) && Value(Pad(n, width)) == n
  {
    if width > 0 {
      PadReadsBack(n / 10, width - 1);
      var r := Pad(n, width);
      assert r[..width - 1] == Pad(n / 10, width - 1);
      assert r[width - 1] == DigitChar(n % 10);
    }
  }

  /** `strftime("%Y-%m-%d")`. */
  function IsoDate(d: CalendarDate): (r: string)
    ensures |r| == 10
  {
    Pad(d.year, 4) + "-" + Pad(d.month, 2) + "-" + Pad(d.day, 2)
  }

  /** Zero-padded numbers of one width compare as strings the way they compare as numbers. */
  lemma {:induction false} PadOrder(a: nat, b: nat, w: nat)
    requires a < Pow10(w) && b < Pow10(w)
    ensures StrLe(Pad(a, w), Pad(b, w)) <==> a <= b
    ensures Pad(a, w) == Pad(b, w) <==> a == b
  {
    if w > 0 {
      PadOrder(a / 10, b / 10, w - 1);
      var ca, cb := DigitChar(a % 10), DigitChar(b % 10);
      StrLeAppend(Pad(a / 10, w - 1), Pad(b / 10, w - 1), [ca], [cb]);
      assert StrLe([ca], [cb]) <==> a % 10 <= b % 10 by {
        assert [ca][1..] == [] && [cb][1..] == [];
      }
      if Pad(a, w) == Pad(b, w) {
        assert Pad(a / 10, w - 1) == Pad(a, w)[..w - 1] == Pad(b / 10, w - 1);
        assert ca == Pad(a, w)[w - 1] == cb;
      }
    } else {
      assert a == 0 && b == 0;
    }
  }

  /** The rendering is four year digits, a dash, two month digits, a dash and two day
      digits, and each group reads back as the date's own field. */
  lemma IsoDateFormat(d: CalendarDate)
    ensures IsoDate(d)[4] == '-' && IsoDate(d)[7] == '-'
    ensures AllDigits(IsoDate(d)[..4]) && AllDigits(IsoDate(d)[5..7]) && AllDigits(IsoDate(d)[8..])
    ensures Value(IsoDate(d)[..4]) == d.year
    ensures Value(IsoDate(d)[5..7]) == d.month
    ensures Value(IsoDate(d)[8..]) == d.day
  {
    var r := IsoDate(d);
    PadReadsBack(d.year, 4);
    PadReadsBack(d.month, 2);
    PadReadsBack(d.day, 2);
    assert r[..4] == Pad(d.year, 4);
    assert r[5..7] == Pad(d.month, 2);
    assert r[8..] == Pad(d.day, 2);
  }

  lemma IsoDateSplit(d: CalendarDate)
    ensures IsoDate(d) == Pad(d.year, 4) + ("-" + (Pad(d.month, 2) + ("-" + Pad(d.day, 2))))
  {
  }

  /** The `YYYY-MM-DD` text of two dates compares as strings exactly as the dates
      compare chronologically, and distinct dates have distinct texts. */
  lemma IsoDateOrder(a: CalendarDate, b: CalendarDate)
    ensures StrLe(IsoDate(a), IsoDate(b)) <==> DateLe(a, b)
    ensures IsoDate(a) == IsoDate(b) <==> a == b
  {
    PadOrder(a.year, b.year, 4);
    PadOrder(a.month, b.month, 2);
    PadOrder(a.day, b.day, 2);
    IsoDateSplit(a);
    IsoDateSplit(b);
    var ya, yb := Pad(a.year, 4), Pad(b.year, 4);
    var ma, mb := Pad(a.month, 2), Pad(b.month, 2);
    var da, db := Pad(a.day, 2), Pad(b.day, 2);
    StrLeAppend(ya, yb, "-" + (ma + ("-" + da)), "-" + (mb + ("-" + db)));
    StrLeAppend("-", "-", ma + ("-" + da), mb + ("-" + db));
    StrLeAppend(ma, mb, "-" + da, "-" + db);
    StrLeAppend("-", "-", da, db);
    if IsoDate(a) == IsoDate(b) {
      assert ya == IsoDate(a)[..4] == yb;
      assert ma == IsoDate(a)[5..7] == mb;
      assert da == IsoDate(a)[8..] == db;
    }
  }
}
