/** Person-name heuristics (`extract_person_names`, app.py:148-172, and
    `extract_persons_from_sentence`, app.py:175-185). Names are runs of capitalised
    words found by hand-written matchers for the application's three patterns:
    the generic `\b([A-Z][a-z]+(?:\s+[A-Z][a-z]+){0,4})\b`, and the two party
    patterns `X\s+(?:vs|v\.|versus|VS|V\.)\s+Y` and `X\s+and\s+Y`, whose groups are
    `[A-Z][a-z]+(?:\s+[A-Z][a-z]+)*` matched with `re.IGNORECASE`. */
module Persons {
  import opened Wrappers
  import opened Text
  import opened Sorting

  /** At most this many words in a generic name: one, then `{0,4}` more. */
  const MaxNameWords: nat := 5

  /** A name is kept only when it is longer than this. */
  const MinNameLength: nat := 2

  /** The alternatives of the first party pattern, in order. */
  const VersusSeparators: seq<string> := ["vs", "v.", "versus", "VS", "V."]

  /** The only alternative of the second party pattern. */
  const AndSeparators: seq<string> := ["and"]

  /** The party patterns in the order they are run. */
  const PartyPatterns: seq<seq<string>> := [VersusSeparators, AndSeparators]

  // ---------------------------------------------------------------- words and runs

  /** The `[a-z]` of a word: lower-case, or under IGNORECASE any letter. */
  predicate IsTailLetter(c: char, ignoreCase: bool) {
    if ignoreCase then IsLetter(c) else IsLower(c)
  }

  /** A word of the patterns: `[A-Z][a-z]+`; under IGNORECASE two or more letters. */
  predicate IsWord(w: string, ignoreCase: bool) {
    |w| >= 2 && (if ignoreCase then AllLetters(w) else IsUpper(w[0]) && AllLower(w[1..]))
  }

  /** Words separated by runs of whitespace, at most `n` of them. */
  ghost predicate IsRun(m: string, n: nat, ignoreCase: bool)
    decreases n
  {
    && n >= 1
    && (|| IsWord(m, ignoreCase)
        || exists i, j {:trigger IsWord(m[..i], ignoreCase), AllSpace(m[i..j])} ::
             0 < i < j < |m| && IsWord(m[..i], ignoreCase) && AllSpace(m[i..j])
                          && IsRun(m[j..], n - 1, ignoreCase))
  }

  /** A generic name: one to five capitalised words separated by whitespace. */
  ghost predicate IsName(m: string) {
    IsRun(m, MaxNameWords, false)
  }

  /** A party name: letter words separated by whitespace, any number of them. */
  ghost predicate IsPartyName(m: string) {
    exists n :: IsRun(m, n, true)
  }

  // ---------------------------------------------------------------- matchers

  /** A word at `i`: its end. The `[a-z]+` can only succeed maximally, because what
      follows a word in every pattern (whitespace, a word boundary or the end of the
      pattern) cannot come right after a letter the run gave back. */
  function WordEnd(s: string, i: nat, ignoreCase: bool): (r: Option<nat>)
    requires i <= |s|
    ensures r.Some? ==> i + 2 <= r.value <= |s| && IsWord(s[i..r.value], ignoreCase)
    ensures r.Some? ==> r.value == |s| || !IsTailLetter(s[r.value], ignoreCase)
  {
    if ignoreCase then
      if i + 1 < |s| && IsLetter(s[i]) && IsLetter(s[i + 1]) then
        var e := LetterRunEnd(s, i + 1);
        assert forall k :: 0 <= k < e - i ==> IsLetter(s[i..e][k]) by {
          forall k | 0 <= k < e - i ensures IsLetter(s[i..e][k]) {
            if k > 0 { assert s[i..e][k] == s[i + 1..e][k - 1]; }
          }
        }
        Some(e)
      else None
    else
      if i + 1 < |s| && IsUpper(s[i]) && IsLower(s[i + 1]) then
        var e := LowerRunEnd(s, i + 1);
        assert s[i..e][1..] == s[i + 1..e];
        Some(e)
      else None
  }

  /** Up to `k` repetitions of `\s+` and a word after `e`, taken greedily: their
      ends. A `\s+` can only succeed maximally, because a word cannot start with
      whitespace. */
  function ChainFrom(s: string, e: nat, k: nat, ignoreCase: bool): (r: seq<nat>)
    requires e <= |s|
    ensures |r| <= k
    ensures forall i :: 0 <= i < |r| ==> e < r[i] <= |s|
    ensures forall i, j :: 0 <= i < j < |r| ==> r[i] < r[j]
    ensures forall i :: 0 <= i < |r| ==> r[i] == |s| || !IsTailLetter(s[r[i]], ignoreCase)
    decreases k
  {
    if k == 0 then []
    else
      var j := SpaceRunEnd(s, e);
      if j == e then []
      else match WordEnd(s, j, ignoreCase)
        case None => []
        case Some(w) => [w] + ChainFrom(s, w, k - 1, ignoreCase)
  }

  /** The last element of a non-empty sequence. */
  function Last(xs: seq<nat>): nat
    requires xs != []
  {
    xs[|xs| - 1]
  }

  /** `\b` at `i`: a word character on exactly one side. */
  predicate BoundaryAt(s: string, i: nat)
    requires i <= |s|
  {
    (i > 0 && IsWordChar(s[i - 1])) != (i < |s| && IsWordChar(s[i]))
  }

  /** The generic name pattern anchored at `p`: the end of its match. After the
      greedy words the closing `\b` fails only when the last word runs into an
      upper-case letter, a digit or `_`; the `{0,4}` then gives back one word,
      after which whitespace follows and `\b` holds. With a single word there is
      nothing to give back and the pattern fails at `p`. */
  function NameAt(s: string, p: nat): (r: Option<nat>)
    requires p <= |s|
    ensures r.Some? ==> p < r.value <= |s|
  {
    if !BoundaryAt(s, p) then None
    else match WordEnd(s, p, false)
      case None => None
      case Some(e) =>
        var ends := [e] + ChainFrom(s, e, MaxNameWords - 1, false);
        if BoundaryAt(s, Last(ends)) then Some(Last(ends))
        else if |ends| >= 2 then Some(ends[|ends| - 2])
        else None
  }

  /** `[m.group(1) for m in re.finditer(name_pattern, s)]` from position `p`: after a
      match the scan resumes where it ended. (No match can start at `|s|`.) */
  function NameMatchesFrom(s: string, p: nat): (r: seq<string>)
    requires p <= |s|
    decreases |s| - p
  {
    if p == |s| then []
    else match NameAt(s, p)
      case None => NameMatchesFrom(s, p + 1)
      case Some(e) => [s[p..e]] + NameMatchesFrom(s, e)
  }

  /** Every match `finditer` yields for the generic pattern is a name. */
  lemma {:induction false} NameMatchesAreNames(s: string, p: nat)
    requires p <= |s|
    ensures forall m :: m in NameMatchesFrom(s, p) ==> IsName(m)
    decreases |s| - p
  {
    if p < |s| {
      match NameAt(s, p)
      case None => NameMatchesAreNames(s, p + 1);
      case Some(e) =>
        NameAtSound(s, p);
        NameMatchesAreNames(s, e);
    }
  }

  function NameMatches(s: string): seq<string> {
    NameMatchesFrom(s, 0)
  }

  /** Alternative `sep` at `j`, compared ignoring case, then `\s+` and a word: where
      that word starts. */
  function SeparatorThenWord(s: string, j: nat, sep: string): (r: Option<nat>)
    requires j <= |s|
    ensures r.Some? ==> j + |sep| < r.value <= |s| && WordEnd(s, r.value, true).Some?
  {
    if j + |sep| <= |s| && Lower(s[j..j + |sep|]) == Lower(sep) then
      var t := j + |sep|;
      var u := SpaceRunEnd(s, t);
      if u > t && WordEnd(s, u, true).Some? then Some(u) else None
    else None
  }

  /** The first alternative, from `k` on, that lets the pattern go on at `j`, with the
      start of the second group. */
  function FirstSeparator(s: string, j: nat, seps: seq<string>, k: nat): (r: Option<(nat, nat)>)
    requires j <= |s|
    ensures r.Some? ==> k <= r.value.0 < |seps| && SeparatorThenWord(s, j, seps[r.value.0]) == Some(r.value.1)
    ensures r.Some? ==> forall k' :: k <= k' < r.value.0 ==> SeparatorThenWord(s, j, seps[k']).None?
    ensures r.None? ==> forall k' :: k <= k' < |seps| ==> SeparatorThenWord(s, j, seps[k']).None?
    decreases |seps| - k
  {
    if k >= |seps| then None
    else match SeparatorThenWord(s, j, seps[k])
      case Some(u) => Some((k, u))
      case None => FirstSeparator(s, j, seps, k + 1)
  }

  /** The greedy chain of words from the word starting at `u`: where it ends. */
  function ChainEnd(s: string, u: nat): (e: nat)
    requires u <= |s| && WordEnd(s, u, true).Some?
    ensures u < e <= |s|
  {
    var w := WordEnd(s, u, true).value;
    var more := ChainFrom(s, w, |s|, true);
    if more == [] then w else Last(more)
  }

  /** After the group end `e`, the greedy whitespace and some alternative followed by
      whitespace and a word: the pattern can go on. */
  predicate ContinuesAt(s: string, e: nat, seps: seq<string>)
    requires e <= |s|
  {
    SpaceRunEnd(s, e) > e && FirstSeparator(s, SpaceRunEnd(s, e), seps, 0).Some?
  }

  /** The first group's `*` backtracking: among the word ends `ends[..n]`, the last after
      which `\s+`, a separator, `\s+` and a word follow. The result is the end of the
      first group and the start and end of the second, which is the whole greedy chain. */
  function SplitParties(s: string, p: nat, ends: seq<nat>, n: nat, seps: seq<string>): (r: Option<(nat, nat, nat)>)
    requires n <= |ends| && forall i :: 0 <= i < |ends| ==> p < ends[i] <= |s|
    ensures r.Some? ==> p < r.value.0 < r.value.1 < r.value.2 <= |s|
    decreases n
  {
    if n == 0 then None
    else
      var e := ends[n - 1];
      if ContinuesAt(s, e, seps) then
        var u := FirstSeparator(s, SpaceRunEnd(s, e), seps, 0).value.1;
        Some((e, u, ChainEnd(s, u)))
      else SplitParties(s, p, ends, n - 1, seps)
  }

  /** A party pattern anchored at `p`. The pattern has no `\b`, so a match may start
      inside a word. */
  function PartyAt(s: string, p: nat, seps: seq<string>): (r: Option<(nat, nat, nat)>)
    requires p <= |s|
    ensures r.Some? ==> p < r.value.0 < r.value.1 < r.value.2 <= |s|
  {
    match WordEnd(s, p, true)
    case None => None
    case Some(e) =>
      var ends := [e] + ChainFrom(s, e, |s|, true);
      SplitParties(s, p, ends, |ends|, seps)
  }

  /** `[m.groups() for m in re.finditer(pattern, s, re.IGNORECASE)]` from `p`. */
  function PartyMatchesFrom(s: string, p: nat, seps: seq<string>): (r: seq<(string, string)>)
    requires p <= |s|
    decreases |s| - p
  {
    if p == |s| then []
    else match PartyAt(s, p, seps)
      case None => PartyMatchesFrom(s, p + 1, seps)
      case Some((e1, b, e2)) => [(s[p..e1], s[b..e2])] + PartyMatchesFrom(s, e2, seps)
  }

  function PartyMatches(s: string, seps: seq<string>): seq<(string, string)> {
    PartyMatchesFrom(s, 0, seps)
  }

  // ---------------------------------------------------------------- collected names

  /** What `if group and len(group.strip()) > 2: names.add(group.strip())` adds. */
  function Accept(g: string): set<string> {
    var t := Trim(g);
    if |t| > MinNameLength then {t} else {}
  }

  /** The names the generic-pattern loop adds for the matches `ms`. */
  function NamesOf(ms: seq<string>): set<string> {
    if ms == [] then {} else NamesOf(ms[..|ms| - 1]) + Accept(ms[|ms| - 1])
  }

  /** The names a party-pattern loop adds for the matches `ms`, both groups of each. */
  function GroupNames(ms: seq<(string, string)>): set<string> {
    if ms == [] then {}
    else GroupNames(ms[..|ms| - 1]) + Accept(ms[|ms| - 1].0) + Accept(ms[|ms| - 1].1)
  }

  lemma NamesOfStep(ms: seq<string>, i: nat)
    requires i < |ms|
    ensures NamesOf(ms[..i + 1]) == NamesOf(ms[..i]) + Accept(ms[i])
  {
    assert ms[..i + 1][..i] == ms[..i];
  }

  lemma GroupNamesStep(ms: seq<(string, string)>, i: nat)
    requires i < |ms|
    ensures GroupNames(ms[..i + 1]) == GroupNames(ms[..i]) + Accept(ms[i].0) + Accept(ms[i].1)
  {
    assert ms[..i + 1][..i] == ms[..i];
  }

  /** The set `extract_persons_from_sentence` builds. */
  function SentenceNames(s: string): set<string> {
    NamesOf(NameMatches(s))
  }

  /** The names the first `k` party patterns contribute. */
  function PartyNamesUpTo(s: string, k: nat): set<string>
    requires k <= |PartyPatterns|
  {
    if k == 0 then {} else PartyNamesUpTo(s, k - 1) + GroupNames(PartyMatches(s, PartyPatterns[k - 1]))
  }

  /** The set `extract_person_names` builds. */
  function DocumentNames(s: string): set<string> {
    PartyNamesUpTo(s, |PartyPatterns|) + SentenceNames(s)
  }

  // ---------------------------------------------------------------- the two extractors

  /** `list(names)`: the elements of a set, each once, in an unspecified order. */
  method ListOf(names: set<string>) returns (xs: seq<string>)
    ensures forall x :: x in xs <==> x in names
    ensures Distinct(xs)
    ensures |xs| == |names|
  {
    xs := [];
    var rest := names;
    while rest != {}
      invariant forall x :: x in names <==> x in rest || x in xs
      invariant forall x :: x in rest ==> x !in xs
      invariant Distinct(xs)
      invariant |xs| + |rest| == |names|
      decreases |rest|
    {
      var x :| x in rest;
      xs := xs + [x];
      rest := rest - {x};
    }
  }

  /** `if group and len(group.strip()) > 2: names.add(group.strip())`. */
  method AddIfLong(found: set<string>, group: string) returns (result: set<string>)
    ensures result == found + Accept(group)
    ensures result == found || (|Trim(group)| > MinNameLength && result == found + {Trim(group)})
  {
    result := found;
    var name := Trim(group);
    if |name| > MinNameLength {
      result := result + {name};
    }
  }

  /** `extract_persons_from_sentence(sentence)`: every name the generic pattern finds
      that is longer than two characters, each once; the order is that of the set. */
  method ExtractPersonsFromSentence(sentence: string) returns (persons: seq<string>)
    ensures forall n :: n in persons <==> n in SentenceNames(sentence)
    ensures Distinct(persons)
    ensures forall n :: n in persons ==> |n| > MinNameLength && IsName(n)
  {
    var found: set<string> := {};
    var matches := NameMatches(sentence);
    for i := 0 to |matches|
      invariant found == NamesOf(matches[..i])
    {
      NamesOfStep(matches, i);
      found := AddIfLong(found, matches[i]);
    }
    assert matches[..|matches|] == matches;
    SentenceNamesAreNames(sentence);
    persons := ListOf(found);
  }

  /** The body of a party-pattern loop: both groups of every match, stripped, when
      longer than two characters, go into `found`. */
  method AddGroupNames(found: set<string>, matches: seq<(string, string)>) returns (result: set<string>)
    ensures result == found + GroupNames(matches)
  {
    result := found;
    for i := 0 to |matches|
      invariant result == found + GroupNames(matches[..i])
    {
      GroupNamesStep(matches, i);
      result := AddIfLong(result, matches[i].0);
      result := AddIfLong(result, matches[i].1);
    }
    assert matches[..|matches|] == matches;
  }

  /** The body of the generic-pattern loop: every match, stripped, when longer than two
      characters, goes into `found`. */
  method AddNames(found: set<string>, matches: seq<string>) returns (result: set<string>)
    ensures result == found + NamesOf(matches)
  {
    result := found;
    for i := 0 to |matches|
      invariant result == found + NamesOf(matches[..i])
    {
      NamesOfStep(matches, i);
      result := AddIfLong(result, matches[i]);
    }
    assert matches[..|matches|] == matches;
  }

  /** `extract_person_names(text)`: the names of both party patterns and of the generic
      pattern, longer than two characters, each once, in increasing order. */
  method ExtractPersonNames(text: string) returns (names: seq<string>)
    ensures StrictlyIncreasing(names)
    ensures forall n :: n in names <==> n in DocumentNames(text)
    ensures forall n :: n in SentenceNames(text) ==> n in names
    ensures forall n :: n in names ==> |n| > MinNameLength
  {
    var found: set<string> := {};
    for k := 0 to |PartyPatterns|
      invariant found == PartyNamesUpTo(text, k)
    {
      found := AddGroupNames(found, PartyMatches(text, PartyPatterns[k]));
    }
    found := AddNames(found, NameMatches(text));
    DocumentNamesAreLong(text);
    var list := ListOf(found);
    SortDistinctStrings(list);
    names := SortBy(list, Identity);
    assert forall n :: n in names <==> n in multiset(list);
  }

  // ---------------------------------------------------------------- lemmas about runs

  lemma {:induction false} RunMonotone(m: string, n: nat, n': nat, ignoreCase: bool)
    requires IsRun(m, n, ignoreCase) && n <= n'
    ensures IsRun(m, n', ignoreCase)
    decreases n
  {
    if !IsWord(m, ignoreCase) {
      var i, j :| 0 < i < j < |m| && IsWord(m[..i], ignoreCase) && AllSpace(m[i..j])
                  && IsRun(m[j..], n - 1, ignoreCase);
      RunMonotone(m[j..], n - 1, n' - 1, ignoreCase);
      RunStep(m, i, j, n', ignoreCase);
    }
  }

  /** A word, whitespace and a run of at most `n - 1` words form a run of at most `n`. */
  lemma RunStep(m: string, i: nat, j: nat, n: nat, ignoreCase: bool)
    requires 0 < i < j < |m| && n >= 1
    requires IsWord(m[..i], ignoreCase) && AllSpace(m[i..j]) && IsRun(m[j..], n - 1, ignoreCase)
    ensures IsRun(m, n, ignoreCase)
  {
  }

  /** A run starts and ends with a letter; a generic name starts with an upper-case
      letter followed by a lower-case one. */
  lemma {:induction false} RunShape(m: string, n: nat, ignoreCase: bool)
    requires IsRun(m, n, ignoreCase)
    ensures |m| >= 2 && IsLetter(m[0]) && IsLetter(m[|m| - 1])
    ensures !ignoreCase ==> IsUpper(m[0]) && IsLower(m[1])
    decreases n
  {
    if IsWord(m, ignoreCase) {
      if !ignoreCase {
        assert IsLower(m[1..][|m| - 2]);
        assert IsLower(m[1..][0]);
      }
    } else {
      var i, j :| 0 < i < j < |m| && IsWord(m[..i], ignoreCase) && AllSpace(m[i..j])
                  && IsRun(m[j..], n - 1, ignoreCase);
      RunShape(m[j..], n - 1, ignoreCase);
      assert m[..i][0] == m[0];
      assert m[j..][|m| - j - 1] == m[|m| - 1];
      if !ignoreCase {
        assert m[..i][1..][0] == m[1];
      }
    }
  }

  lemma RunEndsWithLetter(s: string, p: nat, e: nat, n: nat, ignoreCase: bool)
    requires p <= e <= |s| && IsRun(s[p..e], n, ignoreCase)
    ensures p < e && IsWordChar(s[e - 1])
  {
    RunShape(s[p..e], n, ignoreCase);
    assert s[p..e][e - p - 1] == s[e - 1];
  }

  /** Names have no surrounding whitespace, so `.strip()` leaves them alone. */
  lemma RunIsTrimmed(m: string, n: nat, ignoreCase: bool)
    requires IsRun(m, n, ignoreCase)
    ensures Trim(m) == m
  {
    RunShape(m, n, ignoreCase);
    TrimmedIsFixed(m);
  }

  /** A word followed by whitespace and a run is a run with one more word. */
  lemma RunCons(s: string, b: nat, e: nat, j: nat, f: nat, n: nat, ignoreCase: bool)
    requires b < e < j < f <= |s|
    requires IsWord(s[b..e], ignoreCase) && AllSpace(s[e..j]) && IsRun(s[j..f], n, ignoreCase)
    ensures IsRun(s[b..f], n + 1, ignoreCase)
  {
    var m := s[b..f];
    SliceOfSlice(s, b, f, 0, e - b);
    SliceOfSlice(s, b, f, e - b, j - b);
    SliceOfSlice(s, b, f, j - b, f - b);
    assert m[..e - b] == s[b..e];
    assert m[j - b..] == s[j..f];
  }

  /** A non-empty chain is a whitespace run `s[e..j]`, a word `s[j..w]`, and the chain
      after that word. */
  lemma ChainNext(s: string, e: nat, k: nat, ignoreCase: bool, t: nat) returns (j: nat, w: nat)
    requires e <= |s| && t < |ChainFrom(s, e, k, ignoreCase)|
    ensures k > 0 && e < j < w <= |s| && AllSpace(s[e..j]) && IsWord(s[j..w], ignoreCase)
    ensures t == 0 ==> ChainFrom(s, e, k, ignoreCase)[0] == w
    ensures t > 0 ==> t - 1 < |ChainFrom(s, w, k - 1, ignoreCase)|
                      && ChainFrom(s, e, k, ignoreCase)[t] == ChainFrom(s, w, k - 1, ignoreCase)[t - 1]
  {
    j := SpaceRunEnd(s, e);
    w := WordEnd(s, j, ignoreCase).value;
  }

  /** The words of a chain, read from the word `s[b..e]`, form runs: the first `t + 2`
      words end at the chain's `t`-th end `f`. */
  lemma {:induction false} ChainSound(s: string, b: nat, e: nat, k: nat, ignoreCase: bool, t: nat, f: nat)
    requires b < e <= |s| && IsWord(s[b..e], ignoreCase)
    requires t < |ChainFrom(s, e, k, ignoreCase)| && f == ChainFrom(s, e, k, ignoreCase)[t]
    ensures f <= |s| && IsRun(s[b..f], t + 2, ignoreCase)
    decreases k, 1
  {
    var j, w := ChainNext(s, e, k, ignoreCase, t);
    if t == 0 {
      assert IsRun(s[j..w], 1, ignoreCase);
      RunCons(s, b, e, j, w, 1, ignoreCase);
    } else {
      ChainSoundPast(s, b, e, j, w, k, ignoreCase, t, f);
    }
  }

  /** `ChainSound` past the chain's first word `s[j..w]`. */
  lemma {:induction false} ChainSoundPast(s: string, b: nat, e: nat, j: nat, w: nat, k: nat, ignoreCase: bool, t: nat, f: nat)
    requires b < e < j < w <= |s| && k > 0 && t > 0
    requires IsWord(s[b..e], ignoreCase) && AllSpace(s[e..j]) && IsWord(s[j..w], ignoreCase)
    requires t - 1 < |ChainFrom(s, w, k - 1, ignoreCase)| && f == ChainFrom(s, w, k - 1, ignoreCase)[t - 1]
    ensures f <= |s| && IsRun(s[b..f], t + 2, ignoreCase)
    decreases k, 0
  {
    ChainSound(s, j, w, k - 1, ignoreCase, t - 1, f);
    RunCons(s, b, e, j, f, t + 1, ignoreCase);
  }

  /** A first word and the chain after it: the first `t + 1` words form a run. */
  lemma WordsSound(s: string, b: nat, e: nat, k: nat, ignoreCase: bool, t: nat)
    requires b < e <= |s| && IsWord(s[b..e], ignoreCase)
    requires t <= |ChainFrom(s, e, k, ignoreCase)|
    ensures var ends := [e] + ChainFrom(s, e, k, ignoreCase);
            IsRun(s[b..ends[t]], t + 1, ignoreCase)
  {
    var more := ChainFrom(s, e, k, ignoreCase);
    if t == 0 {
      assert IsRun(s[b..e], 1, ignoreCase);
    } else {
      assert ([e] + more)[t] == more[t - 1];
      ChainSound(s, b, e, k, ignoreCase, t - 1, more[t - 1]);
    }
  }

  /** Whitespace follows every word of a chain but the last. */
  lemma {:induction false} ChainGaps(s: string, e: nat, k: nat, ignoreCase: bool)
    requires e <= |s|
    ensures var r := ChainFrom(s, e, k, ignoreCase);
            r != [] ==> e < |s| && IsSpace(s[e])
    ensures var r := ChainFrom(s, e, k, ignoreCase);
            forall t :: 0 <= t < |r| - 1 ==> r[t] < |s| && IsSpace(s[r[t]])
    decreases k
  {
    var r := ChainFrom(s, e, k, ignoreCase);
    if r != [] {
      var j := SpaceRunEnd(s, e);
      var w := WordEnd(s, j, ignoreCase).value;
      var rest := ChainFrom(s, w, k - 1, ignoreCase);
      assert r == [w] + rest;
      ChainGaps(s, w, k - 1, ignoreCase);
      assert IsSpace(s[e..j][0]);
      forall t | 0 <= t < |r| - 1 ensures r[t] < |s| && IsSpace(s[r[t]]) {
        if t > 0 {
          assert r[t] == rest[t - 1];
        }
      }
    }
  }

  /** A star bounded by at least the length of the rest of the text is never stopped
      by the bound: each repetition consumes at least one character. */
  lemma {:induction false} ChainUnbounded(s: string, e: nat, k: nat, k': nat, ignoreCase: bool)
    requires e <= |s| && k >= |s| - e && k' >= |s| - e
    ensures ChainFrom(s, e, k, ignoreCase) == ChainFrom(s, e, k', ignoreCase)
    decreases k
  {
    if k > 0 && k' > 0 {
      var j := SpaceRunEnd(s, e);
      if j > e {
        match WordEnd(s, j, ignoreCase)
        case None =>
        case Some(w) =>
          ChainUnbounded(s, w, k - 1, k' - 1, ignoreCase);
      }
    } else {
      assert SpaceRunEnd(s, e) == e;
    }
  }

  // ---------------------------------------------------------------- lemmas about matches

  /** A generic-pattern match is a name with a word boundary at each end. */
  lemma NameAtSound(s: string, p: nat)
    requires p <= |s| && NameAt(s, p).Some?
    ensures var e := NameAt(s, p).value; IsName(s[p..e]) && BoundaryAt(s, p) && BoundaryAt(s, e)
  {
    var e1 := WordEnd(s, p, false).value;
    var more := ChainFrom(s, e1, MaxNameWords - 1, false);
    var ends := [e1] + more;
    var e := NameAt(s, p).value;
    var t: nat := if e == Last(ends) then |ends| - 1 else |ends| - 2;
    assert e == ends[t];
    NameEndsAt(s, p, e1, more, t);
    if e != Last(ends) {
      ChainGaps(s, e1, MaxNameWords - 1, false);
      GivenBackWordEnd(s, p, e1, more, t);
    }
  }

  /** The words up to the `t`-th end of a name chain form a generic name. */
  lemma NameEndsAt(s: string, p: nat, e1: nat, more: seq<nat>, t: nat)
    requires p < e1 <= |s| && WordEnd(s, p, false) == Some(e1)
    requires more == ChainFrom(s, e1, MaxNameWords - 1, false) && t <= |more|
    ensures ([e1] + more)[t] <= |s| && IsName(s[p..([e1] + more)[t]])
  {
    WordsSound(s, p, e1, MaxNameWords - 1, false, t);
    var f := ([e1] + more)[t];
    assert t + 1 <= MaxNameWords;
    RunMonotone(s[p..f], t + 1, MaxNameWords, false);
    assert IsName(s[p..f]);
  }

  /** When the `{0,4}` gives back the last word, the name ends at a letter followed by
      whitespace, which is a word boundary. */
  lemma GivenBackWordEnd(s: string, p: nat, e1: nat, more: seq<nat>, t: nat)
    requires p < e1 <= |s| && more != [] && t == |more| - 1
    requires forall i :: 0 <= i < |more| ==> e1 < more[i] <= |s|
    requires IsName(s[p..([e1] + more)[t]])
    requires e1 < |s| && IsSpace(s[e1])
    requires forall i :: 0 <= i < |more| - 1 ==> more[i] < |s| && IsSpace(s[more[i]])
    ensures BoundaryAt(s, ([e1] + more)[t])
  {
    var e := ([e1] + more)[t];
    RunEndsWithLetter(s, p, e, MaxNameWords, false);
    if t > 0 {
      assert e == more[t - 1];
    }
    assert IsSpace(s[e]);
  }

  /** The second group, the whole greedy chain of words from `u`, is a party name
      (that no further word follows it is `NameMatching.ChainEndMatches`). */
  lemma ChainEndSound(s: string, u: nat)
    requires u <= |s| && WordEnd(s, u, true).Some?
    ensures IsPartyName(s[u..ChainEnd(s, u)])
  {
    var w := WordEnd(s, u, true).value;
    var more := ChainFrom(s, w, |s|, true);
    WordsSound(s, u, w, |s|, true, |more|);
    assert ([w] + more)[|more|] == ChainEnd(s, u);
  }

  lemma {:induction false} SplitPartiesSound(s: string, p: nat, ends: seq<nat>, n: nat, seps: seq<string>)
    requires n <= |ends| && forall i :: 0 <= i < |ends| ==> p < ends[i] <= |s| && IsPartyName(s[p..ends[i]])
    requires SplitParties(s, p, ends, n, seps).Some?
    ensures var (e1, b, e2) := SplitParties(s, p, ends, n, seps).value;
            IsPartyName(s[p..e1]) && IsPartyName(s[b..e2])
            && (exists k :: 0 <= k < |seps| && Separates(s, e1, b, seps[k]))
    decreases n
  {
    var e := ends[n - 1];
    var j := SpaceRunEnd(s, e);
    var f := if j > e then FirstSeparator(s, j, seps, 0) else None;
    if f.Some? {
      var (k, u) := f.value;
      SeparatorSound(s, e, j, seps[k], u);
    } else {
      SplitPartiesSound(s, p, ends, n - 1, seps);
    }
  }

  /** After the first group's end `e`, whitespace up to `j` and the alternative `sep`:
      the separator spans `s[e..u]` and the second group is a party name. */
  lemma SeparatorSound(s: string, e: nat, j: nat, sep: string, u: nat)
    requires e < j <= |s| && j == SpaceRunEnd(s, e) && SeparatorThenWord(s, j, sep) == Some(u)
    ensures Separates(s, e, u, sep) && IsPartyName(s[u..ChainEnd(s, u)])
  {
    ChainEndSound(s, u);
    var t := j + |sep|;
    assert SpaceRunEnd(s, t) == u;
    assert AllSpace(s[e..j]) && Lower(s[j..t]) == Lower(sep) && AllSpace(s[t..u]);
  }

  /** The text between the groups, `s[e..b]`, is whitespace, the alternative `sep` in
      any case, and whitespace. */
  predicate Separates(s: string, e: nat, b: nat, sep: string)
    requires e <= b <= |s|
  {
    exists j :: e < j && j + |sep| < b && AllSpace(s[e..j]) && Lower(s[j..j + |sep|]) == Lower(sep)
                && AllSpace(s[j + |sep|..b])
  }

  /** A party-pattern match: two party names with a separator between them. */
  lemma PartyAtSound(s: string, p: nat, seps: seq<string>)
    requires p <= |s| && PartyAt(s, p, seps).Some?
    ensures var (e1, b, e2) := PartyAt(s, p, seps).value;
            IsPartyName(s[p..e1]) && IsPartyName(s[b..e2])
            && (exists k :: 0 <= k < |seps| && Separates(s, e1, b, seps[k]))
  {
    var e := WordEnd(s, p, true).value;
    var more := ChainFrom(s, e, |s|, true);
    var ends := [e] + more;
    forall i | 0 <= i < |ends| ensures IsPartyName(s[p..ends[i]]) {
      WordsSound(s, p, e, |s|, true, i);
    }
    SplitPartiesSound(s, p, ends, |ends|, seps);
  }
  /** Both groups of every party match are runs of letter words. */
  lemma {:induction false} PartyMatchesAreNames(s: string, p: nat, seps: seq<string>)
    requires p <= |s|
    ensures forall m :: m in PartyMatchesFrom(s, p, seps) ==> IsPartyName(m.0) && IsPartyName(m.1)
    decreases |s| - p
  {
    if p < |s| {
      match PartyAt(s, p, seps)
      case None =>
        PartyMatchesAreNames(s, p + 1, seps);
      case Some((e1, b, e2)) =>
        PartyAtSound(s, p, seps);
        PartyMatchesAreNames(s, e2, seps);
    }
  }


  // ---------------------------------------------------------------- lemmas about names

  lemma {:induction false} NamesOfSound(ms: seq<string>, n: string) returns (i: nat)
    requires n in NamesOf(ms)
    ensures i < |ms| && n == Trim(ms[i]) && |n| > MinNameLength
  {
    var init, last := ms[..|ms| - 1], ms[|ms| - 1];
    assert NamesOf(ms) == NamesOf(init) + Accept(last);
    if n in NamesOf(init) {
      i := NamesOfSound(init, n);
      assert ms[i] == init[i];
    } else {
      i := |ms| - 1;
    }
  }

  lemma {:induction false} NamesOfComplete(ms: seq<string>, i: nat)
    requires i < |ms| && |Trim(ms[i])| > MinNameLength
    ensures Trim(ms[i]) in NamesOf(ms)
  {
    var init, last := ms[..|ms| - 1], ms[|ms| - 1];
    assert NamesOf(ms) == NamesOf(init) + Accept(last);
    if i < |init| {
      assert init[i] == ms[i];
      NamesOfComplete(init, i);
    }
  }

  /** The generic-pattern loop keeps exactly the stripped matches longer than two
      characters. */
  lemma NamesOfMembers(ms: seq<string>, n: string)
    ensures n in NamesOf(ms) <==> exists i :: 0 <= i < |ms| && n == Trim(ms[i]) && |n| > MinNameLength
  {
    if n in NamesOf(ms) {
      var i := NamesOfSound(ms, n);
    }
    if i :| 0 <= i < |ms| && n == Trim(ms[i]) && |n| > MinNameLength {
      NamesOfComplete(ms, i);
    }
  }

  /** Every name of a sentence is a generic name longer than two characters. */
  lemma SentenceNamesAreNames(s: string)
    ensures forall n :: n in SentenceNames(s) ==> |n| > MinNameLength && IsName(n)
  {
    var ms := NameMatches(s);
    NameMatchesAreNames(s, 0);
    forall n | n in SentenceNames(s) ensures |n| > MinNameLength && IsName(n) {
      NamesOfMembers(ms, n);
      var i :| 0 <= i < |ms| && n == Trim(ms[i]) && |n| > MinNameLength;
      assert ms[i] in ms;
      RunIsTrimmed(ms[i], MaxNameWords, false);
    }
  }

  lemma {:induction false} GroupNamesAreLong(ms: seq<(string, string)>)
    ensures forall n :: n in GroupNames(ms) ==> |n| > MinNameLength
  {
    if ms != [] {
      GroupNamesAreLong(ms[..|ms| - 1]);
    }
  }

  /** Both stripped groups of every match longer than two characters are kept. */
  lemma {:induction false} GroupNamesComplete(ms: seq<(string, string)>, i: nat)
    requires i < |ms|
    ensures Accept(ms[i].0) + Accept(ms[i].1) <= GroupNames(ms)
  {
    var init, last := ms[..|ms| - 1], ms[|ms| - 1];
    var rest, x, y := GroupNames(init), Accept(last.0), Accept(last.1);
    assert GroupNames(ms) == rest + x + y;
    if i < |init| {
      assert init[i] == ms[i];
      GroupNamesComplete(init, i);
    } else {
      assert i == |ms| - 1;
    }
  }

  lemma {:induction false} PartyNamesAreLong(s: string, k: nat)
    requires k <= |PartyPatterns|
    ensures forall n :: n in PartyNamesUpTo(s, k) ==> |n| > MinNameLength
  {
    if k > 0 {
      PartyNamesAreLong(s, k - 1);
      GroupNamesAreLong(PartyMatches(s, PartyPatterns[k - 1]));
    }
  }

  lemma DocumentNamesAreLong(s: string)
    ensures forall n :: n in DocumentNames(s) ==> |n| > MinNameLength
  {
    PartyNamesAreLong(s, |PartyPatterns|);
    SentenceNamesAreNames(s);
  }

  /** The document-wide scan finds every name the per-sentence scan finds in the same
      text: both run the same generic-pattern loop. */
  lemma SentenceNamesInDocument(s: string)
    ensures SentenceNames(s) <= DocumentNames(s)
  {
  }
}
