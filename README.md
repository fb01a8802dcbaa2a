# Court-case timeline extraction, modelled in Dafny

The application reads the text of a court document and turns it into a timeline
of dated events. The pipeline in `app.py` has five stages:

1. **Sentence split.** The text is split at every whitespace run that follows `.`, `!` or `?`. Each piece is stripped, and only pieces longer than 20 characters are kept.
2. **Date detection.** Two date shapes are tried in a fixed order: `5 Jan 2020`, then `January 5, 2020`. The first shape found anywhere in the sentence wins, and its text goes to an external date parser.
3. **Event classification.** An ordered keyword table is consulted (Filing, Hearing, Interim Order, Transfer, Judgment, Appeal). The first label with a keyword in the lower-cased sentence wins. A sentence with no keyword is "Other".
4. **Person names.** A generic pattern finds runs of one to five capitalised words.
   - The per-sentence extractor uses it alone.
   - The document-wide extractor also runs two party patterns: "X vs/v./versus Y" and "X and Y".
   - Both collect the names in a set. Only the document-wide one sorts them.
5. **Timeline.** Each sentence with a date gives one record `{Date, Event, Description, Persons}`. The records are stably sorted by the `YYYY-MM-DD` date text.

The model has one module per stage, plus shared helpers:

| file | module | contents |
|---|---|---|
| `wrappers.dfy` | `Wrappers` | `Option` |
| `text.dfy` | `Text` | character classes, `strip`, `lower`, substring test, `join`, string order |
| `sorting.dfy` | `Sorting` | `sorted(..., key=...)` as a stable insertion sort |
| `sentences.dfy` | `Sentences` | `split_sentences` |
| `dates.dfy` | `Dates` | `extract_date` and the `YYYY-MM-DD` rendering |
| `events.dfy` | `Events` | `EVENT_KEYWORDS` and `detect_event` |
| `persons.dfy` | `Persons` | the name matchers with their soundness lemmas, and both name extractors |
| `name_matching.dfy` | `NameMatching` | completeness of the name matchers, and the worked example sentence |
| `timeline.dfy` | `Timeline` | `build_timeline` |

The pure stages are functions. These are the sentence split, date detection, event classification and the regex scans:
- `re.split`, `re.search` and `re.finditer` are hand-written matchers, one per pattern.
- Each matcher has if-and-only-if lemmas against an independent description of what its pattern can match. Examples are `Dates.DayMonthYearAtMatches`, `NameMatching.NameAtMatches` and `NameMatching.PartyAtMatches`. `finditer` gets lemmas too: it skips positions without a match, reports the greedy match where one starts, and resumes at its end.
- The `finditer` loops that fill a set become methods with loops. So do the `.append` loop of `build_timeline` and `list(set)`.
- Each such method is proved against a specification function (`SentenceNames`, `DocumentNames`, `Dated`).

Regex semantics followed by the matchers:
- `\s` is Python's ASCII whitespace: tab, newline, vertical tab, form feed, carriage return, 0x1C-0x1F and space. `str.strip` strips the same set.
- `\w` (inside `\b`) is `[A-Za-z0-9_]`.
- The generic name pattern `\b([A-Z][a-z]+(?:\s+[A-Z][a-z]+){0,4})\b` takes up to five words greedily. If the closing `\b` then fails, because the last word runs into an upper-case letter, a digit or `_`, one word is given back. `NameMatching.NameAtMatches` proves that the result is the longest match at the position.
- In the party patterns, the first group's `*` backtracks. The first group ends at the last word after which the pattern can go on (`NameMatching.SplitPartiesPicksLast`). The second group is the whole greedy chain of words (`NameMatching.ChainEndMatches`). `finditer` resumes after the second group.
- The party patterns are compiled with `re.IGNORECASE`. So their words are any two or more letters, and the separators match in any case: "And" and "AND" separate in the second pattern just as "and" does. The second group therefore also takes lower-case words. For "Ramesh Kumar vs Suresh Sharma was transferred on 1 April 2018." the versus pattern's groups are "Ramesh Kumar" and "Suresh Sharma was transferred on". The generic pattern finds "Ramesh Kumar" and "Suresh Sharma" (`NameMatching.ExamplePartyMatches`, `NameMatching.ExampleNameMatches`).
- The party lemmas hold for alternative lists in which every alternative starts with a non-space and none is, ignoring case, a proper prefix of another (`NameMatching.SeparatorsOk`). Both lists of the application have that shape (`NameMatching.PartySeparatorsOk`).
- `extract_date` searches the whole sentence for the first shape before it looks at the second. A sentence whose first-shape text the parser rejects gets no date, even if it also holds a second-shape date (`ExtractDateFirstShape`).

## Model

| member | source | states |
|---|---|---|
| Text.Trim | app.py:114 | `strip()` gives a string with no whitespace at either end. It is a middle slice of the input, and everything cut off on either side is whitespace. It is empty exactly when the input is all whitespace. |
| Text.TrimmedIsFixed | app.py:114 | Stripping a string that has no outer whitespace returns it unchanged. |
| Text.Contains | app.py:143 | `w in t` holds exactly when `w` occurs in `t` at some offset. |
| Text.Lower | app.py:140 | `lower()` keeps the length and leaves no capital. Letters stay letters, and only capitals change. |
| Text.LowerIdempotent | app.py:140 | Lower-casing twice is the same as lower-casing once. |
| Text.JoinStartsWithFirst | app.py:204 | `", ".join(names)` (`Join`) begins with the first name. |
| Text.JoinLength | app.py:204 | The joined text is as long as the names together plus one separator between each two. |
| Text.JoinHasEach | app.py:204 | The `k`-th name occurs in the joined text right after the names before it, each followed by a separator. |
| Text.StrLeTransitive | app.py:172 | Python's string order (`StrLe`) is transitive. |
| Text.StrLeTotal | app.py:172 | Any two strings are comparable under `StrLe`. |
| Text.StrLeAntisymmetric | app.py:172 | Strings ordered both ways by `StrLe` are equal. |
| Text.StrLeAppend | app.py:201 | Two strings whose first parts have equal length compare by those first parts. Only when the first parts are equal do the rests decide. |
| Sorting.Insert | app.py:207 | Inserting into a sorted list keeps it sorted and adds exactly that element. |
| Sorting.SortBy | app.py:207 | `sorted(xs, key=key)` is ordered by key, is a permutation of `xs`, and has its length. |
| Sorting.SortByIsStable | app.py:207 | Sorting keeps elements with equal keys in their original relative order. |
| Sorting.SortDistinctStrings | app.py:172 | Sorting a list without repetitions gives a strictly increasing list. |
| Sorting.DistinctByCount | app.py:172 | A list has no repeated element exactly when every element occurs at most once in its multiset. |
| Sentences.Pieces | app.py:113 | `re.split` always returns at least one piece, even for empty text. |
| Sentences.PiecesAreSplit | app.py:113 | The text is its pieces with a whitespace separator between each two. Every separator is a whole whitespace run after `.`, `!` or `?`, and no piece holds a further split point. |
| Sentences.SplitDeterminesPieces | app.py:113 | Any such decomposition of the text is the split: the cuts are fixed by the text. |
| Sentences.ExampleCut | app.py:113 | "Ab. Cd" is split into "Ab." and "Cd". |
| Sentences.PiecesRejoin | app.py:113 | Joined back together, the split pieces are the text with each whitespace run after `.`, `!` or `?` deleted. |
| Sentences.PiecesHaveNoSplitPoint | app.py:113 | No split piece contains a terminal mark followed by whitespace. |
| Sentences.Keep | app.py:114 | The comprehension keeps only stripped pieces longer than 20 characters. |
| Sentences.KeepMembers | app.py:114 | A string is kept exactly when it is the stripped form of some piece and longer than 20 characters. |
| Sentences.SplitSentences | app.py:111-114 | Every sentence is stripped and longer than 20 characters. |
| Sentences.SentencesAreLongStrippedPieces | app.py:113-114 | A string is a sentence exactly when it is the stripped form of a split piece and longer than 20 characters. |
| Sentences.SentencesHaveNoSplitPoint | app.py:113-114 | No sentence contains `.`, `!` or `?` immediately followed by whitespace. |
| Sentences.BlankTextHasNoSentences | app.py:113-114 | Empty or all-whitespace text has no sentences. |
| Dates.MonthNameAt | app.py:120 | The month-name alternation finds the first name, in alternation order, that occurs at the position; otherwise none occurs there. |
| Dates.MonthNameUnique | app.py:120 | At most one month name occurs at a position, so the alternation order never changes a match. |
| Dates.Search | app.py:123 | `re.search` returns the leftmost position where the pattern matches, with its match. If it fails, no position matches. |
| Dates.SearchFindsFirst | app.py:123 | Conversely, when the pattern matches at `i` and nowhere before it, the search returns that match at `i`. |
| Dates.DayMonthYearAtMatches | app.py:119 | The first pattern anchored at `p` (`DayMonthYearAt`) returns `m` exactly when `m` occurs at `p` and has the shape `\d{1,2}\s(?:Jan\|...\|Dec)[a-z]*\s\d{4}`. |
| Dates.MonthDayYearAtMatches | app.py:120 | The second pattern anchored at `p` (`MonthDayYearAt`) returns `m` exactly when `m` occurs at `p` and has the shape `(?:January\|...\|December)\s\d{1,2},\s\d{4}`. |
| Dates.ExtractDateFirstShape | app.py:122-125 | If the day-month-year shape occurs, `ExtractDate` passes its leftmost occurrence to the parser. The other shape plays no part. |
| Dates.ExtractDateSecondShape | app.py:122-125 | If the first shape occurs nowhere, `ExtractDate` parses the leftmost month-day-year occurrence. |
| Dates.ExtractDateNoShape | app.py:126 | `ExtractDate` gives no date for a sentence with neither shape. |
| Dates.ExtractDateFromShape | app.py:122-125 | Every date `ExtractDate` finds is the parser's reading of a substring that has one of the two shapes. |
| Dates.ExampleShapes | app.py:119-120 | "5 Jan 2020" and "12 March 2021" have the first shape. "January 5, 2020" has the second. |
| Dates.IsoDate | app.py:201 | The `YYYY-MM-DD` text is 10 characters long. |
| Dates.IsoDateFormat | app.py:201 | The text is four digits, a dash, two digits, a dash and two digits. The groups read back, in decimal, as the year, month and day. |
| Dates.PadReadsBack | app.py:201 | A number below `10^width`, zero-padded to `width`, is all digits and reads back as the number. |
| Dates.PadOrder | app.py:201 | Zero-padded numbers of one width compare as strings exactly as they compare as numbers. Equal texts mean equal numbers. |
| Dates.IsoDateOrder | app.py:201-207 | Two dates' `YYYY-MM-DD` texts compare as strings exactly as the dates compare in time. The texts are equal exactly when the dates are. |
| Events.MentionsAny | app.py:142-143 | An entry matches exactly when one of its keywords is a substring of the sentence. |
| Events.FirstMentioned | app.py:141-144 | The search returns the first entry, in table order, with a keyword in the sentence. Otherwise no entry has one. |
| Events.DetectEventIn | app.py:139-145 | The label is "Other" or one of the table's labels. |
| Events.DetectEvent | app.py:129-145 | With the application's table, the label is one of the six labels or "Other". |
| Events.DetectEventPicksFirst | app.py:140-144 | The label is that of the first entry with a keyword in the lower-cased sentence. |
| Events.DetectEventOther | app.py:145 | When no label of the table is "Other", the result is "Other" exactly when no keyword occurs. |
| Events.DetectEventIgnoresCase | app.py:140 | A sentence and its lower-cased form get the same label. |
| Events.NoTableLabelIsOther | app.py:129-136 | No label of the application's table is "Other". |
| Events.InterimBeforeAppeal | app.py:132-144 | Suppose a sentence mentions "interim" and no Filing or Hearing keyword. It is an Interim Order whatever else it mentions, "appeal" included. |
| Persons.WordEnd | app.py:154-166 | A word found at `i` is `[A-Z][a-z]+`, or any two or more letters under IGNORECASE. It is maximal: the next character cannot extend it. |
| NameMatching.WordEndMatches | app.py:154-166 | `WordEnd` returns `e` exactly when `s[i..e]` is a word that no following letter extends. |
| NameMatching.WordEndFinds | app.py:154-166 | `WordEnd` fails exactly when no word starts at `i`. |
| Persons.ChainFrom | app.py:154-166 | The greedy repetition returns at most `k` increasing word ends, all after the first word. |
| NameMatching.ChainStops | app.py:154-166 | A chain of fewer than `k` words stops only where no whitespace and further word follow its last end. |
| NameMatching.ChainFollow | app.py:154-166 | Whitespace and a further word follow every end of a chain but the last. |
| NameMatching.ChainMembers | app.py:154-166 | The ends a chain lists, with the first word's end, are exactly the ends of runs of at most `k + 1` words from the start that no following letter extends. |
| Persons.ChainSound | app.py:154-166 | The words a chain takes, with the word before them, form a whitespace-separated run of the matching word count. |
| Persons.WordsSound | app.py:154-166 | The first `t + 1` words of a chain form a run of at most `t + 1` words. |
| Persons.ChainGaps | app.py:154-166 | Whitespace follows every word of a chain except the last. |
| Persons.ChainUnbounded | app.py:154-155 | Bounding the `*` by the remaining text length never stops it early. |
| Persons.NameAt | app.py:166 | A generic-pattern match is non-empty and lies inside the text. |
| Persons.NameAtSound | app.py:166 | A generic-pattern match is one to five capitalised words separated by whitespace, with a word boundary at each end. |
| NameMatching.NameAtMatches | app.py:166 | `NameAt` returns `e` exactly when `s[p..e]` is a possible match (a boundary, one to five capitalised words, a boundary) and no possible match at `p` is longer. |
| NameMatching.NameAtGreatest | app.py:166 | Whenever some match is possible at `p`, `NameAt` succeeds and reaches at least as far. |
| NameMatching.NameAtNone | app.py:166 | `NameAt` fails exactly when no match is possible at `p`. |
| Persons.NameMatchesAreNames | app.py:179-180 | Every match `finditer` yields for the generic pattern is one to five capitalised words separated by whitespace. |
| NameMatching.NameMatchesFromSkips | app.py:179-180 | `finditer` passes over positions where no match is possible. |
| NameMatching.NameMatchesFromFinds | app.py:179-180 | At the first position with a possible match, `finditer` reports the longest one and resumes at its end. |
| NameMatching.NameMatchesFromEmpty | app.py:179-180 | `finditer` reports nothing exactly when no match is possible from `p` on. |
| Persons.SeparatorThenWord | app.py:154-155 | A separator alternative is accepted only when whitespace and a word follow it. The second group starts at that word. |
| NameMatching.SeparatorThenWordMatches | app.py:154-155 | The alternative is accepted at `j`, with the second group at `u`, exactly when the text at `j` is the alternative in any case, whitespace follows up to `u`, and a word starts at `u`. |
| Persons.FirstSeparator | app.py:154-155 | The alternative used is the first, in the pattern's order, after which whitespace and a word follow; every earlier one fails. There is none exactly when every alternative fails. |
| NameMatching.PartySeparatorsOk | app.py:153-155 | Both alternative lists of the application start every alternative with a non-space, and none is, ignoring case, a proper prefix of another. |
| Persons.ChainEnd | app.py:154-155 | The second group ends after its first word, inside the text. |
| Persons.ChainEndSound | app.py:154-155 | The second group is a run of letter words separated by whitespace. |
| NameMatching.ChainEndMatches | app.py:154-155 | `ChainEnd` returns `e` exactly when `s[u..e]` is a run of letter words that no letter extends and that no whitespace and further word follow. |
| Persons.SplitParties | app.py:154-155 | When the first group's backtracking succeeds, the group ends before the second group starts, and the second group ends inside the text. |
| Persons.SplitPartiesSound | app.py:154-155 | The two groups are letter-word runs. Between them is whitespace, one of the separators in any case, and whitespace. |
| NameMatching.SplitPartiesNone | app.py:154-155 | The backtracking succeeds exactly when the pattern can go on after one of the first group's candidate ends. |
| NameMatching.SplitPartiesPicksLast | app.py:154-155 | When it succeeds, the first group ends at the last candidate end after which the pattern can go on. The second group starts after the first alternative that lets it go on, and is the whole greedy chain. |
| NameMatching.SplitPartiesAtLast | app.py:154-155 | Conversely, when the pattern can go on after `ends[t]` and after no later end, the split is at `ends[t]`. |
| NameMatching.PartyAtSplitsAtLast | app.py:154-155 | A party match at `p` splits at the last end of the first group's greedy chain after which the pattern can go on. |
| Persons.PartyAt | app.py:154-155 | A party match has a non-empty first group followed by a non-empty second group. |
| Persons.PartyAtSound | app.py:154-159 | Each party-pattern match is two runs of letter words. Between them is whitespace, a separator of that pattern in any case, and whitespace. |
| NameMatching.PartyAtIsMatch | app.py:154-155 | What `PartyAt` finds is a possible match: two letter-word runs joined by an alternative, the second not extendable by a letter or a further word. |
| NameMatching.PartyAtGreatest | app.py:154-155 | Whenever a match is possible at `p`, `PartyAt` succeeds with a first group at least as long. |
| NameMatching.PartyMatchUnique | app.py:154-155 | The end of the first group fixes the start and end of the second. |
| NameMatching.PartyAtMatches | app.py:154-155 | `PartyAt` returns `(e1, b, e2)` exactly when that is a possible match and no possible match at `p` has a longer first group. |
| NameMatching.PartyAtNone | app.py:154-155 | `PartyAt` fails exactly when no match is possible at `p`. |
| NameMatching.PartyMatchesFromSkips | app.py:159-161 | `finditer` passes over positions where no party match is possible. |
| NameMatching.PartyMatchesFromFinds | app.py:159-161 | At the first position with a possible party match, `finditer` reports both groups of the greedy match and resumes at the end of the second group. |
| NameMatching.PartyMatchesFromEmpty | app.py:159-161 | `finditer` reports nothing exactly when no party match is possible from `p` on. |
| Persons.PartyMatchesAreNames | app.py:159-161 | Both groups of every party match are runs of letter words. |
| Persons.RunMonotone | app.py:166 | A run of at most `n` words is also a run of at most `n'` words for any `n' >= n`. |
| Persons.RunShape | app.py:166 | A run starts and ends with a letter. A generic name starts with an upper-case letter followed by a lower-case one. |
| Persons.RunIsTrimmed | app.py:181 | `.strip()` leaves every match unchanged. |
| Persons.RunEndsWithLetter | app.py:166 | A run that ends at position `e` has a word character just before `e`. |
| Persons.RunCons | app.py:166 | A word, whitespace and a run of `n` words form a run of `n + 1` words. |
| Persons.AddIfLong | app.py:161-163 | One `names.add(group.strip())` step: the set gains the stripped group when it is longer than two characters, and nothing otherwise. |
| Persons.NamesOfSound | app.py:180-183 | Every name in `NamesOf(matches)` is a stripped match longer than two characters. |
| Persons.NamesOfComplete | app.py:180-183 | Every stripped match longer than two characters is in `NamesOf(matches)`. |
| Persons.NamesOfMembers | app.py:180-183 | The loop keeps exactly the stripped matches longer than two characters. |
| Persons.GroupNamesComplete | app.py:161-163 | Both stripped groups of every party match, when longer than two characters, are in `GroupNames(matches)`. |
| Persons.ListOf | app.py:185 | `list(names)` holds each element of the set exactly once and nothing else. |
| Persons.ExtractPersonsFromSentence | app.py:175-185 | The per-sentence list holds exactly the sentence's names (`SentenceNames`): each once, each longer than two characters, each one to five capitalised words. |
| Persons.AddGroupNames | app.py:160-163 | The party loop adds exactly the stripped groups longer than two characters. |
| Persons.AddNames | app.py:167-170 | The generic loop adds exactly the stripped matches longer than two characters. |
| Persons.ExtractPersonNames | app.py:148-172 | The document-wide list is strictly increasing. It holds exactly the party-pattern and generic-pattern names (`DocumentNames`), so every name the per-sentence scan finds in the same text. Every entry is longer than two characters. |
| Persons.SentenceNamesAreNames | app.py:179-183 | Every per-sentence name is longer than two characters and is one to five capitalised words. |
| Persons.GroupNamesAreLong | app.py:162-163 | Every name the party loop adds is longer than two characters. |
| Persons.PartyNamesAreLong | app.py:158-163 | Every name either party pattern contributes is longer than two characters. |
| Persons.DocumentNamesAreLong | app.py:150-172 | Every document-wide name is longer than two characters. |
| Persons.SentenceNamesInDocument | app.py:166-183 | The document-wide set contains every name the per-sentence scan finds in the same text. |
| NameMatching.ExampleNamesAt | app.py:166 | In "Ramesh Kumar vs Suresh Sharma was transferred on 1 April 2018." the generic pattern matches "Ramesh Kumar" at 0 and "Suresh Sharma" at 16. |
| NameMatching.ExampleNameMatches | app.py:179-180 | `finditer` over that sentence reports "Ramesh Kumar" and then "Suresh Sharma". |
| NameMatching.ExampleSentenceNames | app.py:175-183 | The sentence's per-sentence names include "Ramesh Kumar" and "Suresh Sharma". |
| NameMatching.ExamplePartyAtShape | app.py:154 | On text laid out like that sentence, the versus pattern at 0 has its first group end after "Kumar", and its second group run from "Suresh" to just before the digit. |
| NameMatching.ExamplePartyMatches | app.py:158-161 | The first versus match in the sentence has the groups "Ramesh Kumar" and "Suresh Sharma was transferred on". |
| NameMatching.ExampleDocumentNames | app.py:148-170 | The document-wide names of the sentence include "Ramesh Kumar", "Suresh Sharma" and "Suresh Sharma was transferred on". |
| Timeline.AppendRecords | app.py:195-205 | There is one record per sentence with a date, in sentence order. Each record has:<br>• the `YYYY-MM-DD` text of that date;<br>• the sentence's event;<br>• the sentence verbatim;<br>• its names joined by ", " (or "N/A"). |
| Timeline.BuildTimeline | app.py:188-207 | The timeline is the appended records sorted by date text. It is ordered by date text, is a permutation of them, and is in calendar order. Records with equal dates keep their sentence order. Blank text gives an empty timeline. |
| Timeline.DatedStep | app.py:196-198 | One more sentence adds a dated entry to `Dated` exactly when a date is found in it. |
| Timeline.DatedMembers | app.py:196-198 | The entries of `Dated` are exactly the sentences with a date found, each paired with that date. |
| Timeline.DescribeAllAppend | app.py:200-205 | Appending a matching record to matching lists keeps them matching. |
| Timeline.PersonsFieldNoPersons | app.py:204 | A Persons field (`PersonsField`) built from names is "N/A" exactly when there are none. |
| Timeline.PersonsFieldHasNames | app.py:204 | Every name is in the Persons field, the names in list order with ", " between each two. |
| Timeline.RecordPersons | app.py:199-204 | A record's Persons field is "N/A" exactly when its sentence has no names. |
| Timeline.Chronological | app.py:201-207 | A timeline sorted by date text is in calendar order. |
| Timeline.SortedInCalendarOrder | app.py:201-207 | Records that describe dated sentences, once sorted by date text, are in calendar order. |
| Timeline.SameKeySameDate | app.py:201-207 | Two records share a date text exactly when they share a calendar date. So the stable tie-break applies exactly to same-day events. |
| Timeline.RecordEvent | app.py:202 | Every record's event is one of the six labels or "Other". |

## Left out

- Reading the PDF (`extract_text_from_pdf`, app.py:101-108) and locating it (`os.path.join`, app.py:189) are file I/O through `pdfplumber`. `BuildTimeline` takes the document text instead.
- `dateparser.parse` (app.py:125) is a foreign library with a locale-dependent reading of the date text. It is the `Normalizer` parameter, a function from the matched text to an optional calendar date. Nothing is claimed about how it resolves day-first against month-first.
- Wrapping the result in a pandas `DataFrame` (app.py:207) is left out. The timeline is a sequence of records.
- The Streamlit interface, CSS, statistics and CSV/JSON export (app.py:9-95, app.py:221-349) are presentation and library encoding, not pipeline logic.
- `get_event_badge_class` and `format_event_badge` (app.py:210-219) are HTML helpers.
- Text is taken as ASCII. The model does not cover Unicode whitespace, Unicode letters for `[A-Z]`/`[a-z]`/`\w`, or Unicode case mapping in `lower()`. This includes the few non-ASCII letters Python's IGNORECASE folds onto ASCII ones.
- Dates.IsoDate: its own contract gives only the length. The layout and the decimal digits are `Dates.IsoDateFormat`. Every year is padded to four digits, but glibc's `strftime("%Y")` does not zero-pad years below 1000, and the string order then stops matching calendar order. The model does not reproduce that.
- Sentences.Pieces: its own contract says only that there is a piece. Where the text is cut is `Sentences.PiecesAreSplit` with `Sentences.SplitDeterminesPieces`.
- Sentences.PiecesRejoin: rejoining without the separators does not by itself fix the cut positions. `Sentences.PiecesAreSplit` keeps the separators and does.
- WordEnd: its own contract is soundness and maximality. The failure case is `NameMatching.WordEndFinds`, in the module built on top of `Persons`.
- ChainFrom: its own contract gives bounds and order. Where a chain stops is `NameMatching.ChainStops`, `NameMatching.ChainFollow` and `NameMatching.ChainMembers`.
- NameAt: its own contract gives bounds. What it matches is `Persons.NameAtSound` and `NameMatching.NameAtMatches`.
- SeparatorThenWord: its own contract is one direction. Both are `NameMatching.SeparatorThenWordMatches`.
- ChainEnd: its own contract gives bounds. That the second group is the whole greedy chain is `NameMatching.ChainEndMatches`.
- SplitParties: its own contract gives bounds. Which end the backtracking picks is `NameMatching.SplitPartiesPicksLast` and `NameMatching.SplitPartiesAtLast`.
- PartyAt: its own contract gives bounds. What it matches is `NameMatching.PartyAtMatches` and `NameMatching.PartyAtNone`. These and the other party completeness lemmas assume `NameMatching.SeparatorsOk`, which both lists of the application satisfy.
- Persons.ExtractPersonsFromSentence: the order of `list(set)` depends on Python's string hashing. It is picked arbitrarily here, so contracts about the Persons field hold for every order.
- Timeline.BuildTimeline: for the same reason, the Persons field is pinned only up to the order of the names, so two runs on the same text need not give identical Persons strings.
- `finditer` also tries the position at the very end of the text. `Persons.NameMatchesFrom` and `Persons.PartyMatchesFrom` skip it, because no pattern here can match an empty string.
