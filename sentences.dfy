/** Sentence segmentation (`split_sentences`, app.py:111-114): split the text at
    every run of whitespace that directly follows `.`, `!` or `?`, strip each piece
    and keep only pieces longer than 20 characters. */
module Sentences {
  import opened Text

  /** Length a stripped piece must exceed to count as a sentence. */
  const MinSentenceLength: nat := 20

  predicate IsTerminal(c: char) { c == '.' || c == '!' || c == '?' }

  /** `(?<=[.!?])\s+` matches at `i`: a whitespace character right after a terminal mark. */
  predicate SplitsAt(text: string, i: int) {
    0 < i < |text| && IsTerminal(text[i - 1]) && IsSpace(text[i])
  }

  /** No terminal mark in `s` is immediately followed by whitespace. */
  predicate NoSplitPoint(s: string) {
    forall k :: 0 < k < |s| ==> !SplitsAt(s, k)
  }

  /** `re.split(r'(?<=[\.!\?])\s+', text)` scanning from `i`, with the current piece
      starting at `start`: a match consumes the whole (greedy) whitespace run, and
      the text between matches becomes the pieces, the last one possibly empty. */
  function PiecesFrom(text: string, start: nat, i: nat): (r: seq<string>)
    requires start <= i <= |text|
    ensures |r| >= 1
    decreases |text| - i
  {
    if i == |text| then [text[start..]]
    else if SplitsAt(text, i) then
      var j := SpaceRunEnd(text, i + 1);
      [text[start..i]] + PiecesFrom(text, j, j)
    else PiecesFrom(text, start, i + 1)
  }

  /** The split always has a piece, even for empty text. */
  function Pieces(text: string): (r: seq<string>)
    ensures |r| >= 1
  {
    PiecesFrom(text, 0, 0)
  }

  /** The independent reading of the split: the text with the separating whitespace
      deleted, read left to right; `after` holds inside a run that follows a terminal. */
  function DropSeparators(t: string, after: bool): string
  {
    if t == [] then []
    else if after && IsSpace(t[0]) then DropSeparators(t[1..], true)
    else [t[0]] + DropSeparators(t[1..], IsTerminal(t[0]))
  }

  /** The stripped pieces longer than the minimum, in order (the list comprehension). */
  function Keep(pieces: seq<string>): (r: seq<string>)
    ensures forall s :: s in r ==> |s| > MinSentenceLength && IsTrimmed(s)
  {
    if pieces == [] then []
    else
      var t := Trim(pieces[0]);
      (if |t| > MinSentenceLength then [t] else []) + Keep(pieces[1..])
  }

  /** `split_sentences(text)`. */
  function SplitSentences(text: string): (r: seq<string>)
    ensures forall s :: s in r ==> |s| > MinSentenceLength && IsTrimmed(s)
  {
    Keep(Pieces(text))
  }

  // ---------------------------------------------------------------- lemmas

  lemma SubstringKeepsNoSplitPoint(p: string, i: nat, j: nat)
    requires i <= j <= |p| && NoSplitPoint(p)
    ensures NoSplitPoint(p[i..j])
  {
    forall k | 0 < k < j - i ensures !SplitsAt(p[i..j], k) {
      assert !SplitsAt(p, i + k);
    }
  }

  /** Every piece is free of split points: each was a scanned position that did not split. */
  lemma {:induction false} PiecesHaveNoSplitPoint(text: string, start: nat, i: nat)
    requires start <= i <= |text| && NoSplitPoint(text[start..i])
    ensures forall p :: p in PiecesFrom(text, start, i) ==> NoSplitPoint(p)
    decreases |text| - i
  {
    if i == |text| {
      assert text[start..] == text[start..i];
    } else if SplitsAt(text, i) {
      var j := SpaceRunEnd(text, i + 1);
      assert NoSplitPoint(text[j..j]);
      PiecesHaveNoSplitPoint(text, j, j);
    } else {
      var t, u := text[start..i + 1], text[start..i];
      forall k | 0 < k < |t| ensures !SplitsAt(t, k) {
        if k < |u| {
          assert t[k - 1] == u[k - 1] && t[k] == u[k];
          assert !SplitsAt(u, k);
        } else {
          assert t[k - 1] == text[i - 1] && t[k] == text[i];
        }
      }
      PiecesHaveNoSplitPoint(text, start, i + 1);
    }
  }

  lemma {:induction false} DropSpaceRun(t: string, n: nat)
    requires n <= |t| && AllSpace(t[..n])
    ensures DropSeparators(t, true) == DropSeparators(t[n..], true)
  {
    if n > 0 {
      assert IsSpace(t[..n][0]);
      assert t[1..][..n - 1] == t[..n][1..];
      DropSpaceRun(t[1..], n - 1);
      assert t[1..][n - 1..] == t[n..];
    }
  }

  /** After a split point the separator run vanishes and the scan resumes outside any run. */
  lemma DropSeparatorRun(text: string, i: nat)
    requires SplitsAt(text, i)
    ensures var j := SpaceRunEnd(text, i + 1);
            DropSeparators(text[i..], true) == DropSeparators(text[j..], j > 0 && IsTerminal(text[j - 1]))
  {
    var j := SpaceRunEnd(text, i + 1);
    assert text[i..][..j - i] == text[i..j];
    assert AllSpace(text[i..j]) by {
      forall k | 0 <= k < j - i ensures IsSpace(text[i..j][k]) {
        if k > 0 { assert text[i..j][k] == text[i + 1..j][k - 1]; }
      }
    }
    DropSpaceRun(text[i..], j - i);
    assert text[i..][j - i..] == text[j..];
    assert IsSpace(text[j - 1]) by {
      if j > i + 1 { assert text[j - 1] == text[i + 1..j][j - 2 - i]; }
    }
    if j < |text| {
      assert !IsSpace(text[j..][0]);
      assert text[j..][1..] == text[j + 1..];
    }
  }

  /** A character that does not start a separator is kept. */
  lemma DropSeparatorsKeeps(t: string, after: bool)
    requires t != [] && !(after && IsSpace(t[0]))
    ensures DropSeparators(t, after) == [t[0]] + DropSeparators(t[1..], IsTerminal(t[0]))
  {
  }

  /** The concatenation step at a split point, given the concatenation after it. */
  lemma ConcatAtSplit(text: string, start: nat, i: nat)
    requires start <= i < |text| && SplitsAt(text, i)
    requires var j := SpaceRunEnd(text, i + 1);
             Concat(PiecesFrom(text, j, j)) == text[j..j] + DropSeparators(text[j..], j > 0 && IsTerminal(text[j - 1]))
    ensures Concat(PiecesFrom(text, start, i)) == text[start..i] + DropSeparators(text[i..], true)
  {
    var j := SpaceRunEnd(text, i + 1);
    var rest := PiecesFrom(text, j, j);
    calc {
      Concat(PiecesFrom(text, start, i));
      Concat([text[start..i]] + rest);
      { ConcatCons(text[start..i], rest); }
      text[start..i] + Concat(rest);
      { assert text[j..j] == []; }
      text[start..i] + DropSeparators(text[j..], j > 0 && IsTerminal(text[j - 1]));
      { DropSeparatorRun(text, i); }
      text[start..i] + DropSeparators(text[i..], true);
    }
  }

  /** The concatenation step at a position that does not split, given the one after it. */
  lemma ConcatPastKept(text: string, start: nat, i: nat)
    requires start <= i < |text| && !SplitsAt(text, i)
    requires Concat(PiecesFrom(text, start, i + 1))
             == text[start..i + 1] + DropSeparators(text[i + 1..], IsTerminal(text[i]))
    ensures Concat(PiecesFrom(text, start, i))
            == text[start..i] + DropSeparators(text[i..], i > 0 && IsTerminal(text[i - 1]))
  {
    var after := i > 0 && IsTerminal(text[i - 1]);
    var tail := DropSeparators(text[i + 1..], IsTerminal(text[i]));
    calc {
      Concat(PiecesFrom(text, start, i));
      Concat(PiecesFrom(text, start, i + 1));
      text[start..i + 1] + tail;
      { assert text[start..i + 1] == text[start..i] + [text[i]]; }
      text[start..i] + ([text[i]] + tail);
      { assert text[i..][0] == text[i] && text[i..][1..] == text[i + 1..];
        DropSeparatorsKeeps(text[i..], after); }
      text[start..i] + DropSeparators(text[i..], after);
    }
  }

  lemma {:induction false} PiecesFromConcat(text: string, start: nat, i: nat)
    requires start <= i <= |text|
    ensures Concat(PiecesFrom(text, start, i))
            == text[start..i] + DropSeparators(text[i..], i > 0 && IsTerminal(text[i - 1]))
    decreases |text| - i
  {
    if i == |text| {
      assert text[i..] == [];
      ConcatCons(text[start..], []);
      assert text[start..] == text[start..i];
    } else if SplitsAt(text, i) {
      var j := SpaceRunEnd(text, i + 1);
      PiecesFromConcat(text, j, j);
      ConcatAtSplit(text, start, i);
    } else {
      PiecesFromConcat(text, start, i + 1);
      ConcatPastKept(text, start, i);
    }
  }

  /** Splitting loses exactly the separating whitespace: the pieces, put back together,
      are the text with each run of whitespace right after `.`, `!` or `?` deleted. */
  lemma PiecesRejoin(text: string)
    ensures Concat(Pieces(text)) == DropSeparators(text, false)
  {
    PiecesFromConcat(text, 0, 0);
    assert text[0..] == text;
  }

  /** The pieces with the separators put back between them: `ps[0] + ws[0] + ps[1] + ...`. */
  function Interleave(ps: seq<string>, ws: seq<string>): string
    requires |ps| == |ws| + 1
    decreases |ws|
  {
    if ws == [] then ps[0] else ps[0] + ws[0] + Interleave(ps[1..], ws[1..])
  }

  /** Where the cuts fall: every separator is a non-empty whitespace run, right after a
      piece that ends in a terminal mark and right before a piece that does not start
      with whitespace (only the last piece may be empty). */
  ghost predicate Cuts(ps: seq<string>, ws: seq<string>) {
    && |ps| == |ws| + 1
    && (forall k :: 0 <= k < |ws| ==> ws[k] != [] && AllSpace(ws[k]))
    && (forall k :: 0 <= k < |ws| ==> ps[k] != [] && IsTerminal(ps[k][|ps[k]| - 1]))
    && (forall k :: 0 < k < |ps| ==> ps[k] == [] || !IsSpace(ps[k][0]))
  }

  /** `text` is `ps` with the separators `ws` between them, cut as the split cuts, and no
      piece holds a further split point. */
  ghost predicate IsSplit(text: string, ps: seq<string>, ws: seq<string>) {
    && Cuts(ps, ws)
    && (forall k :: 0 <= k < |ps| ==> NoSplitPoint(ps[k]))
    && text == Interleave(ps, ws)
  }

  /** `text` from `start` on holds the pieces `ps` with the separators `ws` between
      them, each at its own position. */
  ghost predicate LaidOut(text: string, start: nat, ps: seq<string>, ws: seq<string>)
    requires |ps| == |ws| + 1
    decreases |ws|
  {
    && start <= |text|
    && if ws == [] then text[start..] == ps[0]
       else
         var l := start + |ps[0]|;
         && l + |ws[0]| <= |text| && text[start..l] == ps[0] && text[l..l + |ws[0]|] == ws[0]
         && LaidOut(text, l + |ws[0]|, ps[1..], ws[1..])
  }

  /** A suffix cut in three. */
  lemma SuffixInThree(text: string, start: nat, l: nat, e: nat)
    requires start <= l <= e <= |text|
    ensures text[start..] == text[start..l] + text[l..e] + text[e..]
  {
  }

  /** Laid out from `start`, the pieces and separators make up the rest of the text. */
  lemma {:induction false} LaidOutIsInterleave(text: string, start: nat, ps: seq<string>, ws: seq<string>)
    requires |ps| == |ws| + 1 && LaidOut(text, start, ps, ws)
    ensures text[start..] == Interleave(ps, ws)
    decreases |ws|
  {
    if ws != [] {
      var l := start + |ps[0]|;
      var e := l + |ws[0]|;
      LaidOutIsInterleave(text, e, ps[1..], ws[1..]);
      SuffixInThree(text, start, l, e);
    }
  }

  /** The rest of the text, written as the pieces and separators, lays them out. */
  lemma {:induction false} InterleaveIsLaidOut(text: string, start: nat, ps: seq<string>, ws: seq<string>)
    requires |ps| == |ws| + 1 && start <= |text| && text[start..] == Interleave(ps, ws)
    ensures LaidOut(text, start, ps, ws)
    decreases |ws|
  {
    if ws != [] {
      ThreeParts(text, start, ps[0], ws[0], Interleave(ps[1..], ws[1..]));
      InterleaveIsLaidOut(text, start + |ps[0]| + |ws[0]|, ps[1..], ws[1..]);
    }
  }

  lemma CutsCons(a: string, w: string, rest: seq<string>, ws: seq<string>)
    requires Cuts(rest, ws) && w != [] && AllSpace(w) && a != [] && IsTerminal(a[|a| - 1])
    requires rest[0] == [] || !IsSpace(rest[0][0])
    ensures Cuts([a] + rest, [w] + ws)
  {
    var ps, vs := [a] + rest, [w] + ws;
    forall k | 0 < k < |ps| ensures ps[k] == [] || !IsSpace(ps[k][0]) {
      assert ps[k] == rest[k - 1];
    }
    forall k | 0 <= k < |vs| ensures ps[k] != [] && IsTerminal(ps[k][|ps[k]| - 1]) {
      if k > 0 { assert ps[k] == rest[k - 1]; }
    }
  }

  lemma SplitTail(ps: seq<string>, ws: seq<string>)
    requires Cuts(ps, ws) && ws != []
    requires forall k :: 0 <= k < |ps| ==> NoSplitPoint(ps[k])
    ensures Cuts(ps[1..], ws[1..])
    ensures forall k :: 0 <= k < |ps| - 1 ==> NoSplitPoint(ps[1..][k])
  {
    var qs, vs := ps[1..], ws[1..];
    forall k | 0 <= k < |vs| ensures qs[k] != [] && IsTerminal(qs[k][|qs[k]| - 1]) {
      assert qs[k] == ps[k + 1];
    }
    forall k | 0 < k < |qs| ensures qs[k] == [] || !IsSpace(qs[k][0]) {
      assert qs[k] == ps[k + 1];
    }
    forall k | 0 <= k < |qs| ensures NoSplitPoint(qs[k]) {
      assert qs[k] == ps[k + 1];
    }
  }

  /** The parts of a suffix that is written as three parts. */
  lemma ThreeParts(text: string, start: nat, a: string, w: string, r: string)
    requires start <= |text| && text[start..] == a + w + r
    ensures start + |a| + |w| <= |text|
    ensures text[start..start + |a|] == a && text[start + |a|..start + |a| + |w|] == w
    ensures text[start + |a| + |w|..] == r
  {
    var t := text[start..];
    assert t[..|a|] == a && t[|a|..|a| + |w|] == w && t[|a| + |w|..] == r;
  }

  /** A piece ending in a terminal mark, then whitespace: a split point. */
  lemma CutIsSplit(text: string, start: nat, l: nat, e: nat, a: string, w: string)
    requires start < l < e <= |text| && text[start..l] == a && text[l..e] == w
    requires IsTerminal(a[|a| - 1]) && AllSpace(w)
    ensures SplitsAt(text, l)
  {
    assert text[l - 1] == a[|a| - 1];
    assert text[l] == w[0];
  }

  /** Laid out from `e`, pieces that start with a non-space (the last may be empty)
      leave the end of the text or a non-space at `e`. */
  lemma NextIsNotSpace(text: string, e: nat, ps: seq<string>, ws: seq<string>)
    requires |ps| == |ws| + 1 && LaidOut(text, e, ps, ws)
    requires ps[0] == [] || !IsSpace(ps[0][0])
    requires ws != [] ==> ps[0] != []
    ensures e == |text| || !IsSpace(text[e])
  {
    if ws == [] {
      if e < |text| {
        assert text[e] == text[e..][0];
      }
    } else {
      assert text[e] == text[e..e + |ps[0]|][0];
    }
  }

  /** Whitespace from `l` to `e`, then a non-space or the end: the run from `l + 1`
      ends at `e`. */
  lemma CutRunEnd(text: string, l: nat, e: nat, w: string)
    requires l < e <= |text| && text[l..e] == w && AllSpace(w)
    requires e == |text| || !IsSpace(text[e])
    ensures SpaceRunEnd(text, l + 1) == e
  {
    assert AllSpace(text[l + 1..e]) by {
      assert text[l + 1..e] == w[1..];
    }
    SpaceRunEndUnique(text, l + 1, e);
  }

  /** A split point at the end of the first piece: the scan cuts there and resumes at
      the end of the separator. */
  lemma SplitAtFirstCut(text: string, start: nat, ps: seq<string>, ws: seq<string>)
    requires Cuts(ps, ws) && ws != [] && LaidOut(text, start, ps, ws)
    ensures var l := start + |ps[0]|;
            && l + |ws[0]| <= |text| && SplitsAt(text, l)
            && SpaceRunEnd(text, l + 1) == l + |ws[0]|
            && LaidOut(text, l + |ws[0]|, ps[1..], ws[1..])
  {
    var a, w := ps[0], ws[0];
    var l := start + |a|;
    var e := l + |w|;
    assert a != [] && IsTerminal(a[|a| - 1]) && w != [] && AllSpace(w);
    CutIsSplit(text, start, l, e, a, w);
    assert ps[1..][0] == ps[1];
    if |ws| > 1 {
      assert ps[1] != [];
    }
    NextIsNotSpace(text, e, ps[1..], ws[1..]);
    CutRunEnd(text, l, e, w);
  }

  /** Any decomposition with the split's cuts is the one the scan produces, from any
      position inside its first piece. */
  lemma {:induction false} SplitFixesPiecesFrom(text: string, start: nat, i: nat, ps: seq<string>, ws: seq<string>)
    requires Cuts(ps, ws) && forall k :: 0 <= k < |ps| ==> NoSplitPoint(ps[k])
    requires LaidOut(text, start, ps, ws)
    requires start <= i <= start + |ps[0]|
    requires i > start || start == 0 || !IsTerminal(text[start - 1])
    ensures PiecesFrom(text, start, i) == ps
    decreases |text| - i
  {
    var l := start + |ps[0]|;
    if i < l {
      InsideFirstPiece(text, start, i, ps, ws);
      SplitFixesPiecesFrom(text, start, i + 1, ps, ws);
    } else if ws == [] {
      assert ps == [ps[0]];
    } else {
      var j := PastFirstCut(text, start, ps, ws);
      SplitFixesPiecesFrom(text, j, j, ps[1..], ws[1..]);
      assert ps == [ps[0]] + ps[1..];
    }
  }

  /** Past the first cut, the scan goes on at the end of the separator, with the rest
      of the decomposition laid out from there. */
  lemma PastFirstCut(text: string, start: nat, ps: seq<string>, ws: seq<string>) returns (j: nat)
    requires Cuts(ps, ws) && forall k :: 0 <= k < |ps| ==> NoSplitPoint(ps[k])
    requires LaidOut(text, start, ps, ws) && ws != []
    ensures j == start + |ps[0]| + |ws[0]| && j <= |text|
    ensures PiecesFrom(text, start, start + |ps[0]|) == [text[start..start + |ps[0]|]] + PiecesFrom(text, j, j)
    ensures text[start..start + |ps[0]|] == ps[0]
    ensures j == 0 || !IsTerminal(text[j - 1])
    ensures Cuts(ps[1..], ws[1..]) && forall k :: 0 <= k < |ps| - 1 ==> NoSplitPoint(ps[1..][k])
    ensures LaidOut(text, j, ps[1..], ws[1..])
  {
    var l := start + |ps[0]|;
    SplitAtFirstCut(text, start, ps, ws);
    j := l + |ws[0]|;
    PiecesFromCut(text, start, l, j);
    assert IsSpace(ws[0][|ws[0]| - 1]);
    assert text[j - 1] == text[l..j][|ws[0]| - 1];
    SplitTail(ps, ws);
  }

  /** At a split point the scan closes the piece and resumes after the whitespace run. */
  lemma PiecesFromCut(text: string, start: nat, l: nat, j: nat)
    requires start <= l && SplitsAt(text, l) && SpaceRunEnd(text, l + 1) == j
    ensures PiecesFrom(text, start, l) == [text[start..l]] + PiecesFrom(text, j, j)
  {
  }

  /** Inside the first piece the scan finds no split point. */
  lemma InsideFirstPiece(text: string, start: nat, i: nat, ps: seq<string>, ws: seq<string>)
    requires |ps| == |ws| + 1 && NoSplitPoint(ps[0]) && LaidOut(text, start, ps, ws)
    requires start <= i < start + |ps[0]|
    requires i > start || start == 0 || !IsTerminal(text[start - 1])
    ensures !SplitsAt(text, i)
  {
    var l := start + |ps[0]|;
    var a := text[start..l];
    assert a == ps[0] by {
      if ws == [] {
        assert text[start..] == ps[0];
        assert l == |text|;
      }
    }
    assert text[i] == a[i - start];
    if i > start {
      assert text[i - 1] == a[i - 1 - start];
      assert !SplitsAt(a, i - start);
    }
  }

  /** Given the text, the cuts fix the pieces: a decomposition of `text` into pieces and
      whitespace separators, cut after terminal marks at whole whitespace runs, with no
      split point left inside a piece, is `Pieces(text)`. */
  lemma SplitDeterminesPieces(text: string, ps: seq<string>, ws: seq<string>)
    requires IsSplit(text, ps, ws)
    ensures Pieces(text) == ps
  {
    assert text[0..] == text;
    InterleaveIsLaidOut(text, 0, ps, ws);
    SplitFixesPiecesFrom(text, 0, 0, ps, ws);
  }

  /** The separators the scan cuts out, from position `i` of the piece that starts at `start`. */
  lemma {:induction false} PiecesFromCuts(text: string, start: nat, i: nat) returns (ws: seq<string>)
    requires start <= i <= |text|
    requires i > start || start == 0 || !IsTerminal(text[start - 1])
    ensures |PiecesFrom(text, start, i)| == |ws| + 1
    ensures Cuts(PiecesFrom(text, start, i), ws) && LaidOut(text, start, PiecesFrom(text, start, i), ws)
    decreases |text| - i
  {
    if i == |text| {
      ws := [];
    } else if SplitsAt(text, i) {
      var j := SpaceRunEnd(text, i + 1);
      var more := PiecesFromCuts(text, j, j);
      ws := CutAt(text, start, i, j, more);
    } else {
      ws := PiecesFromCuts(text, start, i + 1);
    }
  }

  /** One cut of the scan: the piece before the split point and the whitespace run
      after it join the decomposition of the rest. */
  lemma CutAt(text: string, start: nat, i: nat, j: nat, more: seq<string>) returns (ws: seq<string>)
    requires start <= i < |text| && SplitsAt(text, i) && j == SpaceRunEnd(text, i + 1)
    requires i > start || start == 0 || !IsTerminal(text[start - 1])
    requires |PiecesFrom(text, j, j)| == |more| + 1
    requires Cuts(PiecesFrom(text, j, j), more) && LaidOut(text, j, PiecesFrom(text, j, j), more)
    ensures PiecesFrom(text, start, i) == [text[start..i]] + PiecesFrom(text, j, j)
    ensures ws == [text[i..j]] + more
    ensures Cuts(PiecesFrom(text, start, i), ws) && LaidOut(text, start, PiecesFrom(text, start, i), ws)
  {
    var rest := PiecesFrom(text, j, j);
    var w := text[i..j];
    assert AllSpace(w) by {
      forall k | 0 <= k < |w| ensures IsSpace(w[k]) {
        if k > 0 { assert w[k] == text[i + 1..j][k - 1]; }
      }
    }
    if rest[0] != [] {
      PiecesStart(text, j, rest, more);
    }
    var a := text[start..i];
    assert a[|a| - 1] == text[i - 1];
    CutsCons(a, w, rest, more);
    ws := [w] + more;
    var ps := [a] + rest;
    assert ps[1..] == rest && ws[1..] == more;
  }

  /** The first piece laid out from `j` starts at `j`. */
  lemma PiecesStart(text: string, j: nat, ps: seq<string>, ws: seq<string>)
    requires |ps| == |ws| + 1 && LaidOut(text, j, ps, ws) && ps[0] != []
    ensures j < |text| && ps[0][0] == text[j]
  {
    if ws == [] {
      assert text[j..] == ps[0];
      assert text[j..][0] == text[j];
    } else {
      assert text[j..j + |ps[0]|][0] == text[j];
    }
  }

  /** The split keeps the separators it cuts out: the text is its pieces with whitespace
      separators between them, cut as `IsSplit` says. */
  lemma PiecesAreSplit(text: string) returns (ws: seq<string>)
    ensures IsSplit(text, Pieces(text), ws)
  {
    ws := PiecesFromCuts(text, 0, 0);
    LaidOutIsInterleave(text, 0, Pieces(text), ws);
    assert text[0..] == text;
    assert NoSplitPoint(text[0..0]);
    PiecesHaveNoSplitPoint(text, 0, 0);
  }

  /** "Ab. Cd" is cut after the full stop, and the separating space is what is lost. */
  lemma ExampleCut()
    ensures Pieces("Ab. Cd") == ["Ab.", "Cd"]
  {
    var ps, ws := ["Ab.", "Cd"], [" "];
    assert Interleave(ps[1..], ws[1..]) == "Cd";
    assert Interleave(ps, ws) == "Ab. Cd";
    assert NoSplitPoint("Ab.") && NoSplitPoint("Cd");
    SplitDeterminesPieces("Ab. Cd", ps, ws);
  }

  lemma {:induction false} NoSplitSinglePiece(text: string, start: nat, i: nat)
    requires start <= i <= |text|
    requires forall k :: 0 < k < |text| ==> !SplitsAt(text, k)
    ensures PiecesFrom(text, start, i) == [text[start..]]
    decreases |text| - i
  {
    if i < |text| {
      NoSplitSinglePiece(text, start, i + 1);
    }
  }

  /** Empty or whitespace-only text contains no sentence. */
  lemma BlankTextHasNoSentences(text: string)
    requires AllSpace(text)
    ensures SplitSentences(text) == []
  {
    NoSplitSinglePiece(text, 0, 0);
    assert text[0..] == text;
    var ps := Pieces(text);
    assert ps == [text] && Trim(ps[0]) == [];
    assert Keep(ps) == Keep(ps[1..]);
    assert ps[1..] == [];
  }

  lemma TrimKeepsNoSplitPoint(p: string)
    requires NoSplitPoint(p)
    ensures NoSplitPoint(Trim(p))
  {
    var s := Trim(p);
    var i, j :| 0 <= i <= j <= |p| && s == p[i..j] && AllSpace(p[..i]) && AllSpace(p[j..]);
    SubstringKeepsNoSplitPoint(p, i, j);
  }

  lemma {:induction false} KeepKeepsNoSplitPoint(pieces: seq<string>)
    requires forall p :: p in pieces ==> NoSplitPoint(p)
    ensures forall s :: s in Keep(pieces) ==> NoSplitPoint(s)
  {
    if pieces != [] {
      TrimKeepsNoSplitPoint(pieces[0]);
      KeepKeepsNoSplitPoint(pieces[1..]);
    }
  }

  /** No sentence contains `.`, `!` or `?` directly followed by whitespace. */
  lemma SentencesHaveNoSplitPoint(text: string)
    ensures forall s :: s in SplitSentences(text) ==> NoSplitPoint(s)
  {
    PiecesHaveNoSplitPoint(text, 0, 0);
    KeepKeepsNoSplitPoint(Pieces(text));
  }

  lemma {:induction false} KeepMembers(pieces: seq<string>, s: string)
    ensures s in Keep(pieces) <==> exists p :: p in pieces && s == Trim(p) && |s| > MinSentenceLength
  {
    if pieces != [] {
      KeepMembers(pieces[1..], s);
      assert forall p :: p in pieces <==> p == pieces[0] || p in pieces[1..];
    }
  }

  /** Every sentence is a stripped piece of the split, and every stripped piece longer
      than the minimum is a sentence. */
  lemma SentencesAreLongStrippedPieces(text: string, s: string)
    ensures s in SplitSentences(text)
            <==> exists p :: p in Pieces(text) && s == Trim(p) && |s| > MinSentenceLength
  {
    KeepMembers(Pieces(text), s);
  }
}
