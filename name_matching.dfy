/** Completeness of the person-name matchers (app.py:154-170 and app.py:179-181):
    each matcher finds the match its regular expression describes whenever there is
    one, takes the greedy one when there are several, and fails only when there is
    none. Together with the soundness lemmas next to the matchers these are
    if-and-only-if statements about the matches. */
module NameMatching {
  import opened Wrappers
  import opened Text
  import opened Persons

  // ---------------------------------------------------------------- words

  /** Some word of the patterns starts at `i`. */
  ghost predicate WordStartsAt(s: string, i: nat, ignoreCase: bool)
    requires i <= |s|
  {
    exists e :: i <= e <= |s| && IsWord(s[i..e], ignoreCase)
  }

  /** A word that no tail letter extends is the one `WordEnd` finds. */
  lemma WordAtItsEnd(s: string, i: nat, ignoreCase: bool, e: nat)
    requires i <= e <= |s| && IsWord(s[i..e], ignoreCase)
    requires e == |s| || !IsTailLetter(s[e], ignoreCase)
    ensures WordEnd(s, i, ignoreCase) == Some(e)
  {
    var w := s[i..e];
    assert s[i] == w[0] && s[i + 1] == w[1];
    assert s[i + 1..e] == w[1..];
    if ignoreCase {
      var t := s[i + 1..e];
      assert AllLetters(t) by {
        forall k | 0 <= k < |t| ensures IsLetter(t[k]) {
          assert t[k] == w[k + 1];
        }
      }
      LetterRunEndUnique(s, i + 1, e);
    } else {
      assert IsLower(w[1..][0]);
      LowerRunEndUnique(s, i + 1, e);
    }
  }

  /** `WordEnd` finds exactly the word at `i` that no tail letter extends. */
  lemma WordEndMatches(s: string, i: nat, ignoreCase: bool, e: nat)
    requires i <= |s|
    ensures WordEnd(s, i, ignoreCase) == Some(e)
            <==> i <= e <= |s| && IsWord(s[i..e], ignoreCase) && (e == |s| || !IsTailLetter(s[e], ignoreCase))
  {
    if i <= e <= |s| && IsWord(s[i..e], ignoreCase) && (e == |s| || !IsTailLetter(s[e], ignoreCase)) {
      WordAtItsEnd(s, i, ignoreCase, e);
    }
  }

  /** `WordEnd` fails exactly when no word starts at `i`. */
  lemma WordEndFinds(s: string, i: nat, ignoreCase: bool)
    requires i <= |s|
    ensures WordEnd(s, i, ignoreCase).Some? <==> WordStartsAt(s, i, ignoreCase)
  {
    if WordStartsAt(s, i, ignoreCase) {
      var e :| i <= e <= |s| && IsWord(s[i..e], ignoreCase);
      var w := s[i..e];
      assert s[i] == w[0] && s[i + 1] == w[1];
      if !ignoreCase {
        assert w[1..][0] == w[1];
      }
    }
    if WordEnd(s, i, ignoreCase).Some? {
      var e := WordEnd(s, i, ignoreCase).value;
      assert IsWord(s[i..e], ignoreCase);
    }
  }

  /** A run starts with a word. */
  lemma RunFirstWord(m: string, n: nat, ignoreCase: bool) returns (i: nat)
    requires IsRun(m, n, ignoreCase)
    ensures 0 < i <= |m| && IsWord(m[..i], ignoreCase)
  {
    if IsWord(m, ignoreCase) {
      i := |m|;
      assert m[..i] == m;
    } else {
      var j :| exists i' :: 0 < i' < j < |m| && IsWord(m[..i'], ignoreCase) && AllSpace(m[i'..j])
                           && IsRun(m[j..], n - 1, ignoreCase);
      i :| 0 < i < j < |m| && IsWord(m[..i], ignoreCase) && AllSpace(m[i..j]) && IsRun(m[j..], n - 1, ignoreCase);
    }
  }

  /** A run found in the text starts where `WordEnd` finds a word. */
  lemma RunWordStart(s: string, y: nat, f: nat, n: nat, ignoreCase: bool)
    requires y <= f <= |s| && IsRun(s[y..f], n, ignoreCase)
    ensures WordEnd(s, y, ignoreCase).Some?
  {
    var i := RunFirstWord(s[y..f], n, ignoreCase);
    assert s[y..f][..i] == s[y..y + i];
    WordEndFinds(s, y, ignoreCase);
  }

  /** A run of several words, in the text: its first word, the whitespace after it
      and the rest of the run. */
  lemma RunParts(s: string, b: nat, f: nat, n: nat, ignoreCase: bool) returns (x: nat, y: nat)
    requires b <= f <= |s| && IsRun(s[b..f], n, ignoreCase) && !IsWord(s[b..f], ignoreCase)
    ensures n >= 2 && b < x < y < f
    ensures IsWord(s[b..x], ignoreCase) && AllSpace(s[x..y]) && IsRun(s[y..f], n - 1, ignoreCase)
  {
    var m := s[b..f];
    var i, j :| 0 < i < j < |m| && IsWord(m[..i], ignoreCase) && AllSpace(m[i..j])
                && IsRun(m[j..], n - 1, ignoreCase);
    x, y := b + i, b + j;
    SliceOfSlice(s, b, f, 0, i);
    SliceOfSlice(s, b, f, i, j);
    SliceOfSlice(s, b, f, j, |m|);
    assert m[..i] == m[0..i];
    assert m[j..] == m[j..|m|];
    assert s[b..x] == m[..i] && s[x..y] == m[i..j] && s[y..f] == m[j..];
  }

  // ---------------------------------------------------------------- chains

  /** No whitespace run followed by a word comes right after `f`. */
  ghost predicate NoWordAfter(s: string, f: nat, ignoreCase: bool)
    requires f <= |s|
  {
    forall j, w :: f < j <= w <= |s| && AllSpace(s[f..j]) ==> !IsWord(s[j..w], ignoreCase)
  }

  /** The chain after `e` is a whitespace run up to `j` and the word that `WordEnd` finds there. */
  lemma ChainUnfold(s: string, e: nat, k: nat, ignoreCase: bool, j: nat, w: nat)
    requires e <= |s| && k > 0 && SpaceRunEnd(s, e) == j && e < j && WordEnd(s, j, ignoreCase) == Some(w)
    ensures ChainFrom(s, e, k, ignoreCase) == [w] + ChainFrom(s, w, k - 1, ignoreCase)
  {
  }

  /** The second word of a run in the text: where the first word ends, the whitespace
      run after it, and the next word. */
  lemma RunNextWord(s: string, b: nat, e: nat, x: nat, y: nat, f: nat, n: nat, ignoreCase: bool) returns (w: nat)
    requires b < e <= |s| && WordEnd(s, b, ignoreCase) == Some(e)
    requires b < x < y < f <= |s| && n >= 2
    requires IsWord(s[b..x], ignoreCase) && AllSpace(s[x..y]) && IsRun(s[y..f], n - 1, ignoreCase)
    ensures e == x && SpaceRunEnd(s, e) == y && WordEnd(s, y, ignoreCase) == Some(w)
  {
    assert IsSpace(s[x..y][0]);
    WordEndMatches(s, b, ignoreCase, x);
    RunShape(s[y..f], n - 1, ignoreCase);
    assert s[y..f][0] == s[y];
    SpaceRunEndUnique(s, x, y);
    RunWordStart(s, y, f, n - 1, ignoreCase);
    w := WordEnd(s, y, ignoreCase).value;
  }

  /** Every run of at most `n` words from `b` that no tail letter extends ends at one of
      the ends the chain lists, provided the chain's bound does not cut it short. */
  lemma {:induction false} RunInChain(s: string, b: nat, e: nat, f: nat, n: nat, k: nat, ignoreCase: bool)
    requires b < e <= |s| && WordEnd(s, b, ignoreCase) == Some(e)
    requires b <= f <= |s| && IsRun(s[b..f], n, ignoreCase) && (f == |s| || !IsTailLetter(s[f], ignoreCase))
    requires n <= k + 1 || |s| - e <= k
    ensures f in [e] + ChainFrom(s, e, k, ignoreCase)
    decreases n, 1
  {
    if IsWord(s[b..f], ignoreCase) {
      WordEndMatches(s, b, ignoreCase, f);
    } else {
      var x, y := RunParts(s, b, f, n, ignoreCase);
      RunInChainPast(s, b, e, x, y, f, n, k, ignoreCase);
    }
  }

  /** `RunInChain` past the first word `s[b..x]` of a run of several words. */
  lemma {:induction false} RunInChainPast(s: string, b: nat, e: nat, x: nat, y: nat, f: nat, n: nat, k: nat, ignoreCase: bool)
    requires b < e <= |s| && WordEnd(s, b, ignoreCase) == Some(e)
    requires b < x < y < f <= |s| && n >= 2 && (f == |s| || !IsTailLetter(s[f], ignoreCase))
    requires IsWord(s[b..x], ignoreCase) && AllSpace(s[x..y]) && IsRun(s[y..f], n - 1, ignoreCase)
    requires n <= k + 1 || |s| - e <= k
    ensures f in [e] + ChainFrom(s, e, k, ignoreCase)
    decreases n, 0
  {
    var w := RunNextWord(s, b, e, x, y, f, n, ignoreCase);
    assert e < y < w;
    assert k > 0;
    assert n - 1 <= k - 1 + 1 || |s| - w <= k - 1;
    RunInChain(s, y, w, f, n - 1, k - 1, ignoreCase);
    ChainGrows(s, e, k, ignoreCase, y, w, f);
  }

  /** An end of the chain from the next word is an end of the chain from `e`. */
  lemma ChainGrows(s: string, e: nat, k: nat, ignoreCase: bool, y: nat, w: nat, f: nat)
    requires e <= |s| && k > 0 && SpaceRunEnd(s, e) == y && e < y && WordEnd(s, y, ignoreCase) == Some(w)
    requires f in [w] + ChainFrom(s, w, k - 1, ignoreCase)
    ensures f in [e] + ChainFrom(s, e, k, ignoreCase)
  {
    ChainUnfold(s, e, k, ignoreCase, y, w);
  }

  /** The chain's own test for going on after `f`: whitespace, then a word. */
  predicate WordFollows(s: string, f: nat, ignoreCase: bool)
    requires f <= |s|
  {
    SpaceRunEnd(s, f) > f && WordEnd(s, SpaceRunEnd(s, f), ignoreCase).Some?
  }

  /** With no whitespace run after `e`, or no word after it, nothing more follows `e`. */
  lemma NoWordAtRunEnd(s: string, e: nat, ignoreCase: bool)
    requires e <= |s| && !WordFollows(s, e, ignoreCase)
    ensures NoWordAfter(s, e, ignoreCase)
  {
    forall j, w | e < j <= w <= |s| && AllSpace(s[e..j]) ensures !IsWord(s[j..w], ignoreCase) {
      if IsWord(s[j..w], ignoreCase) {
        assert s[j..w][0] == s[j];
        assert IsSpace(s[e..j][0]);
        SpaceRunEndUnique(s, e, j);
        WordEndFinds(s, j, ignoreCase);
        assert false;
      }
    }
  }

  /** Whitespace and a word after `f`: something follows `f`. */
  lemma WordAtRunEnd(s: string, f: nat, ignoreCase: bool)
    requires f <= |s| && WordFollows(s, f, ignoreCase)
    ensures !NoWordAfter(s, f, ignoreCase)
  {
    var j := SpaceRunEnd(s, f);
    var w := WordEnd(s, j, ignoreCase).value;
    assert f < j <= w <= |s| && AllSpace(s[f..j]) && IsWord(s[j..w], ignoreCase);
  }

  /** No chain goes on from `e` when no whitespace and word follow it. */
  lemma ChainStopsHere(s: string, e: nat, k: nat, ignoreCase: bool)
    requires e <= |s| && !WordFollows(s, e, ignoreCase)
    ensures ChainFrom(s, e, k, ignoreCase) == []
  {
  }

  /** A chain shorter than its bound ends where no whitespace and word follow. */
  predicate StopsShort(s: string, e: nat, k: nat, ignoreCase: bool)
    requires e <= |s|
  {
    var r := ChainFrom(s, e, k, ignoreCase);
    |r| < k ==> !WordFollows(s, if |r| == 0 then e else r[|r| - 1], ignoreCase)
  }

  /** `StopsShort` one word further on. */
  lemma ChainStopsStep(s: string, e: nat, k: nat, ignoreCase: bool, w: nat)
    requires e <= |s| && k > 0 && WordFollows(s, e, ignoreCase)
    requires WordEnd(s, SpaceRunEnd(s, e), ignoreCase) == Some(w)
    requires StopsShort(s, w, k - 1, ignoreCase)
    ensures StopsShort(s, e, k, ignoreCase)
  {
    var r' := ChainFrom(s, w, k - 1, ignoreCase);
    ChainUnfold(s, e, k, ignoreCase, SpaceRunEnd(s, e), w);
    var r := ChainFrom(s, e, k, ignoreCase);
    assert |r| == |r'| + 1 && r[0] == w;
    if |r| < k {
      var f := if |r'| == 0 then w else r'[|r'| - 1];
      assert !WordFollows(s, f, ignoreCase);
      assert r[|r| - 1] == f;
    }
  }

  /** Every chain shorter than its bound ends where no whitespace and word follow. */
  lemma {:induction false} ChainStopsAt(s: string, e: nat, k: nat, ignoreCase: bool)
    requires e <= |s|
    ensures StopsShort(s, e, k, ignoreCase)
    decreases k
  {
    if k > 0 && WordFollows(s, e, ignoreCase) {
      var w := WordEnd(s, SpaceRunEnd(s, e), ignoreCase).value;
      ChainStopsAt(s, w, k - 1, ignoreCase);
      ChainStopsStep(s, e, k, ignoreCase, w);
    } else if !WordFollows(s, e, ignoreCase) {
      ChainStopsHere(s, e, k, ignoreCase);
    }
  }

  /** A chain shorter than its bound stops where no further word follows. */
  lemma ChainStops(s: string, e: nat, k: nat, ignoreCase: bool)
    requires e <= |s|
    ensures var r := ChainFrom(s, e, k, ignoreCase);
            |r| < k ==> NoWordAfter(s, if r == [] then e else Last(r), ignoreCase)
  {
    var r := ChainFrom(s, e, k, ignoreCase);
    ChainStopsAt(s, e, k, ignoreCase);
    if |r| < k {
      NoWordAtRunEnd(s, if r == [] then e else Last(r), ignoreCase);
    }
  }

  /** Every end of a chain but the last is followed by whitespace and a word. */
  lemma {:induction false} ChainFollowAt(s: string, e: nat, k: nat, ignoreCase: bool, t: nat)
    requires e <= |s| && t + 1 < |[e] + ChainFrom(s, e, k, ignoreCase)|
    ensures ([e] + ChainFrom(s, e, k, ignoreCase))[t] <= |s|
    ensures WordFollows(s, ([e] + ChainFrom(s, e, k, ignoreCase))[t], ignoreCase)
    decreases k
  {
    var w := ChainFollowFirst(s, e, k, ignoreCase);
    if t > 0 {
      ChainFollowAt(s, w, k - 1, ignoreCase, t - 1);
      ChainShift(e, w, ChainFrom(s, w, k - 1, ignoreCase), t);
    }
  }

  /** A chain that goes on starts with a word after the whitespace run. */
  lemma ChainFollowFirst(s: string, e: nat, k: nat, ignoreCase: bool) returns (w: nat)
    requires e <= |s| && ChainFrom(s, e, k, ignoreCase) != []
    ensures k > 0 && WordFollows(s, e, ignoreCase) && w == WordEnd(s, SpaceRunEnd(s, e), ignoreCase).value
    ensures w <= |s| && ChainFrom(s, e, k, ignoreCase) == [w] + ChainFrom(s, w, k - 1, ignoreCase)
  {
    w := WordEnd(s, SpaceRunEnd(s, e), ignoreCase).value;
  }

  /** Position `t` of a chain that starts `[e, w]` is position `t - 1` of the chain
      from `w`. */
  lemma ChainShift(e: nat, w: nat, r: seq<nat>, t: nat)
    requires 0 < t < |r| + 2
    ensures ([e] + ([w] + r))[t] == ([w] + r)[t - 1]
  {
  }

  /** Every end of a chain but the last is followed by a further word. */
  lemma ChainFollow(s: string, e: nat, k: nat, ignoreCase: bool, t: nat)
    requires e <= |s| && t + 1 < |[e] + ChainFrom(s, e, k, ignoreCase)|
    ensures ([e] + ChainFrom(s, e, k, ignoreCase))[t] <= |s|
    ensures !NoWordAfter(s, ([e] + ChainFrom(s, e, k, ignoreCase))[t], ignoreCase)
  {
    ChainFollowAt(s, e, k, ignoreCase, t);
    WordAtRunEnd(s, ([e] + ChainFrom(s, e, k, ignoreCase))[t], ignoreCase);
  }

  /** A strictly increasing sequence of numbers in `(lo, hi]` has at most `hi - lo` elements. */
  lemma {:induction false} IncreasingLength(xs: seq<nat>, lo: nat, hi: nat)
    requires lo <= hi
    requires forall i :: 0 <= i < |xs| ==> lo < xs[i] <= hi
    requires forall i, j :: 0 <= i < j < |xs| ==> xs[i] < xs[j]
    ensures |xs| <= hi - lo
  {
    if xs != [] {
      var tail := xs[1..];
      assert forall i :: 0 <= i < |tail| ==> xs[0] < tail[i] <= hi by {
        forall i | 0 <= i < |tail| ensures xs[0] < tail[i] <= hi {
          assert tail[i] == xs[i + 1];
        }
      }
      assert forall i, j :: 0 <= i < j < |tail| ==> tail[i] < tail[j] by {
        forall i, j | 0 <= i < j < |tail| ensures tail[i] < tail[j] {
          assert tail[i] == xs[i + 1] && tail[j] == xs[j + 1];
        }
      }
      IncreasingLength(tail, xs[0], hi);
      assert |xs| == |tail| + 1 && lo < xs[0];
    }
  }

  /** The ends a chain lists are ends of runs that no tail letter extends. */
  lemma ChainMemberIsRun(s: string, b: nat, e: nat, k: nat, ignoreCase: bool, t: nat, f: nat)
    requires b < e <= |s| && WordEnd(s, b, ignoreCase) == Some(e)
    requires t < |[e] + ChainFrom(s, e, k, ignoreCase)| && ([e] + ChainFrom(s, e, k, ignoreCase))[t] == f
    ensures b <= f <= |s| && IsRun(s[b..f], k + 1, ignoreCase) && (f == |s| || !IsTailLetter(s[f], ignoreCase))
  {
    var more := ChainFrom(s, e, k, ignoreCase);
    WordsSound(s, b, e, k, ignoreCase, t);
    RunMonotone(s[b..f], t + 1, k + 1, ignoreCase);
    if t > 0 {
      assert f == more[t - 1];
    }
  }

  /** The ends a chain lists, after its first word, are exactly the ends of runs of at
      most `k + 1` words from `b` that no tail letter extends. */
  lemma ChainMembers(s: string, b: nat, e: nat, k: nat, ignoreCase: bool, f: nat)
    requires b < e <= |s| && WordEnd(s, b, ignoreCase) == Some(e)
    ensures f in [e] + ChainFrom(s, e, k, ignoreCase)
            <==> b <= f <= |s| && IsRun(s[b..f], k + 1, ignoreCase) && (f == |s| || !IsTailLetter(s[f], ignoreCase))
  {
    var ends := [e] + ChainFrom(s, e, k, ignoreCase);
    if f in ends {
      var t :| 0 <= t < |ends| && ends[t] == f;
      ChainMemberIsRun(s, b, e, k, ignoreCase, t, f);
    } else if b <= f <= |s| && IsRun(s[b..f], k + 1, ignoreCase) && (f == |s| || !IsTailLetter(s[f], ignoreCase)) {
      RunInChain(s, b, e, f, k + 1, k, ignoreCase);
      assert false;
    }
  }

  /** The end of the second group is the end of the whole greedy chain: a party name
      from `u` that no letter extends and that no further word follows. */
  lemma ChainEndMatches(s: string, u: nat, e: nat)
    requires u <= |s| && WordEnd(s, u, true).Some?
    ensures ChainEnd(s, u) == e
            <==> u < e <= |s| && IsPartyName(s[u..e]) && (e == |s| || !IsLetter(s[e])) && NoWordAfter(s, e, true)
  {
    if ChainEnd(s, u) == e {
      ChainEndIsMatch(s, u);
    }
    if u < e <= |s| && IsPartyName(s[u..e]) && (e == |s| || !IsLetter(s[e])) && NoWordAfter(s, e, true) {
      MatchIsChainEnd(s, u, e);
    }
  }

  lemma ChainEndIsMatch(s: string, u: nat)
    requires u <= |s| && WordEnd(s, u, true).Some?
    ensures var e := ChainEnd(s, u);
            u < e <= |s| && IsPartyName(s[u..e]) && (e == |s| || !IsLetter(s[e])) && NoWordAfter(s, e, true)
  {
    var w := WordEnd(s, u, true).value;
    var more := ChainFrom(s, w, |s|, true);
    ChainEndSound(s, u);
    IncreasingLength(more, w, |s|);
    ChainStops(s, w, |s|, true);
    if more != [] {
      assert Last(more) == more[|more| - 1];
    }
  }

  lemma MatchIsChainEnd(s: string, u: nat, e: nat)
    requires u <= |s| && WordEnd(s, u, true).Some?
    requires u < e <= |s| && IsPartyName(s[u..e]) && (e == |s| || !IsLetter(s[e])) && NoWordAfter(s, e, true)
    ensures ChainEnd(s, u) == e
  {
    var w := WordEnd(s, u, true).value;
    var more := ChainFrom(s, w, |s|, true);
    var n :| IsRun(s[u..e], n, true);
    RunInChain(s, u, w, e, n, |s|, true);
    var ends := [w] + more;
    var t :| 0 <= t < |ends| && ends[t] == e;
    if t + 1 < |ends| {
      ChainFollow(s, w, |s|, true, t);
      assert false;
    }
    assert ChainEnd(s, u) == Last(ends);
  }

  // ---------------------------------------------------------------- the generic pattern

  /** `\b([A-Z][a-z]+(?:\s+[A-Z][a-z]+){0,4})\b` can match `s[p..e]`. */
  ghost predicate IsNameMatch(s: string, p: nat, e: nat) {
    p <= e <= |s| && BoundaryAt(s, p) && IsName(s[p..e]) && BoundaryAt(s, e)
  }

  /** A first end followed by a chain of greater, increasing ends is increasing. */
  lemma EndsIncreasing(e1: nat, more: seq<nat>)
    requires forall i :: 0 <= i < |more| ==> e1 < more[i]
    requires forall i, j :: 0 <= i < j < |more| ==> more[i] < more[j]
    ensures forall i, j :: 0 <= i < j < |[e1] + more| ==> ([e1] + more)[i] < ([e1] + more)[j]
  {
    var ends := [e1] + more;
    forall i, j | 0 <= i < j < |ends| ensures ends[i] < ends[j] {
      if i > 0 { assert ends[i] == more[i - 1]; }
      assert ends[j] == more[j - 1];
    }
  }

  /** A possible match ends at one of the ends of the greedy chain. */
  lemma NameMatchInChain(s: string, p: nat, e': nat) returns (t: nat)
    requires IsNameMatch(s, p, e')
    ensures WordEnd(s, p, false).Some?
    ensures var ends := [WordEnd(s, p, false).value] + ChainFrom(s, WordEnd(s, p, false).value, MaxNameWords - 1, false);
            t < |ends| && ends[t] == e'
  {
    RunWordStart(s, p, e', MaxNameWords, false);
    var e1 := WordEnd(s, p, false).value;
    RunEndsWithLetter(s, p, e', MaxNameWords, false);
    RunInChain(s, p, e1, e', MaxNameWords, MaxNameWords - 1, false);
    var ends := [e1] + ChainFrom(s, e1, MaxNameWords - 1, false);
    t :| 0 <= t < |ends| && ends[t] == e';
  }

  /** Every possible match at `p` is found or outrun by the greedy one. */
  lemma NameAtGreatest(s: string, p: nat, e': nat)
    requires IsNameMatch(s, p, e')
    ensures NameAt(s, p).Some? && e' <= NameAt(s, p).value
  {
    var t := NameMatchInChain(s, p, e');
    var e1 := WordEnd(s, p, false).value;
    var more := ChainFrom(s, e1, MaxNameWords - 1, false);
    var ends := [e1] + more;
    EndsIncreasing(e1, more);
    if !BoundaryAt(s, Last(ends)) {
      assert t < |ends| - 1;
      assert ends[t] <= ends[|ends| - 2];
    } else {
      assert ends[t] <= Last(ends);
    }
  }

  /** What `NameAt` finds is the longest match at `p`. */
  lemma NameAtIsLongest(s: string, p: nat)
    requires p <= |s| && NameAt(s, p).Some?
    ensures IsNameMatch(s, p, NameAt(s, p).value)
    ensures forall e': nat :: IsNameMatch(s, p, e') ==> e' <= NameAt(s, p).value
  {
    NameAtSound(s, p);
    forall e': nat | IsNameMatch(s, p, e') ensures e' <= NameAt(s, p).value {
      NameAtGreatest(s, p, e');
    }
  }

  /** `NameAt` finds exactly the longest match at `p`. */
  lemma NameAtMatches(s: string, p: nat, e: nat)
    requires p <= |s|
    ensures NameAt(s, p) == Some(e) <==> IsNameMatch(s, p, e) && forall e': nat :: IsNameMatch(s, p, e') ==> e' <= e
  {
    if NameAt(s, p).Some? {
      NameAtIsLongest(s, p);
    }
    if IsNameMatch(s, p, e) {
      NameAtGreatest(s, p, e);
    }
  }

  /** `NameAt` fails exactly when nothing matches at `p`. */
  lemma NameAtNone(s: string, p: nat)
    requires p <= |s|
    ensures NameAt(s, p).None? <==> forall e :: !IsNameMatch(s, p, e)
  {
    if NameAt(s, p).Some? {
      NameAtSound(s, p);
      assert IsNameMatch(s, p, NameAt(s, p).value);
    }
    forall e | IsNameMatch(s, p, e) ensures NameAt(s, p).Some? {
      NameAtGreatest(s, p, e);
    }
  }

  /** `finditer` passes over positions where nothing matches. */
  lemma {:induction false} NameMatchesFromSkips(s: string, p: nat, q: nat)
    requires p <= q <= |s|
    requires forall k, e :: p <= k < q ==> !IsNameMatch(s, k, e)
    ensures NameMatchesFrom(s, p) == NameMatchesFrom(s, q)
    decreases q - p
  {
    if p < q {
      NameMatchesFromPass(s, p);
      NameMatchesFromSkips(s, p + 1, q);
    }
  }

  /** One position where nothing matches. */
  lemma NameMatchesFromPass(s: string, p: nat)
    requires p < |s| && forall e :: !IsNameMatch(s, p, e)
    ensures NameMatchesFrom(s, p) == NameMatchesFrom(s, p + 1)
  {
    NameAtNone(s, p);
  }

  /** `finditer` reports the longest match at the first position where one exists and
      resumes at its end. */
  lemma NameMatchesFromFinds(s: string, p: nat, q: nat, e: nat)
    requires p <= q <= |s|
    requires forall k, e' :: p <= k < q ==> !IsNameMatch(s, k, e')
    requires IsNameMatch(s, q, e) && forall e': nat :: IsNameMatch(s, q, e') ==> e' <= e
    ensures NameMatchesFrom(s, p) == [s[q..e]] + NameMatchesFrom(s, e)
  {
    NameMatchesFromSkips(s, p, q);
    NameAtMatches(s, q, e);
    RunEndsWithLetter(s, q, e, MaxNameWords, false);
  }

  /** `finditer` reports nothing exactly when nothing matches from `p` on. */
  lemma {:induction false} NameMatchesFromEmpty(s: string, p: nat)
    requires p <= |s|
    ensures NameMatchesFrom(s, p) == [] <==> forall k, e :: p <= k < |s| ==> !IsNameMatch(s, k, e)
    decreases |s| - p
  {
    if forall k, e :: p <= k < |s| ==> !IsNameMatch(s, k, e) {
      NameMatchesFromSkips(s, p, |s|);
    }
    if NameMatchesFrom(s, p) == [] && p < |s| {
      NameAtNone(s, p);
      NameMatchesFromEmpty(s, p + 1);
    }
  }

  // ---------------------------------------------------------------- the party patterns

  /** Alternatives that need no backtracking into the whitespace around them: each
      starts with a character that is not whitespace, and none is, ignoring case, a
      proper prefix of another. */
  predicate SeparatorsOk(seps: seq<string>) {
    && (forall k :: 0 <= k < |seps| ==> seps[k] != [] && !IsSpace(seps[k][0]))
    && (forall k, k' :: 0 <= k < |seps| && 0 <= k' < |seps| && |seps[k]| < |seps[k']|
          ==> Lower(seps[k]) != Lower(seps[k'])[..|seps[k]|])
  }

  /** Both alternative lists of the application have that shape. */
  lemma PartySeparatorsOk()
    ensures forall k :: 0 <= k < |PartyPatterns| ==> SeparatorsOk(PartyPatterns[k])
  {
    var v := VersusSeparators;
    forall k, k' | 0 <= k < |v| && 0 <= k' < |v| && |v[k]| < |v[k']|
      ensures Lower(v[k]) != Lower(v[k'])[..|v[k]|]
    {
      assert k' == 2 && |v[k]| == 2;
      assert Lower(v[k'])[..2][1] == LowerChar(v[k'][1]) == 'e';
      assert Lower(v[k])[1] == LowerChar(v[k][1]) != 'e';
    }
    assert SeparatorsOk(v);
    assert SeparatorsOk(AndSeparators);
  }

  /** A party pattern can match with groups `s[p..e1]` and `s[b..e2]`: a party name,
      whitespace, an alternative, whitespace, and a second party name that, as the
      greedy star leaves it, no letter extends and no further word follows. */
  ghost predicate IsPartyMatch(s: string, p: nat, e1: nat, b: nat, e2: nat, seps: seq<string>) {
    && p < e1 < b < e2 <= |s|
    && IsPartyName(s[p..e1])
    && (exists k :: 0 <= k < |seps| && Separates(s, e1, b, seps[k]))
    && IsPartyName(s[b..e2]) && (e2 == |s| || !IsLetter(s[e2])) && NoWordAfter(s, e2, true)
  }

  /** `SeparatorThenWord` finds exactly the alternative, whitespace and a word start. */
  lemma SeparatorThenWordMatches(s: string, j: nat, sep: string, u: nat)
    requires j <= |s|
    ensures SeparatorThenWord(s, j, sep) == Some(u)
            <==> && j + |sep| < u <= |s| && Lower(s[j..j + |sep|]) == Lower(sep)
                 && AllSpace(s[j + |sep|..u]) && WordStartsAt(s, u, true)
  {
    if u <= |s| {
      WordEndFinds(s, u, true);
    }
    if j + |sep| < u <= |s| && Lower(s[j..j + |sep|]) == Lower(sep) && AllSpace(s[j + |sep|..u])
       && WordStartsAt(s, u, true)
    {
      var w :| u <= w <= |s| && IsWord(s[u..w], true);
      assert s[u..w][0] == s[u];
      SpaceRunEndUnique(s, j + |sep|, u);
    }
  }

  /** One step of the greedy scan over the first group's ends. */
  lemma SplitPartiesStep(s: string, p: nat, ends: seq<nat>, n: nat, seps: seq<string>)
    requires 0 < n <= |ends| && forall i :: 0 <= i < |ends| ==> p < ends[i] <= |s|
    ensures var e := ends[n - 1];
            ContinuesAt(s, e, seps) ==>
              var u := FirstSeparator(s, SpaceRunEnd(s, e), seps, 0).value.1;
              WordEnd(s, u, true).Some? && SplitParties(s, p, ends, n, seps) == Some((e, u, ChainEnd(s, u)))
    ensures !ContinuesAt(s, ends[n - 1], seps) ==> SplitParties(s, p, ends, n, seps) == SplitParties(s, p, ends, n - 1, seps)
  {
  }

  /** The greedy scan passes over ends after which the pattern cannot go on. */
  lemma {:induction false} SplitPartiesSkip(s: string, p: nat, ends: seq<nat>, n: nat, m: nat, seps: seq<string>)
    requires m <= n <= |ends| && forall i :: 0 <= i < |ends| ==> p < ends[i] <= |s|
    requires forall i :: m <= i < n ==> !ContinuesAt(s, ends[i], seps)
    ensures SplitParties(s, p, ends, n, seps) == SplitParties(s, p, ends, m, seps)
    decreases n
  {
    if m < n {
      SplitPartiesStep(s, p, ends, n, seps);
      SplitPartiesSkip(s, p, ends, n - 1, m, seps);
    }
  }

  /** The last `true` in a sequence of flags with some `true` at or after `t`. */
  lemma {:induction false} LastTrue(c: seq<bool>, t: nat) returns (i: nat)
    requires t < |c| && c[t]
    ensures t <= i < |c| && c[i] && forall i' :: i < i' < |c| ==> !c[i']
    decreases |c| - t
  {
    if exists t' :: t < t' < |c| && c[t'] {
      var t' :| t < t' < |c| && c[t'];
      i := LastTrue(c, t');
    } else {
      i := t;
    }
  }

  /** The greedy scan over the first group's ends: it fails exactly when the pattern
      cannot go on after any of them. */
  lemma SplitPartiesNone(s: string, p: nat, ends: seq<nat>, n: nat, seps: seq<string>)
    requires n <= |ends| && forall i :: 0 <= i < |ends| ==> p < ends[i] <= |s|
    ensures SplitParties(s, p, ends, n, seps).Some? <==> exists i :: 0 <= i < n && ContinuesAt(s, ends[i], seps)
  {
    if t :| 0 <= t < n && ContinuesAt(s, ends[t], seps) {
      var c := seq(n, i' requires 0 <= i' < n => ContinuesAt(s, ends[i'], seps));
      var i := LastTrue(c, t);
      forall i' | i + 1 <= i' < n ensures !ContinuesAt(s, ends[i'], seps) {
        assert !c[i'];
      }
      SplitPartiesSkip(s, p, ends, n, i + 1, seps);
      SplitPartiesStep(s, p, ends, i + 1, seps);
    } else {
      SplitPartiesSkip(s, p, ends, n, 0, seps);
    }
  }

  /** When the scan succeeds, some end is the last after which the pattern can go on. */
  lemma SplitPartiesSome(s: string, p: nat, ends: seq<nat>, n: nat, seps: seq<string>) returns (i: nat)
    requires n <= |ends| && forall i :: 0 <= i < |ends| ==> p < ends[i] <= |s|
    requires SplitParties(s, p, ends, n, seps).Some?
    ensures i < n && ContinuesAt(s, ends[i], seps)
    ensures forall i' :: i < i' < n ==> !ContinuesAt(s, ends[i'], seps)
  {
    SplitPartiesNone(s, p, ends, n, seps);
    var t :| 0 <= t < n && ContinuesAt(s, ends[t], seps);
    var c := seq(n, i' requires 0 <= i' < n => ContinuesAt(s, ends[i'], seps));
    i := LastTrue(c, t);
    forall i' | i < i' < n ensures !ContinuesAt(s, ends[i'], seps) {
      assert !c[i'];
    }
  }

  /** The greedy scan picks the last of the first group's ends after which the pattern
      can go on; the second group starts after the first alternative that lets it go
      on and is the whole greedy chain. */
  lemma SplitPartiesPicksLast(s: string, p: nat, ends: seq<nat>, seps: seq<string>) returns (i: nat)
    requires forall i :: 0 <= i < |ends| ==> p < ends[i] <= |s|
    requires SplitParties(s, p, ends, |ends|, seps).Some?
    ensures i < |ends| && ContinuesAt(s, ends[i], seps)
    ensures forall i' :: i < i' < |ends| ==> !ContinuesAt(s, ends[i'], seps)
    ensures var u := FirstSeparator(s, SpaceRunEnd(s, ends[i]), seps, 0).value.1;
            WordEnd(s, u, true).Some? && SplitParties(s, p, ends, |ends|, seps) == Some((ends[i], u, ChainEnd(s, u)))
  {
    i := SplitPartiesSome(s, p, ends, |ends|, seps);
    SplitPartiesSkip(s, p, ends, |ends|, i + 1, seps);
    SplitPartiesStep(s, p, ends, i + 1, seps);
    var e := ends[i];
    var u := FirstSeparator(s, SpaceRunEnd(s, e), seps, 0).value.1;
    assert SplitParties(s, p, ends, i + 1, seps) == Some((e, u, ChainEnd(s, u)));
  }

  /** Conversely, when the end `ends[t]` lets the pattern go on and no later one does,
      the scan splits there. */
  lemma SplitPartiesAtLast(s: string, p: nat, ends: seq<nat>, t: nat, seps: seq<string>)
    requires forall i :: 0 <= i < |ends| ==> p < ends[i] <= |s|
    requires t < |ends| && ContinuesAt(s, ends[t], seps)
    requires forall i :: t < i < |ends| ==> !ContinuesAt(s, ends[i], seps)
    ensures var u := FirstSeparator(s, SpaceRunEnd(s, ends[t]), seps, 0).value.1;
            WordEnd(s, u, true).Some? && SplitParties(s, p, ends, |ends|, seps) == Some((ends[t], u, ChainEnd(s, u)))
  {
    SplitPartiesNone(s, p, ends, |ends|, seps);
    var i := SplitPartiesPicksLast(s, p, ends, seps);
    assert i == t;
  }

  /** So `PartyAt` splits at the last end of the first group's chain after which the
      pattern can go on. */
  lemma PartyAtSplitsAtLast(s: string, p: nat, seps: seq<string>, e: nat, more: seq<nat>, t: nat)
    requires p <= |s| && WordEnd(s, p, true) == Some(e) && more == ChainFrom(s, e, |s|, true)
    requires t < |[e] + more| && ContinuesAt(s, ([e] + more)[t], seps)
    requires forall i :: t < i < |[e] + more| ==> !ContinuesAt(s, ([e] + more)[i], seps)
    ensures var u := FirstSeparator(s, SpaceRunEnd(s, ([e] + more)[t]), seps, 0).value.1;
            WordEnd(s, u, true).Some? && PartyAt(s, p, seps) == Some((([e] + more)[t], u, ChainEnd(s, u)))
  {
    EndsBounded(p, e, more, |s|);
    SplitPartiesAtLast(s, p, [e] + more, t, seps);
  }

  /** A party name in the text starts with a letter, where a word starts. */
  lemma PartyNameStarts(s: string, b: nat, e2: nat)
    requires b < e2 <= |s| && IsPartyName(s[b..e2])
    ensures IsLetter(s[b]) && WordEnd(s, b, true).Some?
  {
    var n :| IsRun(s[b..e2], n, true);
    RunShape(s[b..e2], n, true);
    assert s[b..e2][0] == s[b];
    RunWordStart(s, b, e2, n, true);
  }

  /** The alternative between the groups starts where the greedy whitespace ends. */
  lemma SeparatorAtRunEnd(s: string, e1: nat, b: nat, sep: string) returns (j: nat)
    requires e1 < b <= |s| && Separates(s, e1, b, sep) && sep != [] && !IsSpace(sep[0])
    ensures j == SpaceRunEnd(s, e1) && e1 < j && j + |sep| < b
    ensures Lower(s[j..j + |sep|]) == Lower(sep) && AllSpace(s[j + |sep|..b])
  {
    j :| e1 < j && j + |sep| < b && AllSpace(s[e1..j]) && Lower(s[j..j + |sep|]) == Lower(sep)
         && AllSpace(s[j + |sep|..b]);
    assert Lower(s[j..j + |sep|])[0] == LowerChar(s[j]);
    assert Lower(sep)[0] == LowerChar(sep[0]);
    SpaceRunEndUnique(s, e1, j);
  }

  /** Between the groups of a possible match: the greedy whitespace ends at the
      alternative, and after it `SeparatorThenWord` finds the second group's start. */
  lemma SeparatesGives(s: string, e1: nat, b: nat, e2: nat, sep: string) returns (j: nat)
    requires e1 < b < e2 <= |s| && Separates(s, e1, b, sep) && sep != [] && !IsSpace(sep[0])
    requires IsPartyName(s[b..e2])
    ensures j == SpaceRunEnd(s, e1) && e1 < j && SeparatorThenWord(s, j, sep) == Some(b)
  {
    j := SeparatorAtRunEnd(s, e1, b, sep);
    PartyNameStarts(s, b, e2);
    SpaceRunEndUnique(s, j + |sep|, b);
  }

  /** Two alternatives that both let the pattern go on at `j` give the same start of
      the second group, since neither is a proper prefix of the other. */
  lemma SameSecondStart(s: string, j: nat, seps: seq<string>, k: nat, k': nat, u: nat, u': nat)
    requires j <= |s| && SeparatorsOk(seps) && k < |seps| && k' < |seps|
    requires SeparatorThenWord(s, j, seps[k]) == Some(u) && SeparatorThenWord(s, j, seps[k']) == Some(u')
    ensures u == u'
  {
    var a, c := seps[k], seps[k'];
    if |a| < |c| {
      assert false;
    } else if |c| < |a| {
      assert false;
    }
  }

  /** A possible match lets the pattern go on after its first group, with the second
      group starting where the match's does. */
  lemma MatchContinues(s: string, p: nat, e1: nat, b: nat, e2: nat, seps: seq<string>)
    requires SeparatorsOk(seps) && IsPartyMatch(s, p, e1, b, e2, seps)
    ensures ContinuesAt(s, e1, seps) && FirstSeparator(s, SpaceRunEnd(s, e1), seps, 0).value.1 == b
    ensures e1 < |s| && IsSpace(s[e1])
  {
    var k :| 0 <= k < |seps| && Separates(s, e1, b, seps[k]);
    var j := SeparatesGives(s, e1, b, e2, seps[k]);
    assert IsSpace(s[e1..j][0]);
    var f := FirstSeparator(s, j, seps, 0);
    assert f.Some?;
    SameSecondStart(s, j, seps, f.value.0, k, f.value.1, b);
  }

  /** What `PartyAt` finds is a possible match. */
  lemma PartyAtIsMatch(s: string, p: nat, seps: seq<string>)
    requires p <= |s| && PartyAt(s, p, seps).Some?
    ensures var (e1, b, e2) := PartyAt(s, p, seps).value; IsPartyMatch(s, p, e1, b, e2, seps)
  {
    var (e1, b, e2) := PartyAt(s, p, seps).value;
    PartyAtSound(s, p, seps);
    var e := WordEnd(s, p, true).value;
    var ends := [e] + ChainFrom(s, e, |s|, true);
    var i := SplitPartiesPicksLast(s, p, ends, seps);
    ChainEndMatches(s, b, e2);
  }

  /** The first group of a possible match ends at one of the ends of the greedy chain
      from `p`. */
  lemma PartyMatchInChain(s: string, p: nat, e1: nat, b: nat, e2: nat, seps: seq<string>) returns (t: nat)
    requires SeparatorsOk(seps) && IsPartyMatch(s, p, e1, b, e2, seps)
    ensures WordEnd(s, p, true).Some?
    ensures var f1 := WordEnd(s, p, true).value;
            t < |[f1] + ChainFrom(s, f1, |s|, true)| && ([f1] + ChainFrom(s, f1, |s|, true))[t] == e1
  {
    MatchContinues(s, p, e1, b, e2, seps);
    var n :| IsRun(s[p..e1], n, true);
    RunWordStart(s, p, e1, n, true);
    var f1 := WordEnd(s, p, true).value;
    RunInChain(s, p, f1, e1, n, |s|, true);
    var ends := [f1] + ChainFrom(s, f1, |s|, true);
    t :| 0 <= t < |ends| && ends[t] == e1;
  }

  /** Every possible match at `p` is found or outrun by the greedy one: `PartyAt`
      succeeds, with a first group at least as long. */
  lemma PartyAtGreatest(s: string, p: nat, seps: seq<string>, e1: nat, b: nat, e2: nat)
    requires SeparatorsOk(seps) && IsPartyMatch(s, p, e1, b, e2, seps)
    ensures PartyAt(s, p, seps).Some? && e1 <= PartyAt(s, p, seps).value.0
  {
    var t := PartyMatchInChain(s, p, e1, b, e2, seps);
    MatchContinues(s, p, e1, b, e2, seps);
    ContinuingInChain(s, p, seps, t, e1);
  }

  /** When the pattern can go on after the `t`-th end of the first group's chain,
      `PartyAt` succeeds with a first group at least that long. */
  lemma ContinuingInChain(s: string, p: nat, seps: seq<string>, t: nat, e: nat)
    requires p <= |s| && WordEnd(s, p, true).Some?
    requires var f1 := WordEnd(s, p, true).value;
             t < |[f1] + ChainFrom(s, f1, |s|, true)| && ([f1] + ChainFrom(s, f1, |s|, true))[t] == e
    requires ContinuesAt(s, e, seps)
    ensures PartyAt(s, p, seps).Some? && e <= PartyAt(s, p, seps).value.0
  {
    var f1 := WordEnd(s, p, true).value;
    var more := ChainFrom(s, f1, |s|, true);
    var ends := [f1] + more;
    EndsBounded(p, f1, more, |s|);
    EndsIncreasing(f1, more);
    LastContinuingLonger(s, p, ends, t, seps);
  }

  /** Over increasing ends, the scan stops at the `t`-th end or a later, larger one. */
  lemma LastContinuingLonger(s: string, p: nat, ends: seq<nat>, t: nat, seps: seq<string>)
    requires forall i :: 0 <= i < |ends| ==> p < ends[i] <= |s|
    requires forall i, j :: 0 <= i < j < |ends| ==> ends[i] < ends[j]
    requires t < |ends| && ContinuesAt(s, ends[t], seps)
    ensures var r := SplitParties(s, p, ends, |ends|, seps);
            r.Some? && ends[t] <= r.value.0
  {
    LastContinuing(s, p, ends, t, seps);
    var i :| t <= i < |ends| && ends[i] == SplitParties(s, p, ends, |ends|, seps).value.0;
    assert ends[t] <= ends[i];
  }

  /** The ends of the first word and of the chain after it all lie past `p`. */
  lemma EndsBounded(p: nat, e1: nat, more: seq<nat>, n: nat)
    requires p < e1 <= n && forall i :: 0 <= i < |more| ==> e1 < more[i] <= n
    ensures forall i :: 0 <= i < |[e1] + more| ==> p < ([e1] + more)[i] <= n
  {
    var ends := [e1] + more;
    forall i | 0 <= i < |ends| ensures p < ends[i] <= n {
      if i > 0 { assert ends[i] == more[i - 1]; }
    }
  }

  /** When the pattern can go on after the `t`-th end, the scan succeeds at that end or
      at a later one. */
  lemma LastContinuing(s: string, p: nat, ends: seq<nat>, t: nat, seps: seq<string>)
    requires forall i :: 0 <= i < |ends| ==> p < ends[i] <= |s|
    requires t < |ends| && ContinuesAt(s, ends[t], seps)
    ensures var r := SplitParties(s, p, ends, |ends|, seps);
            r.Some? && exists i :: t <= i < |ends| && ends[i] == r.value.0
  {
    SplitPartiesNone(s, p, ends, |ends|, seps);
    var i := SplitPartiesPicksLast(s, p, ends, seps);
    assert t <= i;
  }

  /** The first group's end fixes the rest of a possible match. */
  lemma PartyMatchUnique(s: string, p: nat, e1: nat, b: nat, e2: nat, b': nat, e2': nat, seps: seq<string>)
    requires SeparatorsOk(seps) && IsPartyMatch(s, p, e1, b, e2, seps) && IsPartyMatch(s, p, e1, b', e2', seps)
    ensures b == b' && e2 == e2'
  {
    MatchContinues(s, p, e1, b, e2, seps);
    MatchContinues(s, p, e1, b', e2', seps);
    var n :| IsRun(s[b..e2], n, true);
    RunWordStart(s, b, e2, n, true);
    ChainEndMatches(s, b, e2);
    ChainEndMatches(s, b, e2');
  }

  /** What `PartyAt` finds is the possible match with the longest first group. */
  lemma PartyAtIsLongest(s: string, p: nat, seps: seq<string>)
    requires SeparatorsOk(seps) && p <= |s| && PartyAt(s, p, seps).Some?
    ensures var (e1, b, e2) := PartyAt(s, p, seps).value; IsPartyMatch(s, p, e1, b, e2, seps)
    ensures forall e1': nat, b': nat, e2': nat :: IsPartyMatch(s, p, e1', b', e2', seps) ==> e1' <= PartyAt(s, p, seps).value.0
  {
    PartyAtIsMatch(s, p, seps);
    forall e1': nat, b': nat, e2': nat | IsPartyMatch(s, p, e1', b', e2', seps) ensures e1' <= PartyAt(s, p, seps).value.0 {
      PartyAtGreatest(s, p, seps, e1', b', e2');
    }
  }

  /** The possible match with the longest first group is what `PartyAt` finds. */
  lemma LongestIsPartyAt(s: string, p: nat, seps: seq<string>, e1: nat, b: nat, e2: nat)
    requires SeparatorsOk(seps) && p <= |s| && IsPartyMatch(s, p, e1, b, e2, seps)
    requires forall e1': nat, b': nat, e2': nat :: IsPartyMatch(s, p, e1', b', e2', seps) ==> e1' <= e1
    ensures PartyAt(s, p, seps) == Some((e1, b, e2))
  {
    PartyAtGreatest(s, p, seps, e1, b, e2);
    PartyAtIsMatch(s, p, seps);
    var (f1, c, f2) := PartyAt(s, p, seps).value;
    assert IsPartyMatch(s, p, f1, c, f2, seps);
    assert f1 == e1;
    PartyMatchUnique(s, p, e1, b, e2, c, f2, seps);
  }

  /** `PartyAt` finds exactly the possible match with the longest first group: the
      first group's star gives back words only as far as it must. */
  lemma PartyAtMatches(s: string, p: nat, seps: seq<string>, e1: nat, b: nat, e2: nat)
    requires SeparatorsOk(seps) && p <= |s|
    ensures PartyAt(s, p, seps) == Some((e1, b, e2))
            <==> IsPartyMatch(s, p, e1, b, e2, seps)
                 && forall e1': nat, b': nat, e2': nat :: IsPartyMatch(s, p, e1', b', e2', seps) ==> e1' <= e1
  {
    if PartyAt(s, p, seps).Some? {
      PartyAtIsLongest(s, p, seps);
    }
    if IsPartyMatch(s, p, e1, b, e2, seps) && forall e1': nat, b': nat, e2': nat :: IsPartyMatch(s, p, e1', b', e2', seps) ==> e1' <= e1 {
      LongestIsPartyAt(s, p, seps, e1, b, e2);
    }
  }

  /** `PartyAt` fails exactly when nothing matches at `p`. */
  lemma PartyAtNone(s: string, p: nat, seps: seq<string>)
    requires SeparatorsOk(seps) && p <= |s|
    ensures PartyAt(s, p, seps).None? <==> forall e1: nat, b: nat, e2: nat :: !IsPartyMatch(s, p, e1, b, e2, seps)
  {
    if PartyAt(s, p, seps).Some? {
      PartyAtIsMatch(s, p, seps);
    }
    forall e1: nat, b: nat, e2: nat | IsPartyMatch(s, p, e1, b, e2, seps) ensures PartyAt(s, p, seps).Some? {
      PartyAtGreatest(s, p, seps, e1, b, e2);
    }
  }

  /** One step of `finditer`'s scan: a position where `PartyAt` fails adds nothing and
      one where it succeeds adds a pair. */
  lemma PartyMatchesFromStep(s: string, p: nat, seps: seq<string>)
    requires p < |s|
    ensures PartyAt(s, p, seps).None? ==> PartyMatchesFrom(s, p, seps) == PartyMatchesFrom(s, p + 1, seps)
    ensures PartyAt(s, p, seps).Some? ==> PartyMatchesFrom(s, p, seps) != []
  {
  }

  lemma PartyMatchesFromPass(s: string, p: nat, q: nat, seps: seq<string>)
    requires p < q <= |s| && forall k :: p <= k < q ==> PartyAt(s, k, seps).None?
    ensures PartyMatchesFrom(s, p, seps) == PartyMatchesFrom(s, p + 1, seps)
  {
    assert PartyAt(s, p, seps).None?;
  }

  /** `finditer` passes over positions where `PartyAt` fails. */
  lemma {:induction false} PartyMatchesFromPasses(s: string, p: nat, q: nat, seps: seq<string>)
    requires p <= q <= |s| && forall k :: p <= k < q ==> PartyAt(s, k, seps).None?
    ensures PartyMatchesFrom(s, p, seps) == PartyMatchesFrom(s, q, seps)
    decreases q - p
  {
    if p < q {
      PartyMatchesFromPass(s, p, q, seps);
      PartyMatchesFromPasses(s, p + 1, q, seps);
    }
  }

  /** `finditer` passes over positions where no party match starts. */
  lemma PartyMatchesFromSkips(s: string, p: nat, q: nat, seps: seq<string>)
    requires SeparatorsOk(seps) && p <= q <= |s|
    requires forall k, e1: nat, b: nat, e2: nat :: p <= k < q ==> !IsPartyMatch(s, k, e1, b, e2, seps)
    ensures PartyMatchesFrom(s, p, seps) == PartyMatchesFrom(s, q, seps)
  {
    forall k | p <= k < q ensures PartyAt(s, k, seps).None? {
      if PartyAt(s, k, seps).Some? {
        PartyAtIsMatch(s, k, seps);
        assert false;
      }
    }
    PartyMatchesFromPasses(s, p, q, seps);
  }

  /** `finditer` reports the greedy match at the first position where one starts,
      both groups, and resumes at the end of the second group. */
  lemma PartyMatchesFromFinds(s: string, p: nat, q: nat, e1: nat, b: nat, e2: nat, seps: seq<string>)
    requires SeparatorsOk(seps) && p <= q <= |s|
    requires forall k, e1': nat, b': nat, e2': nat :: p <= k < q ==> !IsPartyMatch(s, k, e1', b', e2', seps)
    requires IsPartyMatch(s, q, e1, b, e2, seps)
    requires forall e1': nat, b': nat, e2': nat :: IsPartyMatch(s, q, e1', b', e2', seps) ==> e1' <= e1
    ensures PartyMatchesFrom(s, p, seps) == [(s[q..e1], s[b..e2])] + PartyMatchesFrom(s, e2, seps)
  {
    PartyMatchesFromSkips(s, p, q, seps);
    PartyAtMatches(s, q, seps, e1, b, e2);
  }

  /** When `finditer` reports nothing from `p` on, no party match starts there. */
  lemma {:induction false} PartyMatchesFromNothing(s: string, p: nat, seps: seq<string>)
    requires SeparatorsOk(seps) && p <= |s| && PartyMatchesFrom(s, p, seps) == []
    ensures forall k, e1: nat, b: nat, e2: nat :: p <= k < |s| ==> !IsPartyMatch(s, k, e1, b, e2, seps)
    decreases |s| - p
  {
    if p < |s| {
      PartyMatchesFromStep(s, p, seps);
      PartyAtNone(s, p, seps);
      PartyMatchesFromNothing(s, p + 1, seps);
      forall k, e1: nat, b: nat, e2: nat | p <= k < |s| ensures !IsPartyMatch(s, k, e1, b, e2, seps) {
        if k == p {
          assert !IsPartyMatch(s, p, e1, b, e2, seps);
        }
      }
    }
  }

  /** `finditer` reports nothing exactly when no party match starts from `p` on. */
  lemma PartyMatchesFromEmpty(s: string, p: nat, seps: seq<string>)
    requires SeparatorsOk(seps) && p <= |s|
    ensures PartyMatchesFrom(s, p, seps) == []
            <==> forall k, e1: nat, b: nat, e2: nat :: p <= k < |s| ==> !IsPartyMatch(s, k, e1, b, e2, seps)
  {
    if forall k, e1: nat, b: nat, e2: nat :: p <= k < |s| ==> !IsPartyMatch(s, k, e1, b, e2, seps) {
      PartyMatchesFromSkips(s, p, |s|, seps);
    }
    if PartyMatchesFrom(s, p, seps) == [] {
      PartyMatchesFromNothing(s, p, seps);
    }
  }

  // ---------------------------------------------------------------- a worked example

  /** A sentence with a party pair, a transfer and a date, in five pieces. */
  const FirstParty: string := "Ramesh Kumar"
  const Versus: string := " vs "
  const SecondParty: string := "Suresh Sharma"
  const Transfer: string := " was transferred on"
  const DateTail: string := " 1 April 2018."
  const PartySentence: string := FirstParty + (Versus + (SecondParty + (Transfer + DateTail)))

  /** Where the pieces of `a + (b + (c + (d + e)))` lie. */
  lemma ExamplePieces(a: string, b: string, c: string, d: string, e: string)
    ensures var s := a + (b + (c + (d + e)));
            && s[..|a|] == a && s[|a|..|a| + |b|] == b
            && s[|a| + |b|..|a| + |b| + |c|] == c
            && s[|a| + |b| + |c|..|a| + |b| + |c| + |d|] == d
            && s[|a| + |b| + |c| + |d|..] == e
  {
    var s := a + (b + (c + (d + e)));
    var o1, o2, o3 := |a| + |b|, |a| + |b| + |c|, |a| + |b| + |c| + |d|;
    assert forall i :: 0 <= i < |a| ==> s[..|a|][i] == a[i];
    assert forall i :: 0 <= i < |b| ==> s[|a|..o1][i] == b[i];
    assert forall i :: 0 <= i < |c| ==> s[o1..o2][i] == c[i];
    assert forall i :: 0 <= i < |d| ==> s[o2..o3][i] == d[i];
    assert forall i :: 0 <= i < |e| ==> s[o3..][i] == e[i];
  }

  /** A word `w` at `i`, then a space: `WordEnd` finds the word. */
  lemma ExampleWordAt(s: string, i: nat, w: string, ignoreCase: bool)
    requires i + |w| < |s| && s[i..i + |w|] == w && IsWord(w, ignoreCase) && s[i + |w|] == ' '
    ensures WordEnd(s, i, ignoreCase) == Some(i + |w|)
  {
    WordAtItsEnd(s, i, ignoreCase, i + |w|);
  }

  /** One space before a word that is not capitalised: the chain stops there. */
  lemma ExampleChainStops(s: string, e: nat, k: nat)
    requires e + 2 <= |s| && s[e] == ' ' && !IsSpace(s[e + 1]) && !IsUpper(s[e + 1])
    ensures ChainFrom(s, e, k, false) == []
  {
    assert s[e..e + 1][0] == s[e];
    SpaceRunEndUnique(s, e, e + 1);
  }

  /** Two capitalised words ending at `x` and at `f` with one space between them,
      followed by a space and a word that is not capitalised: the generic pattern
      matches exactly the two words. */
  lemma ExampleTwoWords(s: string, b: nat, x: nat, f: nat)
    requires b + 2 <= x && x + 3 <= f && f + 2 <= |s| && BoundaryAt(s, b)
    requires WordEnd(s, b, false) == Some(x) && s[x] == ' ' && WordEnd(s, x + 1, false) == Some(f)
    requires s[f] == ' ' && !IsSpace(s[f + 1]) && !IsUpper(s[f + 1])
    ensures NameAt(s, b) == Some(f)
  {
    assert s[x..x + 1][0] == s[x];
    SpaceRunEndUnique(s, x, x + 1);
    ChainUnfold(s, x, MaxNameWords - 1, false, x + 1, f);
    ExampleChainStops(s, f, MaxNameWords - 2);
    assert ChainFrom(s, x, MaxNameWords - 1, false) == [f];
  }

  /** The name `w1 + " " + w2` at `b`, followed as in `ExampleTwoWords`. */
  lemma ExampleTwoWordName(s: string, b: nat, w1: string, w2: string)
    requires b + |w1| + |w2| + 3 <= |s| && s[b..b + |w1| + 1 + |w2|] == w1 + " " + w2
    requires IsWord(w1, false) && IsWord(w2, false) && BoundaryAt(s, b)
    requires s[b + |w1| + 1 + |w2|] == ' ' && !IsSpace(s[b + |w1| + 2 + |w2|]) && !IsUpper(s[b + |w1| + 2 + |w2|])
    ensures NameAt(s, b) == Some(b + |w1| + 1 + |w2|)
  {
    ExampleTwoWordsAt(s, b, w1, w2, false);
    ExampleTwoWords(s, b, b + |w1|, b + |w1| + 1 + |w2|);
  }

  /** The words `w1` and `w2` at `b` with one space between them and one after them:
      `WordEnd` finds each. */
  lemma ExampleTwoWordsAt(s: string, b: nat, w1: string, w2: string, ignoreCase: bool)
    requires b + |w1| + 1 + |w2| < |s| && s[b..b + |w1| + 1 + |w2|] == w1 + " " + w2
    requires IsWord(w1, ignoreCase) && IsWord(w2, ignoreCase) && s[b + |w1| + 1 + |w2|] == ' '
    ensures s[b + |w1|] == ' '
    ensures WordEnd(s, b, ignoreCase) == Some(b + |w1|)
    ensures WordEnd(s, b + |w1| + 1, ignoreCase) == Some(b + |w1| + 1 + |w2|)
  {
    var x := b + |w1|;
    var f := x + 1 + |w2|;
    var n := w1 + " " + w2;
    SliceOfSlice(s, b, f, 0, |w1|);
    assert n[..|w1|] == w1;
    SliceOfSlice(s, b, f, |w1| + 1, |n|);
    assert n[|w1| + 1..] == w2;
    assert s[x] == n[|w1|];
    ExampleWordAt(s, b, w1, ignoreCase);
    ExampleWordAt(s, x + 1, w2, ignoreCase);
  }

  /** The characters of the sentence that the scans below look at. */
  lemma ExampleChars()
    ensures |PartySentence| == 62
    ensures PartySentence[..12] == FirstParty && PartySentence[16..29] == SecondParty
    ensures PartySentence[0] == 'R' && PartySentence[16] == 'S'
    ensures PartySentence[12] == ' ' && PartySentence[13] == 'v' && PartySentence[14] == 's' && PartySentence[15] == ' '
    ensures PartySentence[29] == ' ' && PartySentence[30] == 'w'
  {
    var s := PartySentence;
    ExamplePieces(FirstParty, Versus, SecondParty, Transfer, DateTail);
    assert s[0] == s[..12][0];
    assert s[16] == s[16..29][0];
    assert s[12..16] == Versus;
    assert s[12] == Versus[0] && s[13] == Versus[1] && s[14] == Versus[2] && s[15] == Versus[3];
    assert s[29..48] == Transfer;
    assert s[29] == Transfer[0] && s[30] == Transfer[1];
  }

  /** The generic pattern matches "Ramesh Kumar" at 0 and "Suresh Sharma" at 16. */
  lemma ExampleNamesAt()
    ensures NameAt(PartySentence, 0) == Some(12) && NameAt(PartySentence, 16) == Some(29)
  {
    var s := PartySentence;
    ExampleChars();
    ExampleFirstWords();
    ExampleTwoWordName(s, 0, "Ramesh", "Kumar");
    ExampleSecondWords();
    ExampleTwoWordName(s, 16, "Suresh", "Sharma");
  }

  lemma ExampleFirstWords()
    ensures FirstParty == "Ramesh" + " " + "Kumar" && IsWord("Ramesh", false) && IsWord("Kumar", false)
  {
  }

  lemma ExampleSecondWords()
    ensures SecondParty == "Suresh" + " " + "Sharma" && IsWord("Suresh", false) && IsWord("Sharma", false)
  {
  }

  /** Between the two names, on " vs ", the generic pattern matches nowhere. */
  lemma ExampleNoNameBetween()
    ensures NameAt(PartySentence, 12).None? && NameAt(PartySentence, 13).None?
    ensures NameAt(PartySentence, 14).None? && NameAt(PartySentence, 15).None?
  {
    ExampleChars();
    assert !BoundaryAt(PartySentence, 14);
  }

  /** `finditer` over the sentence reports "Ramesh Kumar" and then "Suresh Sharma". */
  lemma ExampleNameMatches()
    ensures |NameMatches(PartySentence)| >= 2
    ensures NameMatches(PartySentence)[0] == "Ramesh Kumar" && NameMatches(PartySentence)[1] == "Suresh Sharma"
  {
    var s := PartySentence;
    ExampleChars();
    ExampleNamesAt();
    ExampleNoNameBetween();
    var rest := NameMatchesFrom(s, 29);
    assert NameMatchesFrom(s, 16) == [s[16..29]] + rest;
    assert NameMatchesFrom(s, 14) == NameMatchesFrom(s, 16);
    assert NameMatchesFrom(s, 12) == NameMatchesFrom(s, 14);
    assert NameMatchesFrom(s, 0) == [s[0..12]] + NameMatchesFrom(s, 12);
  }

  /** The per-sentence persons of the sentence include "Ramesh Kumar" and "Suresh
      Sharma", both from the generic pattern. */
  lemma ExampleSentenceNames()
    ensures "Ramesh Kumar" in SentenceNames(PartySentence) && "Suresh Sharma" in SentenceNames(PartySentence)
  {
    var ms := NameMatches(PartySentence);
    ExampleNameMatches();
    KeptAsIs(ms, 0, "Ramesh Kumar");
    KeptAsIs(ms, 1, "Suresh Sharma");
  }

  /** A match with no outer whitespace and more than two characters is kept as it is. */
  lemma KeptAsIs(ms: seq<string>, i: nat, n: string)
    requires i < |ms| && ms[i] == n && |n| > MinNameLength && !IsSpace(n[0]) && !IsSpace(n[|n| - 1])
    ensures n in NamesOf(ms)
  {
    TrimmedIsFixed(n);
    NamesOfMembers(ms, n);
  }

  // ---------------------------------------------------------------- the same sentence, party pattern

  lemma ExampleFirstLetterText()
    ensures IsWord("Ramesh", true) && IsWord("Kumar", true) && IsWord("vs", true)
  {
  }

  lemma ExampleSecondLetterText()
    ensures IsWord("Suresh", true) && IsWord("Sharma", true)
  {
  }

  lemma ExampleTransferLetterText()
    ensures Transfer == " " + ("was" + " " + "transferred") + " " + "on"
    ensures IsWord("was", true) && IsWord("transferred", true) && IsWord("on", true)
  {
  }

  /** What the party scans look at in a sentence laid out like `PartySentence`: under
      IGNORECASE a word at each of its eight words, single spaces between them, the
      first letters after the spaces, and the digit that follows "on". */
  ghost predicate PartyShape(s: string) {
    && |s| == 62
    && s[6] == ' ' && s[12] == ' ' && s[15] == ' ' && s[22] == ' '
    && s[29] == ' ' && s[33] == ' ' && s[45] == ' ' && s[48] == ' '
    && s[13..15] == "vs" && s[16] == 'S' && s[23] == 'S' && s[30] == 'w' && s[34] == 't' && s[46] == 'o' && s[49] == '1'
    && WordEnd(s, 0, true) == Some(6) && WordEnd(s, 7, true) == Some(12) && WordEnd(s, 13, true) == Some(15)
    && WordEnd(s, 16, true) == Some(22) && WordEnd(s, 23, true) == Some(29)
    && WordEnd(s, 30, true) == Some(33) && WordEnd(s, 34, true) == Some(45) && WordEnd(s, 46, true) == Some(48)
  }

  /** "Ramesh Kumar vs " under IGNORECASE. */
  lemma ExampleFirstLetterWords()
    ensures WordEnd(PartySentence, 0, true) == Some(6) && WordEnd(PartySentence, 7, true) == Some(12)
    ensures WordEnd(PartySentence, 13, true) == Some(15)
    ensures PartySentence[6] == ' ' && PartySentence[13..15] == "vs"
  {
    var s := PartySentence;
    ExampleChars();
    ExampleFirstWords();
    ExampleFirstLetterText();
    ExamplePieces(FirstParty, Versus, SecondParty, Transfer, DateTail);
    ExampleTwoWordsAt(s, 0, "Ramesh", "Kumar", true);
    SliceOfSlice(s, 12, 16, 1, 3);
    assert Versus[1..3] == "vs";
    ExampleWordAt(s, 13, "vs", true);
  }

  /** "Suresh Sharma " under IGNORECASE. */
  lemma ExampleSecondLetterWords()
    ensures WordEnd(PartySentence, 16, true) == Some(22) && WordEnd(PartySentence, 23, true) == Some(29)
    ensures PartySentence[22] == ' ' && PartySentence[23] == 'S'
  {
    var s := PartySentence;
    ExampleChars();
    ExampleSecondWords();
    ExampleSecondLetterText();
    assert s[23] == s[16..29][7];
    ExampleTwoWordsAt(s, 16, "Suresh", "Sharma", true);
  }

  /** " was transferred on 1" under IGNORECASE. */
  lemma ExampleTransferLetterWords()
    ensures WordEnd(PartySentence, 30, true) == Some(33) && WordEnd(PartySentence, 34, true) == Some(45)
    ensures WordEnd(PartySentence, 46, true) == Some(48)
    ensures PartySentence[33] == ' ' && PartySentence[45] == ' ' && PartySentence[48] == ' '
    ensures PartySentence[34] == 't' && PartySentence[46] == 'o' && PartySentence[49] == '1'
  {
    var s := PartySentence;
    ExamplePieces(FirstParty, Versus, SecondParty, Transfer, DateTail);
    assert s[|s| - 14..] == DateTail;
    assert s[48] == DateTail[0] && s[49] == DateTail[1];
    assert s[29..48] == Transfer;
    ExampleTransferWordsIn(s);
  }

  /** The same for any text with `Transfer` at 29, a space and a digit after it. */
  lemma ExampleTransferWordsIn(s: string)
    requires 50 <= |s| && s[29..48] == Transfer && s[48] == ' ' && s[49] == '1'
    ensures WordEnd(s, 30, true) == Some(33) && WordEnd(s, 34, true) == Some(45)
    ensures WordEnd(s, 46, true) == Some(48)
    ensures s[33] == ' ' && s[45] == ' ' && s[34] == 't' && s[46] == 'o'
  {
    ExampleTransferLetterText();
    assert s[34] == Transfer[5] && s[46] == Transfer[17] && s[45] == Transfer[16];
    SliceOfSlice(s, 29, 48, 1, 16);
    ExampleTwoWordsAt(s, 30, "was", "transferred", true);
    SliceOfSlice(s, 29, 48, 17, 19);
    assert Transfer[17..19] == "on";
    assert s[46..48] == "on";
    ExampleWordAt(s, 46, "on", true);
  }

  lemma ExampleShape()
    ensures PartyShape(PartySentence)
  {
    ExampleChars();
    ExampleFirstLetterWords();
    ExampleSecondLetterWords();
    ExampleTransferLetterWords();
  }

  /** One space at `e`, then a word ending at `w`: the IGNORECASE chain takes it, and
      goes on with one repetition fewer. */
  lemma ExampleLetterStep(s: string, e: nat, k: nat, k': nat, w: nat)
    requires e < |s| && s[e] == ' ' && k == k' + 1 && WordEnd(s, e + 1, true) == Some(w)
    ensures ChainFrom(s, e, k, true) == [w] + ChainFrom(s, w, k', true)
  {
    assert s[e + 1] == s[e + 1..w][0];
    assert s[e..e + 1][0] == s[e];
    SpaceRunEndUnique(s, e, e + 1);
    ChainUnfold(s, e, k, true, e + 1, w);
  }

  /** One space before a character that is neither a letter nor whitespace: the
      IGNORECASE chain stops there. */
  lemma ExampleLetterStops(s: string, e: nat, k: nat)
    requires e + 2 <= |s| && s[e] == ' ' && !IsSpace(s[e + 1]) && !IsLetter(s[e + 1])
    ensures ChainFrom(s, e, k, true) == []
  {
    assert s[e..e + 1][0] == s[e];
    SpaceRunEndUnique(s, e, e + 1);
  }

  /** From the fourth word ("Suresh") the IGNORECASE chain takes "was" and
      "transferred". */
  lemma ExampleLetterTail(s: string, k: nat, k2: nat)
    requires k == k2 + 2 && 33 < |s| && s[22] == ' ' && s[29] == ' '
    requires WordEnd(s, 23, true) == Some(29) && WordEnd(s, 30, true) == Some(33)
    ensures ChainFrom(s, 22, k, true) == [29] + ([33] + ChainFrom(s, 33, k2, true))
  {
    var k1 := k2 + 1;
    ExampleLetterStep(s, 29, k1, k2, 33);
    ExampleLetterStep(s, 22, k, k1, 29);
  }

  /** From "transferred" the chain takes "on" and stops at the digit. */
  lemma ExampleLetterLast(s: string, k: nat)
    requires k >= 2 && 50 <= |s| && s[33] == ' ' && s[45] == ' ' && s[48] == ' ' && s[49] == '1'
    requires WordEnd(s, 34, true) == Some(45) && WordEnd(s, 46, true) == Some(48)
    ensures ChainFrom(s, 33, k, true) == [45, 48]
  {
    var k1, k2 := k - 1, k - 2;
    ExampleLetterStops(s, 48, k2);
    ExampleLetterStep(s, 45, k1, k2, 48);
    ExampleLetterStep(s, 33, k, k1, 45);
  }

  /** The word ends after the first word, up to the fourth word. */
  lemma ExampleLetterChain(s: string, k: nat, k3: nat)
    requires k == k3 + 3 && 16 < |s| && s[6] == ' ' && s[12] == ' ' && s[15] == ' '
    requires WordEnd(s, 7, true) == Some(12) && WordEnd(s, 13, true) == Some(15) && WordEnd(s, 16, true) == Some(22)
    ensures ChainFrom(s, 6, k, true) == [12] + ([15] + ([22] + ChainFrom(s, 22, k3, true)))
  {
    var k1, k2 := k3 + 2, k3 + 1;
    ExampleLetterStep(s, 15, k2, k3, 22);
    ExampleLetterStep(s, 12, k1, k2, 15);
    ExampleLetterStep(s, 6, k, k1, 12);
  }

  /** A word whose first letter is not 'v' or 'V' after one space: no alternative of
      the versus pattern separates there. */
  lemma ExampleNoVersusAfter(s: string, e: nat)
    requires e + 1 < |s| && s[e] == ' ' && !IsSpace(s[e + 1]) && LowerChar(s[e + 1]) != 'v'
    ensures !ContinuesAt(s, e, VersusSeparators)
  {
    assert s[e..e + 1][0] == s[e];
    SpaceRunEndUnique(s, e, e + 1);
    forall k | 0 <= k < |VersusSeparators|
      ensures SeparatorThenWord(s, e + 1, VersusSeparators[k]).None?
    {
      var sep := VersusSeparators[k];
      assert LowerChar(sep[0]) == 'v';
      assert Lower(sep)[0] == 'v';
      if e + 1 + |sep| <= |s| {
        assert Lower(s[e + 1..e + 1 + |sep|])[0] == LowerChar(s[e + 1]);
      }
    }
  }

  /** "vs" after the second word separates, and the second group starts at the fourth. */
  lemma ExampleVersusAt(s: string)
    requires PartyShape(s)
    ensures ContinuesAt(s, 12, VersusSeparators)
    ensures FirstSeparator(s, SpaceRunEnd(s, 12), VersusSeparators, 0).value.1 == 16
  {
    assert s[12..13][0] == s[12];
    SpaceRunEndUnique(s, 12, 13);
    assert s[15..16][0] == s[15];
    SpaceRunEndUnique(s, 15, 16);
    assert VersusSeparators[0] == "vs";
    assert SeparatorThenWord(s, 13, "vs") == Some(16);
  }

  /** No word end after the second lets the versus pattern go on. */
  lemma ExampleNoVersusLater(s: string, ends: seq<nat>)
    requires PartyShape(s) && |ends| == 8
    requires ends[2] == 15 && ends[3] == 22 && ends[4] == 29 && ends[5] == 33 && ends[6] == 45 && ends[7] == 48
    ensures forall i :: 1 < i < |ends| ==> !ContinuesAt(s, ends[i], VersusSeparators)
  {
    forall i | 1 < i < |ends| ensures !ContinuesAt(s, ends[i], VersusSeparators) {
      if i == 2 { ExampleNoVersusAfter(s, 15); }
      else if i == 3 { ExampleNoVersusAfter(s, 22); }
      else if i == 4 { ExampleNoVersusAfter(s, 29); }
      else if i == 5 { ExampleNoVersusAfter(s, 33); }
      else if i == 6 { ExampleNoVersusAfter(s, 45); }
      else { ExampleNoVersusAfter(s, 48); }
    }
  }

  /** The versus pattern at the start: group 1 ends after the second word, and group 2
      runs from the fourth word to the digit, since IGNORECASE lets it take the
      lower-case words too. */
  lemma ExamplePartyAtShape(s: string)
    requires PartyShape(s)
    ensures PartyAt(s, 0, VersusSeparators) == Some((12, 16, 48))
  {
    var more := ChainFrom(s, 6, |s|, true);
    ExampleChainsOf(s);
    ExampleNoVersusLater(s, [6] + more);
    ExampleVersusAt(s);
    assert more[0] == ([6] + more)[1];
    ExamplePartyAtOf(s, VersusSeparators, more);
  }

  /** The match at 0 from the scans' findings, for any alternatives. */
  lemma ExamplePartyAtOf(s: string, seps: seq<string>, more: seq<nat>)
    requires |s| == 62 && WordEnd(s, 0, true) == Some(6) && more == ChainFrom(s, 6, |s|, true)
    requires |more| == 7 && more[0] == 12
    requires forall i :: 1 < i < |[6] + more| ==> !ContinuesAt(s, ([6] + more)[i], seps)
    requires ContinuesAt(s, 12, seps) && FirstSeparator(s, SpaceRunEnd(s, 12), seps, 0).value.1 == 16
    requires WordEnd(s, 16, true).Some? && ChainEnd(s, 16) == 48
    ensures PartyAt(s, 0, seps) == Some((12, 16, 48))
  {
    assert ([6] + more)[1] == 12;
    PartyAtSplitsAtLast(s, 0, seps, 6, more, 1);
  }

  /** The word ends the versus pattern tries for group 1, and the end of group 2. */
  lemma ExampleChainsOf(s: string)
    requires PartyShape(s)
    ensures var ends := [6] + ChainFrom(s, 6, |s|, true);
            && |ends| == 8 && ends[1] == 12 && ends[2] == 15 && ends[3] == 22
            && ends[4] == 29 && ends[5] == 33 && ends[6] == 45 && ends[7] == 48
    ensures WordEnd(s, 16, true).Some? && ChainEnd(s, 16) == 48
  {
    ExampleFirstEnds(s);
    ExampleSecondEnd(s);
  }

  lemma ExampleFirstEnds(s: string)
    requires PartyShape(s)
    ensures var ends := [6] + ChainFrom(s, 6, |s|, true);
            && |ends| == 8 && ends[1] == 12 && ends[2] == 15 && ends[3] == 22
            && ends[4] == 29 && ends[5] == 33 && ends[6] == 45 && ends[7] == 48
  {
    ExampleLetterLast(s, 57);
    ExampleLetterTail(s, 59, 57);
    ExampleLetterChain(s, 62, 59);
    ExampleEndsOf(ChainFrom(s, 6, 62, true), ChainFrom(s, 22, 59, true), ChainFrom(s, 33, 57, true));
  }

  /** The ends list that the three chain pieces make up. */
  lemma ExampleEndsOf(c6: seq<nat>, c22: seq<nat>, c33: seq<nat>)
    requires c6 == [12] + ([15] + ([22] + c22)) && c22 == [29] + ([33] + c33) && c33 == [45, 48]
    ensures var ends := [6] + c6;
            && |ends| == 8 && ends[1] == 12 && ends[2] == 15 && ends[3] == 22
            && ends[4] == 29 && ends[5] == 33 && ends[6] == 45 && ends[7] == 48
  {
  }

  lemma ExampleSecondEnd(s: string)
    requires PartyShape(s)
    ensures WordEnd(s, 16, true).Some? && ChainEnd(s, 16) == 48
  {
    ExampleLetterLast(s, 60);
    ExampleLetterTail(s, 62, 60);
  }

  /** The third and fourth pieces of `a + (b + (c + (d + e)))` side by side. */
  lemma ExampleMiddlePieces(a: string, b: string, c: string, d: string, e: string)
    ensures var s := a + (b + (c + (d + e)));
            s[|a| + |b|..|a| + |b| + |c| + |d|] == c + d
  {
    var s := a + (b + (c + (d + e)));
    assert s == (a + b) + (c + d) + e;
  }

  lemma ExamplePartyText()
    ensures SecondParty + Transfer == "Suresh Sharma was transferred on"
  {
  }

  /** The two groups of that match, as text. */
  lemma ExampleGroupsText()
    ensures PartySentence[0..12] == "Ramesh Kumar"
    ensures PartySentence[16..48] == "Suresh Sharma was transferred on"
  {
    ExampleChars();
    ExampleMiddlePieces(FirstParty, Versus, SecondParty, Transfer, DateTail);
    ExamplePartyText();
  }

  /** The first `finditer` match of a pattern whose match at 0 is `(e1, b, e2)`. */
  lemma FirstPartyMatch(s: string, seps: seq<string>, e1: nat, b: nat, e2: nat)
    requires 0 < |s| && PartyAt(s, 0, seps) == Some((e1, b, e2))
    ensures |PartyMatches(s, seps)| >= 1 && PartyMatches(s, seps)[0] == (s[..e1], s[b..e2])
  {
  }

  /** The first match of the versus pattern on the sentence: ("Ramesh Kumar", "Suresh
      Sharma was transferred on"). */
  lemma ExamplePartyMatches()
    ensures |PartyMatches(PartySentence, VersusSeparators)| >= 1
    ensures PartyMatches(PartySentence, VersusSeparators)[0] == ("Ramesh Kumar", "Suresh Sharma was transferred on")
  {
    ExampleShape();
    ExamplePartyAtShape(PartySentence);
    FirstPartyMatch(PartySentence, VersusSeparators, 12, 16, 48);
    ExampleGroupsText();
  }

  /** The persons of the whole document hold both names and the long second group. */
  lemma ExampleDocumentNames()
    ensures "Ramesh Kumar" in DocumentNames(PartySentence) && "Suresh Sharma" in DocumentNames(PartySentence)
    ensures "Suresh Sharma was transferred on" in DocumentNames(PartySentence)
  {
    var s := PartySentence;
    var ms := PartyMatches(s, VersusSeparators);
    ExampleSentenceNames();
    SentenceNamesInDocument(s);
    ExamplePartyMatches();
    var g := "Suresh Sharma was transferred on";
    TrimmedIsFixed(g);
    GroupNamesComplete(ms, 0);
    assert g in GroupNames(ms);
    assert PartyPatterns[0] == VersusSeparators;
    assert GroupNames(ms) <= PartyNamesUpTo(s, 1) <= PartyNamesUpTo(s, 2);
  }
}
