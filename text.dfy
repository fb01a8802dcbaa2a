/** Character classes and string helpers shared by every stage of the pipeline.
    Text is ASCII: `\s` is Python's ASCII whitespace (the set `str.isspace` and
    `str.strip` use), `\w` is `[A-Za-z0-9_]`, and case mapping only touches A-Z. */
module Text {

  // ---------------------------------------------------------------- classes

  /** Python's ASCII whitespace: tab, newline, vertical tab, form feed, carriage
      return, the four information separators 0x1C-0x1F, and space. */
  predicate IsSpace(c: char) {
    var n := c as int;
    n == 32 || 9 <= n <= 13 || 28 <= n <= 31
  }

  predicate IsDigit(c: char) { '0' <= c <= '9' }
  predicate IsUpper(c: char) { 'A' <= c <= 'Z' }
  predicate IsLower(c: char) { 'a' <= c <= 'z' }
  predicate IsLetter(c: char) { IsUpper(c) || IsLower(c) }

  /** The characters `\w` and `\b` treat as word characters. */
  predicate IsWordChar(c: char) { IsLetter(c) || IsDigit(c) || c == '_' }

  predicate AllSpace(s: string) { forall i :: 0 <= i < |s| ==> IsSpace(s[i]) }
  predicate AllDigits(s: string) { forall i :: 0 <= i < |s| ==> IsDigit(s[i]) }
  predicate AllLower(s: string) { forall i :: 0 <= i < |s| ==> IsLower(s[i]) }
  predicate AllLetters(s: string) { forall i :: 0 <= i < |s| ==> IsLetter(s[i]) }

  // ---------------------------------------------------------------- runs

  /** End of the maximal run of whitespace that starts at `i` (what a greedy `\s*` consumes). */
  function SpaceRunEnd(s: string, i: nat): (j: nat)
    requires i <= |s|
    ensures i <= j <= |s| && AllSpace(s[i..j])
    ensures j == |s| || !IsSpace(s[j])
    decreases |s| - i
  {
    if i < |s| && IsSpace(s[i]) then SpaceRunEnd(s, i + 1) else i
  }

  /** End of the maximal run of lower-case letters that starts at `i` (a greedy `[a-z]*`). */
  function LowerRunEnd(s: string, i: nat): (j: nat)
    requires i <= |s|
    ensures i <= j <= |s| && AllLower(s[i..j])
    ensures j == |s| || !IsLower(s[j])
    decreases |s| - i
  {
    if i < |s| && IsLower(s[i]) then LowerRunEnd(s, i + 1) else i
  }

  /** End of the maximal run of letters that starts at `i` (`[a-z]*` under IGNORECASE). */
  function LetterRunEnd(s: string, i: nat): (j: nat)
    requires i <= |s|
    ensures i <= j <= |s| && AllLetters(s[i..j])
    ensures j == |s| || !IsLetter(s[j])
    decreases |s| - i
  {
    if i < |s| && IsLetter(s[i]) then LetterRunEnd(s, i + 1) else i
  }

  /** A maximal run is determined by where it stops. */
  lemma {:induction false} LowerRunEndUnique(s: string, i: nat, j: nat)
    requires i <= j <= |s| && AllLower(s[i..j])
    requires j == |s| || !IsLower(s[j])
    ensures LowerRunEnd(s, i) == j
    decreases j - i
  {
    if i < j {
      assert IsLower(s[i..j][0]);
      assert s[i + 1..j] == s[i..j][1..];
      LowerRunEndUnique(s, i + 1, j);
    }
  }

  lemma {:induction false} SpaceRunEndUnique(s: string, i: nat, j: nat)
    requires i <= j <= |s| && AllSpace(s[i..j])
    requires j == |s| || !IsSpace(s[j])
    ensures SpaceRunEnd(s, i) == j
    decreases j - i
  {
    if i < j {
      assert IsSpace(s[i..j][0]);
      assert s[i + 1..j] == s[i..j][1..];
      SpaceRunEndUnique(s, i + 1, j);
    }
  }

  lemma {:induction false} LetterRunEndUnique(s: string, i: nat, j: nat)
    requires i <= j <= |s| && AllLetters(s[i..j])
    requires j == |s| || !IsLetter(s[j])
    ensures LetterRunEnd(s, i) == j
    decreases j - i
  {
    if i < j {
      assert IsLetter(s[i..j][0]);
      assert s[i + 1..j] == s[i..j][1..];
      LetterRunEndUnique(s, i + 1, j);
    }
  }

  /** A slice of a slice is a slice of the original. */
  lemma SliceOfSlice(s: string, p: nat, e: nat, a: nat, b: nat)
    requires p <= e <= |s| && a <= b <= e - p
    ensures s[p..e][a..b] == s[p + a..p + b]
  {
    assert forall i :: 0 <= i < b - a ==> s[p..e][a..b][i] == s[p + a..p + b][i];
  }

  // ---------------------------------------------------------------- case

  function LowerChar(c: char): char {
    if IsUpper(c) then (c as int + 32) as char else c
  }

  /** `str.lower()` on ASCII text: no capital is left, letters stay letters, and
      nothing but a capital changes. */
  function Lower(s: string): (r: string)
    ensures |r| == |s|
    ensures forall i :: 0 <= i < |s| ==> !IsUpper(r[i])
    ensures forall i :: 0 <= i < |s| ==> (IsLetter(r[i]) <==> IsLetter(s[i])) && (IsUpper(s[i]) || r[i] == s[i])
  {
    seq(|s|, i requires 0 <= i < |s| => LowerChar(s[i]))
  }

  lemma LowerIdempotent(s: string)
    ensures Lower(Lower(s)) == Lower(s)
  {
  }

  /** Lower-casing a prefix is the prefix of the lower-cased string. */
  lemma LowerPrefix(s: string, n: nat)
    requires n <= |s|
    ensures Lower(s)[..n] == Lower(s[..n])
  {
  }

  // ---------------------------------------------------------------- substrings

  /** `w` occurs in `t` starting at offset `i`. */
  predicate OccursAt(t: string, w: string, i: int) {
    0 <= i && i + |w| <= |t| && t[i..i + |w|] == w
  }

  /** Python's `w in t` for strings: `w` occurs in `t` at some offset. */
  function Contains(t: string, w: string): (b: bool)
    ensures b <==> exists i :: OccursAt(t, w, i)
    decreases |t|
  {
    if |w| > |t| then false
    else if t[..|w|] == w then assert OccursAt(t, w, 0); true
    else
      var b := Contains(t[1..], w);
      assert b ==> exists i :: OccursAt(t, w, i) by {
        if b {
          var i :| OccursAt(t[1..], w, i);
          assert t[1..][i..i + |w|] == t[i + 1..i + 1 + |w|];
          assert OccursAt(t, w, i + 1);
        }
      }
      assert (exists i :: OccursAt(t, w, i)) ==> b by {
        if i :| OccursAt(t, w, i) {
          assert i != 0;
          assert t[1..][i - 1..i - 1 + |w|] == t[i..i + |w|];
          assert OccursAt(t[1..], w, i - 1);
        }
      }
      b
  }

  // ---------------------------------------------------------------- strip

  function LeadingSpaces(s: string): (n: nat)
    ensures n <= |s| && AllSpace(s[..n])
    ensures n == |s| || !IsSpace(s[n])
  {
    if s == [] || !IsSpace(s[0]) then 0
    else
      var n := 1 + LeadingSpaces(s[1..]);
      assert s[..n] == [s[0]] + s[1..][..n - 1];
      n
  }

  function TrailingSpaces(s: string): (n: nat)
    ensures n <= |s| && AllSpace(s[|s| - n..])
    ensures n == |s| || !IsSpace(s[|s| - n - 1])
  {
    if s == [] || !IsSpace(s[|s| - 1]) then 0
    else
      var n := 1 + TrailingSpaces(s[..|s| - 1]);
      assert s[|s| - n..] == s[..|s| - 1][|s| - n..] + [s[|s| - 1]];
      n
  }

  /** A string with no whitespace at either end. */
  predicate IsTrimmed(s: string) {
    s == [] || (!IsSpace(s[0]) && !IsSpace(s[|s| - 1]))
  }

  /** `str.strip()`: the string with its leading and trailing whitespace removed.
      The result is the middle of `s` between two all-whitespace margins. */
  function Trim(s: string): (r: string)
    ensures IsTrimmed(r)
    ensures exists i, j :: 0 <= i <= j <= |s| && r == s[i..j] && AllSpace(s[..i]) && AllSpace(s[j..])
    ensures r == [] <==> AllSpace(s)
  {
    var a := LeadingSpaces(s);
    var t := s[a..];
    var b := TrailingSpaces(t);
    var r := t[..|t| - b];
    assert r == s[a..|s| - b];
    assert s[|s| - b..] == t[|t| - b..];
    assert r != [] ==> r[0] == s[a] && r[|r| - 1] == t[|t| - b - 1];
    assert t != [] ==> !AllSpace(t) by { if t != [] { assert t[0] == s[a]; } }
    assert t[|t| - |t|..] == t && s[..|s|] == s;
    assert AllSpace(s) ==> a == |s|;
    r
  }

  lemma TrimmedIsFixed(s: string)
    requires IsTrimmed(s)
    ensures Trim(s) == s
  {
    if s != [] {
      assert LeadingSpaces(s) == 0;
      assert TrailingSpaces(s) == 0;
    }
  }

  // ---------------------------------------------------------------- joining

  /** `sep.join(xs)`. */
  function Join(xs: seq<string>, sep: string): string
  {
    if xs == [] then []
    else if |xs| == 1 then xs[0]
    else xs[0] + sep + Join(xs[1..], sep)
  }

  lemma JoinStartsWithFirst(xs: seq<string>, sep: string)
    requires xs != []
    ensures |xs[0]| <= |Join(xs, sep)| && Join(xs, sep)[..|xs[0]|] == xs[0]
  {
    if |xs| > 1 {
      assert Join(xs, sep) == xs[0] + (sep + Join(xs[1..], sep));
    }
  }

  /** `sep.join(xs)` is as long as its parts with one separator between each two. */
  lemma {:induction false} JoinLength(xs: seq<string>, sep: string)
    requires xs != []
    ensures |Join(xs, sep)| == |Concat(xs)| + (|xs| - 1) * |sep|
  {
    if |xs| > 1 {
      JoinLength(xs[1..], sep);
      assert Concat(xs) == xs[0] + Concat(xs[1..]);
    } else {
      assert Concat(xs) == xs[0] + Concat(xs[1..]);
    }
  }

  /** Every part is in `sep.join(xs)`, the `k`-th after the parts before it, each
      followed by a separator. */
  lemma {:induction false} JoinHasEach(xs: seq<string>, sep: string, k: nat)
    requires k < |xs|
    ensures OccursAt(Join(xs, sep), xs[k], |Concat(xs[..k])| + k * |sep|)
  {
    var j := Join(xs, sep);
    if k == 0 {
      JoinStartsWithFirst(xs, sep);
      assert xs[..0] == [];
    } else {
      var rest := Join(xs[1..], sep);
      assert j == xs[0] + sep + rest;
      JoinHasEach(xs[1..], sep, k - 1);
      assert xs[1..][k - 1] == xs[k];
      assert xs[..k] == [xs[0]] + xs[1..][..k - 1];
      ConcatCons(xs[0], xs[1..][..k - 1]);
      var i := |Concat(xs[1..][..k - 1])| + (k - 1) * |sep|;
      assert j[|xs[0]| + |sep| + i..|xs[0]| + |sep| + i + |xs[k]|] == rest[i..i + |xs[k]|];
    }
  }

  lemma ConcatCons(x: string, xs: seq<string>)
    ensures Concat([x] + xs) == x + Concat(xs)
  {
    assert ([x] + xs)[1..] == xs;
  }

  /** The characters of all strings in order. */
  function Concat(xs: seq<string>): string
  {
    if xs == [] then [] else xs[0] + Concat(xs[1..])
  }

  // ---------------------------------------------------------------- order

  /** Python's `a <= b` on strings: lexicographic order by code point. */
  predicate StrLe(a: string, b: string)
  {
    |a| == 0 || (|b| > 0 && (a[0] < b[0] || (a[0] == b[0] && StrLe(a[1..], b[1..]))))
  }

  lemma StrLeReflexive(a: string)
    ensures StrLe(a, a)
  {
  }

  lemma {:induction false} StrLeTransitive(a: string, b: string, c: string)
    requires StrLe(a, b) && StrLe(b, c)
    ensures StrLe(a, c)
  {
    if |a| > 0 && a[0] == b[0] && b[0] == c[0] {
      StrLeTransitive(a[1..], b[1..], c[1..]);
    }
  }

  lemma {:induction false} StrLeTotal(a: string, b: string)
    ensures StrLe(a, b) || StrLe(b, a)
  {
    if |a| > 0 && |b| > 0 && a[0] == b[0] {
      StrLeTotal(a[1..], b[1..]);
    }
  }

  lemma {:induction false} StrLeAntisymmetric(a: string, b: string)
    requires StrLe(a, b) && StrLe(b, a)
    ensures a == b
  {
    if |a| > 0 {
      StrLeAntisymmetric(a[1..], b[1..]);
      assert a == [a[0]] + a[1..] && b == [b[0]] + b[1..];
    }
  }

  /** Comparing two concatenations whose first parts have equal length: the first
      parts decide unless they are equal. */
  lemma {:induction false} StrLeAppend(a: string, b: string, c: string, d: string)
    requires |a| == |b|
    ensures StrLe(a + c, b + d) <==> (a != b && StrLe(a, b)) || (a == b && StrLe(c, d))
  {
    if |a| > 0 {
      assert (a + c)[1..] == a[1..] + c;
      assert (b + d)[1..] == b[1..] + d;
      StrLeAppend(a[1..], b[1..], c, d);
      assert a == [a[0]] + a[1..] && b == [b[0]] + b[1..];
    } else {
      assert a + c == c && b + d == d;
    }
  }
}
