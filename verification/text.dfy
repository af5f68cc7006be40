/** The few Python string operations the browser shell relies on:
    `w in s` for substrings, `str.endswith`, `str.strip()` with no argument,
    and iteration over the lines of a text file.
 */
module Text {
  import opened Results

  /** Python's `str.isspace()` for one character: the characters CPython
      treats as whitespace, which are exactly what `str.strip()` removes. */
  predicate IsSpace(c: char) {
    || c == ' '
    || ('\t' <= c <= '\r')              // \t \n \v \f \r
    || ('\U{1c}' <= c <= '\U{1f}')      // file, group, record and unit separators
    || c == '\U{85}' || c == '\U{a0}' || c == '\U{1680}'
    || ('\U{2000}' <= c <= '\U{200a}')
    || c == '\U{2028}' || c == '\U{2029}' || c == '\U{202f}' || c == '\U{205f}' || c == '\U{3000}'
  }

  // ---------------------------------------------------------------------
  // Substrings
  // ---------------------------------------------------------------------

  /** `w` sits in `s` starting at position `i`. */
  predicate OccursAt(w: string, s: string, i: int) {
    0 <= i && i + |w| <= |s| && s[i..i + |w|] == w
  }

  /** Reference meaning of Python's `w in s`: some position of `s` starts a copy of `w`. */
  ghost predicate Occurs(w: string, s: string) {
    exists i :: OccursAt(w, s, i)
  }

  /** Python's `w in s`, computed by trying each starting position from the left. */
  predicate Contains(s: string, w: string)
    decreases |s|
  {
    w <= s || (|s| > 0 && Contains(s[1..], w))
  }

  lemma {:induction false} ContainsMeansOccurs(s: string, w: string)
    ensures Contains(s, w) <==> Occurs(w, s)
    decreases |s|
  {
    if w <= s {
      assert OccursAt(w, s, 0);
    } else if |s| > 0 {
      ContainsMeansOccurs(s[1..], w);
      if Contains(s[1..], w) {
        var i :| OccursAt(w, s[1..], i);
        assert s[1..][i..i + |w|] == s[i + 1..i + 1 + |w|];
        assert OccursAt(w, s, i + 1);
      }
      if Occurs(w, s) {
        var i :| OccursAt(w, s, i);
        assert i != 0;
        assert s[1..][i - 1..i - 1 + |w|] == s[i..i + |w|];
        assert OccursAt(w, s[1..], i - 1);
      }
    }
  }

  /** A word cannot occur where its first character does not. */
  lemma MissingFirstChar(s: string, w: string)
    requires |w| > 0 && w[0] !in s
    ensures !Contains(s, w)
  {
    ContainsMeansOccurs(s, w);
  }

  /** Python's `s.endswith(suffix)`. */
  predicate EndsWith(s: string, suffix: string) {
    |suffix| <= |s| && s[|s| - |suffix|..] == suffix
  }

  /** `s.endswith(suffix)` holds exactly when `s` is some string followed by `suffix`. */
  lemma EndsWithMeansSuffix(s: string, suffix: string)
    ensures EndsWith(s, suffix) <==> OccursAt(suffix, s, |s| - |suffix|)
    ensures forall p: string {:trigger p + suffix} :: EndsWith(p + suffix, suffix)
  {
    forall p: string
      ensures EndsWith(p + suffix, suffix)
    {
      assert (p + suffix)[|p|..] == suffix;
    }
  }

  // ---------------------------------------------------------------------
  // str.strip()
  // ---------------------------------------------------------------------

  /** First index at or after `i` that does not hold whitespace, or `|s|`. */
  function SkipLeading(s: string, i: nat): (j: nat)
    requires i <= |s|
    ensures i <= j <= |s|
    ensures forall k :: i <= k < j ==> IsSpace(s[k])
    ensures j == |s| || !IsSpace(s[j])
    decreases |s| - i
  {
    if i == |s| || !IsSpace(s[i]) then i else SkipLeading(s, i + 1)
  }

  /** Largest end `e <= j`, not below `lo`, such that `s[lo..e]` has no trailing whitespace. */
  function SkipTrailing(s: string, lo: nat, j: nat): (e: nat)
    requires lo <= j <= |s|
    ensures lo <= e <= j
    ensures forall k :: e <= k < j ==> IsSpace(s[k])
    ensures e == lo || !IsSpace(s[e - 1])
    decreases j
  {
    if j == lo || !IsSpace(s[j - 1]) then j else SkipTrailing(s, lo, j - 1)
  }

  /** Neither end of `s` is whitespace (the empty string included). */
  predicate IsStripped(s: string) {
    |s| == 0 || (!IsSpace(s[0]) && !IsSpace(s[|s| - 1]))
  }

  /** `r` is the infix of `s` at `lo`, and everything of `s` around it is whitespace. */
  ghost predicate TrimmedAt(s: string, r: string, lo: int) {
    && 0 <= lo && lo + |r| <= |s|
    && s[lo..lo + |r|] == r
    && (forall k :: 0 <= k < lo ==> IsSpace(s[k]))
    && (forall k :: lo + |r| <= k < |s| ==> IsSpace(s[k]))
  }

  /** Python's `s.strip()`: drop whitespace from both ends. */
  function Strip(s: string): (r: string)
    ensures IsStripped(r)
    ensures exists lo :: TrimmedAt(s, r, lo)
  {
    var lo := SkipLeading(s, 0);
    var hi := SkipTrailing(s, lo, |s|);
    assert TrimmedAt(s, s[lo..hi], lo);
    s[lo..hi]
  }

  /** Stripping a string whose ends are already non-blank changes nothing. */
  lemma StripStripped(s: string)
    requires IsStripped(s)
    ensures Strip(s) == s
  {
  }

  /** Stripping is idempotent. */
  lemma StripIdempotent(s: string)
    ensures Strip(Strip(s)) == Strip(s)
  {
    StripStripped(Strip(s));
  }

  /** The line terminator written after a stripped row is stripped again on reading. */
  lemma StripLine(s: string)
    requires IsStripped(s)
    ensures Strip(s + "\n") == s
  {
    var t := s + "\n";
    var lo := SkipLeading(t, 0);
    if |s| == 0 {
      assert lo == 1;
    } else {
      assert t[0] == s[0];
      assert lo == 0;
      assert t[|t| - 2] == s[|s| - 1];
      assert SkipTrailing(t, 0, |t|) == SkipTrailing(t, 0, |t| - 1);
      assert t[..|s|] == s;
    }
  }

  lemma {:induction false} SkipLeadingExtend(u: string, x: string, i: nat)
    requires i <= |u| && SkipLeading(u, i) < |u|
    ensures SkipLeading(u + x, i) == SkipLeading(u, i)
    decreases |u| - i
  {
    assert (u + x)[i] == u[i];
    if IsSpace(u[i]) {
      SkipLeadingExtend(u, x, i + 1);
    }
  }

  lemma {:induction false} SkipTrailingExtend(u: string, x: string, lo: nat, j: nat)
    requires lo <= j <= |u|
    ensures SkipTrailing(u + x, lo, j) == SkipTrailing(u, lo, j)
    decreases j
  {
    if j > lo {
      assert (u + x)[j - 1] == u[j - 1];
      SkipTrailingExtend(u, x, lo, j - 1);
    }
  }

  /** From a position where only whitespace follows, nothing non-blank is found. */
  lemma {:induction false} SkipLeadingBlank(s: string, i: nat)
    requires i <= |s| && forall k :: i <= k < |s| ==> IsSpace(s[k])
    ensures SkipLeading(s, i) == |s|
    decreases |s| - i
  {
    if i < |s| {
      SkipLeadingBlank(s, i + 1);
    }
  }

  /** A line break after an all-blank string: both strip to nothing. */
  lemma StripBreakBlank(u: string)
    requires SkipLeading(u, 0) == |u|
    ensures Strip(u + "\n") == Strip(u) == ""
  {
    var t := u + "\n";
    assert forall k :: 0 <= k < |t| ==> IsSpace(t[k]) by {
      forall k | 0 <= k < |t| ensures IsSpace(t[k]) {
        if k < |u| { assert t[k] == u[k]; }
      }
    }
    SkipLeadingBlank(t, 0);
  }

  /** A line break after a string with a non-blank character: the trailing
      scan passes over the break and then sees what it sees in the string. */
  lemma StripBreakInner(u: string)
    requires SkipLeading(u, 0) < |u|
    ensures Strip(u + "\n") == Strip(u)
  {
    var t := u + "\n";
    var lo := SkipLeading(u, 0);
    var hi := SkipTrailing(u, lo, |u|);
    assert SkipLeading(t, 0) == lo by {
      SkipLeadingExtend(u, "\n", 0);
    }
    assert SkipTrailing(t, lo, |t|) == hi by {
      assert t[|u|] == '\n';
      assert SkipTrailing(t, lo, |t|) == SkipTrailing(t, lo, |u|);
      SkipTrailingExtend(u, "\n", lo, |u|);
    }
    assert t[lo..hi] == u[lo..hi] by {
      SliceOfConcat(u, "\n", lo, hi);
    }
  }

  lemma SliceOfConcat(u: string, x: string, lo: nat, hi: nat)
    requires lo <= hi <= |u|
    ensures (u + x)[lo..hi] == u[lo..hi]
  {
  }

  /** A line break written after a string disappears again under `strip()`. */
  lemma StripBreak(u: string)
    ensures Strip(u + "\n") == Strip(u)
  {
    if SkipLeading(u, 0) < |u| {
      StripBreakInner(u);
    } else {
      StripBreakBlank(u);
    }
  }

  /** A non-blank character survives stripping. */
  lemma StripKeepsChar(s: string, c: char)
    requires c in s && !IsSpace(c)
    ensures c in Strip(s)
  {
    var r := Strip(s);
    var lo :| TrimmedAt(s, r, lo);
    var k :| 0 <= k < |s| && s[k] == c;
    assert lo <= k < lo + |r|;
    assert r[k - lo] == c;
  }

  /** A slice of a slice is a slice of the whole. */
  lemma SliceOfSlice(s: string, lo: nat, hi: nat, a: nat, b: nat)
    requires lo <= hi <= |s| && a <= b <= hi - lo
    ensures s[lo..hi][a..b] == s[lo + a..lo + b]
  {
    var x, y := s[lo..hi][a..b], s[lo + a..lo + b];
    assert |x| == |y|;
    forall k | 0 <= k < |x|
      ensures x[k] == y[k]
    {
      assert x[k] == s[lo..hi][a + k] == s[lo + a + k];
    }
  }

  /** An occurrence of a word with non-blank ends lies inside the trimmed part. */
  lemma OccursInTrimmed(s: string, r: string, lo: int, w: string, i: int)
    requires TrimmedAt(s, r, lo) && OccursAt(w, s, i)
    requires |w| > 0 && !IsSpace(w[0]) && !IsSpace(w[|w| - 1])
    ensures OccursAt(w, r, i - lo)
  {
    var last := i + |w| - 1;
    assert s[i] == w[0] by { assert s[i..i + |w|][0] == s[i]; }
    assert s[last] == w[|w| - 1] by { assert s[i..i + |w|][|w| - 1] == s[last]; }
    assert lo <= i;
    assert last < lo + |r|;
    SliceOfSlice(s, lo, lo + |r|, i - lo, i - lo + |w|);
  }

  /** A non-empty word with non-blank ends that occurs in `s` still occurs in `s.strip()`. */
  lemma StripKeepsWord(s: string, w: string)
    requires |w| > 0 && !IsSpace(w[0]) && !IsSpace(w[|w| - 1])
    requires Contains(s, w)
    ensures Contains(Strip(s), w)
  {
    var r := Strip(s);
    var lo :| TrimmedAt(s, r, lo);
    ContainsMeansOccurs(s, w);
    var i :| OccursAt(w, s, i);
    OccursInTrimmed(s, r, lo, w, i);
    ContainsMeansOccurs(r, w);
  }

  // ---------------------------------------------------------------------
  // Lines of a text file
  // ---------------------------------------------------------------------

  /** Position of the first `c` in `s`, if there is one. */
  function IndexOf(s: string, c: char): (r: Option<nat>)
    ensures r.None? <==> c !in s
    ensures r.Some? ==> r.value < |s| && s[r.value] == c && c !in s[..r.value]
  {
    if |s| == 0 then None
    else if s[0] == c then Some(0)
    else match IndexOf(s[1..], c)
      case None => None
      case Some(i) =>
        assert s[..i + 1] == [s[0]] + s[1..][..i];
        Some(i + 1)
  }

  /** The strings of `ls` written one after another. */
  function Flatten(ls: seq<string>): string {
    if |ls| == 0 then "" else ls[0] + Flatten(ls[1..])
  }

  /** One line as a Python text file yields it: non-empty, no '\n' before its
      end, and terminated by '\n' unless it is the file's last line. */
  predicate IsLine(l: string, last: bool) {
    && |l| > 0
    && '\n' !in l[..|l| - 1]
    && (!last ==> l[|l| - 1] == '\n')
  }

  /** A line read from a file has no line break left once stripped: the only
      '\n' it can hold is its terminator, which is whitespace. */
  lemma StripLineBreak(l: string, last: bool)
    requires IsLine(l, last)
    ensures '\n' !in Strip(l)
  {
    var r := Strip(l);
    var lo :| TrimmedAt(l, r, lo);
  }

  /** The lines `for line in file` yields from a file holding `text`. */
  function Lines(text: string): (ls: seq<string>)
    ensures |ls| == 0 <==> |text| == 0
    ensures |ls| <= |text|
    decreases |text|
  {
    if |text| == 0 then []
    else match IndexOf(text, '\n')
      case None => [text]
      case Some(i) => [text[..i + 1]] + Lines(text[i + 1..])
  }

  lemma FlattenCons(head: string, rest: seq<string>)
    ensures Flatten([head] + rest) == head + Flatten(rest)
  {
    assert ([head] + rest)[1..] == rest;
  }

  /** A text without '\n' is its own single line. */
  lemma LinesNoBreak(text: string)
    requires |text| > 0 && IndexOf(text, '\n').None?
    ensures Lines(text) == [text]
  {
  }

  /** One step of `LinesFlatten`: the first line followed by the rest's lines. */
  lemma FlattenStep(text: string, i: nat)
    requires IndexOf(text, '\n') == Some(i)
    requires Flatten(Lines(text[i + 1..])) == text[i + 1..]
    ensures Flatten(Lines(text)) == text
  {
    var head, tail := text[..i + 1], text[i + 1..];
    LinesStep(text, i);
    FlattenCons(head, Lines(tail));
    assert head + tail == text;
  }

  /** Splitting loses nothing: the lines, written back to back, are the text. */
  lemma {:induction false} LinesFlatten(text: string)
    ensures Flatten(Lines(text)) == text
    decreases |text|
  {
    if |text| > 0 {
      match IndexOf(text, '\n')
      case None =>
        LinesNoBreak(text);
        FlattenCons(text, []);
      case Some(i) =>
        LinesFlatten(text[i + 1..]);
        FlattenStep(text, i);
    }
  }

  /** Every line is a genuine line of the file: non-empty, no '\n' before its
      end, and terminated unless it is the last. */
  lemma {:induction false} LinesShape(text: string)
    ensures forall i :: 0 <= i < |Lines(text)| ==> IsLine(Lines(text)[i], i == |Lines(text)| - 1)
    decreases |text|
  {
    if |text| > 0 {
      match IndexOf(text, '\n')
      case None =>
        assert text[..|text| - 1] <= text;
      case Some(i) =>
        var head, rest := text[..i + 1], Lines(text[i + 1..]);
        LinesShape(text[i + 1..]);
        var ls := [head] + rest;
        assert Lines(text) == ls;
        assert head[..i] == text[..i];
        forall k | 0 <= k < |ls|
          ensures IsLine(ls[k], k == |ls| - 1)
        {
          if k > 0 {
            assert ls[k] == rest[k - 1];
          }
        }
    }
  }

  /** A text made of complete lines: empty, or ending in '\n'. */
  predicate EndsLine(text: string) {
    |text| == 0 || text[|text| - 1] == '\n'
  }

  /** The first '\n' of a text that has one is also the first '\n' of any extension of it. */
  lemma IndexOfExtends(text: string, more: string)
    requires '\n' in text
    ensures IndexOf(text + more, '\n') == IndexOf(text, '\n')
  {
    var all := text + more;
    var i := IndexOf(text, '\n').value;
    assert all[i] == '\n';
    var j := IndexOf(all, '\n').value;
    assert all[..i] == text[..i];
  }

  /** Unfolding `Lines` once at the first '\n'. */
  lemma LinesStep(text: string, i: nat)
    requires IndexOf(text, '\n') == Some(i)
    ensures Lines(text) == [text[..i + 1]] + Lines(text[i + 1..])
  {
  }

  /** Cutting `text + more` just after a position inside `text`. */
  lemma SplitAfter(text: string, more: string, i: nat)
    requires EndsLine(text) && i < |text|
    ensures (text + more)[..i + 1] == text[..i + 1]
    ensures (text + more)[i + 1..] == text[i + 1..] + more
    ensures EndsLine(text[i + 1..])
  {
    var tail := text[i + 1..];
    if |tail| > 0 {
      assert tail[|tail| - 1] == text[|text| - 1];
    }
  }

  /** Text appended after complete lines starts a new line of its own. */
  lemma {:induction false} LinesAppend(text: string, more: string)
    requires EndsLine(text)
    ensures Lines(text + more) == Lines(text) + Lines(more)
    decreases |text|
  {
    if |text| == 0 {
      assert text + more == more;
    } else {
      IndexOfExtends(text, more);
      var i := IndexOf(text, '\n').value;
      var head, tail := text[..i + 1], text[i + 1..];
      calc {
        Lines(text + more);
      == { LinesStep(text + more, i); }
        [(text + more)[..i + 1]] + Lines((text + more)[i + 1..]);
      == { SplitAfter(text, more, i); }
        [head] + Lines(tail + more);
      == { SplitAfter(text, more, i); LinesAppend(tail, more); }
        [head] + (Lines(tail) + Lines(more));
      ==
        ([head] + Lines(tail)) + Lines(more);
      == { LinesStep(text, i); }
        Lines(text) + Lines(more);
      }
    }
  }

  /** A string without '\n', written with its terminator, reads back as one line. */
  lemma LinesOfOne(u: string)
    requires '\n' !in u
    ensures Lines(u + "\n") == [u + "\n"]
  {
    var t := u + "\n";
    assert t[..|u|] == u;
    assert IndexOf(t, '\n') == Some(|u|);
    assert t[..|u| + 1] == t;
    assert t[|u| + 1..] == [];
  }
}
