/**
 * The few JavaScript string built-ins the editor's helpers lean on, over
 * `string` (a sequence of characters): the whitespace class shared by the
 * regex `\s` and `String.prototype.trim`, `trim`, `split` on one separator,
 * `startsWith`, `lastIndexOf` of a character, and the "replace every run of
 * a character class by one character" that `.replace(/X+/g, c)` performs.
 */
module JsString {

  /** JavaScript's WhiteSpace and LineTerminator code points: exactly what
      the regex class `\s` matches and what `trim` removes. */
  predicate IsSpace(c: char) {
    || c == '\t' || c == '\n' || c == '\U{000B}' || c == '\U{000C}' || c == '\r' || c == ' '
    || c == '\U{00A0}' || c == '\U{1680}' || ('\U{2000}' <= c <= '\U{200A}')
    || c == '\U{2028}' || c == '\U{2029}' || c == '\U{202F}' || c == '\U{205F}'
    || c == '\U{3000}' || c == '\U{FEFF}'
  }

  /** The line terminators: the characters a regex `.` does not match. */
  predicate IsLineTerminator(c: char) {
    c == '\n' || c == '\r' || c == '\U{2028}' || c == '\U{2029}'
  }

  predicate NoSpace(s: string) {
    forall i :: 0 <= i < |s| ==> !IsSpace(s[i])
  }

  predicate AllSpace(s: string) {
    forall i :: 0 <= i < |s| ==> IsSpace(s[i])
  }

  /** No two neighbouring characters both satisfy `p`. */
  predicate NoAdjacent(s: string, p: char -> bool) {
    forall i :: 0 <= i < |s| - 1 ==> !(p(s[i]) && p(s[i + 1]))
  }

  /** The length of the longest prefix of `s` whose characters all satisfy `p`. */
  function LeadingCount(s: string, p: char -> bool): (n: nat)
    ensures n <= |s|
    ensures forall i :: 0 <= i < n ==> p(s[i])
    ensures n == |s| || !p(s[n])
  {
    if |s| > 0 && p(s[0]) then 1 + LeadingCount(s[1..], p) else 0
  }

  /** The length of the longest suffix of `s` whose characters all satisfy `p`. */
  function TrailingCount(s: string, p: char -> bool): (n: nat)
    ensures n <= |s|
    ensures forall i :: |s| - n <= i < |s| ==> p(s[i])
    ensures n == |s| || !p(s[|s| - n - 1])
  {
    if |s| > 0 && p(s[|s| - 1]) then 1 + TrailingCount(s[..|s| - 1], p) else 0
  }

  function TrimStartBy(s: string, p: char -> bool): string {
    s[LeadingCount(s, p)..]
  }

  function TrimEndBy(s: string, p: char -> bool): string {
    s[..|s| - TrailingCount(s, p)]
  }

  /** `String.prototype.trim`. */
  function Trim(s: string): (r: string)
    ensures LeadingCount(s, IsSpace) + |r| <= |s|
    ensures r == s[LeadingCount(s, IsSpace)..LeadingCount(s, IsSpace) + |r|]
    ensures r == [] || (!IsSpace(r[0]) && !IsSpace(r[|r| - 1]))
  {
    TrimEndBy(TrimStartBy(s, IsSpace), IsSpace)
  }

  /** `trim` removes exactly the leading and the trailing whitespace: an
      all-whitespace text trims to "", and any other text loses just its
      trailing run at the end. With `Trim`'s own contract (the result is
      the slice that starts after the leading run) this fixes the result. */
  lemma TrimExact(s: string)
    ensures LeadingCount(s, IsSpace) == |s| ==> Trim(s) == []
    ensures LeadingCount(s, IsSpace) < |s| ==>
      LeadingCount(s, IsSpace) + |Trim(s)| + TrailingCount(s, IsSpace) == |s|
  {
    TrimByExact(s, IsSpace);
  }

  /** The same for any character class, as a length. */
  lemma TrimByExact(s: string, p: char -> bool)
    ensures LeadingCount(s, p) == |s| ==> |TrimEndBy(TrimStartBy(s, p), p)| == 0
    ensures LeadingCount(s, p) < |s| ==>
      |TrimEndBy(TrimStartBy(s, p), p)| == |s| - LeadingCount(s, p) - TrailingCount(s, p)
  {
    var n := LeadingCount(s, p);
    if n < |s| {
      TrailingCountOfTail(s, n, p);
    }
  }

  /** Dropping a prefix that ends before a character outside the class
      keeps the trailing run. */
  lemma TrailingCountOfTail(s: string, n: nat, p: char -> bool)
    requires n < |s| && !p(s[n])
    ensures TrailingCount(s[n..], p) == TrailingCount(s, p) < |s| - n
  {
    var t := s[n..];
    assert s[..n] + t == s;
    TrailingCountAppend(s[..n], t, p);
    assert !p(t[0]);
  }

  /** `s.lastIndexOf(c)` for a one-character argument: -1 when `c` does not occur. */
  function LastIndexOf(s: string, c: char): (i: int)
    ensures -1 <= i < |s|
    ensures 0 <= i ==> s[i] == c
    ensures forall j :: i < j < |s| ==> s[j] != c
  {
    if |s| == 0 then -1
    else if s[|s| - 1] == c then |s| - 1
    else LastIndexOf(s[..|s| - 1], c)
  }

  /** `s.split(sep)` for a one-character separator. */
  function Split(s: string, sep: char): (parts: seq<string>)
    ensures |parts| >= 1
    ensures forall i :: 0 <= i < |parts| ==> sep !in parts[i]
  {
    if |s| == 0 then [""]
    else if s[0] == sep then [""] + Split(s[1..], sep)
    else
      var rest := Split(s[1..], sep);
      [[s[0]] + rest[0]] + rest[1..]
  }

  /** `parts.join(sep)`: the inverse of `Split`. */
  function Join(parts: seq<string>, sep: char): string
    requires |parts| >= 1
  {
    if |parts| == 1 then parts[0] else parts[0] + [sep] + Join(parts[1..], sep)
  }

  lemma JoinEmptyFirst(rest: seq<string>, sep: char)
    requires |rest| >= 1
    ensures Join([""] + rest, sep) == [sep] + Join(rest, sep)
  {
    assert ([""] + rest)[1..] == rest;
  }

  lemma JoinExtendFirst(c: char, rest: seq<string>, sep: char)
    requires |rest| >= 1
    ensures Join([[c] + rest[0]] + rest[1..], sep) == [c] + Join(rest, sep)
  {
    var parts := [[c] + rest[0]] + rest[1..];
    if |rest| > 1 {
      assert parts[1..] == rest[1..];
    }
  }

  /** Splitting loses nothing: joining the pieces with the separator gives the text back. */
  lemma {:induction false} SplitJoin(s: string, sep: char)
    ensures Join(Split(s, sep), sep) == s
  {
    if |s| > 0 {
      SplitJoin(s[1..], sep);
      var rest := Split(s[1..], sep);
      if s[0] == sep {
        JoinEmptyFirst(rest, sep);
      } else {
        JoinExtendFirst(s[0], rest, sep);
      }
      assert s == [s[0]] + s[1..];
    }
  }

  /** `s.replace(/P+/g, rep)` where P is the character class `p`: every
      maximal run of characters satisfying `p` becomes the single `rep`. */
  function ReplaceRuns(s: string, p: char -> bool, rep: char): (r: string)
    ensures |r| <= |s|
    ensures r == [] <==> s == []
    ensures |s| > 0 ==> r[0] == (if p(s[0]) then rep else s[0])
    decreases |s|
  {
    if |s| == 0 then []
    else if p(s[0]) then [rep] + ReplaceRuns(s[LeadingCount(s, p)..], p, rep)
    else [s[0]] + ReplaceRuns(s[1..], p, rep)
  }

  /** What `ReplaceRuns` emits: the replacement, or a character of `s` outside the class. */
  lemma {:induction false} ReplaceRunsChars(s: string, p: char -> bool, rep: char)
    ensures forall i :: 0 <= i < |ReplaceRuns(s, p, rep)| ==>
      var c := ReplaceRuns(s, p, rep)[i]; c == rep || (!p(c) && c in s)
    decreases |s|
  {
    if |s| == 0 {
    } else if p(s[0]) {
      var n := LeadingCount(s, p);
      ReplaceRunsChars(s[n..], p, rep);
      forall i | 0 <= i < |ReplaceRuns(s[n..], p, rep)|
        ensures var c := ReplaceRuns(s[n..], p, rep)[i]; c == rep || (!p(c) && c in s)
      {
        var c := ReplaceRuns(s[n..], p, rep)[i];
        if c != rep {
          assert c in s[n..];
          var j :| 0 <= j < |s[n..]| && s[n..][j] == c;
          assert s[n + j] == c;
        }
      }
    } else {
      ReplaceRunsChars(s[1..], p, rep);
      forall i | 0 <= i < |ReplaceRuns(s[1..], p, rep)|
        ensures var c := ReplaceRuns(s[1..], p, rep)[i]; c == rep || (!p(c) && c in s)
      {
        var c := ReplaceRuns(s[1..], p, rep)[i];
        if c != rep {
          assert c in s[1..];
          var j :| 0 <= j < |s[1..]| && s[1..][j] == c;
          assert s[1 + j] == c;
        }
      }
    }
  }

  /** After replacing runs, no two neighbouring characters are both in the class. */
  lemma {:induction false} ReplaceRunsNoAdjacent(s: string, p: char -> bool, rep: char)
    ensures NoAdjacent(ReplaceRuns(s, p, rep), p)
    decreases |s|
  {
    if |s| == 0 {
    } else if p(s[0]) {
      var n := LeadingCount(s, p);
      var tail := ReplaceRuns(s[n..], p, rep);
      ReplaceRunsNoAdjacent(s[n..], p, rep);
      if |tail| > 0 {
        assert n < |s| && !p(s[n]);
        assert tail[0] == s[n..][0] == s[n];
      }
      var r := [rep] + tail;
      forall i | 0 <= i < |r| - 1 ensures !(p(r[i]) && p(r[i + 1])) {
        if i > 0 {
          assert r[i] == tail[i - 1] && r[i + 1] == tail[i];
        }
      }
    } else {
      var tail := ReplaceRuns(s[1..], p, rep);
      ReplaceRunsNoAdjacent(s[1..], p, rep);
      var r := [s[0]] + tail;
      forall i | 0 <= i < |r| - 1 ensures !(p(r[i]) && p(r[i + 1])) {
        if i > 0 {
          assert r[i] == tail[i - 1] && r[i + 1] == tail[i];
        }
      }
    }
  }

  /** A text with no character in the class is left as it is. */
  lemma {:induction false} ReplaceRunsNone(s: string, p: char -> bool, rep: char)
    requires forall i :: 0 <= i < |s| ==> !p(s[i])
    ensures ReplaceRuns(s, p, rep) == s
    decreases |s|
  {
    if |s| > 0 {
      ReplaceRunsNone(s[1..], p, rep);
      assert s == [s[0]] + s[1..];
    }
  }

  /** A text whose class members are all `rep`, never two in a row, is left as it is. */
  lemma {:induction false} ReplaceRunsSingles(s: string, p: char -> bool, rep: char)
    requires NoAdjacent(s, p)
    requires forall i :: 0 <= i < |s| && p(s[i]) ==> s[i] == rep
    ensures ReplaceRuns(s, p, rep) == s
    decreases |s|
  {
    if |s| > 0 {
      if p(s[0]) {
        assert |s| == 1 || !p(s[1]);
        assert LeadingCount(s, p) == 1 by {
          assert LeadingCount(s, p) == 1 + LeadingCount(s[1..], p);
          assert |s[1..]| == 0 || !p(s[1..][0]);
        }
      }
      ReplaceRunsSingles(s[1..], p, rep);
      assert s == [s[0]] + s[1..];
    }
  }

  /** Leading runs across a concatenation. */
  lemma {:induction false} LeadingCountAppend(x: string, y: string, p: char -> bool)
    ensures LeadingCount(x + y, p) ==
      if LeadingCount(x, p) < |x| then LeadingCount(x, p) else |x| + LeadingCount(y, p)
    decreases |x|
  {
    if |x| > 0 {
      assert (x + y)[0] == x[0];
      assert (x + y)[1..] == x[1..] + y;
      LeadingCountAppend(x[1..], y, p);
    } else {
      assert x + y == y;
    }
  }

  /** Trailing runs across a concatenation. */
  lemma {:induction false} TrailingCountAppend(x: string, y: string, p: char -> bool)
    ensures TrailingCount(x + y, p) ==
      if TrailingCount(y, p) < |y| then TrailingCount(y, p) else |y| + TrailingCount(x, p)
    decreases |y|
  {
    if |y| > 0 {
      assert (x + y)[|x + y| - 1] == y[|y| - 1];
      assert (x + y)[..|x + y| - 1] == x + y[..|y| - 1];
      TrailingCountAppend(x, y[..|y| - 1], p);
    } else {
      assert x + y == x;
    }
  }

  lemma TrimStartPad(w: string, y: string)
    requires AllSpace(w)
    ensures TrimStartBy(w + y, IsSpace) == TrimStartBy(y, IsSpace)
  {
    LeadingCountAppend(w, y, IsSpace);
    assert LeadingCount(w, IsSpace) == |w|;
    assert (w + y)[|w| + LeadingCount(y, IsSpace)..] == y[LeadingCount(y, IsSpace)..];
  }

  lemma TrimEndPad(y: string, w: string)
    requires AllSpace(w)
    ensures TrimEndBy(y + w, IsSpace) == TrimEndBy(y, IsSpace)
  {
    TrailingCountAppend(y, w, IsSpace);
    assert TrailingCount(w, IsSpace) == |w|;
    assert (y + w)[..|y| - TrailingCount(y, IsSpace)] == y[..|y| - TrailingCount(y, IsSpace)];
  }

  lemma TrimStartKeepsTail(x: string, w: string)
    requires AllSpace(w)
    ensures LeadingCount(x, IsSpace) < |x| ==> TrimStartBy(x + w, IsSpace) == TrimStartBy(x, IsSpace) + w
    ensures LeadingCount(x, IsSpace) == |x| ==> TrimStartBy(x + w, IsSpace) == []
  {
    TrimStartKeepsTailBy(x, w, IsSpace);
  }

  /** `TrimStartKeepsTail` for any character class. */
  lemma TrimStartKeepsTailBy(x: string, w: string, p: char -> bool)
    requires forall i :: 0 <= i < |w| ==> p(w[i])
    ensures LeadingCount(x, p) < |x| ==> TrimStartBy(x + w, p) == TrimStartBy(x, p) + w
    ensures LeadingCount(x, p) == |x| ==> TrimStartBy(x + w, p) == []
  {
    LeadingCountAppend(x, w, p);
    var lx := LeadingCount(x, p);
    if lx < |x| {
      DropAppend(x, w, lx);
    } else {
      LeadingCountAll(w, p);
    }
  }

  lemma DropAppend(x: string, w: string, k: nat)
    requires k <= |x|
    ensures (x + w)[k..] == x[k..] + w
  {
  }

  /** A string made only of characters of the class is all leading run. */
  lemma {:induction false} LeadingCountAll(w: string, p: char -> bool)
    requires forall i :: 0 <= i < |w| ==> p(w[i])
    ensures LeadingCount(w, p) == |w|
  {
    if |w| > 0 {
      assert forall i :: 0 <= i < |w[1..]| ==> p(w[1..][i]) by {
        forall i | 0 <= i < |w[1..]| ensures p(w[1..][i]) {
          assert w[1..][i] == w[i + 1];
        }
      }
      LeadingCountAll(w[1..], p);
    }
  }

  /** Whitespace padding on either side never changes what `trim` returns. */
  lemma TrimPadding(w1: string, x: string, w2: string)
    requires AllSpace(w1) && AllSpace(w2)
    ensures Trim(w1 + x + w2) == Trim(x)
  {
    assert w1 + x + w2 == w1 + (x + w2);
    TrimStartPad(w1, x + w2);
    TrimStartKeepsTail(x, w2);
    if LeadingCount(x, IsSpace) < |x| {
      TrimEndPad(TrimStartBy(x, IsSpace), w2);
    }
  }
}
