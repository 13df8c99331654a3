/**
 * The helpers of the main process (src/main/utils/index.js): the unique id
 * counter, filename sanitising, the first line of text and the recommended
 * title of a markdown document, key-set comparison and the log level.
 */
module MainUtils {
  import opened Wrappers
  import opened JsString

  // ---------------------------------------------------------------------
  // getUniqueId
  // ---------------------------------------------------------------------

  function DigitChar(d: nat): (c: char)
    requires d < 10
    ensures '0' <= c <= '9'
  {
    ('0' as int + d) as char
  }

  predicate AllDigits(s: string) {
    forall i :: 0 <= i < |s| ==> '0' <= s[i] <= '9'
  }

  /** The decimal numeral of `n`, as a template literal prints a
      non-negative integer. */
  function NatToString(n: nat): (s: string)
    ensures |s| >= 1 && AllDigits(s)
  {
    if n < 10 then [DigitChar(n)] else NatToString(n / 10) + [DigitChar(n % 10)]
  }

  /** The number a numeral denotes. */
  function NumeralValue(s: string): nat
    requires AllDigits(s)
  {
    if |s| == 0 then 0 else NumeralValue(s[..|s| - 1]) * 10 + (s[|s| - 1] as int - '0' as int)
  }

  /** Reading the numeral back gives the number. */
  lemma {:induction false} NatToStringValue(n: nat)
    ensures NumeralValue(NatToString(n)) == n
  {
    if n >= 10 {
      NatToStringValue(n / 10);
      var s := NatToString(n);
      assert s[..|s| - 1] == NatToString(n / 10);
    }
  }

  const IdPrefix: string := "mt-"

  /** The id handed out when the counter stands at `n`. */
  function IdOf(n: nat): string {
    IdPrefix + NatToString(n)
  }

  /** Different counter values give different ids. */
  lemma IdOfInjective(m: nat, n: nat)
    ensures IdOf(m) == IdOf(n) <==> m == n
  {
    if IdOf(m) == IdOf(n) {
      assert IdOf(m)[|IdPrefix|..] == NatToString(m);
      assert IdOf(n)[|IdPrefix|..] == NatToString(n);
      NatToStringValue(m);
      NatToStringValue(n);
    }
  }

  /** The module-level counter behind `getUniqueId`. */
  class IdGenerator {
    var id: nat
    /** The ids handed out so far, oldest first. */
    ghost var issued: seq<string>

    ghost predicate Valid()
      reads this
    {
      |issued| == id && forall i :: 0 <= i < id ==> issued[i] == IdOf(i)
    }

    constructor ()
      ensures Valid() && id == 0 && issued == []
    {
      id := 0;
      issued := [];
    }

    /** `getUniqueId()`: the prefix and the counter, then the increment. */
    method GetUniqueId() returns (r: string)
      requires Valid()
      modifies this
      ensures Valid()
      ensures r == IdOf(old(id)) && id == old(id) + 1
      ensures issued == old(issued) + [r]
      ensures r !in old(issued)
    {
      r := IdPrefix + NatToString(id);
      forall i | 0 <= i < id ensures issued[i] != r {
        IdOfInjective(i, id);
      }
      issued := issued + [r];
      id := id + 1;
    }
  }

  // ---------------------------------------------------------------------
  // sanitizeFilename
  // ---------------------------------------------------------------------

  /** The characters `/ \ : * ? " < > |`. */
  predicate IsForbidden(c: char) {
    c == '/' || c == '\\' || c == ':' || c == '*' || c == '?' || c == '"' || c == '<' || c == '>' || c == '|'
  }

  predicate IsDot(c: char) { c == '.' }

  predicate NoForbidden(s: string) {
    forall i :: 0 <= i < |s| ==> !IsForbidden(s[i])
  }

  /** `.replace(/[/\\:*?"<>|]/g, ' ')`. */
  function ReplaceForbidden(s: string): (r: string)
    ensures |r| == |s|
    ensures forall i :: 0 <= i < |s| ==> r[i] == if IsForbidden(s[i]) then ' ' else s[i]
  {
    seq(|s|, i requires 0 <= i < |s| => if IsForbidden(s[i]) then ' ' else s[i])
  }

  /** The name before truncation: forbidden characters become spaces, runs
      of whitespace one space, the ends are trimmed, and then leading and
      trailing dots are removed. */
  function Cleaned(name: string): string {
    var collapsed := Trim(ReplaceRuns(ReplaceForbidden(name), IsSpace, ' '));
    TrimEndBy(TrimStartBy(collapsed, IsDot), IsDot)
  }

  /** `sanitizeFilename(name, maxLength)`. */
  function SanitizeFilename(name: string, maxLength: nat): string {
    if name == "" then ""
    else
      var sanitized := Cleaned(name);
      if |sanitized| > maxLength then
        var cut := Trim(sanitized[..maxLength]);
        var lastSpace := LastIndexOf(cut, ' ');
        if lastSpace * 2 > maxLength then cut[..lastSpace] else cut
      else sanitized
  }

  /** The default `maxLength`. */
  const DefaultMaxLength: nat := 100

  /** The two character properties a sanitised name has. */
  predicate Clean(s: string) {
    NoForbidden(s) && NoAdjacent(s, IsSpace)
  }

  lemma CleanSlice(s: string, a: nat, b: nat)
    requires Clean(s) && a <= b <= |s|
    ensures Clean(s[a..b])
  {
    forall i | 0 <= i < b - a - 1 ensures !(IsSpace(s[a..b][i]) && IsSpace(s[a..b][i + 1])) {
      assert s[a..b][i] == s[a + i] && s[a..b][i + 1] == s[a + i + 1];
    }
  }

  lemma CleanTrim(s: string)
    requires Clean(s)
    ensures Clean(Trim(s))
  {
    var n := LeadingCount(s, IsSpace);
    CleanSlice(s, n, n + |Trim(s)|);
  }

  /** Collapsing whitespace brings back no forbidden character. */
  lemma RunsNoForbidden(name: string)
    ensures NoForbidden(ReplaceRuns(ReplaceForbidden(name), IsSpace, ' '))
  {
    var replaced := ReplaceForbidden(name);
    var runs := ReplaceRuns(replaced, IsSpace, ' ');
    ReplaceRunsChars(replaced, IsSpace, ' ');
    forall i | 0 <= i < |runs| ensures !IsForbidden(runs[i]) {
      var c := runs[i];
      if c != ' ' {
        var j :| 0 <= j < |replaced| && replaced[j] == c;
      }
    }
  }

  /** Every stage before truncation keeps the two properties. */
  lemma CleanedIsClean(name: string)
    ensures Clean(Cleaned(name))
  {
    var replaced := ReplaceForbidden(name);
    var runs := ReplaceRuns(replaced, IsSpace, ' ');
    RunsNoForbidden(name);
    ReplaceRunsNoAdjacent(replaced, IsSpace, ' ');
    CleanTrim(runs);
    CleanDotTrim(Trim(runs));
  }

  /** Dropping the dots at either end keeps the two properties. */
  lemma CleanDotTrim(collapsed: string)
    requires Clean(collapsed)
    ensures Clean(TrimEndBy(TrimStartBy(collapsed, IsDot), IsDot))
  {
    var front := TrimStartBy(collapsed, IsDot);
    CleanSlice(collapsed, LeadingCount(collapsed, IsDot), |collapsed|);
    CleanSlice(front, 0, |front| - TrailingCount(front, IsDot));
  }

  /** The result never contains `/ \ : * ? " < > |` and never two whitespace
      characters in a row. */
  lemma SanitizeIsClean(name: string, maxLength: nat)
    ensures Clean(SanitizeFilename(name, maxLength))
  {
    if name != "" {
      CleanedIsClean(name);
      var sanitized := Cleaned(name);
      if |sanitized| > maxLength {
        CleanSlice(sanitized, 0, maxLength);
        var cut := Trim(sanitized[..maxLength]);
        CleanTrim(sanitized[..maxLength]);
        var lastSpace := LastIndexOf(cut, ' ');
        if lastSpace * 2 > maxLength {
          CleanSlice(cut, 0, lastSpace);
        }
      }
    }
  }

  /** The result is never longer than `maxLength`; the empty name gives the
      empty result. */
  lemma SanitizeLength(name: string, maxLength: nat)
    ensures |SanitizeFilename(name, maxLength)| <= maxLength
    ensures name == "" ==> SanitizeFilename(name, maxLength) == ""
  {
  }

  /** Without truncation, the result has no dot at either end. */
  lemma SanitizeNoEndDots(name: string, maxLength: nat)
    requires |Cleaned(name)| <= maxLength
    ensures var r := SanitizeFilename(name, maxLength);
      r == "" || (r[0] != '.' && r[|r| - 1] != '.')
  {
    var collapsed := Trim(ReplaceRuns(ReplaceForbidden(name), IsSpace, ' '));
    var front := TrimStartBy(collapsed, IsDot);
    var r := Cleaned(name);
    if name != "" && r != "" {
      assert r == front[..|front| - TrailingCount(front, IsDot)];
      assert !IsDot(front[|front| - TrailingCount(front, IsDot) - 1]);
      assert front == collapsed[LeadingCount(collapsed, IsDot)..];
      assert !IsDot(collapsed[LeadingCount(collapsed, IsDot)]);
    }
  }

  /** When the name is truncated and the cut prefix has a space past half of
      `maxLength`, the result is the cut prefix up to its last space: the
      word that space begins is dropped whole. */
  lemma SanitizeWordBoundary(name: string, maxLength: nat)
    requires name != "" && |Cleaned(name)| > maxLength
    ensures var cut := Trim(Cleaned(name)[..maxLength]);
      var r := SanitizeFilename(name, maxLength);
      var k := LastIndexOf(cut, ' ');
      k * 2 > maxLength ==>
        && r == cut[..k] && cut[k] == ' '
        && forall j :: k < j < |cut| ==> cut[j] != ' '
  {
  }

  // ---------------------------------------------------------------------
  // getFirstLineOfText
  // ---------------------------------------------------------------------

  /** A trimmed line that opens or closes a fenced code block. */
  predicate IsFence(t: string) {
    OpensWith(t, '`') || OpensWith(t, '~')
  }

  /** `t` starts with three `c`. */
  predicate OpensWith(t: string, c: char) {
    |t| >= 3 && t[0] == c && t[1] == c && t[2] == c
  }

  /** Which lines are fence lines once trimmed. */
  function FenceLines(lines: seq<string>): (f: seq<bool>)
    ensures |f| == |lines|
  {
    seq(|lines|, k requires 0 <= k < |lines| => IsFence(Trim(lines[k])))
  }

  /** The parity of the first `n` flags: whether an odd number are up. */
  predicate OddUpTo(f: seq<bool>, n: nat)
    requires n <= |f|
  {
    if n == 0 then false else OddUpTo(f, n - 1) != f[n - 1]
  }

  /** Whether line `n` is read with the fence flag up: an odd number of
      fence lines come before it. */
  predicate InFence(lines: seq<string>, n: nat)
    requires n <= |lines|
  {
    OddUpTo(FenceLines(lines), n)
  }

  /** Every character of `t` is `c`. */
  predicate AllChar(t: string, c: char) {
    |t| == 0 || (t[0] == c && AllChar(t[1..], c))
  }

  /** `/^(-{3,}|_{3,}|\*{3,})$/`: a horizontal rule. */
  predicate IsRule(t: string) {
    |t| >= 3 && (AllChar(t, '-') || AllChar(t, '_') || AllChar(t, '*'))
  }

  /** `t` lies on one line. */
  predicate NoLineTerminator(t: string) {
    |t| == 0 || (!IsLineTerminator(t[0]) && NoLineTerminator(t[1..]))
  }

  /** `\s*\S+` up to the end of the text. */
  predicate SpacesThenWord(t: string) {
    var n := LeadingCount(t, IsSpace);
    n < |t| && NoSpace(t[n..])
  }

  /** The label of a link reference definition `t` closes at `i`: `]:`
      stands there, the label has no line terminator, and one word follows
      after optional whitespace. */
  predicate LabelEndsAt(t: string, i: nat)
    requires 1 <= i <= |t| - 2
  {
    t[i] == ']' && t[i + 1] == ':' && NoLineTerminator(t[1..i]) && SpacesThenWord(t[i + 2..])
  }

  /** `/^(\[.*\]:\s*\S+)$/`: a link reference definition. */
  predicate IsLinkReference(t: string) {
    |t| > 0 && t[0] == '[' && exists i | 1 <= i <= |t| - 2 :: LabelEndsAt(t, i)
  }

  /** `/^<!--.*-->$/`: an HTML comment on one line. */
  predicate IsHtmlComment(t: string) {
    |t| >= 7 && t[0] == '<' && t[1] == '!' && t[2] == '-' && t[3] == '-' &&
    t[|t| - 3] == '-' && t[|t| - 2] == '-' && t[|t| - 1] == '>' && NoLineTerminator(t[4..|t| - 3])
  }

  /** The lines the scan passes over even outside a fence. */
  predicate IsSkipped(t: string) {
    t == "" || IsRule(t) || IsLinkReference(t) || IsHtmlComment(t)
  }

  /** Line `i` is returned by the scan when the scan reaches it: it is not
      a fence line, no fence is open, it is not skipped, and something is
      left after the markdown is stripped. */
  predicate Surviving(lines: seq<string>, i: nat, strip: string -> string)
    requires i < |lines|
  {
    var t := Trim(lines[i]);
    !IsFence(t) && !InFence(lines, i) && !IsSkipped(t) && strip(t) != ""
  }

  /** The first surviving line at or after `i`, or `|lines|`. */
  function FirstSurviving(lines: seq<string>, strip: string -> string, i: nat): (j: nat)
    requires i <= |lines|
    ensures i <= j <= |lines|
    ensures j < |lines| ==> Surviving(lines, j, strip)
    ensures forall k :: i <= k < j ==> !Surviving(lines, k, strip)
    decreases |lines| - i
  {
    if i == |lines| then i
    else if Surviving(lines, i, strip) then i
    else FirstSurviving(lines, strip, i + 1)
  }

  /** The first line of text of a list of lines: the stripped text of the
      first surviving line, or "" when none survives. */
  function FirstLineOfLines(lines: seq<string>, strip: string -> string): string {
    var j := FirstSurviving(lines, strip, 0);
    if j < |lines| then strip(Trim(lines[j])) else ""
  }

  /** The first line of text is empty exactly when no line survives, and
      otherwise it is what the first surviving line strips to. */
  lemma FirstLineOfLinesChoice(lines: seq<string>, strip: string -> string)
    ensures var r := FirstLineOfLines(lines, strip);
      (r == "" <==> forall i :: 0 <= i < |lines| ==> !Surviving(lines, i, strip)) &&
      (forall j :: (0 <= j < |lines| && Surviving(lines, j, strip) &&
                    (forall k :: 0 <= k < j ==> !Surviving(lines, k, strip))) ==> r == strip(Trim(lines[j])))
  {
    var j0 := FirstSurviving(lines, strip, 0);
    forall j | 0 <= j < |lines| && Surviving(lines, j, strip) && (forall k :: 0 <= k < j ==> !Surviving(lines, k, strip))
      ensures j == j0
    {
    }
  }

  /** `getFirstLineOfText(markdown)`, with the markdown-stripping chain of
      regular expressions given as `strip`. */
  function FirstLineOfText(markdown: string, strip: string -> string): string {
    if markdown == "" then "" else FirstLineOfLines(Split(markdown, '\n'), strip)
  }

  /** `getFirstLineOfText`, as the loop over the lines with the fence flag. */
  method GetFirstLineOfText(markdown: string, strip: string -> string) returns (r: string)
    ensures r == FirstLineOfText(markdown, strip)
  {
    if markdown == "" {
      return "";
    }
    var lines := Split(markdown, '\n');
    r := ScanFirstLine(lines, strip);
  }

  /** The loop of `getFirstLineOfText` over the lines. */
  method ScanFirstLine(lines: seq<string>, strip: string -> string) returns (r: string)
    ensures r == FirstLineOfLines(lines, strip)
  {
    var inCodeBlock := false;
    var i := 0;
    while i < |lines|
      invariant i <= |lines|
      invariant inCodeBlock == InFence(lines, i)
      invariant FirstSurviving(lines, strip, 0) == FirstSurviving(lines, strip, i)
    {
      var text;
      inCodeBlock, text := FirstLineVisit(lines, strip, i, inCodeBlock);
      SearchStep(lines, strip, i);
      if text != "" {
        FirstLineAt(lines, strip, i);
        return text;
      }
      i := i + 1;
    }
    return "";
  }

  /** The first surviving line gives the first line of text. */
  lemma FirstLineAt(lines: seq<string>, strip: string -> string, i: nat)
    requires i < |lines| && FirstSurviving(lines, strip, 0) == i
    ensures FirstLineOfLines(lines, strip) == strip(Trim(lines[i]))
  {
  }

  /** The body of the loop of `getFirstLineOfText` on line `i`: the fence
      flag after the line, and the text to return, "" to go on. */
  method FirstLineVisit(lines: seq<string>, strip: string -> string, i: nat, inCodeBlock: bool)
    returns (inCodeBlock': bool, text: string)
    requires i < |lines| && inCodeBlock == InFence(lines, i)
    ensures inCodeBlock' == InFence(lines, i + 1)
    ensures text != "" <==> Surviving(lines, i, strip)
    ensures text != "" ==> text == strip(Trim(lines[i]))
  {
    FenceStep(lines, i);
    var trimmed := Trim(lines[i]);
    if IsFence(trimmed) {
      return !inCodeBlock, "";
    }
    if inCodeBlock {
      return inCodeBlock, "";
    }
    if IsSkipped(trimmed) {
      return inCodeBlock, "";
    }
    text := strip(trimmed);
    return inCodeBlock, text;
  }

  /** Fence lines flip the flag and nothing else does. */
  lemma FenceStep(lines: seq<string>, i: nat)
    requires i < |lines|
    ensures InFence(lines, i + 1) <==> (InFence(lines, i) != IsFence(Trim(lines[i])))
  {
  }

  /** A line that does not survive passes the search on. */
  lemma SearchStep(lines: seq<string>, strip: string -> string, i: nat)
    requires i < |lines|
    ensures Surviving(lines, i, strip) ==> FirstSurviving(lines, strip, i) == i
    ensures !Surviving(lines, i, strip) ==> FirstSurviving(lines, strip, i) == FirstSurviving(lines, strip, i + 1)
  {
  }

  /** Replacing one line by another that is equally a fence line or not
      leaves the fence flag of every line as it was. */
  lemma FenceLinesReplace(lines: seq<string>, i: nat, x: string)
    requires i < |lines|
    requires IsFence(Trim(x)) == IsFence(Trim(lines[i]))
    ensures FenceLines(lines[i := x]) == FenceLines(lines)
  {
    var f, f' := FenceLines(lines), FenceLines(lines[i := x]);
    forall k | 0 <= k < |lines| ensures f'[k] == f[k] {
      if k != i {
        assert lines[i := x][k] == lines[k];
      }
    }
  }

  /** Whatever is written inside a fenced block (short of another fence
      line) never becomes the first line of text. */
  lemma FencedLineIrrelevant(lines: seq<string>, i: nat, x: string, strip: string -> string)
    requires i < |lines| && InFence(lines, i)
    requires !IsFence(Trim(x)) && !IsFence(Trim(lines[i]))
    ensures FirstLineOfLines(lines[i := x], strip) == FirstLineOfLines(lines, strip)
  {
    var lines' := lines[i := x];
    FenceLinesReplace(lines, i, x);
    forall k | 0 <= k < |lines|
      ensures Surviving(lines', k, strip) == Surviving(lines, k, strip)
    {
    }
    var j, j' := FirstSurviving(lines, strip, 0), FirstSurviving(lines', strip, 0);
    assert j == j';
  }

  // ---------------------------------------------------------------------
  // getRecommendTitleFromMarkdownString
  // ---------------------------------------------------------------------

  /** `{ level, content }` of a header match. */
  datatype Header = Header(level: nat, content: string)

  predicate IsHash(c: char) { c == '#' }

  /** The position of the first line terminator, or `|t|`. */
  function LineEnd(t: string): (n: nat)
    ensures n <= |t| && forall k :: 0 <= k < n ==> !IsLineTerminator(t[k])
    ensures n < |t| ==> IsLineTerminator(t[n])
  {
    LeadingCount(t, c => !IsLineTerminator(c))
  }

  /** Some character of `rest` after the first one is not a line
      terminator, so `\s+` can give it back to `.+`. */
  predicate CanBacktrack(rest: string) {
    exists k | 1 <= k < |rest| :: NotTerminatorAt(rest, k)
  }

  predicate NotTerminatorAt(rest: string, k: nat)
    requires k < |rest|
  {
    !IsLineTerminator(rest[k])
  }

  /** `t.match(/^(#{1,6})\s+(.+)/)`, with `content` the trimmed second
      group: the number of leading `#` must be one to six and be followed
      by whitespace, and the rest of the line must match `\s+(.+)`. */
  function HeaderMatch(t: string): (h: Option<Header>)
    ensures h.Some? ==> 1 <= h.value.level <= 6 && h.value.level == LeadingCount(t, IsHash)
  {
    var n := LeadingCount(t, IsHash);
    if 1 <= n <= 6 && n < |t| && IsSpace(t[n]) then
      var g := HeaderGroup(t[n..]);
      if g.Some? then Some(Header(n, g.value)) else None
    else None
  }

  /** The trimmed group of `\s+(.+)` on the text after the marks. When
      something other than whitespace follows the whitespace, the group is
      the rest of the line from there up to a line terminator. When only
      whitespace follows, the regex backtracks and the group is whitespace,
      which trims to the empty string, provided one of those characters
      after the first is not a line terminator. */
  function HeaderGroup(rest: string): Option<string> {
    var m := LeadingCount(rest, IsSpace);
    if m < |rest| then
      var body := rest[m..];
      Some(Trim(body[..LineEnd(body)]))
    else if CanBacktrack(rest) then Some("")
    else None
  }

  /** On a line without terminators the content is the rest of the line
      after the marks, trimmed; when the regex backtracks that rest is all
      whitespace and trims to the empty string as well. */
  lemma HeaderContent(t: string)
    requires HeaderMatch(t).Some?
    requires forall k :: 0 <= k < |t| ==> !IsLineTerminator(t[k])
    ensures HeaderMatch(t).value.content == Trim(t[LeadingCount(t, IsHash)..])
  {
    var n := LeadingCount(t, IsHash);
    var rest := t[n..];
    forall k | 0 <= k < |rest| ensures !IsLineTerminator(rest[k]) {
      assert rest[k] == t[n + k];
    }
    HeaderGroupContent(rest);
  }

  lemma HeaderGroupContent(rest: string)
    requires HeaderGroup(rest).Some?
    requires forall k :: 0 <= k < |rest| ==> !IsLineTerminator(rest[k])
    ensures HeaderGroup(rest).value == Trim(rest)
  {
    var m := LeadingCount(rest, IsSpace);
    if m < |rest| {
      var body := rest[m..];
      forall k | 0 <= k < |body| ensures !IsLineTerminator(body[k]) {
        assert body[k] == rest[m + k];
      }
      LineEndWhole(body);
      assert body[..LineEnd(body)] == body;
      TrimAfterSpaces(rest);
    } else {
      TrimExact(rest);
    }
  }

  /** Dropping the leading whitespace does not change the trim. */
  lemma TrimAfterSpaces(s: string)
    ensures Trim(s[LeadingCount(s, IsSpace)..]) == Trim(s)
  {
    var m := LeadingCount(s, IsSpace);
    var w: string, body: string, e: string := s[..m], s[m..], [];
    assert s == w + body;
    assert w + body + e == w + body;
    TrimPadding(w, body, e);
  }

  /** A line without terminators ends at its end. */
  lemma LineEndWhole(b: string)
    requires forall k :: 0 <= k < |b| ==> !IsLineTerminator(b[k])
    ensures LineEnd(b) == |b|
  {
  }

  /** On trimmed lines the header test does not depend on the whitespace
      after the marks running to the end, which a trimmed line never does. */
  lemma HeaderMatchTrimmed(t: string)
    requires t == [] || !IsSpace(t[|t| - 1])
    ensures var n := LeadingCount(t, IsHash);
      HeaderMatch(t).Some? <==> 1 <= n <= 6 && n < |t| && IsSpace(t[n])
  {
    var n := LeadingCount(t, IsHash);
    HeaderMatchGate(t);
    if 1 <= n <= 6 && n < |t| && IsSpace(t[n]) {
      HeaderGroupFound(t, n);
    }
  }

  /** The two steps of the match. */
  lemma HeaderMatchGate(t: string)
    ensures var n := LeadingCount(t, IsHash);
      HeaderMatch(t).Some? <==> 1 <= n <= 6 && n < |t| && IsSpace(t[n]) && HeaderGroup(t[n..]).Some?
  {
  }

  /** After any position of a line that ends in a non-space there is a group. */
  lemma HeaderGroupFound(t: string, n: nat)
    requires n < |t| && !IsSpace(t[|t| - 1])
    ensures HeaderGroup(t[n..]).Some?
  {
    var rest := t[n..];
    assert rest[|rest| - 1] == t[|t| - 1];
    assert LeadingCount(rest, IsSpace) < |rest|;
  }

  /** The header each line contributes: only lines outside fences that
      are not fence lines are matched. */
  function LineHeaders(lines: seq<string>): (hs: seq<Option<Header>>)
    ensures |hs| == |lines|
  {
    seq(|lines|, k requires 0 <= k < |lines| =>
      var t := Trim(lines[k]);
      if !IsFence(t) && !InFence(lines, k) then HeaderMatch(t) else None)
  }

  /** The values among the first `n` options, in order. */
  function FoundHeaders(os: seq<Option<Header>>, n: nat): seq<Header>
    requires n <= |os|
  {
    if n == 0 then [] else FoundHeaders(os, n - 1) + (if os[n - 1].Some? then [os[n - 1].value] else [])
  }

  /** The headers found in the first `n` lines, in order. */
  function HeadersUpTo(lines: seq<string>, n: nat): seq<Header>
    requires n <= |lines|
  {
    FoundHeaders(LineHeaders(lines), n)
  }

  /** One step of the header scan. */
  lemma HeaderStep(lines: seq<string>, i: nat)
    requires i < |lines|
    ensures var t := Trim(lines[i]);
      var h := if !IsFence(t) && !InFence(lines, i) then HeaderMatch(t) else None;
      HeadersUpTo(lines, i + 1) == HeadersUpTo(lines, i) + (if h.Some? then [h.value] else [])
  {
  }

  /** The first header of the lowest level: the one a stable sort by level
      puts first. */
  function BestHeader(hs: seq<Header>): (j: nat)
    requires |hs| > 0
    ensures j < |hs|
    ensures forall k :: 0 <= k < |hs| ==> hs[j].level <= hs[k].level
    ensures forall k :: 0 <= k < j ==> hs[k].level > hs[j].level
  {
    if |hs| == 1 then 0
    else
      var b := BestHeader(hs[1..]) + 1;
      assert hs[b] == hs[1..][b - 1];
      if hs[0].level <= hs[b].level then 0 else b
  }

  /** The title for a list of lines. */
  function TitleOfLines(lines: seq<string>, strip: string -> string): string {
    var hs := HeadersUpTo(lines, |lines|);
    if |hs| > 0 then SanitizeFilename(hs[BestHeader(hs)].content, DefaultMaxLength)
    else SanitizeFilename(FirstLineOfLines(lines, strip), DefaultMaxLength)
  }

  /** `getRecommendTitleFromMarkdownString(markdown)`. */
  function RecommendTitle(markdown: string, strip: string -> string): string {
    if markdown == "" then "" else TitleOfLines(Split(markdown, '\n'), strip)
  }

  /** `getRecommendTitleFromMarkdownString`, as the loop collecting headers. */
  method GetRecommendTitleFromMarkdownString(markdown: string, strip: string -> string) returns (r: string)
    ensures r == RecommendTitle(markdown, strip)
  {
    if markdown == "" {
      return "";
    }
    var lines := Split(markdown, '\n');
    var headers := CollectHeaders(lines);
    if |headers| > 0 {
      var best := BestHeader(headers);
      return SanitizeFilename(headers[best].content, DefaultMaxLength);
    }
    var firstLine := GetFirstLineOfText(markdown, strip);
    return SanitizeFilename(firstLine, DefaultMaxLength);
  }

  /** The loop of `getRecommendTitleFromMarkdownString` collecting the
      headers outside fenced blocks. */
  method CollectHeaders(lines: seq<string>) returns (headers: seq<Header>)
    ensures headers == HeadersUpTo(lines, |lines|)
  {
    var inCodeBlock := false;
    headers := [];
    var i := 0;
    while i < |lines|
      invariant i <= |lines|
      invariant inCodeBlock == InFence(lines, i)
      invariant headers == HeadersUpTo(lines, i)
    {
      inCodeBlock, headers := TitleVisit(lines, i, inCodeBlock, headers);
      i := i + 1;
    }
  }

  /** The body of the header loop of `getRecommendTitleFromMarkdownString`
      on line `i`: the fence flag after the line, and the headers with the
      line's own header pushed when it has one. */
  method TitleVisit(lines: seq<string>, i: nat, inCodeBlock: bool, headers: seq<Header>)
    returns (inCodeBlock': bool, headers': seq<Header>)
    requires i < |lines| && inCodeBlock == InFence(lines, i) && headers == HeadersUpTo(lines, i)
    ensures inCodeBlock' == InFence(lines, i + 1)
    ensures headers' == HeadersUpTo(lines, i + 1)
  {
    FenceStep(lines, i);
    HeaderStep(lines, i);
    var trimmed := Trim(lines[i]);
    if IsFence(trimmed) {
      return !inCodeBlock, headers;
    }
    if inCodeBlock {
      return inCodeBlock, headers;
    }
    var headerMatch := HeaderMatch(trimmed);
    headers' := headers;
    if headerMatch.Some? {
      headers' := headers' + [headerMatch.value];
    }
    return inCodeBlock, headers';
  }

  /** Lines inside a fenced block never contribute a header. */
  lemma HeadersReplace(lines: seq<string>, i: nat, x: string)
    requires i < |lines| && InFence(lines, i)
    requires !IsFence(Trim(x)) && !IsFence(Trim(lines[i]))
    ensures LineHeaders(lines[i := x]) == LineHeaders(lines)
  {
    FenceLinesReplace(lines, i, x);
    var hs, hs' := LineHeaders(lines), LineHeaders(lines[i := x]);
    forall k | 0 <= k < |lines| ensures hs'[k] == hs[k] {
      if k != i {
        assert lines[i := x][k] == lines[k];
      }
    }
  }

  /** Whatever is written inside a fenced block (short of another fence
      line) never changes the recommended title. */
  lemma FencedLineIgnoredByTitle(lines: seq<string>, i: nat, x: string, strip: string -> string)
    requires i < |lines| && InFence(lines, i)
    requires !IsFence(Trim(x)) && !IsFence(Trim(lines[i]))
    ensures TitleOfLines(lines[i := x], strip) == TitleOfLines(lines, strip)
  {
    HeadersReplace(lines, i, x);
    FencedLineIrrelevant(lines, i, x, strip);
  }

  /** A header line outside any fence is always found, so the title then
      comes from a header, never from the first line of text. */
  lemma HeaderFound(lines: seq<string>, i: nat)
    requires i < |lines|
    requires !IsFence(Trim(lines[i])) && !InFence(lines, i) && HeaderMatch(Trim(lines[i])).Some?
    ensures HeaderMatch(Trim(lines[i])).value in HeadersUpTo(lines, |lines|)
  {
    FoundHeadersKeep(LineHeaders(lines), i, |lines|);
  }

  lemma {:induction false} FoundHeadersKeep(os: seq<Option<Header>>, i: nat, n: nat)
    requires i < n <= |os| && os[i].Some?
    ensures os[i].value in FoundHeaders(os, n)
  {
    if n - 1 > i {
      FoundHeadersKeep(os, i, n - 1);
    }
  }

  /** The recommended title is always a clean file name of at most the
      default length. */
  lemma TitleIsClean(markdown: string, strip: string -> string)
    ensures Clean(RecommendTitle(markdown, strip))
    ensures |RecommendTitle(markdown, strip)| <= DefaultMaxLength
  {
    if markdown != "" {
      var lines := Split(markdown, '\n');
      var hs := HeadersUpTo(lines, |lines|);
      if |hs| > 0 {
        SanitizeIsClean(hs[BestHeader(hs)].content, DefaultMaxLength);
        SanitizeLength(hs[BestHeader(hs)].content, DefaultMaxLength);
      } else {
        SanitizeIsClean(FirstLineOfLines(lines, strip), DefaultMaxLength);
        SanitizeLength(FirstLineOfLines(lines, strip), DefaultMaxLength);
      }
    }
  }

  // ---------------------------------------------------------------------
  // hasSameKeys
  // ---------------------------------------------------------------------

  /** The default order of `Array.prototype.sort` on strings: character by
      character, a proper prefix first. */
  predicate KeyLe(a: string, b: string) {
    |a| == 0 || (|b| > 0 && (a[0] < b[0] || (a[0] == b[0] && KeyLe(a[1..], b[1..]))))
  }

  lemma {:induction false} KeyLeReflexive(a: string)
    ensures KeyLe(a, a)
  {
    if |a| > 0 {
      KeyLeReflexive(a[1..]);
    }
  }

  lemma {:induction false} KeyLeTotal(a: string, b: string)
    ensures KeyLe(a, b) || KeyLe(b, a)
  {
    if |a| > 0 && |b| > 0 && a[0] == b[0] {
      KeyLeTotal(a[1..], b[1..]);
    }
  }

  lemma {:induction false} KeyLeAntisymmetric(a: string, b: string)
    requires KeyLe(a, b) && KeyLe(b, a)
    ensures a == b
  {
    if |a| > 0 && |b| > 0 {
      KeyLeAntisymmetric(a[1..], b[1..]);
      assert a == [a[0]] + a[1..] && b == [b[0]] + b[1..];
    }
  }

  lemma {:induction false} KeyLeTransitive(a: string, b: string, c: string)
    requires KeyLe(a, b) && KeyLe(b, c)
    ensures KeyLe(a, c)
  {
    if |a| > 0 && a[0] == b[0] && b[0] == c[0] {
      KeyLeTransitive(a[1..], b[1..], c[1..]);
    }
  }

  predicate SortedKeys(s: seq<string>) {
    forall i, j :: 0 <= i < j < |s| ==> KeyLe(s[i], s[j])
  }

  /** `x` put before the first element of `s` it does not follow. */
  function InsertKey(x: string, s: seq<string>): (r: seq<string>)
    ensures multiset(r) == multiset(s) + multiset{x}
  {
    if |s| == 0 then [x]
    else if KeyLe(x, s[0]) then [x] + s
    else
      assert s == [s[0]] + s[1..];
      [s[0]] + InsertKey(x, s[1..])
  }

  /** `keys.sort()`. */
  function SortKeys(s: seq<string>): (r: seq<string>)
    ensures multiset(r) == multiset(s)
  {
    if |s| == 0 then []
    else
      assert s == [s[0]] + s[1..];
      InsertKey(s[0], SortKeys(s[1..]))
  }

  lemma {:induction false} InsertKeySorted(x: string, s: seq<string>)
    requires SortedKeys(s)
    ensures SortedKeys(InsertKey(x, s))
  {
    if |s| > 0 && !KeyLe(x, s[0]) {
      InsertKeySorted(x, s[1..]);
      KeyLeTotal(x, s[0]);
      var r := InsertKey(x, s);
      forall j | 0 < j < |r| ensures KeyLe(s[0], r[j]) {
        var y := r[j];
        assert y in multiset(InsertKey(x, s[1..]));
        if y != x {
          assert y in multiset(s[1..]);
          var k :| 0 <= k < |s[1..]| && s[1..][k] == y;
          assert s[k + 1] == y;
        }
      }
    } else if |s| > 0 {
      var r := InsertKey(x, s);
      forall i, j | 0 <= i < j < |r| ensures KeyLe(r[i], r[j]) {
        if i == 0 {
          if j == 1 {
            KeyLeReflexive(s[0]);
          }
          KeyLeTransitive(x, s[0], s[j - 1]);
        }
      }
    }
  }

  /** The keys in order: `sort` returns a sorted permutation. */
  lemma {:induction false} SortKeysSorted(s: seq<string>)
    ensures SortedKeys(SortKeys(s))
  {
    if |s| > 0 {
      SortKeysSorted(s[1..]);
      InsertKeySorted(s[0], SortKeys(s[1..]));
    }
  }

  /** The first key of a sorted sequence comes before every key in it. */
  lemma FirstIsLeast(a: seq<string>, y: string)
    requires SortedKeys(a) && y in multiset(a)
    ensures KeyLe(a[0], y)
  {
    var i :| 0 <= i < |a| && a[i] == y;
    if i == 0 {
      KeyLeReflexive(y);
    }
  }

  lemma MultisetTails(a: seq<string>, b: seq<string>)
    requires |a| > 0 && |b| > 0 && a[0] == b[0] && multiset(a) == multiset(b)
    ensures multiset(a[1..]) == multiset(b[1..])
  {
    assert a == [a[0]] + a[1..] && b == [b[0]] + b[1..];
    assert multiset(a) == multiset{a[0]} + multiset(a[1..]);
    assert multiset(b) == multiset{b[0]} + multiset(b[1..]);
    assert multiset(a[1..]) == multiset(a) - multiset{a[0]};
    assert multiset(b[1..]) == multiset(b) - multiset{b[0]};
  }

  lemma SortedTail(a: seq<string>)
    requires |a| > 0 && SortedKeys(a)
    ensures SortedKeys(a[1..])
  {
    forall i, j | 0 <= i < j < |a| - 1 ensures KeyLe(a[1..][i], a[1..][j]) {
      assert a[1..][i] == a[i + 1] && a[1..][j] == a[j + 1];
    }
  }

  /** Two sorted sequences holding the same keys are the same sequence. */
  lemma {:induction false} SortedUnique(a: seq<string>, b: seq<string>)
    requires SortedKeys(a) && SortedKeys(b) && multiset(a) == multiset(b)
    ensures a == b
  {
    assert |a| == |multiset(a)| == |multiset(b)| == |b|;
    if |a| > 0 {
      assert a[0] in multiset(b) && b[0] in multiset(a);
      FirstIsLeast(b, a[0]);
      FirstIsLeast(a, b[0]);
      KeyLeAntisymmetric(a[0], b[0]);
      MultisetTails(a, b);
      SortedTail(a);
      SortedTail(b);
      SortedUnique(a[1..], b[1..]);
      assert a == [a[0]] + a[1..] && b == [b[0]] + b[1..];
    }
  }

  /** `hasSameKeys(a, b)`, on the two objects' key lists: the sorted
      lists are compared through their JSON text, which for two arrays of
      strings is the same text exactly when they are the same array. */
  function HasSameKeys(aKeys: seq<string>, bKeys: seq<string>): bool {
    SortKeys(aKeys) == SortKeys(bKeys)
  }

  /** The key lists agree exactly when they hold the same keys as many
      times each, whatever their order. */
  lemma HasSameKeysMultiset(aKeys: seq<string>, bKeys: seq<string>)
    ensures HasSameKeys(aKeys, bKeys) <==> multiset(aKeys) == multiset(bKeys)
  {
    if multiset(aKeys) == multiset(bKeys) {
      SortKeysSorted(aKeys);
      SortKeysSorted(bKeys);
      SortedUnique(SortKeys(aKeys), SortKeys(bKeys));
    }
  }

  predicate NoDuplicates(s: seq<string>) {
    forall i, j :: 0 <= i < j < |s| ==> s[i] != s[j]
  }

  lemma {:induction false} DistinctMultiset(s: seq<string>, x: string)
    requires NoDuplicates(s)
    ensures multiset(s)[x] == if x in s then 1 else 0
  {
    if |s| > 0 {
      assert s == [s[0]] + s[1..];
      assert NoDuplicates(s[1..]) by {
        forall i, j | 0 <= i < j < |s[1..]| ensures s[1..][i] != s[1..][j] {
          assert s[1..][i] == s[i + 1] && s[1..][j] == s[j + 1];
        }
      }
      DistinctMultiset(s[1..], x);
      if x == s[0] {
        assert x !in s[1..] by {
          forall k | 0 <= k < |s[1..]| ensures s[1..][k] != x {
            assert s[1..][k] == s[k + 1];
          }
        }
      }
    }
  }

  /** Object keys are distinct, so the objects have the same keys exactly
      when their key sets are equal. */
  lemma HasSameKeysSets(aKeys: seq<string>, bKeys: seq<string>)
    requires NoDuplicates(aKeys) && NoDuplicates(bKeys)
    ensures HasSameKeys(aKeys, bKeys) <==> (set k | k in aKeys) == (set k | k in bKeys)
  {
    HasSameKeysMultiset(aKeys, bKeys);
    var A, B := set k | k in aKeys, set k | k in bKeys;
    if A == B {
      forall x ensures multiset(aKeys)[x] == multiset(bKeys)[x] {
        DistinctMultiset(aKeys, x);
        DistinctMultiset(bKeys, x);
        assert (x in aKeys) == (x in A) == (x in B) == (x in bKeys);
      }
      assert multiset(aKeys) == multiset(bKeys);
    }
    if multiset(aKeys) == multiset(bKeys) {
      forall x ensures x in A <==> x in B {
        assert x in aKeys <==> x in multiset(aKeys);
        assert x in bKeys <==> x in multiset(bKeys);
      }
      assert A == B;
    }
  }

  // ---------------------------------------------------------------------
  // getLogLevel
  // ---------------------------------------------------------------------

  /** The JavaScript values `global.MARKTEXT_DEBUG_VERBOSE` can hold, as far
      as `getLogLevel` tells them apart. Finite numbers are exact reals. */
  datatype JsValue =
    | Undefined
    | Null
    | Bool(b: bool)
    | Str(s: string)
    | Num(x: real)
    | NaN
    | Infinity(positive: bool)
    | Object

  /** `!v`. */
  predicate Falsy(v: JsValue) {
    v == Undefined || v == Null || v == Bool(false) || v == Str("") || v == Num(0.0) || v == NaN
  }

  /** `typeof v === 'number'`. */
  predicate IsNumber(v: JsValue) {
    v.Num? || v.NaN? || v.Infinity?
  }

  /** `v <= 0` on a number. */
  predicate AtMostZero(v: JsValue)
    requires IsNumber(v)
  {
    match v
    case Num(x) => x <= 0.0
    case NaN => false
    case Infinity(positive) => !positive
  }

  /** `getLogLevel()`, with the debug setting and `process.env.NODE_ENV`
      given as parameters. */
  function LogLevel(verbose: JsValue, nodeEnv: Option<string>): string {
    if Falsy(verbose) || !IsNumber(verbose) || AtMostZero(verbose) then
      if nodeEnv == Some("development") then "debug" else "info"
    else if verbose == Num(1.0) then "verbose"
    else if verbose == Num(2.0) then "debug"
    else "silly"
  }

  /** A number above zero. */
  predicate PositiveNumber(v: JsValue) {
    (v.Num? && v.x > 0.0) || v == Infinity(true)
  }

  /** The levels by case: the environment decides unless the setting is a
      number above zero; then one is verbose, two is debug, and any other
      such number, fractions and infinity included, is silly. */
  lemma LogLevelCases(verbose: JsValue, nodeEnv: Option<string>)
    ensures !PositiveNumber(verbose) ==>
      LogLevel(verbose, nodeEnv) == (if nodeEnv == Some("development") then "debug" else "info")
    ensures verbose == Num(1.0) ==> LogLevel(verbose, nodeEnv) == "verbose"
    ensures verbose == Num(2.0) ==> LogLevel(verbose, nodeEnv) == "debug"
    ensures PositiveNumber(verbose) && verbose != Num(1.0) && verbose != Num(2.0) ==>
      LogLevel(verbose, nodeEnv) == "silly"
  {
  }

  /** The level is always one of the four names. */
  lemma LogLevelRange(verbose: JsValue, nodeEnv: Option<string>)
    ensures LogLevel(verbose, nodeEnv) in {"info", "debug", "verbose", "silly"}
  {
  }
}
