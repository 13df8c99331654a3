/**
 * The wrap-selection controller as functions: the table of delimiter
 * pairs, the eligibility test, the single-block text surgery that puts an
 * opening and a closing delimiter around the selection, and the keyboard
 * gate in front of it. The editor object that owns the text and the cursor
 * (`Muya.ContentState`) calls these and is proved against them.
 */
module WrapSelectionCtrl {
  import opened Wrappers
  import opened ContentModel

  // ---------------------------------------------------------------------
  // WRAP_PAIRS and the character classes
  // ---------------------------------------------------------------------

  /** Opening delimiter to closing delimiter. The source's table is keyed by
      one-character strings; here by the character itself, and `CloseOf`
      does the lookup of a whole `event.key`. */
  const WrapPairs: map<char, char> := map[
    '"' := '"', '\'' := '\'', '`' := '`',
    '(' := ')', '[' := ']', '{' := '}', '<' := '>',
    '*' := '*', '_' := '_', '~' := '~', '$' := '$']

  /** `WRAP_PAIRS[key]`: the closer for a key that is one of the openers. */
  function CloseOf(key: string): (r: Option<char>)
    ensures r.Some? <==> |key| == 1 && key[0] in WrapPairs
    ensures r.Some? ==> r.value == WrapPairs[key[0]]
  {
    if |key| == 1 && key[0] in WrapPairs then Some(WrapPairs[key[0]]) else None
  }

  predicate IsBracketChar(c: char) { c == '(' || c == '[' || c == '{' || c == '<' }
  predicate IsQuoteChar(c: char) { c == '"' || c == '\'' || c == '`' }
  predicate IsMarkdownChar(c: char) { c == '*' || c == '_' || c == '~' || c == '$' }

  /** The keys `handleWrapSelectionKeydown` files under `autoPairBracket`. */
  predicate IsBracket(key: string) { |key| == 1 && IsBracketChar(key[0]) }

  /** The keys filed under `autoPairQuote`. */
  predicate IsQuote(key: string) { |key| == 1 && IsQuoteChar(key[0]) }

  /** The keys filed under `autoPairMarkdownSyntax`; also the ones refused
      inside code. */
  predicate IsMarkdownSyntax(key: string) { |key| == 1 && IsMarkdownChar(key[0]) }

  /** The table has exactly the eleven openers of the three classes; quotes
      and markdown delimiters close themselves, brackets close with their
      mirror image. */
  lemma WrapPairsExact(c: char)
    ensures c in WrapPairs <==> IsBracketChar(c) || IsQuoteChar(c) || IsMarkdownChar(c)
    ensures c in WrapPairs && !IsBracketChar(c) ==> WrapPairs[c] == c
    ensures c in WrapPairs && IsBracketChar(c) ==> WrapPairs[c] != c
  {
  }

  /** A key has a closer exactly when it is in one of the three classes. */
  lemma CloseOfClasses(key: string)
    ensures CloseOf(key).Some? <==> IsBracket(key) || IsQuote(key) || IsMarkdownSyntax(key)
  {
    if |key| == 1 {
      WrapPairsExact(key[0]);
    }
  }

  /** The three classes do not overlap. */
  lemma ClassesDisjoint(key: string)
    ensures !(IsBracket(key) && IsQuote(key))
    ensures !(IsBracket(key) && IsMarkdownSyntax(key))
    ensures !(IsQuote(key) && IsMarkdownSyntax(key))
  {
  }

  // ---------------------------------------------------------------------
  // shouldWrapSelection
  // ---------------------------------------------------------------------

  /** A selection that is more than a caret: its ends differ in block or offset. */
  predicate HasSelection(start: Position, end: Position) {
    start.key != end.key || start.offset != end.offset
  }

  /** `shouldWrapSelection(char)`. */
  function ShouldWrapSelection(s: Store, cursor: Cursor, key: string): (r: bool)
    ensures r ==> CloseOf(key).Some? && cursor.start.Some? && cursor.end.Some?
    ensures r ==> HasSelection(cursor.start.value, cursor.end.value)
  {
    if CloseOf(key).None? then false
    else if cursor.start.None? || cursor.end.None? then false
    else
      var start, end := cursor.start.value, cursor.end.value;
      if !HasSelection(start, end) then false
      else
        var startBlock := GetBlock(s, Some(start.key));
        if startBlock.Some? && startBlock.value.functionType == "codeContent" && IsMarkdownSyntax(key) then false
        else true
  }

  /** Whether the start block is a line of code. */
  predicate InCode(s: Store, start: Position) {
    start.key in s && s[start.key].functionType == "codeContent"
  }

  /** The full decision: an opener, both ends, a real selection, and no
      markdown delimiter inside code. Cross-block selections pass. */
  lemma ShouldWrapSelectionExact(s: Store, cursor: Cursor, key: string)
    ensures ShouldWrapSelection(s, cursor, key) <==>
      && CloseOf(key).Some?
      && cursor.start.Some? && cursor.end.Some?
      && HasSelection(cursor.start.value, cursor.end.value)
      && !(InCode(s, cursor.start.value) && IsMarkdownSyntax(key))
  {
  }

  /** Inside code, quotes and brackets are still wrapped. */
  lemma CodeAllowsQuotesAndBrackets(s: Store, cursor: Cursor, key: string)
    requires cursor.start.Some? && cursor.end.Some? && HasSelection(cursor.start.value, cursor.end.value)
    requires IsQuote(key) || IsBracket(key)
    ensures ShouldWrapSelection(s, cursor, key)
  {
    CloseOfClasses(key);
  }

  // ---------------------------------------------------------------------
  // wrapSelection: the text surgery
  // ---------------------------------------------------------------------

  function Min(a: nat, b: nat): nat { if a <= b then a else b }
  function Max(a: nat, b: nat): nat { if a <= b then b else a }

  /** `String.prototype.substring` for non-negative offsets: both are clamped
      to the length, then put in order. */
  function Substring(t: string, a: nat, b: nat): (r: string)
    ensures a <= b <= |t| ==> r == t[a..b]
    ensures b <= a <= |t| ==> r == t[b..a]
    ensures a <= |t| < b ==> r == t[a..]
    ensures b <= |t| < a ==> r == t[b..]
    ensures |t| < a && |t| < b ==> r == []
    ensures |r| <= |t|
  {
    var a', b' := Min(a, |t|), Min(b, |t|);
    if a' <= b' then t[a'..b'] else t[b'..a']
  }

  /** The new text: the selection `[s, e)` between `open` and `close`. */
  function WrappedText(t: string, s: nat, e: nat, open: string, close: string): string {
    Substring(t, 0, s) + open + Substring(t, s, e) + close + Substring(t, e, |t|)
  }

  /** The text with the character at `i` removed. */
  function RemoveAt(t: string, i: nat): (r: string)
    requires i < |t|
    ensures |r| == |t| - 1
    ensures forall j :: 0 <= j < i ==> r[j] == t[j]
    ensures forall j :: i <= j < |r| ==> r[j] == t[j + 1]
  {
    t[..i] + t[i + 1..]
  }

  /** Five pieces around two one-character delimiters: where the delimiters
      sit, and that removing them joins the other three. */
  lemma {:induction false} DelimitedPieces(x: string, o: string, y: string, c: string, z: string)
    requires |o| == 1 && |c| == 1
    ensures var w := x + o + y + c + z;
      && |w| == |x| + |y| + |z| + 2
      && w[|x|] == o[0] && w[|x| + |y| + 1] == c[0]
      && RemoveAt(RemoveAt(w, |x| + |y| + 1), |x|) == x + y + z
  {
    var w := x + o + y + c + z;
    var w1 := RemoveAt(w, |x| + |y| + 1);
    assert w1 == x + o + y + z by {
      assert |w1| == |x + o + y + z|;
      forall j | 0 <= j < |w1| ensures w1[j] == (x + o + y + z)[j] {}
    }
    var w2 := RemoveAt(w1, |x|);
    assert w2 == x + y + z by {
      assert |w2| == |x + y + z|;
      forall j | 0 <= j < |w2| ensures w2[j] == (x + y + z)[j] {}
    }
  }

  /** Within range, the wrapped text is the three slices of the original
      with the delimiters between them. */
  lemma WrappedTextSlices(t: string, s: nat, e: nat, open: string, close: string)
    requires s <= e <= |t|
    ensures WrappedText(t, s, e, open, close) == t[..s] + open + t[s..e] + close + t[e..]
    ensures t[..s] + t[s..e] + t[e..] == t
  {
    assert t[..s] + t[s..e] + t[e..] == t by {
      assert t[..s] + t[s..e] == t[..e];
    }
  }

  /** Within range, wrapping with one-character delimiters adds exactly two
      characters, puts them at `s` and `e + 1`, and removing the two
      delimiters gives back the original text. */
  lemma WrappedTextShape(t: string, s: nat, e: nat, open: string, close: string)
    requires s <= e <= |t| && |open| == 1 && |close| == 1
    ensures var w := WrappedText(t, s, e, open, close);
      && |w| == |t| + 2
      && w[s] == open[0] && w[e + 1] == close[0]
      && RemoveAt(RemoveAt(w, e + 1), s) == t
  {
    var x, y, z := t[..s], t[s..e], t[e..];
    WrappedTextSlices(t, s, e, open, close);
    DelimitedPieces(x, open, y, close, z);
    assert |x| == s && |x| + |y| + 1 == e + 1;
  }

  /** A caret on block `k` at `offset`. */
  function Caret(k: Key, offset: nat): Cursor {
    Cursor(Some(Position(k, offset)), Some(Position(k, offset)))
  }

  /** `wrapSelection(openChar)` on the block table and cursor: the new table,
      the new cursor and the result. */
  function WrapSelection(s: Store, cursor: Cursor, open: string): (r: (Store, Cursor, bool))
    ensures !r.2 ==> r.0 == s && r.1 == cursor
    ensures r.2 <==>
      && CloseOf(open).Some? && cursor.start.Some? && cursor.end.Some?
      && cursor.start.value.key == cursor.end.value.key && cursor.start.value.key in s
    ensures r.2 ==> r.0.Keys == s.Keys
  {
    var closeChar := CloseOf(open);
    if closeChar.None? then (s, cursor, false)
    else
      var close := [closeChar.value];
      if cursor.start.None? || cursor.end.None? then (s, cursor, false)
      else
        var start, end := cursor.start.value, cursor.end.value;
        if start.key != end.key then (s, cursor, false)
        else
          var so := if start.offset > end.offset then end.offset else start.offset;
          var eo := if start.offset > end.offset then start.offset else end.offset;
          var block := GetBlock(s, Some(start.key));
          if block.None? then (s, cursor, false)
          else
            var text := block.value.text;
            var newText := WrappedText(text, so, eo, open, close);
            var newOffset := eo + |open| + |close|;
            (s[start.key := block.value.(text := newText)], Caret(start.key, newOffset), true)
  }

  /** For a single-block selection: the block's text becomes the wrapped text
      of the ordered offsets, every other block and every other field is
      untouched, and the cursor is a caret two characters after the
      selection's end. */
  lemma WrapSelectionEffect(s: Store, cursor: Cursor, open: string)
    requires CloseOf(open).Some? && cursor.start.Some? && cursor.end.Some?
    requires cursor.start.value.key == cursor.end.value.key && cursor.start.value.key in s
    ensures var k := cursor.start.value.key;
      var a, b := cursor.start.value.offset, cursor.end.value.offset;
      var r := WrapSelection(s, cursor, open);
      && r.2
      && r.0 == s[k := s[k].(text := WrappedText(s[k].text, Min(a, b), Max(a, b), open, [CloseOf(open).value]))]
      && r.1 == Caret(k, Max(a, b) + 2)
      && (forall q :: q in s && q != k ==> r.0[q] == s[q])
  {
  }

  /** The direction of the selection does not matter to the text, and on
      success not to the cursor either. */
  lemma WrapSelectionDirection(s: Store, k: Key, a: nat, b: nat, open: string)
    ensures var r1 := WrapSelection(s, Cursor(Some(Position(k, a)), Some(Position(k, b))), open);
      var r2 := WrapSelection(s, Cursor(Some(Position(k, b)), Some(Position(k, a))), open);
      r1.0 == r2.0 && r1.2 == r2.2 && (r1.2 ==> r1.1 == r2.1)
  {
  }

  /** Undoing the surgery: with in-range offsets, the text grows by two, the
      opener and closer sit at the ordered start and one past the ordered
      end, and removing them restores the block's text. */
  lemma WrapSelectionUndo(s: Store, cursor: Cursor, open: string)
    requires CloseOf(open).Some? && cursor.start.Some? && cursor.end.Some?
    requires cursor.start.value.key == cursor.end.value.key && cursor.start.value.key in s
    requires cursor.start.value.offset <= |s[cursor.start.value.key].text|
    requires cursor.end.value.offset <= |s[cursor.start.value.key].text|
    ensures var k := cursor.start.value.key;
      var lo, hi := Min(cursor.start.value.offset, cursor.end.value.offset), Max(cursor.start.value.offset, cursor.end.value.offset);
      var t' := WrapSelection(s, cursor, open).0[k].text;
      && |t'| == |s[k].text| + 2
      && t'[lo] == open[0] && t'[hi + 1] == CloseOf(open).value
      && RemoveAt(RemoveAt(t', hi + 1), lo) == s[k].text
  {
    var k := cursor.start.value.key;
    var lo, hi := Min(cursor.start.value.offset, cursor.end.value.offset), Max(cursor.start.value.offset, cursor.end.value.offset);
    WrapSelectionEffect(s, cursor, open);
    WrappedTextShape(s[k].text, lo, hi, open, [CloseOf(open).value]);
  }

  // ---------------------------------------------------------------------
  // handleWrapSelectionKeydown
  // ---------------------------------------------------------------------

  /** The editor options the gate reads; `None` is an option that is not set. */
  datatype MuyaOptions = MuyaOptions(
    surroundSelection: Option<bool>,
    autoPairBracket: Option<bool>,
    autoPairMarkdownSyntax: Option<bool>,
    autoPairQuote: Option<bool>)

  /** JavaScript truthiness of an optional boolean. */
  predicate Truthy(o: Option<bool>) {
    o == Some(true)
  }

  /** Whether the keydown handler goes on to `preventDefault` and
      `wrapSelection`. */
  function WrapKeyGate(ev: KeyEvent, opts: MuyaOptions, s: Store, cursor: Cursor): (r: bool)
    ensures r ==> !ev.ctrlKey && !ev.metaKey && !ev.altKey
    ensures r ==> opts.surroundSelection != Some(false)
    ensures r ==> ShouldWrapSelection(s, cursor, ev.key)
  {
    if ev.ctrlKey || ev.metaKey || ev.altKey then false
    else if opts.surroundSelection == Some(false) then false
    else if !ShouldWrapSelection(s, cursor, ev.key) then false
    else if IsBracket(ev.key) && !Truthy(opts.autoPairBracket) then false
    else if IsQuote(ev.key) && !Truthy(opts.autoPairQuote) then false
    else if IsMarkdownSyntax(ev.key) && !Truthy(opts.autoPairMarkdownSyntax) then false
    else true
  }

  /** The option that governs a key's class (brackets, quotes, markdown). */
  function ClassToggle(opts: MuyaOptions, key: string): Option<bool> {
    if IsBracket(key) then opts.autoPairBracket
    else if IsQuote(key) then opts.autoPairQuote
    else opts.autoPairMarkdownSyntax
  }

  /** The gate passes exactly when no modifier is held, surrounding is not
      switched off, the selection qualifies, and the key's own class is
      switched on. A missing `surroundSelection` counts as on; a missing
      class toggle counts as off. */
  lemma WrapKeyGateExact(ev: KeyEvent, opts: MuyaOptions, s: Store, cursor: Cursor)
    ensures WrapKeyGate(ev, opts, s, cursor) <==>
      && !ev.ctrlKey && !ev.metaKey && !ev.altKey
      && opts.surroundSelection != Some(false)
      && ShouldWrapSelection(s, cursor, ev.key)
      && Truthy(ClassToggle(opts, ev.key))
  {
    CloseOfClasses(ev.key);
    ClassesDisjoint(ev.key);
  }

  /** `handleWrapSelectionKeydown(event)`: the new table, cursor and event,
      and the result. */
  function HandleWrapKeydown(ev: KeyEvent, opts: MuyaOptions, s: Store, cursor: Cursor): (r: (Store, Cursor, KeyEvent, bool))
    ensures r.3 ==> r.2.defaultPrevented
    ensures !WrapKeyGate(ev, opts, s, cursor) ==> r == (s, cursor, ev, false)
    ensures WrapKeyGate(ev, opts, s, cursor) ==> r.2 == ev.(defaultPrevented := true)
    ensures WrapKeyGate(ev, opts, s, cursor) ==> (r.0, r.1, r.3) == WrapSelection(s, cursor, ev.key)
  {
    if !WrapKeyGate(ev, opts, s, cursor) then (s, cursor, ev, false)
    else
      var w := WrapSelection(s, cursor, ev.key);
      (w.0, w.1, ev.(defaultPrevented := true), w.2)
  }

  /** A selection across two blocks passes the gate, so the key's default
      action is suppressed, yet nothing is wrapped and the result is false. */
  lemma CrossBlockSwallowed(ev: KeyEvent, opts: MuyaOptions, s: Store, cursor: Cursor)
    requires WrapKeyGate(ev, opts, s, cursor)
    requires cursor.start.value.key != cursor.end.value.key
    ensures var r := HandleWrapKeydown(ev, opts, s, cursor);
      && r.2.defaultPrevented && !r.3 && r.0 == s && r.1 == cursor
  {
  }

  /** When the handler reports success, the selection was on one block, the
      key was an opener, and the caret went two characters past the end. */
  lemma HandledMeansWrapped(ev: KeyEvent, opts: MuyaOptions, s: Store, cursor: Cursor)
    requires HandleWrapKeydown(ev, opts, s, cursor).3
    ensures CloseOf(ev.key).Some? && cursor.start.Some? && cursor.end.Some?
    ensures cursor.start.value.key == cursor.end.value.key && cursor.start.value.key in s
    ensures HandleWrapKeydown(ev, opts, s, cursor).1 ==
      Caret(cursor.start.value.key, Max(cursor.start.value.offset, cursor.end.value.offset) + 2)
  {
    WrapSelectionEffect(s, cursor, ev.key);
  }
}
