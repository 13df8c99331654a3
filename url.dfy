/**
 * `generateGithubSlug` (src/muya/lib/utils/url.js): trim, lower-case, drop
 * everything but word characters, whitespace and hyphens, turn each run of
 * whitespace into one hyphen, and collapse runs of hyphens.
 */
module Url {
  import opened JsString

  predicate IsAsciiUpper(c: char) { 'A' <= c <= 'Z' }
  predicate IsAsciiLower(c: char) { 'a' <= c <= 'z' }
  predicate IsDigit(c: char) { '0' <= c <= '9' }

  /** The regex class `\w`. */
  predicate IsWord(c: char) { IsAsciiUpper(c) || IsAsciiLower(c) || IsDigit(c) || c == '_' }

  predicate IsHyphen(c: char) { c == '-' }

  /** The characters a slug is made of: `[a-z0-9_-]`. */
  predicate IsSlugChar(c: char) { IsAsciiLower(c) || IsDigit(c) || c == '_' || c == '-' }

  function LowerChar(c: char): (r: char)
    ensures !IsAsciiUpper(r)
    ensures !IsAsciiUpper(c) ==> r == c
  {
    if IsAsciiUpper(c) then (c as int + 32) as char else c
  }

  /** `toLowerCase`, on the ASCII letters. */
  function ToLower(s: string): (r: string)
    ensures |r| == |s|
    ensures forall i :: 0 <= i < |s| ==> r[i] == LowerChar(s[i])
  {
    seq(|s|, i requires 0 <= i < |s| => LowerChar(s[i]))
  }

  /** Kept by `.replace(/[^\w\s-]/g, '')`. */
  predicate Kept(c: char) { IsWord(c) || IsSpace(c) || c == '-' }

  /** `.replace(/[^\w\s-]/g, '')`: drop every other character. */
  function StripOthers(s: string): (r: string)
  {
    if |s| == 0 then []
    else if Kept(s[0]) then [s[0]] + StripOthers(s[1..])
    else StripOthers(s[1..])
  }

  /** What is left is kept, and comes from the text. */
  lemma {:induction false} StripOthersChars(s: string)
    ensures forall i :: 0 <= i < |StripOthers(s)| ==> Kept(StripOthers(s)[i]) && StripOthers(s)[i] in s
  {
    if |s| > 0 {
      StripOthersChars(s[1..]);
      var r := StripOthers(s);
      forall i | 0 <= i < |r| ensures Kept(r[i]) && r[i] in s {
        if Kept(s[0]) && i > 0 {
          assert r[i] == StripOthers(s[1..])[i - 1];
        }
      }
    }
  }

  /** A text of kept characters is left as it is. */
  lemma {:induction false} StripOthersNone(s: string)
    requires forall i :: 0 <= i < |s| ==> Kept(s[i])
    ensures StripOthers(s) == s
  {
    if |s| > 0 {
      StripOthersNone(s[1..]);
      assert s == [s[0]] + s[1..];
    }
  }

  /** `generateGithubSlug(text)`. */
  function GenerateGithubSlug(text: string): string {
    var lowered := ToLower(Trim(text));
    var stripped := StripOthers(lowered);
    var spaced := ReplaceRuns(stripped, IsSpace, '-');
    ReplaceRuns(spaced, IsHyphen, '-')
  }

  /** The ASCII letters, digits, `_` and `-` are all a slug keeps; after
      lower-casing no capital is left, and no whitespace. */
  lemma SlugAlphabet(text: string)
    ensures forall i :: 0 <= i < |GenerateGithubSlug(text)| ==> IsSlugChar(GenerateGithubSlug(text)[i])
  {
    var lowered := ToLower(Trim(text));
    var stripped := StripOthers(lowered);
    var spaced := ReplaceRuns(stripped, IsSpace, '-');
    var slug := ReplaceRuns(spaced, IsHyphen, '-');
    StripOthersChars(lowered);
    assert forall c :: c in stripped ==> Kept(c) && !IsAsciiUpper(c) by {
      forall c | c in stripped ensures Kept(c) && !IsAsciiUpper(c) {
        var j :| 0 <= j < |lowered| && lowered[j] == c;
      }
    }
    ReplaceRunsChars(stripped, IsSpace, '-');
    assert forall c :: c in spaced ==> IsSlugChar(c) by {
      forall c | c in spaced ensures IsSlugChar(c) {
        var j :| 0 <= j < |spaced| && spaced[j] == c;
      }
    }
    ReplaceRunsChars(spaced, IsHyphen, '-');
    forall i | 0 <= i < |slug| ensures IsSlugChar(slug[i]) {
      var c := slug[i];
      if c != '-' {
        var j :| 0 <= j < |spaced| && spaced[j] == c;
      }
    }
  }

  /** A slug has no whitespace. */
  lemma SlugNoSpace(text: string)
    ensures NoSpace(GenerateGithubSlug(text))
  {
    SlugAlphabet(text);
    var slug := GenerateGithubSlug(text);
    forall i | 0 <= i < |slug| ensures !IsSpace(slug[i]) {
      assert IsSlugChar(slug[i]);
    }
  }

  /** A slug never has two hyphens in a row. */
  lemma SlugNoDoubleHyphen(text: string)
    ensures NoAdjacent(GenerateGithubSlug(text), IsHyphen)
  {
    var spaced := ReplaceRuns(StripOthers(ToLower(Trim(text))), IsSpace, '-');
    ReplaceRunsNoAdjacent(spaced, IsHyphen, '-');
  }

  /** Whitespace around the heading never changes its slug. */
  lemma SlugIgnoresPadding(w1: string, text: string, w2: string)
    requires AllSpace(w1) && AllSpace(w2)
    ensures GenerateGithubSlug(w1 + text + w2) == GenerateGithubSlug(text)
  {
    TrimPadding(w1, text, w2);
  }

  /** A text of slug characters with no two hyphens in a row is its own slug. */
  lemma SlugOfSlugShaped(y: string)
    requires forall i :: 0 <= i < |y| ==> IsSlugChar(y[i])
    requires NoAdjacent(y, IsHyphen)
    ensures GenerateGithubSlug(y) == y
  {
    assert NoSpace(y) by {
      forall i | 0 <= i < |y| ensures !IsSpace(y[i]) {
        assert IsSlugChar(y[i]);
      }
    }
    TrimNoSpace(y);
    assert ToLower(y) == y;
    StripOthersNone(y);
    ReplaceRunsNone(y, IsSpace, '-');
    ReplaceRunsSingles(y, IsHyphen, '-');
  }

  /** A text without whitespace is its own trim. */
  lemma TrimNoSpace(y: string)
    requires NoSpace(y)
    ensures Trim(y) == y
  {
    assert LeadingCount(y, IsSpace) == 0;
    assert TrailingCount(y, IsSpace) == 0;
  }

  /** Slugging is idempotent. */
  lemma SlugIdempotent(text: string)
    ensures GenerateGithubSlug(GenerateGithubSlug(text)) == GenerateGithubSlug(text)
  {
    SlugAlphabet(text);
    SlugNoDoubleHyphen(text);
    SlugOfSlugShaped(GenerateGithubSlug(text));
  }
}
