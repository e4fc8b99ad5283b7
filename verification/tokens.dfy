/**
 * The widget's stand-in for a tokenizer (script.js, `getTokenCount`): the
 * number of pieces `text.trim().split(/\s+/)` yields. The lemmas show that
 * this is the number of whitespace-separated words, except that a text with
 * no word still counts as one.
 */
module Tokens {
  import opened Text

  /**
   * `s.split(/\s+/)`: the pieces between maximal runs of whitespace. A leading
   * or a trailing run leaves an empty piece at that end.
   */
  function SplitOnSpaceRuns(s: string): (r: seq<string>)
    ensures |r| >= 1
    decreases |s|
  {
    if |s| == 0 then [[]]
    else if IsSpace(s[0]) then [[]] + SplitOnSpaceRuns(s[SkipSpaces(s, 0)..])
    else
      var rest := SplitOnSpaceRuns(s[1..]);
      [[s[0]] + rest[0]] + rest[1..]
  }

  /**
   * Number of words (maximal runs of non-whitespace) of `s`, where `inWord`
   * says whether the character before `s` belongs to a word.
   */
  function WordsFrom(s: string, inWord: bool): nat {
    if |s| == 0 then 0
    else if IsSpace(s[0]) then WordsFrom(s[1..], false)
    else (if inWord then 0 else 1) + WordsFrom(s[1..], true)
  }

  /** Number of whitespace-separated words of `s`. */
  function WordCount(s: string): nat {
    WordsFrom(s, false)
  }

  /** `getTokenCount(text)` (script.js:96-99). */
  function TokenCount(text: string): (n: nat)
    ensures n >= 1
  {
    |SplitOnSpaceRuns(Trim(text))|
  }

  /** Leading whitespace separates no words. */
  lemma {:induction false} WordsSkipSpaces(s: string, i: nat)
    requires i <= |s|
    ensures WordsFrom(s[i..], false) == WordsFrom(s[SkipSpaces(s, i)..], false)
    decreases |s| - i
  {
    if i < |s| && IsSpace(s[i]) {
      WordsSkipSpaces(s, i + 1);
      assert s[i..][1..] == s[i + 1..];
    }
  }

  /** A whitespace character appended at the end starts no word. */
  lemma {:induction false} WordsAppendSpace(s: string, c: char, inWord: bool)
    requires IsSpace(c)
    ensures WordsFrom(s + [c], inWord) == WordsFrom(s, inWord)
    decreases |s|
  {
    if |s| == 0 {
      assert [c][1..] == [];
    } else {
      assert (s + [c])[1..] == s[1..] + [c];
      WordsAppendSpace(s[1..], c, !IsSpace(s[0]));
    }
  }

  /** Trailing whitespace separates no words. */
  lemma {:induction false} WordsDropTrailingSpaces(s: string, k: nat)
    requires k <= |s| && AllSpace(s[k..])
    ensures WordsFrom(s[..k], false) == WordsFrom(s, false)
    decreases |s| - k
  {
    if k < |s| {
      assert s[k + 1..] == s[k..][1..];
      WordsDropTrailingSpaces(s, k + 1);
      assert IsSpace(s[k..][0]);
      WordsAppendSpace(s[..k], s[k], false);
      assert s[..k] + [s[k]] == s[..k + 1];
    } else {
      assert s[..k] == s;
    }
  }

  /**
   * On a text that does not end in whitespace, `split(/\s+/)` yields one
   * piece more than there are words after the first character.
   */
  lemma {:induction false} PiecesCountWords(s: string)
    requires s == [] || !IsSpace(s[|s| - 1])
    ensures |SplitOnSpaceRuns(s)| == 1 + WordsFrom(s, true)
    decreases |s|
  {
    if |s| == 0 {
    } else if IsSpace(s[0]) {
      var j := SkipSpaces(s, 0);
      var t := s[j..];
      assert j < |s|;
      assert t != [] && t[|t| - 1] == s[|s| - 1];
      PiecesCountWords(t);
      WordsSkipSpaces(s, 1);
      assert SkipSpaces(s, 1) == j;
    } else {
      PiecesCountWords(s[1..]);
    }
  }

  /** Trailing whitespace after `text[a..e]` separates no words. */
  lemma TrailingWords(text: string, a: nat, e: nat)
    requires a <= e <= |text| && AllSpace(text[e..])
    ensures WordsFrom(text[a..e], false) == WordsFrom(text[a..], false)
  {
    var u := text[a..];
    assert u[..e - a] == text[a..e];
    assert u[e - a..] == text[e..];
    WordsDropTrailingSpaces(u, e - a);
  }

  /** Trimming removes no word. */
  lemma TrimKeepsWords(text: string)
    ensures WordCount(Trim(text)) == WordCount(text)
  {
    TrimBounds(text);
    var a := SkipSpaces(text, 0);
    var e := SkipSpacesBack(text, a, |text|);
    TrailingWords(text, a, e);
    WordsSkipSpaces(text, 0);
    assert text[0..] == text;
  }

  /** The token count is the word count, or one when there is no word. */
  lemma TokenCountIsWordCount(text: string)
    ensures TokenCount(text) == if WordCount(text) == 0 then 1 else WordCount(text)
  {
    var t := Trim(text);
    TrimKeepsWords(text);
    PiecesCountWords(t);
    if t != [] {
      assert WordsFrom(t, false) == 1 + WordsFrom(t[1..], true);
      assert WordsFrom(t, true) == WordsFrom(t[1..], true);
    }
  }
}
