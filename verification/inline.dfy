/**
 * The delimiter passes of `parseResponse` (markdowns.js:48-50, 60 and
 * script.js:198-200): `s.replace(/D(.*?)D/g, open + '$1' + close)` for the
 * delimiters `**`, `$$`, `$` and `*`. The group is lazy and `.` does not
 * cross a line terminator, so a match closes at the first later delimiter on
 * the same line.
 */
module Inline {
  import opened Wrappers
  import opened Text

  /**
   * Where the lazy `(.*?)d` that starts at `from` stops: the first `j >= from`
   * at which `d` occurs, provided no line terminator comes before it
   * (`CloseAtFirst` and `CloseAtNone` state this).
   */
  function CloseAt(s: string, d: string, from: nat): (r: Option<nat>)
    requires |d| > 0
    ensures r.Some? ==> from <= r.value && r.value + |d| <= |s|
    decreases |s| - from
  {
    if from + |d| > |s| then None
    else if StartsAt(s, from, d) then Some(from)
    else if IsLineTerminator(s[from]) then None
    else CloseAt(s, d, from + 1)
  }

  /** A group that closes closes at the first delimiter, with no line terminator before it. */
  lemma {:induction false} CloseAtFirst(s: string, d: string, from: nat)
    requires |d| > 0 && CloseAt(s, d, from).Some?
    ensures StartsAt(s, CloseAt(s, d, from).value, d)
    ensures forall k :: from <= k < CloseAt(s, d, from).value ==> !StartsAt(s, k, d) && !IsLineTerminator(s[k])
    decreases |s| - from
  {
    if !StartsAt(s, from, d) {
      CloseAtFirst(s, d, from + 1);
    }
  }

  /** A group that does not close meets a line terminator before every later delimiter. */
  lemma {:induction false} CloseAtNone(s: string, d: string, from: nat, j: nat)
    requires |d| > 0 && CloseAt(s, d, from).None? && from <= j && StartsAt(s, j, d)
    ensures exists k :: from <= k < j && IsLineTerminator(s[k])
    decreases |s| - from
  {
    if !IsLineTerminator(s[from]) {
      CloseAtNone(s, d, from + 1, j);
    }
  }

  /**
   * The global replace from `p` on: each leftmost match `d group d` becomes
   * `open + group + close`, and the scan resumes after it.
   */
  function PairFrom(s: string, d: string, open: string, close: string, p: nat): string
    requires |d| > 0 && p <= |s|
    decreases |s| - p
  {
    if p == |s| then []
    else if StartsAt(s, p, d) && CloseAt(s, d, p + |d|).Some? then
      var j := CloseAt(s, d, p + |d|).value;
      open + s[p + |d|..j] + close + PairFrom(s, d, open, close, j + |d|)
    else [s[p]] + PairFrom(s, d, open, close, p + 1)
  }

  /** Where no group opens, a pass copies one character. */
  lemma PairFromCopies(s: string, d: string, open: string, close: string, p: nat)
    requires |d| > 0 && p < |s|
    requires !StartsAt(s, p, d) || CloseAt(s, d, p + |d|).None?
    ensures PairFrom(s, d, open, close, p) == [s[p]] + PairFrom(s, d, open, close, p + 1)
  {
  }

  /** A pass adds no character but those of its two tags. */
  lemma {:induction false} PairFromChars(s: string, d: string, open: string, close: string, p: nat)
    requires |d| > 0 && p <= |s|
    ensures forall c :: c in PairFrom(s, d, open, close, p) ==> c in s || c in open || c in close
    decreases |s| - p
  {
    if p < |s| {
      assert s[p] in s;
      if StartsAt(s, p, d) && CloseAt(s, d, p + |d|).Some? {
        var j := CloseAt(s, d, p + |d|).value;
        PairFromChars(s, d, open, close, j + |d|);
        SliceChars(s, p + |d|, j);
        PairFromOpens(s, d, open, close, p, j, PairFrom(s, d, open, close, p));
      } else {
        PairFromChars(s, d, open, close, p + 1);
      }
    }
  }

  lemma SliceChars(s: string, a: nat, b: nat)
    requires a <= b <= |s|
    ensures forall c :: c in s[a..b] ==> c in s
  {
    forall c | c in s[a..b]
      ensures c in s
    {
      var k :| 0 <= k < b - a && s[a..b][k] == c;
      assert s[a + k] == c;
    }
  }

  function PairPass(s: string, d: string, open: string, close: string): (r: string)
    requires |d| > 0
    ensures forall c :: c in r ==> c in s || c in open || c in close
  {
    PairFromChars(s, d, open, close, 0);
    PairFrom(s, d, open, close, 0)
  }

  // `/\*\*(.*?)\*\*/g` → `<b>$1</b>` (markdowns.js:48, script.js:198).
  function Bold(s: string): (r: string)
    ensures '\n' in r ==> '\n' in s
  {
    PairPass(s, "**", "<b>", "</b>")
  }

  /** The markup both math passes put around the formula. */
  const MathOpen := "<span class=\"mathjax-latex\">\\("
  const MathClose := "\\)</span>"

  // `/\$\$(.*?)\$\$/g` (markdowns.js:49, script.js:199).
  function DisplayMath(s: string): (r: string)
    ensures '\n' in r ==> '\n' in s
  {
    PairPass(s, "$$", MathOpen, MathClose)
  }

  // `/\$(.*?)\$/g` (markdowns.js:50, script.js:200).
  function InlineMath(s: string): (r: string)
    ensures '\n' in r ==> '\n' in s
  {
    PairPass(s, "$", MathOpen, MathClose)
  }

  // `/\*(.*?)\*/g` → `<i>$1</i>` (markdowns.js:60).
  function Italic(s: string): (r: string)
    ensures '\n' in r ==> '\n' in s
  {
    PairPass(s, "*", "<i>", "</i>")
  }

  /** The two math passes in their order. */
  function Math(s: string): (r: string)
    ensures '\n' in r ==> '\n' in s
  {
    InlineMath(DisplayMath(s))
  }

  /** A text in which the delimiter never occurs goes through a pass unchanged. */
  lemma {:induction false} PairFromAbsent(s: string, d: string, open: string, close: string, p: nat)
    requires |d| > 0 && p <= |s|
    requires forall q :: p <= q ==> !StartsAt(s, q, d)
    ensures PairFrom(s, d, open, close, p) == s[p..]
    decreases |s| - p
  {
    if p < |s| {
      PairFromAbsent(s, d, open, close, p + 1);
      assert s[p..] == [s[p]] + s[p + 1..];
    }
  }

  lemma PairPassAbsent(s: string, d: string, open: string, close: string)
    requires |d| > 0 && forall q :: 0 <= q ==> !StartsAt(s, q, d)
    ensures PairPass(s, d, open, close) == s
  {
    PairFromAbsent(s, d, open, close, 0);
  }

  /** A text without the delimiter's first character holds no delimiter. */
  lemma AbsentChar(s: string, d: string)
    requires |d| > 0 && d[0] !in s
    ensures forall q :: 0 <= q ==> !StartsAt(s, q, d)
  {
    forall q | 0 <= q && q + |d| <= |s|
      ensures !StartsAt(s, q, d)
    {
      assert s[q..q + |d|][0] == s[q];
    }
  }

  /**
   * One delimited span on one line becomes one element: `d x d` turns into
   * `open x close` when `x` holds no line terminator and not the delimiter's
   * first character.
   */
  lemma PairPassOne(x: string, d: string, open: string, close: string)
    requires |d| > 0 && d[0] !in x && NoLineTerminator(x)
    ensures PairPass(d + x + d, d, open, close) == open + x + close
  {
    var s := d + x + d;
    var j := |d| + |x|;
    assert s[..|d|] == d && s[j..] == d;
    forall k | |d| <= k < j
      ensures !StartsAt(s, k, d) && !IsLineTerminator(s[k])
    {
      assert s[k] == x[k - |d|];
      if k + |d| <= |s| {
        assert s[k..k + |d|][0] == s[k];
      }
    }
    assert CloseAt(s, d, |d|) == Some(j) by {
      CloseAtIs(s, d, |d|, j);
    }
    assert s[|d|..j] == x;
    assert PairFrom(s, d, open, close, j + |d|) == [];
    assert open + x + close + [] == open + x + close;
  }

  /** The first delimiter after `from`, with no line terminator before it, is where the group stops. */
  lemma {:induction false} CloseAtIs(s: string, d: string, from: nat, j: nat)
    requires |d| > 0 && from <= j && StartsAt(s, j, d)
    requires forall k :: from <= k < j ==> !StartsAt(s, k, d) && !IsLineTerminator(s[k])
    ensures CloseAt(s, d, from) == Some(j)
    decreases j - from
  {
    if from < j {
      CloseAtIs(s, d, from + 1, j);
    }
  }

  /**
   * The inverse of a pass on text that holds neither tag's first character:
   * every `open` and every `close` read back as the delimiter.
   */
  function Unwrap(r: string, d: string, open: string, close: string): string
    requires |open| > 0 && |close| > 0
    decreases |r|
  {
    if |r| == 0 then []
    else if StartsAt(r, 0, open) then d + Unwrap(r[|open|..], d, open, close)
    else if StartsAt(r, 0, close) then d + Unwrap(r[|close|..], d, open, close)
    else [r[0]] + Unwrap(r[1..], d, open, close)
  }

  /** Tags that differ somewhere within both: neither can be read at the start of the other. */
  predicate Distinct(open: string, close: string) {
    exists i :: 0 <= i < |open| && i < |close| && open[i] != close[i]
  }

  lemma {:induction false} UnwrapPlain(g: string, t: string, d: string, open: string, close: string)
    requires |open| > 0 && |close| > 0
    requires open[0] !in g && close[0] !in g
    ensures Unwrap(g + t, d, open, close) == g + Unwrap(t, d, open, close)
    decreases |g|
  {
    if |g| > 0 {
      var u := g + t;
      assert u[0] == g[0] && u[1..] == g[1..] + t;
      assert g[0] in g && g[1..] <= g[1..];
      assert forall c :: c in g[1..] ==> c in g;
      UnwrapPlain(g[1..], t, d, open, close);
      assert g == [g[0]] + g[1..];
      assert g + Unwrap(t, d, open, close) == [g[0]] + (g[1..] + Unwrap(t, d, open, close));
    } else {
      assert g + t == t;
    }
  }

  /** A character that starts neither tag reads back as itself. */
  lemma UnwrapChar(c: char, t: string, d: string, open: string, close: string)
    requires |open| > 0 && |close| > 0 && c != open[0] && c != close[0]
    ensures Unwrap([c] + t, d, open, close) == [c] + Unwrap(t, d, open, close)
  {
    var u := [c] + t;
    assert u[0] == c && u[1..] == t;
  }

  lemma UnwrapTag(tag: string, other: string, t: string, d: string, open: string, close: string)
    requires |open| > 0 && |close| > 0 && Distinct(open, close)
    requires (tag == open && other == close) || (tag == close && other == open)
    ensures Unwrap(tag + t, d, open, close) == d + Unwrap(t, d, open, close)
  {
    var u := tag + t;
    assert u[..|tag|] == tag && u[|tag|..] == t;
    var i :| 0 <= i < |open| && i < |close| && open[i] != close[i];
    assert u[i] == tag[i];
    if tag == close && |open| <= |u| {
      assert u[..|open|][i] == u[i];
    }
  }

  /** Neither tag can start inside `s`: their first characters do not occur in it. */
  predicate TagsAbsent(s: string, open: string, close: string) {
    |open| > 0 && |close| > 0 && open[0] !in s && close[0] !in s
  }

  /**
   * A pass can be undone: on text holding neither tag's first character,
   * reading every tag back as the delimiter recovers the input.
   */
  lemma {:induction false} UnwrapPairFrom(s: string, d: string, open: string, close: string, p: nat)
    requires |d| > 0 && p <= |s| && Distinct(open, close) && TagsAbsent(s, open, close)
    ensures Unwrap(PairFrom(s, d, open, close, p), d, open, close) == s[p..]
    decreases |s| - p
  {
    if p < |s| {
      if StartsAt(s, p, d) && CloseAt(s, d, p + |d|).Some? {
        var j := CloseAt(s, d, p + |d|).value;
        UnwrapPairFrom(s, d, open, close, j + |d|);
        UnwrapMatch(s, d, open, close, p, j);
      } else {
        UnwrapPairFrom(s, d, open, close, p + 1);
        UnwrapCopied(s, d, open, close, p);
      }
    }
  }

  /** A copied character read back: it unwraps to itself, followed by the unwrapped rest. */
  lemma UnwrapCopied(s: string, d: string, open: string, close: string, p: nat)
    requires |d| > 0 && p < |s| && TagsAbsent(s, open, close)
    requires !StartsAt(s, p, d) || CloseAt(s, d, p + |d|).None?
    requires Unwrap(PairFrom(s, d, open, close, p + 1), d, open, close) == s[p + 1..]
    ensures Unwrap(PairFrom(s, d, open, close, p), d, open, close) == s[p..]
  {
    PairFromCopies(s, d, open, close, p);
    assert s[p] in s;
    UnwrapChar(s[p], PairFrom(s, d, open, close, p + 1), d, open, close);
    assert s[p..] == [s[p]] + s[p + 1..];
  }

  /** A match read back: `open group close rest` unwraps to `d group d` and the unwrapped rest. */
  lemma UnwrapMatch(s: string, d: string, open: string, close: string, p: nat, j: nat)
    requires |d| > 0 && p < |s| && Distinct(open, close) && TagsAbsent(s, open, close)
    requires StartsAt(s, p, d) && CloseAt(s, d, p + |d|).Some? && CloseAt(s, d, p + |d|).value == j
    requires Unwrap(PairFrom(s, d, open, close, j + |d|), d, open, close) == s[j + |d|..]
    ensures Unwrap(PairFrom(s, d, open, close, p), d, open, close) == s[p..]
  {
    var r := PairFrom(s, d, open, close, p);
    var group := s[p + |d|..j];
    var rest := PairFrom(s, d, open, close, j + |d|);
    assert open[0] !in group && close[0] !in group by {
      forall c | c in group
        ensures c in s
      {
        var k :| 0 <= k < |group| && group[k] == c;
        assert s[p + |d| + k] == c;
      }
    }
    var u := Unwrap(rest, d, open, close);
    var v := Unwrap(close + rest, d, open, close);
    var w := Unwrap(group + (close + rest), d, open, close);
    assert Unwrap(r, d, open, close) == d + w by {
      PairFromMatch(s, d, open, close, p, j);
      UnwrapTag(open, close, group + (close + rest), d, open, close);
    }
    assert w == group + v by {
      UnwrapPlain(group, close + rest, d, open, close);
    }
    assert v == d + u by {
      UnwrapTag(close, open, rest, d, open, close);
    }
    assert s[p..] == d + (group + (d + u)) by {
      CloseAtFirst(s, d, p + |d|);
      DelimitedSlice(s, d, p, j);
    }
  }

  /** What a pass makes of a match at `p` closing at `j`. */
  lemma PairFromMatch(s: string, d: string, open: string, close: string, p: nat, j: nat)
    requires |d| > 0 && p < |s|
    requires StartsAt(s, p, d) && CloseAt(s, d, p + |d|) == Some(j)
    ensures PairFrom(s, d, open, close, p)
            == open + (s[p + |d|..j] + (close + PairFrom(s, d, open, close, j + |d|)))
  {
    PairFromOpens(s, d, open, close, p, j, PairFrom(s, d, open, close, p));
    AppendAssoc4(open, s[p + |d|..j], close, PairFrom(s, d, open, close, j + |d|));
  }

  /** A group opening at `p` and closing at `j`: `r` is what the pass makes of the text from `p`. */
  lemma PairFromOpens(s: string, d: string, open: string, close: string, p: nat, j: nat, r: string)
    requires |d| > 0 && p < |s|
    requires StartsAt(s, p, d) && CloseAt(s, d, p + |d|).Some? && CloseAt(s, d, p + |d|).value == j
    requires r == PairFrom(s, d, open, close, p)
    ensures r == open + s[p + |d|..j] + close + PairFrom(s, d, open, close, j + |d|)
  {
  }

  lemma DelimitedSlice(s: string, d: string, p: nat, j: nat)
    requires StartsAt(s, p, d) && StartsAt(s, j, d) && p + |d| <= j
    ensures s[p..] == d + (s[p + |d|..j] + (d + s[j + |d|..]))
  {
    assert s[p..p + |d|] == d && s[j..j + |d|] == d;
    assert s[p..] == s[p..p + |d|] + (s[p + |d|..j] + (s[j..j + |d|] + s[j + |d|..]));
  }

  /** Bold can be read back: on text without `<`, every `<b>` and `</b>` reads back as `**`. */
  lemma BoldRoundTrip(s: string)
    requires '<' !in s
    ensures Unwrap(Bold(s), "**", "<b>", "</b>") == s
  {
    assert Distinct("<b>", "</b>") by {
      assert "<b>"[1] != "</b>"[1];
    }
    UnwrapPairFrom(s, "**", "<b>", "</b>", 0);
  }

  /** A `**` pair on one line becomes a `<b>` element. */
  lemma BoldOne(x: string)
    requires '*' !in x && NoLineTerminator(x)
    ensures Bold("**" + x + "**") == "<b>" + x + "</b>"
  {
    PairPassOne(x, "**", "<b>", "</b>");
  }

  /**
   * Bold runs first, so `**x**` is bold and not two empty italics around
   * `x`, which is what the italic pass alone would make of it.
   */
  lemma BoldBeforeItalic(x: string)
    requires '*' !in x && NoLineTerminator(x)
    ensures Italic(Bold("**" + x + "**")) == "<b>" + x + "</b>"
    ensures Italic("**" + x + "**") == "<i></i>" + x + "<i></i>"
  {
    BoldOne(x);
    assert '*' !in "<b>" + x + "</b>";
    AbsentChar("<b>" + x + "</b>", "*");
    PairPassAbsent("<b>" + x + "</b>", "*", "<i>", "</i>");
    assert forall i :: 0 <= i < |x| ==> x[i] != '*';
    ItalicTail(x);
  }

  lemma ItalicTail(x: string)
    requires forall i :: 0 <= i < |x| ==> x[i] != '*'
    ensures Italic("**" + x + "**") == "<i></i>" + x + "<i></i>"
  {
    var tags := "<i>" + "</i>";
    var s := ['*', '*'] + x + ['*', '*'];
    assert "**" + x + "**" == s;
    DoubledDelimiters(s, '*', x, "<i>", "</i>");
    assert "<i></i>" == tags;
  }

  /**
   * Two one-character delimiters, a text without them, two more: both pairs
   * are empty groups and the text between them is copied.
   */
  lemma DoubledDelimiters(s: string, c: char, x: string, open: string, close: string)
    requires s == [c, c] + x + [c, c]
    requires forall i :: 0 <= i < |x| ==> x[i] != c
    ensures PairFrom(s, [c], open, close, 0) == open + close + x + open + close
  {
    var n := |x| + 2;
    assert s[0] == c && s[1] == c && s[n] == c && s[n + 1] == c;
    NoDelimiterInside(s, c, x);
    EmptyGroup(s, c, open, close, 0);
    CopyUntil(s, [c], open, close, 2, n);
    EmptyGroup(s, c, open, close, n);
    PairFromEnd(s, [c], open, close, n + 2);
    assert s[2..n] == x;
    AroundTwice(open + close, x);
  }

  /** At the end of the text a pass has nothing left to produce. */
  lemma PairFromEnd(s: string, d: string, open: string, close: string, p: nat)
    requires |d| > 0 && p == |s|
    ensures PairFrom(s, d, open, close, p) == []
  {
  }

  lemma NoDelimiterInside(s: string, c: char, x: string)
    requires s == [c, c] + x + [c, c] && forall i :: 0 <= i < |x| ==> x[i] != c
    ensures forall k :: 2 <= k < |x| + 2 ==> !StartsAt(s, k, [c])
  {
    forall k | 2 <= k < |x| + 2
      ensures !StartsAt(s, k, [c])
    {
      assert s[k] == x[k - 2];
      assert s[k..k + 1][0] == s[k];
    }
  }

  /** A one-character delimiter followed at once by another is an empty group. */
  lemma EmptyGroup(s: string, c: char, open: string, close: string, p: nat)
    requires p + 2 <= |s| && s[p] == c && s[p + 1] == c
    ensures PairFrom(s, [c], open, close, p) == open + close + PairFrom(s, [c], open, close, p + 2)
  {
    assert s[p..p + 1] == [c] && s[p + 1..p + 2] == [c];
    CloseAtIs(s, [c], p + 1, p + 1);
    PairFromOpens(s, [c], open, close, p, p + 1, PairFrom(s, [c], open, close, p));
    assert s[p + 1..p + 1] == [];
  }

  lemma AroundTwice(a: string, x: string)
    ensures a + (x + (a + [])) == a + x + a
  {
  }

  /** Between `p` and `q` the delimiter never occurs, so a pass copies that stretch. */
  lemma {:induction false} CopyUntil(s: string, d: string, open: string, close: string, p: nat, q: nat)
    requires |d| > 0 && p <= q <= |s|
    requires forall k :: p <= k < q ==> !StartsAt(s, k, d)
    ensures PairFrom(s, d, open, close, p) == s[p..q] + PairFrom(s, d, open, close, q)
    decreases q - p
  {
    if p < q {
      var tail := PairFrom(s, d, open, close, q);
      PairFromCopies(s, d, open, close, p);
      CopyUntil(s, d, open, close, p + 1, q);
      assert s[p..q] == [s[p]] + s[p + 1..q];
      AppendAssoc([s[p]], s[p + 1..q], tail);
    } else {
      assert s[p..q] == [];
    }
  }

  /**
   * `$$x$$` and `$x$` both become the MathJax span of `x`: the `$$` pass runs
   * first, and the `$` pass then finds no `$` left (markdowns.js:49-50).
   */
  lemma MathSpans(x: string)
    requires '$' !in x && NoLineTerminator(x)
    ensures Math("$$" + x + "$$") == MathOpen + x + MathClose
    ensures Math("$" + x + "$") == MathOpen + x + MathClose
  {
    var span := MathOpen + x + MathClose;
    PairPassOne(x, "$$", MathOpen, MathClose);
    assert '$' !in span;
    AbsentChar(span, "$");
    PairPassAbsent(span, "$", MathOpen, MathClose);

    var s := "$" + x + "$";
    if |x| == 0 {
      assert s == "$$";
      LoneDoubleDollar(s);
    } else {
      assert s == ['$'] + x + ['$'];
      assert forall i :: 0 <= i < |x| ==> x[i] != '$';
      NoDoubleInside(s, '$', x);
      assert "$$" == ['$', '$'];
      PairPassAbsent(s, "$$", MathOpen, MathClose);
    }
    PairPassOne(x, "$", MathOpen, MathClose);
  }

  /** `$$` alone is no display formula: there is no second `$$` to close it. */
  lemma LoneDoubleDollar(s: string)
    requires s == "$$"
    ensures DisplayMath(s) == s
  {
    var d := "$$";
    assert CloseAt(s, d, 2).None?;
    PairFromCopies(s, d, MathOpen, MathClose, 0);
    assert !StartsAt(s, 1, d);
    PairFromCopies(s, d, MathOpen, MathClose, 1);
    PairFromEnd(s, d, MathOpen, MathClose, 2);
    assert [s[0]] + ([s[1]] + []) == s;
  }

  /** A nonempty text without `c` between two single `c`s holds no `cc`. */
  lemma NoDoubleInside(s: string, c: char, x: string)
    requires s == [c] + x + [c] && |x| > 0 && forall i :: 0 <= i < |x| ==> x[i] != c
    ensures forall q :: 0 <= q && q + 2 <= |s| ==> !StartsAt(s, q, [c, c])
  {
    forall q | 0 <= q && q + 2 <= |s|
      ensures !StartsAt(s, q, [c, c])
    {
      if q == 0 {
        assert s[1] == x[0];
      } else {
        assert s[q] == x[q - 1];
      }
      StartsAtPair(s, q, c, c);
    }
  }
}
