/**
 * The line-anchored passes of markdowns.js: the four heading regexes
 * `/^#{k}\s(.+)/gm` (markdowns.js:2-7, 53-57) and the blockquote regex
 * `/>\s(.*?)$/gm` (markdowns.js:59). With the `m` flag, `^` holds at the
 * start of the text and after each line terminator, and `$` at the end of
 * the text and before each line terminator.
 */
module Lines {
  import opened Wrappers
  import opened Text

  /** Multiline `^` at index `p` of the pass's input. */
  predicate LineStart(s: string, p: nat)
    requires p <= |s|
  {
    p == 0 || IsLineTerminator(s[p - 1])
  }

  /** `level` number signs. */
  function Hashes(level: nat): (r: string)
    ensures |r| == level && forall i :: 0 <= i < |r| ==> r[i] == '#'
  {
    seq(level, _ => '#')
  }

  /** `fontSize` of markdowns.js:54 for heading regex `index = level - 1`. */
  function FontSize(level: nat): nat
    requires 1 <= level <= 4
  {
    30 - (level - 1) * 4
  }

  /** `fontWeight` of markdowns.js:55: bold for the first regex only. */
  function FontWeight(level: nat): string
    requires 1 <= level <= 4
  {
    if level == 1 then "bold" else "normal"
  }

  /** The opening tag of the replacement template at markdowns.js:56. */
  function HeadingOpen(level: nat): string
    requires 1 <= level <= 4
  {
    SizeAttr + DecimalString(FontSize(level)) + WeightAttr + FontWeight(level) + StyleEnd
  }

  const SizeAttr := "<span style=\"font-size: "
  const WeightAttr := "px; font-weight: "
  const StyleEnd := ";\">"

  lemma TemplatePieces()
    ensures NoLineTerminator(SizeAttr) && NoLineTerminator(WeightAttr) && NoLineTerminator(StyleEnd)
    ensures NoLineTerminator("bold") && NoLineTerminator("normal") && NoLineTerminator(HeadingClose)
  {
  }

  const HeadingClose := "</span>"

  /** The four styles spelled out: 30, 26, 22 and 18 px, only the first bold. */
  lemma HeadingStyles()
    ensures DecimalString(FontSize(1)) == "30" && FontWeight(1) == "bold"
    ensures DecimalString(FontSize(2)) == "26" && FontWeight(2) == "normal"
    ensures DecimalString(FontSize(3)) == "22" && FontWeight(3) == "normal"
    ensures DecimalString(FontSize(4)) == "18" && FontWeight(4) == "normal"
  {
    assert DecimalString(3) == "3" && DecimalString(2) == "2" && DecimalString(1) == "1";
  }

  /**
   * End of the match of `/^#{level}\s(.+)/m` at `p`, if one starts there:
   * `level` signs at a line start, one whitespace character (a line
   * terminator included), then at least one character of the rest of that
   * line, taken greedily up to the end of the line.
   */
  function HeadingAt(s: string, level: nat, p: nat): (r: Option<nat>)
    requires p <= |s|
    ensures r.Some? ==> p + level + 2 <= r.value <= |s|
    ensures r.Some? <==>
      && LineStart(s, p) && p + level + 1 < |s|
      && (forall k :: p <= k < p + level ==> s[k] == '#')
      && IsSpace(s[p + level]) && !IsLineTerminator(s[p + level + 1])
    ensures r.Some? ==> forall k :: p + level + 1 <= k < r.value ==> !IsLineTerminator(s[k])
    ensures r.Some? ==> r.value == |s| || IsLineTerminator(s[r.value])
  {
    assert p + level <= |s| ==> (StartsAt(s, p, Hashes(level)) <==> forall k :: p <= k < p + level ==> s[k] == '#') by {
      if p + level <= |s| {
        if forall k :: p <= k < p + level ==> s[k] == '#' {
          assert s[p..p + level] == Hashes(level);
        }
        if StartsAt(s, p, Hashes(level)) {
          forall k | p <= k < p + level ensures s[k] == '#' {
            assert s[p..p + level][k - p] == s[k];
          }
        }
      }
    }
    if LineStart(s, p) && StartsAt(s, p, Hashes(level)) && p + level + 1 < |s|
       && IsSpace(s[p + level]) && !IsLineTerminator(s[p + level + 1])
    then Some(LineEnd(s, p + level + 1))
    else None
  }

  /** The global replace of one heading regex, from `p` on. */
  function HeadingFrom(s: string, level: nat, p: nat): string
    requires 1 <= level <= 4 && p <= |s|
    decreases |s| - p
  {
    if p == |s| then []
    else
      match HeadingAt(s, level, p)
      case Some(e) => HeadingOpen(level) + s[p + level + 1..e] + HeadingClose + HeadingFrom(s, level, e)
      case None => [s[p]] + HeadingFrom(s, level, p + 1)
  }

  /** A heading pass adds no line terminator. */
  lemma {:induction false} HeadingFromNoNewline(s: string, level: nat, p: nat)
    requires 1 <= level <= 4 && p <= |s| && '\n' !in s
    ensures '\n' !in HeadingFrom(s, level, p)
    decreases |s| - p
  {
    if p < |s| {
      match HeadingAt(s, level, p)
      case Some(e) =>
        HeadingFromNoNewline(s, level, e);
        HeadingSpanNoNewline(s, level, p + level + 1, e);
      case None =>
        assert s[p] in s;
        HeadingFromNoNewline(s, level, p + 1);
    }
  }

  lemma HeadingSpanNoNewline(s: string, level: nat, a: nat, e: nat)
    requires 1 <= level <= 4 && a <= e <= |s| && '\n' !in s
    ensures '\n' !in HeadingOpen(level) + s[a..e] + HeadingClose
  {
    HeadingOpenShape(level);
    assert forall i :: a <= i < e ==> s[i] in s;
  }

  /** The four heading passes in order, `#` first (markdowns.js:53-57). */
  function Headings(s: string): string {
    HeadingFrom(HeadingFrom(HeadingFrom(HeadingFrom(s, 1, 0), 2, 0), 3, 0), 4, 0)
  }

  /** Where no line starts after `p`, a heading pass copies the rest. */
  lemma {:induction false} HeadingCopy(s: string, level: nat, p: nat)
    requires 1 <= level <= 4 && 0 < p <= |s| && NoLineTerminator(s)
    ensures HeadingFrom(s, level, p) == s[p..]
    decreases |s| - p
  {
    if p < |s| {
      HeadingCopy(s, level, p + 1);
      assert s[p..] == [s[p]] + s[p + 1..];
    }
  }

  /** On a single line that is not a heading of this level, the pass changes nothing. */
  lemma HeadingNone(s: string, level: nat)
    requires 1 <= level <= 4 && NoLineTerminator(s) && HeadingAt(s, level, 0).None?
    ensures HeadingFrom(s, level, 0) == s
  {
    if |s| > 0 {
      HeadingCopy(s, level, 1);
      assert s == [s[0]] + s[1..];
    }
  }

  /** A single line that is a heading of this level becomes one span. */
  lemma HeadingOne(x: string, level: nat)
    requires 1 <= level <= 4 && |x| > 0 && NoLineTerminator(x)
    ensures HeadingFrom(Hashes(level) + " " + x, level, 0) == HeadingOpen(level) + x + HeadingClose
  {
    var s := Hashes(level) + " " + x;
    assert s[..level] == Hashes(level);
    assert s[level] == ' ' && s[level + 1] == x[0];
    assert s[level + 1..] == x;
    assert LineEnd(s, level + 1) == |s| by {
      forall k | level + 1 <= k < |s|
        ensures !IsLineTerminator(s[k])
      {
        assert s[k] == x[k - level - 1];
      }
    }
    assert HeadingAt(s, level, 0) == Some(|s|);
    assert HeadingFrom(s, level, 0) == HeadingOpen(level) + s[level + 1..|s|] + HeadingClose + HeadingFrom(s, level, |s|);
  }

  /**
   * A line `#…# x` with `level` signs, one space and a one-line `x`, becomes
   * the heading span of that level, whatever the other three passes do.
   */
  lemma HeadingLine(x: string, level: nat)
    requires 1 <= level <= 4 && |x| > 0 && NoLineTerminator(x)
    ensures Headings(Hashes(level) + " " + x) == HeadingOpen(level) + x + HeadingClose
  {
    var s := Hashes(level) + " " + x;
    var h := HeadingOpen(level) + x + HeadingClose;
    HeadingLineShape(x, level);
    HeadingSpanShape(x, level);
    HeadingOne(x, level);
    if level == 1 {
      HeadingNone(h, 2); HeadingNone(h, 3); HeadingNone(h, 4);
    } else if level == 2 {
      HeadingNone(s, 1); HeadingNone(h, 3); HeadingNone(h, 4);
    } else if level == 3 {
      HeadingNone(s, 1); HeadingNone(s, 2); HeadingNone(h, 4);
    } else {
      HeadingNone(s, 1); HeadingNone(s, 2); HeadingNone(s, 3);
    }
  }

  /** A heading line is one line, and no other level's regex matches it. */
  lemma HeadingLineShape(x: string, level: nat)
    requires 1 <= level <= 4 && NoLineTerminator(x)
    ensures NoLineTerminator(Hashes(level) + " " + x)
    ensures forall other :: 1 <= other <= 4 && other != level ==> HeadingAt(Hashes(level) + " " + x, other, 0).None?
  {
    var s := Hashes(level) + " " + x;
    assert forall k :: level + 1 <= k < |s| ==> s[k] == x[k - level - 1];
    assert forall k :: 0 <= k < level ==> s[k] == '#';
    forall other | 1 <= other <= 4 && other != level
      ensures HeadingAt(s, other, 0).None?
    {
      if other < level {
        assert s[other] == '#';
      } else if other < |s| {
        assert s[..other][level] == s[level] == ' ';
      }
    }
  }

  /** A heading span is one line starting with `<`, so no heading regex matches it. */
  lemma HeadingSpanShape(x: string, level: nat)
    requires 1 <= level <= 4 && NoLineTerminator(x)
    ensures NoLineTerminator(HeadingOpen(level) + x + HeadingClose)
    ensures forall other :: 1 <= other <= 4 ==> HeadingAt(HeadingOpen(level) + x + HeadingClose, other, 0).None?
  {
    var h := HeadingOpen(level) + x + HeadingClose;
    var o := HeadingOpen(level);
    HeadingOpenShape(level);
    assert forall k :: 0 <= k < |x| ==> h[|o| + k] == x[k];
    assert forall k :: 0 <= k < |o| ==> h[k] == o[k];
    assert forall k :: |o| + |x| <= k < |h| ==> h[k] == HeadingClose[k - |o| - |x|];
    forall other | 1 <= other <= 4
      ensures HeadingAt(h, other, 0).None?
    {
      assert |Hashes(other)| > 0 && Hashes(other)[0] == '#';
      if other <= |h| {
        assert h[..other][0] == '<';
      }
    }
  }

  lemma HeadingOpenShape(level: nat)
    requires 1 <= level <= 4
    ensures NoLineTerminator(HeadingOpen(level)) && NoLineTerminator(HeadingClose)
    ensures |HeadingOpen(level)| > 0 && HeadingOpen(level)[0] == '<'
  {
    var n := DecimalString(FontSize(level));
    assert NoLineTerminator(n) by {
      assert forall i :: 0 <= i < |n| ==> '0' <= n[i] <= '9';
    }
    var a, b, c, d := SizeAttr, WeightAttr, FontWeight(level), StyleEnd;
    TemplatePieces();
    NoLineTerminatorConcat(a, n);
    NoLineTerminatorConcat(a + n, b);
    NoLineTerminatorConcat(a + n + b, c);
    NoLineTerminatorConcat(a + n + b + c, d);
  }

  /** The markup of a heading span holds no `#`. */
  lemma HeadingMarkupNoHash(level: nat)
    requires 1 <= level <= 4
    ensures '#' !in HeadingOpen(level) && '#' !in HeadingClose
  {
    var n := DecimalString(FontSize(level));
    assert '#' !in n by {
      assert forall i :: 0 <= i < |n| ==> '0' <= n[i] <= '9';
    }
    TemplateNoHash();
    assert '#' !in FontWeight(level);
  }

  lemma TemplateNoHash()
    ensures '#' !in SizeAttr && '#' !in WeightAttr && '#' !in StyleEnd && '#' !in HeadingClose
    ensures '#' !in "bold" && '#' !in "normal"
  {
    assert forall i :: 0 <= i < |SizeAttr| ==> SizeAttr[i] != '#';
  }

  /** No heading starts at a character other than `#`, nor in the middle of a line. */
  lemma NoHeadingAt(s: string, level: nat, p: nat)
    requires 1 <= level <= 4 && p < |s|
    requires s[p] != '#' || !LineStart(s, p)
    ensures HeadingAt(s, level, p).None?
  {
  }

  /** Where no heading of this level starts in `s[p..q]`, the pass copies that stretch. */
  lemma {:induction false} HeadingCopyRange(s: string, level: nat, p: nat, q: nat)
    requires 1 <= level <= 4 && p <= q <= |s|
    requires forall k :: p <= k < q ==> HeadingAt(s, level, k).None?
    ensures HeadingFrom(s, level, p) == s[p..q] + HeadingFrom(s, level, q)
    decreases q - p
  {
    if p < q {
      HeadingCopyRange(s, level, p + 1, q);
      HeadingCopyStep(s, level, p);
      ConsSlice(s, p, q, HeadingFrom(s, level, q));
    }
  }

  lemma HeadingCopyStep(s: string, level: nat, p: nat)
    requires 1 <= level <= 4 && p < |s| && HeadingAt(s, level, p).None?
    ensures HeadingFrom(s, level, p) == [s[p]] + HeadingFrom(s, level, p + 1)
  {
  }

  lemma ConsSlice(s: string, p: nat, q: nat, rest: string)
    requires p < q <= |s|
    ensures [s[p]] + (s[p + 1..q] + rest) == s[p..q] + rest
  {
    assert s[p..q] == [s[p]] + s[p + 1..q];
  }

  /** A pass that finds no heading anywhere leaves the text as it is. */
  lemma HeadingPassIdle(s: string, level: nat)
    requires 1 <= level <= 4
    requires forall k :: 0 <= k < |s| ==> HeadingAt(s, level, k).None?
    ensures HeadingFrom(s, level, 0) == s
  {
    HeadingCopyRange(s, level, 0, |s|);
    assert s[0..|s|] == s;
  }

  /** Where the pieces of a heading line sit in the whole text. */
  predicate HeadingLayout(t: string, pre: string, level: nat, w: char, x: string, post: string) {
    && |t| == |pre| + level + 1 + |x| + |post|
    && (forall k :: 0 <= k < |pre| ==> t[k] == pre[k])
    && (forall k :: |pre| <= k < |pre| + level ==> t[k] == '#')
    && t[|pre| + level] == w
    && (forall k :: 0 <= k < |x| ==> t[|pre| + level + 1 + k] == x[k])
    && (forall k :: 0 <= k < |post| ==> t[|pre| + level + 1 + |x| + k] == post[k])
  }

  lemma HeadingLayoutOf(t: string, pre: string, level: nat, w: char, x: string, post: string)
    requires t == pre + Hashes(level) + [w] + x + post
    ensures HeadingLayout(t, pre, level, w, x, post)
    ensures t[..|pre|] == pre && t[|pre| + level + 1..|pre| + level + 1 + |x|] == x
    ensures t[|pre| + level + 1 + |x|..] == post
  {
  }

  /**
   * The requirements on the text around a heading line: it starts and ends a
   * line, and neither its surroundings nor (after a line-breaking separator)
   * its text start another heading.
   */
  predicate HeadingContext(pre: string, level: nat, w: char, x: string, post: string) {
    && 1 <= level <= 4 && IsSpace(w) && |x| > 0 && NoLineTerminator(x)
    && (pre == [] || IsLineTerminator(pre[|pre| - 1]))
    && (post == [] || IsLineTerminator(post[0]))
    && '#' !in pre && '#' !in post
    && (IsLineTerminator(w) ==> x[0] != '#')
  }

  /** The pass of a heading's own level turns that line, and only it, into the span. */
  lemma HeadingOwnPass(t: string, pre: string, level: nat, w: char, x: string, post: string)
    requires HeadingContext(pre, level, w, x, post)
    requires t == pre + Hashes(level) + [w] + x + post
    ensures HeadingFrom(t, level, 0) == pre + HeadingOpen(level) + x + HeadingClose + post
  {
    HeadingLayoutOf(t, pre, level, w, x, post);
    HeadingOwnPassLaid(t, pre, level, w, x, post);
  }

  lemma HeadingOwnPassLaid(t: string, pre: string, level: nat, w: char, x: string, post: string)
    requires HeadingContext(pre, level, w, x, post) && HeadingLayout(t, pre, level, w, x, post)
    requires t[..|pre|] == pre && t[|pre| + level + 1..|pre| + level + 1 + |x|] == x
    requires t[|pre| + level + 1 + |x|..] == post
    ensures HeadingFrom(t, level, 0) == pre + HeadingOpen(level) + x + HeadingClose + post
  {
    var m := |pre|;
    var e := m + level + 1 + |x|;
    AroundLineIdle(t, pre, level, w, x, post);
    HeadingMatchAtLine(t, pre, level, w, x, post);
    SpliceHeadingAs(t, level, m, e, pre, x, post);
  }

  /** The one-match splice, read back in terms of the pieces around the line. */
  lemma SpliceHeadingAs(s: string, level: nat, m: nat, e: nat, pre: string, x: string, post: string)
    requires 1 <= level <= 4 && m < |s| && HeadingAt(s, level, m) == Some(e)
    requires forall k :: 0 <= k < m ==> HeadingAt(s, level, k).None?
    requires forall k :: e <= k < |s| ==> HeadingAt(s, level, k).None?
    requires s[..m] == pre && s[m + level + 1..e] == x && s[e..] == post
    ensures HeadingFrom(s, level, 0) == pre + HeadingOpen(level) + x + HeadingClose + post
  {
    SpliceOneHeading(s, level, m, e);
    Reassociate(pre, HeadingOpen(level), x, HeadingClose, post);
  }

  /** Before and after the heading line, the pass of its level finds nothing. */
  lemma AroundLineIdle(t: string, pre: string, level: nat, w: char, x: string, post: string)
    requires HeadingContext(pre, level, w, x, post) && HeadingLayout(t, pre, level, w, x, post)
    ensures forall k :: 0 <= k < |pre| ==> HeadingAt(t, level, k).None?
    ensures forall k :: |pre| + level + 1 + |x| <= k < |t| ==> HeadingAt(t, level, k).None?
  {
    forall k | 0 <= k < |pre| || |pre| + level + 1 + |x| <= k < |t|
      ensures HeadingAt(t, level, k).None?
    {
      OffLineHash(t, pre, level, w, x, post, k);
      NoHeadingAt(t, level, k);
    }
  }

  /** A pass that finds exactly one heading, at `m` up to `e`, splices in that one span. */
  lemma SpliceOneHeading(s: string, level: nat, m: nat, e: nat)
    requires 1 <= level <= 4 && m < |s| && HeadingAt(s, level, m) == Some(e)
    requires forall k :: 0 <= k < m ==> HeadingAt(s, level, k).None?
    requires forall k :: e <= k < |s| ==> HeadingAt(s, level, k).None?
    ensures HeadingFrom(s, level, 0) == s[..m] + (HeadingOpen(level) + s[m + level + 1..e] + HeadingClose + s[e..])
  {
    HeadingCopyRange(s, level, e, |s|);
    assert HeadingFrom(s, level, |s|) == [];
    assert s[e..|s|] == s[e..];
    HeadingMatchStep(s, level, m, e);
    HeadingCopyRange(s, level, 0, m);
    assert s[0..m] == s[..m];
  }

  lemma Reassociate(a: string, b: string, c: string, d: string, e: string)
    ensures a + (b + c + d + e) == a + b + c + d + e
  {
  }

  /** The heading line itself is a match of its level, up to the end of the line. */
  lemma HeadingMatchAtLine(t: string, pre: string, level: nat, w: char, x: string, post: string)
    requires HeadingContext(pre, level, w, x, post) && HeadingLayout(t, pre, level, w, x, post)
    ensures HeadingAt(t, level, |pre|) == Some(|pre| + level + 1 + |x|)
  {
    var m := |pre|;
    var c := m + level + 1;
    var e := c + |x|;
    assert forall k :: c <= k < e ==> t[k] == x[k - c];
    assert e < |t| ==> t[e] == post[0];
    LineEndIs(t, c, e);
    assert LineStart(t, m) by {
      if m > 0 {
        assert t[m - 1] == pre[m - 1];
      }
    }
    assert t[c] == x[0];
  }

  /** The end of the line is the first line terminator, or the end of the text. */
  lemma LineEndIs(s: string, i: nat, e: nat)
    requires i <= e <= |s|
    requires forall k :: i <= k < e ==> !IsLineTerminator(s[k])
    requires e == |s| || IsLineTerminator(s[e])
    ensures LineEnd(s, i) == e
  {
  }

  /** At a match the pass emits the span of the captured line and goes on after it. */
  lemma HeadingMatchStep(s: string, level: nat, p: nat, e: nat)
    requires 1 <= level <= 4 && p < |s| && HeadingAt(s, level, p) == Some(e)
    ensures HeadingFrom(s, level, p) == HeadingOpen(level) + s[p + level + 1..e] + HeadingClose + HeadingFrom(s, level, e)
  {
  }

  /** Before the span exists, no pass of another level finds a heading in the text. */
  lemma OtherLevelsIdleBefore(t: string, pre: string, level: nat, w: char, x: string, post: string, other: nat)
    requires HeadingContext(pre, level, w, x, post) && HeadingLayout(t, pre, level, w, x, post)
    requires 1 <= other <= 4 && other != level
    ensures forall k :: 0 <= k < |t| ==> HeadingAt(t, other, k).None?
  {
    forall k | 0 <= k < |t|
      ensures HeadingAt(t, other, k).None?
    {
      if k == |pre| {
        OtherLevelAtLine(t, pre, level, w, x, post, other);
      } else {
        OffLineHash(t, pre, level, w, x, post, k);
        NoHeadingAt(t, other, k);
      }
    }
  }

  /** At the heading line itself, another level's signs do not fit. */
  lemma OtherLevelAtLine(t: string, pre: string, level: nat, w: char, x: string, post: string, other: nat)
    requires HeadingContext(pre, level, w, x, post) && HeadingLayout(t, pre, level, w, x, post)
    requires 1 <= other <= 4 && other != level
    ensures HeadingAt(t, other, |pre|).None?
  {
    var m := |pre|;
    if other < level {
      assert t[m + other] == '#';
    } else {
      assert t[m + level] == w && w != '#';
    }
  }

  /** Away from the start of the heading line, every `#` of the text sits mid-line. */
  lemma OffLineHash(t: string, pre: string, level: nat, w: char, x: string, post: string, k: nat)
    requires HeadingContext(pre, level, w, x, post) && HeadingLayout(t, pre, level, w, x, post)
    requires k < |t| && k != |pre|
    ensures t[k] != '#' || !LineStart(t, k)
  {
    var m := |pre|;
    var c := m + level + 1;
    var e := c + |x|;
    if k < m {
      assert t[k] == pre[k] && pre[k] in pre;
    } else if k < c - 1 {
      assert t[k - 1] == '#';
    } else if k == c - 1 {
      assert t[k] == w;
    } else if k == c {
      assert t[k - 1] == w && t[k] == x[0];
    } else if k < e {
      assert t[k - 1] == x[k - 1 - c];
    } else {
      assert t[k] == post[k - e] && post[k - e] in post;
    }
  }

  /** Once the span is in place, no heading pass finds anything in the text. */
  lemma AllLevelsIdleAfter(r: string, pre: string, level: nat, x: string, post: string, other: nat)
    requires 1 <= level <= 4 && 1 <= other <= 4 && NoLineTerminator(x)
    requires '#' !in pre && '#' !in post
    requires r == pre + HeadingOpen(level) + x + HeadingClose + post
    ensures forall k :: 0 <= k < |r| ==> HeadingAt(r, other, k).None?
  {
    var o := HeadingOpen(level);
    HeadingOpenShape(level);
    HeadingMarkupNoHash(level);
    SpanLayoutOf(r, pre, o, x, HeadingClose, post);
    forall k | 0 <= k < |r|
      ensures HeadingAt(r, other, k).None?
    {
      SpanOffLine(r, pre, o, x, HeadingClose, post, k);
      NoHeadingAt(r, other, k);
    }
  }

  /** Where the pieces of a text holding a span sit. */
  predicate SpanLayout(r: string, pre: string, o: string, x: string, cl: string, post: string) {
    var c := |pre| + |o|;
    var e := c + |x|;
    var f := e + |cl|;
    && |r| == f + |post|
    && (forall k :: 0 <= k < |pre| ==> r[k] == pre[k])
    && (forall k :: |pre| <= k < c ==> r[k] == o[k - |pre|])
    && (forall k :: c <= k < e ==> r[k] == x[k - c])
    && (forall k :: e <= k < f ==> r[k] == cl[k - e])
    && (forall k :: f <= k < |r| ==> r[k] == post[k - f])
  }

  lemma SpanLayoutOf(r: string, pre: string, o: string, x: string, cl: string, post: string)
    requires r == pre + o + x + cl + post
    ensures SpanLayout(r, pre, o, x, cl, post)
  {
  }

  /** In such a text every `#` lies inside `x`, after the opening markup or inside the line. */
  lemma SpanOffLine(r: string, pre: string, o: string, x: string, cl: string, post: string, k: nat)
    requires SpanLayout(r, pre, o, x, cl, post) && k < |r|
    requires '#' !in pre && '#' !in o && '#' !in cl && '#' !in post
    requires |o| > 0 && NoLineTerminator(o) && NoLineTerminator(x)
    ensures r[k] != '#' || !LineStart(r, k)
  {
    var c := |pre| + |o|;
    var e := c + |x|;
    var f := e + |cl|;
    if k < |pre| {
      assert pre[k] in pre;
    } else if k < c {
      assert o[k - |pre|] in o;
    } else if k == c {
      assert r[k - 1] == o[|o| - 1];
    } else if k < e {
      assert r[k - 1] == x[k - 1 - c];
    } else if k < f {
      assert cl[k - e] in cl;
    } else {
      assert post[k - f] in post;
    }
  }

  /**
   * A heading line anywhere in a response: the four passes turn that line
   * into the span of its level and leave the lines around it as they are.
   */
  lemma HeadingInText(pre: string, level: nat, w: char, x: string, post: string)
    requires HeadingContext(pre, level, w, x, post)
    ensures Headings(pre + Hashes(level) + [w] + x + post) == pre + HeadingOpen(level) + x + HeadingClose + post
  {
    var t := pre + Hashes(level) + [w] + x + post;
    var r := pre + HeadingOpen(level) + x + HeadingClose + post;
    HeadingOwnPass(t, pre, level, w, x, post);
    if level == 1 {
      HeadingsFirst(t, r, pre, level, w, x, post);
    } else if level == 2 {
      HeadingsSecond(t, r, pre, level, w, x, post);
    } else if level == 3 {
      HeadingsThird(t, r, pre, level, w, x, post);
    } else {
      HeadingsFourth(t, r, pre, level, w, x, post);
    }
  }

  lemma HeadingsFirst(t: string, r: string, pre: string, level: nat, w: char, x: string, post: string)
    requires level == 1 && HeadingContext(pre, level, w, x, post) && t == pre + Hashes(level) + [w] + x + post
    requires r == pre + HeadingOpen(level) + x + HeadingClose + post && HeadingFrom(t, level, 0) == r
    ensures Headings(t) == r
  {
    IdleAfter(r, pre, level, x, post, 2); IdleAfter(r, pre, level, x, post, 3); IdleAfter(r, pre, level, x, post, 4);
    HeadingsChain(t, r, r, r, r);
  }

  lemma HeadingsSecond(t: string, r: string, pre: string, level: nat, w: char, x: string, post: string)
    requires level == 2 && HeadingContext(pre, level, w, x, post) && t == pre + Hashes(level) + [w] + x + post
    requires r == pre + HeadingOpen(level) + x + HeadingClose + post && HeadingFrom(t, level, 0) == r
    ensures Headings(t) == r
  {
    IdleBefore(t, pre, level, w, x, post, 1);
    IdleAfter(r, pre, level, x, post, 3); IdleAfter(r, pre, level, x, post, 4);
    HeadingsChain(t, t, r, r, r);
  }

  lemma HeadingsThird(t: string, r: string, pre: string, level: nat, w: char, x: string, post: string)
    requires level == 3 && HeadingContext(pre, level, w, x, post) && t == pre + Hashes(level) + [w] + x + post
    requires r == pre + HeadingOpen(level) + x + HeadingClose + post && HeadingFrom(t, level, 0) == r
    ensures Headings(t) == r
  {
    IdleBefore(t, pre, level, w, x, post, 1); IdleBefore(t, pre, level, w, x, post, 2);
    IdleAfter(r, pre, level, x, post, 4);
    HeadingsChain(t, t, t, r, r);
  }

  lemma HeadingsFourth(t: string, r: string, pre: string, level: nat, w: char, x: string, post: string)
    requires level == 4 && HeadingContext(pre, level, w, x, post) && t == pre + Hashes(level) + [w] + x + post
    requires r == pre + HeadingOpen(level) + x + HeadingClose + post && HeadingFrom(t, level, 0) == r
    ensures Headings(t) == r
  {
    IdleBefore(t, pre, level, w, x, post, 1); IdleBefore(t, pre, level, w, x, post, 2);
    IdleBefore(t, pre, level, w, x, post, 3);
    HeadingsChain(t, t, t, t, r);
  }

  /** The four passes, given the outcome of each. */
  lemma HeadingsChain(s: string, a1: string, a2: string, a3: string, a4: string)
    requires HeadingFrom(s, 1, 0) == a1 && HeadingFrom(a1, 2, 0) == a2
    requires HeadingFrom(a2, 3, 0) == a3 && HeadingFrom(a3, 4, 0) == a4
    ensures Headings(s) == a4
  {
  }

  /** The same, for a text already given as the heading line with its surroundings. */
  lemma HeadingInTextAt(t: string, pre: string, level: nat, w: char, x: string, post: string)
    requires HeadingContext(pre, level, w, x, post) && t == pre + Hashes(level) + [w] + x + post
    ensures Headings(t) == pre + HeadingOpen(level) + x + HeadingClose + post
  {
    HeadingInText(pre, level, w, x, post);
  }

  lemma IdleBefore(t: string, pre: string, level: nat, w: char, x: string, post: string, other: nat)
    requires HeadingContext(pre, level, w, x, post) && t == pre + Hashes(level) + [w] + x + post
    requires 1 <= other <= 4 && other != level
    ensures HeadingFrom(t, other, 0) == t
  {
    HeadingLayoutOf(t, pre, level, w, x, post);
    OtherLevelsIdleBefore(t, pre, level, w, x, post, other);
    HeadingPassIdle(t, other);
  }

  lemma IdleAfter(r: string, pre: string, level: nat, x: string, post: string, other: nat)
    requires 1 <= level <= 4 && 1 <= other <= 4 && NoLineTerminator(x)
    requires '#' !in pre && '#' !in post
    requires r == pre + HeadingOpen(level) + x + HeadingClose + post
    ensures HeadingFrom(r, other, 0) == r
  {
    AllLevelsIdleAfter(r, pre, level, x, post, other);
    HeadingPassIdle(r, other);
  }

  /** Five signs are not a heading: no pass matches, the line is left as it is. */
  lemma FiveHashesUntouched(x: string)
    requires NoLineTerminator(x)
    ensures Headings(Hashes(5) + " " + x) == Hashes(5) + " " + x
  {
    var s := Hashes(5) + " " + x;
    assert NoLineTerminator(s) by {
      assert forall k :: 6 <= k < |s| ==> s[k] == x[k - 6];
      assert forall k :: 0 <= k < 5 ==> s[k] == '#';
    }
    forall level | 1 <= level <= 4
      ensures HeadingAt(s, level, 0).None?
    {
      assert s[level] == '#';
    }
    HeadingNone(s, 1); HeadingNone(s, 2); HeadingNone(s, 3); HeadingNone(s, 4);
  }

  const QuoteOpen := "<div class=\"blockquote\">"
  const QuoteClose := "</div>"

  /**
   * The global replace of `/>\s(.*?)$/gm` from `p` on: a `>` and one
   * whitespace character, then the lazy group up to the first end of line.
   */
  function BlockquoteFrom(s: string, p: nat): string
    requires p <= |s|
    decreases |s| - p
  {
    if p == |s| then []
    else if s[p] == '>' && p + 1 < |s| && IsSpace(s[p + 1]) then
      var e := LineEnd(s, p + 2);
      QuoteOpen + s[p + 2..e] + QuoteClose + BlockquoteFrom(s, e)
    else [s[p]] + BlockquoteFrom(s, p + 1)
  }

  function Blockquote(s: string): string {
    BlockquoteFrom(s, 0)
  }

  /** No `>` in `s` is followed by whitespace, so the blockquote regex finds nothing. */
  predicate NoQuoteMarker(s: string) {
    forall q :: 0 <= q < |s| - 1 && s[q] == '>' ==> !IsSpace(s[q + 1])
  }

  /** Two such texts joined stay so unless the first ends in `>` and the second starts with whitespace. */
  lemma NoQuoteMarkerConcat(a: string, b: string)
    requires NoQuoteMarker(a) && NoQuoteMarker(b)
    requires a == [] || b == [] || a[|a| - 1] != '>' || !IsSpace(b[0])
    ensures NoQuoteMarker(a + b)
  {
    var s := a + b;
    forall q | 0 <= q < |s| - 1 && s[q] == '>'
      ensures !IsSpace(s[q + 1])
    {
      if q < |a| - 1 {
        assert s[q] == a[q] && s[q + 1] == a[q + 1];
      } else if q == |a| - 1 {
        assert s[q + 1] == b[0];
      } else {
        assert s[q] == b[q - |a|] && s[q + 1] == b[q + 1 - |a|];
      }
    }
  }

  /** Where no `>` is followed by whitespace, the blockquote pass changes nothing. */
  lemma {:induction false} BlockquoteQuiet(s: string, p: nat)
    requires p <= |s| && NoQuoteMarker(s)
    ensures BlockquoteFrom(s, p) == s[p..]
    decreases |s| - p
  {
    if p < |s| {
      BlockquoteQuiet(s, p + 1);
      assert s[p..] == [s[p]] + s[p + 1..];
    }
  }

  /** Where no `>` followed by whitespace starts in `s[p..q]`, the blockquote pass copies that stretch. */
  lemma {:induction false} BlockquoteCopyRange(s: string, p: nat, q: nat)
    requires p <= q <= |s|
    requires forall k :: p <= k < q && s[k] == '>' && k + 1 < |s| ==> !IsSpace(s[k + 1])
    ensures BlockquoteFrom(s, p) == s[p..q] + BlockquoteFrom(s, q)
    decreases q - p
  {
    if p < q {
      BlockquoteCopyRange(s, p + 1, q);
      ConsSlice(s, p, q, BlockquoteFrom(s, q));
    }
  }

  /**
   * A text ending in the `>` of a tag, then a newline and one more line: the
   * pattern takes that `>`, the newline and the whole next line for a
   * blockquote.
   */
  lemma QuoteAfterTag(a: string, b: string)
    requires |a| > 0 && a[|a| - 1] == '>' && NoQuoteMarker(a) && NoLineTerminator(b)
    ensures Blockquote(a + "\n" + b) == a[..|a| - 1] + QuoteOpen + b + QuoteClose
  {
    QuoteAfterTagIn(a + "\n" + b, a, b);
  }

  lemma QuoteAfterTagIn(s: string, a: string, b: string)
    requires |a| > 0 && a[|a| - 1] == '>' && NoQuoteMarker(a) && NoLineTerminator(b)
    requires s == a + "\n" + b
    ensures BlockquoteFrom(s, 0) == a[..|a| - 1] + QuoteOpen + b + QuoteClose
  {
    var n := |a| - 1;
    TagPrefixQuiet(s, a, b);
    TagLineEnd(s, a, b);
    TagLineSlices(s, a, b);
    SpliceQuoteAs(s, n, a[..n], b);
  }

  lemma TagLineSlices(s: string, a: string, b: string)
    requires |a| > 0 && s == a + "\n" + b
    ensures s[..|a| - 1] == a[..|a| - 1] && s[|a| + 1..] == b
  {
  }

  /** The one-match splice, read back in terms of the text before the `>` and the quoted line. */
  lemma SpliceQuoteAs(s: string, n: nat, pre: string, b: string)
    requires n + 1 < |s| && s[n] == '>' && IsSpace(s[n + 1]) && LineEnd(s, n + 2) == |s|
    requires forall k :: 0 <= k < n && s[k] == '>' && k + 1 < |s| ==> !IsSpace(s[k + 1])
    requires s[..n] == pre && s[n + 2..] == b
    ensures BlockquoteFrom(s, 0) == pre + QuoteOpen + b + QuoteClose
  {
    SpliceOneQuote(s, n);
    AppendAssoc4(pre, QuoteOpen, b, QuoteClose);
  }

  lemma TagPrefixQuiet(s: string, a: string, b: string)
    requires |a| > 0 && NoQuoteMarker(a) && s == a + "\n" + b
    ensures forall k :: 0 <= k < |a| - 1 && s[k] == '>' && k + 1 < |s| ==> !IsSpace(s[k + 1])
  {
    assert forall k :: 0 <= k < |a| ==> s[k] == a[k];
  }

  lemma TagLineEnd(s: string, a: string, b: string)
    requires |a| > 0 && a[|a| - 1] == '>' && NoLineTerminator(b) && s == a + "\n" + b
    ensures s[|a| - 1] == '>' && IsSpace(s[|a|]) && LineEnd(s, |a| + 1) == |s|
  {
    assert s[|a|] == '\n';
    assert forall k :: |a| + 1 <= k < |s| ==> s[k] == b[k - |a| - 1];
    LineEndIs(s, |a| + 1, |s|);
  }

  /** One blockquote match running to the end of the text, and none before it. */
  lemma SpliceOneQuote(s: string, n: nat)
    requires n + 1 < |s| && s[n] == '>' && IsSpace(s[n + 1]) && LineEnd(s, n + 2) == |s|
    requires forall k :: 0 <= k < n && s[k] == '>' && k + 1 < |s| ==> !IsSpace(s[k + 1])
    ensures BlockquoteFrom(s, 0) == s[..n] + (QuoteOpen + s[n + 2..] + QuoteClose)
  {
    BlockquoteCopyRange(s, 0, n);
    QuoteMatchStep(s, n);
    assert BlockquoteFrom(s, |s|) == [];
    assert s[0..n] == s[..n] && s[n + 2..|s|] == s[n + 2..];
  }

  /** At a `>` followed by whitespace the pass emits a blockquote of the rest of the line. */
  lemma QuoteMatchStep(s: string, p: nat)
    requires p + 1 < |s| && s[p] == '>' && IsSpace(s[p + 1])
    ensures BlockquoteFrom(s, p) == QuoteOpen + s[p + 2..LineEnd(s, p + 2)] + QuoteClose + BlockquoteFrom(s, LineEnd(s, p + 2))
  {
  }

  /** Text without `#` goes through the heading passes unchanged. */
  lemma {:induction false} HeadingAbsent(s: string, level: nat, p: nat)
    requires 1 <= level <= 4 && p <= |s| && '#' !in s
    ensures HeadingFrom(s, level, p) == s[p..]
    decreases |s| - p
  {
    if p < |s| {
      assert s[p] in s;
      assert HeadingAt(s, level, p).None? by {
        if p + level <= |s| {
          assert s[p..p + level][0] == s[p];
        }
      }
      HeadingAbsent(s, level, p + 1);
      assert s[p..] == [s[p]] + s[p + 1..];
    }
  }

  lemma HeadingsAbsent(s: string)
    requires '#' !in s
    ensures Headings(s) == s
  {
    HeadingAbsent(s, 1, 0);
    HeadingAbsent(s, 2, 0);
    HeadingAbsent(s, 3, 0);
    HeadingAbsent(s, 4, 0);
  }
}
