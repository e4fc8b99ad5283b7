/**
 * What the whole of `parseResponse` does to some kinds of input: text with
 * no markup, one fenced block, one bold, math or heading span, and a table.
 */
module RenderFacts {
  import opened Wrappers
  import opened Text
  import opened Html
  import opened Fences
  import opened Inline
  import opened Lines
  import opened Tables
  import opened Renderer

  /** Text none of the passes reacts to: no backquote, `*`, `$`, `|`, `#` or `>`. */
  predicate Plain(s: string) {
    '`' !in s && '*' !in s && '$' !in s && '|' !in s && '#' !in s && '>' !in s
  }

  /** Where no row can end, the table pass copies the text. */
  lemma {:induction false} TablesCopy(v: Variant, s: string, p: nat)
    requires p <= |s| && '|' !in s
    ensures TablesFrom(v, s, p) == s[p..]
    decreases |s| - p
  {
    if p < |s| {
      NoTableWithoutPipe(s, p);
      TablesCopy(v, s, p + 1);
      assert s[p..] == [s[p]] + s[p + 1..];
    }
  }

  /** Every table row ends in `|`, so text without one holds no table. */
  lemma NoTableWithoutPipe(s: string, p: nat)
    requires p < |s| && '|' !in s
    ensures TableMatchAt(s, p).None?
  {
    if s[p] == '\n' {
      assert RowLine(s, p + 1).None? by {
        assert forall i :: 0 <= i < |s| ==> s[i] != '|';
      }
    }
  }

  /** The pair passes leave text without `*` and `$` alone. */
  lemma InlineQuiet(s: string)
    requires '*' !in s && '$' !in s
    ensures Bold(s) == s && Math(s) == s && Italic(s) == s
  {
    AbsentChar(s, "**");
    PairPassAbsent(s, "**", "<b>", "</b>");
    AbsentChar(s, "$$");
    PairPassAbsent(s, "$$", MathOpen, MathClose);
    AbsentChar(s, "$");
    PairPassAbsent(s, "$", MathOpen, MathClose);
    AbsentChar(s, "*");
    PairPassAbsent(s, "*", "<i>", "</i>");
  }

  /**
   * Text the passes after the math pass leave alone: no backquote, `*`,
   * `$`, `|` or `#`, and no `>` followed by whitespace.
   */
  predicate Inert(s: string) {
    '`' !in s && '*' !in s && '$' !in s && '|' !in s && '#' !in s && NoQuoteMarker(s)
  }

  predicate PlainChar(c: char) {
    c != '`' && c != '*' && c != '$' && c != '|' && c != '#' && c != '>'
  }

  /** Plainness checked character by character, which is cheaper on long literals. */
  lemma PlainOfChars(s: string)
    requires forall i :: 0 <= i < |s| ==> PlainChar(s[i])
    ensures Plain(s)
  {
  }

  lemma PlainIsInert(s: string)
    requires Plain(s)
    ensures Inert(s)
  {
    assert forall q :: 0 <= q < |s| ==> s[q] != '>';
  }

  /** The passes after the tables leave inert text alone. */
  lemma LatePassesQuiet(s: string)
    requires Inert(s)
    ensures Italic(Blockquote(Headings(s))) == s
  {
    HeadingsAbsent(s);
    QuoteItalicQuiet(s);
  }

  /** The blockquote and italic passes leave inert text alone. */
  lemma QuoteItalicQuiet(s: string)
    requires Inert(s)
    ensures Italic(Blockquote(s)) == s
  {
    BlockquoteQuiet(s, 0);
    AbsentChar(s, "*");
    PairPassAbsent(s, "*", "<i>", "</i>");
  }

  /**
   * When the text holds no backquote and the bold and math passes turn it
   * into inert text, that is what either version returns.
   */
  lemma RenderVia(v: Variant, s: string, y: string)
    requires '`' !in s && Math(Bold(s)) == y && Inert(y)
    ensures Render(v, s) == y
  {
    TablesCopy(v, y, 0);
    if v == Current {
      NoBackquoteProtect(s);
      LatePassesQuiet(y);
      assert Placeholders(0, 0) == [];
    }
  }

  /** Text without markup comes out as it went in, in both versions. */
  lemma RenderPlain(v: Variant, s: string)
    requires Plain(s)
    ensures Render(v, s) == s
  {
    InlineQuiet(s);
    PlainIsInert(s);
    RenderVia(v, s, s);
  }

  /**
   * `**x**` comes out as a `<b>` element in both versions. In markdowns.js
   * the later blockquote regex would also fire on `<b>` if `x` started with
   * whitespace, so that case is excluded.
   */
  lemma RenderBold(v: Variant, x: string)
    requires Plain(x) && NoLineTerminator(x) && (x == [] || !IsSpace(x[0]))
    ensures Render(v, "**" + x + "**") == "<b>" + x + "</b>"
  {
    var y := "<b>" + x + "</b>";
    BoldOne(x);
    PlainIsInert(x);
    BoldMarkupInert();
    InertConcat("<b>", x);
    InertConcat("<b>" + x, "</b>");
    InlineQuiet(y);
    RenderVia(v, "**" + x + "**", y);
  }

  lemma BoldMarkupInert()
    ensures Inert("<b>") && Inert("</b>")
  {
    GtInert();
    PlainIsInert("<b");
    PlainIsInert("</b");
    InertConcat("<b", ">");
    InertConcat("</b", ">");
    assert "<b>" == "<b" + ">" && "</b>" == "</b" + ">";
  }

  lemma GtInert()
    ensures Inert(">")
  {
  }

  /** Two inert texts joined stay inert unless the first ends in `>` and the second starts with whitespace. */
  lemma InertConcat(a: string, b: string)
    requires Inert(a) && Inert(b)
    requires a == [] || b == [] || a[|a| - 1] != '>' || !IsSpace(b[0])
    ensures Inert(a + b)
  {
    NoQuoteMarkerConcat(a, b);
    forall c | c in a + b
      ensures c in a || c in b
    {
      var i :| 0 <= i < |a + b| && (a + b)[i] == c;
      if i < |a| {
        assert a[i] == c;
      } else {
        assert b[i - |a|] == c;
      }
    }
  }

  /** The markup of a math span is inert. */
  lemma MathMarkupInert()
    ensures Inert(MathOpen) && Inert(MathClose)
  {
    MathOpenInert();
    MathCloseInert();
  }

  lemma MathOpenInert()
    ensures Inert(MathOpen)
  {
    var a, b := "<span class=\"mathjax-latex\"", "\\(";
    assert MathOpen == a + ">" + b;
    OpenPiecesInert();
    GtInert();
    InertConcat(a, ">");
    InertConcat(a + ">", b);
  }

  lemma OpenPiecesInert()
    ensures Inert("<span class=\"mathjax-latex\"") && Inert("\\(")
  {
    PlainOfChars("<span class=\"mathjax-latex\"");
    PlainOfChars("\\(");
    PlainIsInert("<span class=\"mathjax-latex\"");
    PlainIsInert("\\(");
  }

  lemma MathCloseInert()
    ensures Inert(MathClose)
  {
    var c := "\\)</span";
    assert MathClose == c + ">";
    PlainOfChars(c);
    PlainIsInert(c);
    GtInert();
    InertConcat(c, ">");
  }

  /** `$$x$$` and `$x$` both come out as the MathJax span of `x`, in both versions. */
  lemma RenderMath(v: Variant, x: string)
    requires Plain(x) && NoLineTerminator(x)
    ensures Render(v, "$$" + x + "$$") == MathOpen + x + MathClose
    ensures Render(v, "$" + x + "$") == MathOpen + x + MathClose
  {
    var y := MathOpen + x + MathClose;
    MathSpans(x);
    DollarsQuiet(x, "$$");
    DollarsQuiet(x, "$");
    MathMarkupInert();
    PlainIsInert(x);
    InertConcat(MathOpen, x);
    InertConcat(MathOpen + x, MathClose);
    RenderVia(v, "$$" + x + "$$", y);
    RenderVia(v, "$" + x + "$", y);
  }

  /** A span between dollar marks has no backquote and goes through the bold pass unchanged. */
  lemma DollarsQuiet(x: string, d: string)
    requires Plain(x) && '`' !in d && '*' !in d
    ensures '`' !in d + x + d && '*' !in d + x + d
    ensures Bold(d + x + d) == d + x + d
  {
    var s := d + x + d;
    forall c | c in s
      ensures c in d || c in x
    {
      var i :| 0 <= i < |s| && s[i] == c;
      if i < |d| {
        assert d[i] == c;
      } else if i < |d + x| {
        assert x[i - |d|] == c;
      } else {
        assert d[i - |d + x|] == c;
      }
    }
    AbsentChar(s, "**");
    PairPassAbsent(s, "**", "<b>", "</b>");
  }

  /**
   * A heading line of one to four signs becomes the styled span of its text
   * in markdowns.js; the earlier version has no heading pass. A text starting
   * with whitespace is excluded: the blockquote regex would fire on the `>`
   * that closes the opening tag.
   */
  lemma RenderHeading(level: nat, x: string)
    requires 1 <= level <= 4 && Plain(x) && NoLineTerminator(x) && |x| > 0 && !IsSpace(x[0])
    ensures Render(Current, Hashes(level) + " " + x) == HeadingOpen(level) + x + HeadingClose
    ensures Render(Earlier, Hashes(level) + " " + x) == Hashes(level) + " " + x
  {
    var s := Hashes(level) + " " + x;
    HeadingSourceEarly(level, x);
    HeadingLine(x, level);
    HeadingSpanInert(level, x);
    RenderCurrentVia(s);
  }

  /**
   * A heading as the last line of a longer response: markdowns.js turns that
   * line into the styled span and leaves the lines before it as they are; the
   * earlier version returns the response unchanged.
   */
  lemma RenderHeadingLast(pre: string, level: nat, x: string)
    requires 1 <= level <= 4 && Plain(pre) && (pre == [] || IsLineTerminator(pre[|pre| - 1]))
    requires Plain(x) && NoLineTerminator(x) && |x| > 0 && !IsSpace(x[0])
    ensures Render(Current, pre + Hashes(level) + " " + x) == pre + HeadingOpen(level) + x + HeadingClose
    ensures Render(Earlier, pre + Hashes(level) + " " + x) == pre + Hashes(level) + " " + x
  {
    var s := pre + Hashes(level) + " " + x;
    var y := pre + HeadingOpen(level) + x + HeadingClose;
    HeadingTextSource(s, pre, level, x, []);
    assert Headings(s) == y by {
      HeadingInText(pre, level, ' ', x, []);
    }
    LastHeadingInert(y, pre, level, x);
    RenderCurrentVia(s);
    RenderEarlierQuiet(s);
  }

  /** A response around a heading line reaches the heading passes unchanged. */
  lemma HeadingTextSource(s: string, pre: string, level: nat, x: string, post: string)
    requires 1 <= level <= 4 && Plain(pre) && Plain(x) && Plain(post)
    requires s == pre + Hashes(level) + " " + x + post
    ensures s == pre + Hashes(level) + [' '] + x + post
    ensures '`' !in s && '*' !in s && '$' !in s && '|' !in s
  {
    HeadingSourceEarly(level, x);
    var h := Hashes(level) + " " + x;
    EarlyQuietConcat(pre, h);
    EarlyQuietConcat(pre + h, post);
  }

  lemma EarlyQuietConcat(a: string, b: string)
    requires '`' !in a && '*' !in a && '$' !in a && '|' !in a
    requires '`' !in b && '*' !in b && '$' !in b && '|' !in b
    ensures '`' !in a + b && '*' !in a + b && '$' !in a + b && '|' !in a + b
  {
  }

  lemma LastHeadingInert(y: string, pre: string, level: nat, x: string)
    requires 1 <= level <= 4 && Plain(pre) && Plain(x) && |x| > 0 && !IsSpace(x[0])
    requires y == pre + HeadingOpen(level) + x + HeadingClose
    ensures Inert(y)
  {
    var sp := HeadingOpen(level) + x + HeadingClose;
    HeadingSpanInert(level, x);
    PlainIsInert(pre);
    assert pre == [] || pre[|pre| - 1] in pre;
    assert y == pre + sp;
    InertConcat(pre, sp);
  }

  /** The earlier version leaves text without `*`, `$` or pipe alone. */
  lemma RenderEarlierQuiet(s: string)
    requires '*' !in s && '$' !in s && '|' !in s
    ensures Render(Earlier, s) == s
  {
    InlineQuiet(s);
    TablesCopy(Earlier, s, 0);
    assert s[0..] == s;
  }

  /**
   * A heading followed by another line: the blockquote pattern takes the `>`
   * closing the span, the newline and the next line, so markdowns.js
   * returns a broken closing tag followed by a blockquote of that line.
   */
  lemma RenderHeadingThenLine(pre: string, level: nat, x: string, b: string)
    requires 1 <= level <= 4 && Plain(pre) && (pre == [] || IsLineTerminator(pre[|pre| - 1]))
    requires Plain(x) && NoLineTerminator(x) && |x| > 0 && !IsSpace(x[0])
    requires Plain(b) && NoLineTerminator(b)
    ensures Render(Current, pre + Hashes(level) + " " + x + "\n" + b)
         == pre + HeadingOpen(level) + x + "</span" + QuoteOpen + b + QuoteClose
  {
    var post := "\n" + b;
    var s := pre + Hashes(level) + " " + x + post;
    var a := pre + HeadingOpen(level) + x + HeadingClose;
    var y := pre + HeadingOpen(level) + x + "</span" + QuoteOpen + b + QuoteClose;
    NewlinePlain(b, post);
    HeadingTextSource(s, pre, level, x, post);
    NewlineContext(pre, level, x, post);
    HeadingInTextAt(s, pre, level, ' ', x, post);
    SpanThenLine(a, pre, level, x, b, y);
    Reassociate3(a, "\n", b);
    RenderCurrentThrough(s, y);
    Reassociate3(pre + Hashes(level) + " " + x, "\n", b);
  }

  lemma Reassociate3(u: string, v: string, w: string)
    ensures u + (v + w) == u + v + w
  {
  }

  lemma NewlinePlain(b: string, post: string)
    requires Plain(b) && post == "\n" + b
    ensures Plain(post) && |post| > 0 && post[0] == '\n'
  {
  }

  lemma NewlineContext(pre: string, level: nat, x: string, post: string)
    requires 1 <= level <= 4 && Plain(pre) && (pre == [] || IsLineTerminator(pre[|pre| - 1]))
    requires Plain(x) && NoLineTerminator(x) && |x| > 0 && Plain(post) && |post| > 0 && post[0] == '\n'
    ensures HeadingContext(pre, level, ' ', x, post)
  {
  }

  /** The blockquote pass on a heading span followed by a line. */
  lemma SpanThenLine(a: string, pre: string, level: nat, x: string, b: string, y: string)
    requires 1 <= level <= 4 && Plain(pre) && Plain(x) && |x| > 0 && !IsSpace(x[0]) && Plain(b) && NoLineTerminator(b)
    requires a == pre + HeadingOpen(level) + x + HeadingClose
    requires y == pre + HeadingOpen(level) + x + "</span" + QuoteOpen + b + QuoteClose
    ensures Blockquote(a + "\n" + b) == y && '*' !in y
  {
    LastHeadingInert(a, pre, level, x);
    assert a[|a| - 1] == '>';
    QuoteAfterTag(a, b);
    assert a[..|a| - 1] == pre + HeadingOpen(level) + x + "</span";
    QuoteTagsNoStar();
    assert '*' !in a[..|a| - 1] by {
      assert forall i :: 0 <= i < |a| - 1 ==> a[..|a| - 1][i] == a[i];
    }
  }

  lemma QuoteTagsNoStar()
    ensures '*' !in QuoteOpen && '*' !in QuoteClose
  {
    assert forall i :: 0 <= i < |QuoteOpen| ==> QuoteOpen[i] != '*';
  }

  /**
   * Text without backquote, `*`, `$` or pipe reaches the heading passes
   * unchanged; whatever the heading and blockquote passes make of it is what
   * markdowns.js returns, as long as it holds no `*`.
   */
  lemma RenderCurrentThrough(s: string, y: string)
    requires '`' !in s && '*' !in s && '$' !in s && '|' !in s
    requires Blockquote(Headings(s)) == y && '*' !in y
    ensures Render(Current, s) == y
  {
    NoBackquoteProtect(s);
    InlineQuiet(s);
    TablesCopy(Current, s, 0);
    assert s[0..] == s;
    AbsentChar(y, "*");
    PairPassAbsent(y, "*", "<i>", "</i>");
    assert Placeholders(0, 0) == [];
  }

  /**
   * Text without backquote, `*`, `$` or pipe reaches the heading passes
   * unchanged; when they turn it into inert text, that is what markdowns.js
   * returns.
   */
  lemma RenderCurrentVia(s: string)
    requires '`' !in s && '*' !in s && '$' !in s && '|' !in s
    requires Inert(Headings(s))
    ensures Render(Current, s) == Headings(s)
  {
    NoBackquoteProtect(s);
    InlineQuiet(s);
    TablesCopy(Current, s, 0);
    assert s[0..] == s;
    QuoteItalicQuiet(Headings(s));
    assert Placeholders(0, 0) == [];
  }

  /** A heading line goes unchanged through every pass before the heading passes. */
  lemma HeadingSourceEarly(level: nat, x: string)
    requires 1 <= level <= 4 && Plain(x)
    ensures var s := Hashes(level) + " " + x;
      '`' !in s && '*' !in s && '$' !in s && '|' !in s &&
      Blocks(s) == [] && Protect(s) == s && Math(Bold(s)) == s &&
      TablesFrom(Current, s, 0) == s && TablesFrom(Earlier, s, 0) == s
  {
    var s := Hashes(level) + " " + x;
    assert forall i :: 0 <= i < |Hashes(level)| ==> Hashes(level)[i] == '#';
    assert '`' !in s && '*' !in s && '$' !in s && '|' !in s;
    NoBackquoteProtect(s);
    InlineQuiet(s);
    TablesCopy(Current, s, 0);
    TablesCopy(Earlier, s, 0);
    assert s[0..] == s;
  }

  /** The styled span of a heading is inert when its text is plain and does not start with whitespace. */
  lemma HeadingSpanInert(level: nat, x: string)
    requires 1 <= level <= 4 && Plain(x) && |x| > 0 && !IsSpace(x[0])
    ensures Inert(HeadingOpen(level) + x + HeadingClose)
  {
    HeadingMarkupInert(level);
    PlainIsInert(x);
    InertConcat(HeadingOpen(level), x);
    InertConcat(HeadingOpen(level) + x, HeadingClose);
  }

  /** The markup of a heading span is inert. */
  lemma HeadingMarkupInert(level: nat)
    requires 1 <= level <= 4
    ensures Inert(HeadingOpen(level)) && Inert(HeadingClose)
  {
    var n := DecimalString(FontSize(level));
    assert Plain(n) by {
      assert forall i :: 0 <= i < |n| ==> '0' <= n[i] <= '9';
    }
    var w := FontWeight(level);
    StylePiecesPlain();
    assert Plain(w);
    GtInert();
    PlainIsInert(SizeAttr);
    PlainIsInert(n);
    PlainIsInert(WeightAttr);
    PlainIsInert(w);
    PlainIsInert(";\"");
    InertConcat(SizeAttr, n);
    InertConcat(SizeAttr + n, WeightAttr);
    InertConcat(SizeAttr + n + WeightAttr, w);
    InertConcat(SizeAttr + n + WeightAttr + w, ";\"");
    InertConcat(SizeAttr + n + WeightAttr + w + ";\"", ">");
    assert StyleEnd == ";\"" + ">";
    assert HeadingOpen(level) == SizeAttr + n + WeightAttr + w + ";\"" + ">";
    PlainIsInert("</span");
    InertConcat("</span", ">");
    assert HeadingClose == "</span" + ">";
  }

  lemma StylePiecesPlain()
    ensures Plain(SizeAttr) && Plain(WeightAttr) && Plain(";\"") && Plain("</span")
    ensures Plain("bold") && Plain("normal")
  {
    PlainOfChars(SizeAttr);
    PlainOfChars(WeightAttr);
    PlainOfChars(";\"");
    PlainOfChars("</span");
    PlainOfChars("bold");
    PlainOfChars("normal");
  }

  /** The placeholder of the first block is plain text. */
  lemma PlaceholderPlain()
    ensures Plain(Placeholder(0))
  {
    PlaceholderShape(0);
  }

  /** A lone block is swapped for the first placeholder. */
  lemma ProtectSingle(x: string)
    requires '`' !in x
    ensures Blocks(Fence + x + Fence) == [Fence + x + Fence]
    ensures Protect(Fence + x + Fence) == Placeholder(0)
  {
    var b := Fence + x + Fence;
    var ph := Placeholder(0);
    SingleBlock(x);
    PlaceholderShape(0);
    assert Placeholders(0, 1) == [ph];
    ReplaceOnce(b, b, ph);
    ReplaceWhole(b, ph);
  }

  /** The placeholder gives way to the block's element. */
  lemma RestoreSingle(x: string)
    requires '`' !in x && '$' !in x
    ensures Restore(Placeholder(0), [Fence + x + Fence]) == CodeBlockHtml(x)
  {
    var b := Fence + x + Fence;
    var ph := Placeholder(0);
    var ui := CodeBlockHtml(x);
    SingleBlockBody(x);
    CodeBlockNoDollar(x);
    assert BlockUis([b]) == [ui];
    assert Placeholders(0, 1) == [ph];
    ReplaceOnce(ph, ph, ui);
    ReplaceWhole(ph, ui);
  }

  /**
   * The earlier `extractCodeBlocks` (script.js:144-152) swaps a lone block
   * for its element directly, and the element shows the block's body.
   */
  lemma ExtractEarlierSingle(x: string)
    requires '`' !in x && '$' !in x
    ensures ExtractCodeBlocksEarlier(Fence + x + Fence) == CodeBlockHtml(x)
    ensures PreText(ExtractCodeBlocksEarlier(Fence + x + Fence)) == Some(x)
  {
    var b := Fence + x + Fence;
    var ui := CodeBlockHtml(x);
    SingleBlock(x);
    SingleBlockBody(x);
    CodeBlockNoDollar(x);
    assert BlockUis([b]) == [ui];
    ReplaceOnce(b, b, ui);
    ReplaceWhole(b, ui);
    PreTextOfCodeBlock(x);
  }

  /**
   * markdowns.js:37-69 on a response whose text outside the code blocks holds
   * no markup: every block comes out as its element, exactly where it stood,
   * and the rest of the response is unchanged. The response must not spell
   * `CODEBLOCK` itself, and no block may hold a `$`.
   */
  lemma RenderCodeBlocks(s: string)
    requires Lacks(s, Marker) && Plain(Protect(s))
    requires forall i :: 0 <= i < |Blocks(s)| ==> '$' !in Blocks(s)[i]
    ensures Render(Current, s) == Spliced(s, MatchesFrom(s, 0), 0, BlockUis(Blocks(s)))
  {
    var t := Protect(s);
    InlineQuiet(t);
    TablesCopy(Current, t, 0);
    assert t[0..] == t;
    PlainIsInert(t);
    LatePassesQuiet(t);
    RestoreProtect(s);
  }

  /**
   * A fenced block on its own becomes the code-block element showing its
   * body, untouched by every pass in between: markup inside the fences stays
   * as it is. A `$` in the body is excluded, since the restoring `replace`
   * would read it as a pattern.
   */
  lemma RenderCodeBlock(x: string)
    requires '`' !in x && '$' !in x
    ensures Render(Current, Fence + x + Fence) == CodeBlockHtml(x)
    ensures PreText(Render(Current, Fence + x + Fence)) == Some(x)
  {
    var ph := Placeholder(0);
    ProtectSingle(x);
    PlaceholderShape(0);
    InlineQuiet(ph);
    TablesCopy(Current, ph, 0);
    PlaceholderPlain();
    PlainIsInert(ph);
    LatePassesQuiet(ph);
    RestoreSingle(x);
    PreTextOfCodeBlock(x);
  }
}
