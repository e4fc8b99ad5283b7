/**
 * What `parseTables` does to a response that is one well-formed table: a
 * header row, a separator row and body rows, each written `|a|b|`, between
 * blank lines. Both versions recognise the whole table as one match; the
 * header cells come out trimmed and every body cell rendered.
 */
module TableFacts {
  import opened Wrappers
  import opened Text
  import opened Html
  import opened Inline
  import opened Tables
  import opened Renderer

  /** A row written the usual way: every cell between two pipes. */
  function RowText(cells: seq<string>): string {
    Join([""] + cells + [""], '|')
  }

  /** A row that can be written that way: at least one cell, none holding a pipe or a line break. */
  predicate RowOk(cells: seq<string>) {
    |cells| >= 1 && forall i :: 0 <= i < |cells| ==> '|' !in cells[i] && NoLineTerminator(cells[i])
  }

  /** What the row pattern of both versions asks of one line. */
  predicate LineOk(line: string) {
    |line| >= 2 && line[0] == '|' && line[|line| - 1] == '|' && NoLineTerminator(line)
  }

  function RowTexts(rows: seq<seq<string>>): (r: seq<string>)
    ensures |r| == |rows| && forall i :: 0 <= i < |r| ==> r[i] == RowText(rows[i])
  {
    seq(|rows|, i requires 0 <= i < |rows| => RowText(rows[i]))
  }

  /** A response that is one table: header, separator and body rows, with a blank line before and after. */
  function TableSource(header: seq<string>, separator: seq<string>, body: seq<seq<string>>): string {
    "\n" + Join(RowTexts([header, separator] + body), '\n') + "\n\n"
  }

  /** The body as `createTable` fills it: every cell trimmed and rendered. */
  function RenderedRows(v: Variant, body: seq<seq<string>>): (r: seq<seq<string>>)
    requires forall i :: 0 <= i < |body| ==> RowOk(body[i])
    ensures |r| == |body|
  {
    if |body| == 0 then []
    else
      RowNoNewline(body[0]);
      [RenderCells(v, body[0])] + RenderedRows(v, body[1..])
  }

  lemma RowNoNewline(cells: seq<string>)
    requires RowOk(cells)
    ensures forall k :: 0 <= k < |cells| ==> '\n' !in cells[k]
  {
    forall k | 0 <= k < |cells|
      ensures '\n' !in cells[k]
    {
      assert forall m :: 0 <= m < |cells[k]| ==> cells[k][m] != '\n';
    }
  }

  /** The lines of well-formed rows are what the row pattern asks for, and hold no `\n`. */
  lemma LinesOf(rows: seq<seq<string>>)
    requires forall i :: 0 <= i < |rows| ==> RowOk(rows[i])
    ensures forall i :: 0 <= i < |rows| ==> LineOk(RowTexts(rows)[i]) && '\n' !in RowTexts(rows)[i]
  {
    forall i | 0 <= i < |rows|
      ensures LineOk(RowTexts(rows)[i]) && '\n' !in RowTexts(rows)[i]
    {
      var t := RowText(rows[i]);
      RowTextLine(rows[i]);
      assert forall k :: 0 <= k < |t| ==> t[k] != '\n';
    }
  }

  /** Joining parts after a last part. */
  lemma {:induction false} JoinSnoc(ps: seq<string>, x: string, sep: char)
    requires |ps| >= 1
    ensures Join(ps + [x], sep) == Join(ps, sep) + [sep] + x
    decreases |ps|
  {
    assert (ps + [x])[1..] == ps[1..] + [x];
    if |ps| > 1 {
      JoinSnoc(ps[1..], x, sep);
    } else {
      assert ps[1..] + [x] == [x];
    }
  }

  /** Parts without line terminators, joined by a separator that is not one, hold none. */
  lemma {:induction false} JoinNoLineTerminator(ps: seq<string>, sep: char)
    requires !IsLineTerminator(sep) && forall i :: 0 <= i < |ps| ==> NoLineTerminator(ps[i])
    ensures NoLineTerminator(Join(ps, sep))
    decreases |ps|
  {
    if |ps| > 1 {
      JoinNoLineTerminator(ps[1..], sep);
      NoLineTerminatorConcat(ps[0], [sep]);
      NoLineTerminatorConcat(ps[0] + [sep], Join(ps[1..], sep));
    }
  }

  /** A row text is its cells joined by pipes, with a pipe at either end. */
  lemma RowTextIs(cells: seq<string>)
    requires |cells| >= 1
    ensures RowText(cells) == "|" + Join(cells, '|') + "|"
  {
    var j := Join(cells, '|');
    assert [""] + cells + [""] == [""] + (cells + [""]);
    JoinFront("", cells + [""], '|');
    JoinSnoc(cells, "", '|');
    PipeWrap(j);
  }

  /** Joining parts after a first part. */
  lemma JoinFront(p: string, ps: seq<string>, sep: char)
    requires |ps| >= 1
    ensures Join([p] + ps, sep) == p + [sep] + Join(ps, sep)
  {
    assert ([p] + ps)[0] == p && ([p] + ps)[1..] == ps;
  }

  lemma PipeWrap(j: string)
    ensures "" + ['|'] + (j + ['|'] + "") == "|" + j + "|"
  {
  }

  lemma RowTextLine(cells: seq<string>)
    requires RowOk(cells)
    ensures LineOk(RowText(cells))
  {
    RowTextIs(cells);
    JoinNoLineTerminator(cells, '|');
    var j := Join(cells, '|');
    NoLineTerminatorConcat("|", j);
    NoLineTerminatorConcat("|" + j, "|");
  }

  /** `LineEnd` finds the first line terminator. */
  lemma LineEndAt(s: string, i: nat, e: nat)
    requires i <= e < |s| && IsLineTerminator(s[e])
    requires forall k :: i <= k < e ==> !IsLineTerminator(s[k])
    ensures LineEnd(s, i) == e
  {
  }

  /** A well-formed line followed by `\n` is one row. */
  lemma RowAt(s: string, q: nat, line: string, rest: string)
    requires LineOk(line) && q <= |s| && s[q..] == line + "\n" + rest
    ensures RowLine(s, q) == Some(q + |line| + 1)
    ensures s[q + |line| + 1..] == rest
  {
    assert s[q] == line[0];
    assert SkipSpaces(s, q) == q;
    forall k | q + 1 <= k < q + |line|
      ensures !IsLineTerminator(s[k])
    {
      assert s[k] == line[k - q];
    }
    assert s[q + |line|] == '\n';
    LineEndAt(s, q + 1, q + |line|);
    assert s[q + |line| - 1] == line[|line| - 1];
    assert s[q + |line| + 1..] == s[q..][|line| + 1..];
  }

  /**
   * Rows that run to a blank line and the end of the text are taken one
   * after another; the last of them ends just before the final `\n`.
   */
  lemma {:induction false} RowChain(s: string, q: nat, lines: seq<string>)
    requires |lines| >= 1 && forall i :: 0 <= i < |lines| ==> LineOk(lines[i])
    requires q <= |s| && s[q..] == Join(lines, '\n') + "\n\n"
    ensures |RowEnds(s, q)| >= 1 && RowEnds(s, q)[|RowEnds(s, q)| - 1] == |s| - 1
    decreases |lines|
  {
    var line := lines[0];
    if |lines| == 1 {
      LastRow(s, q, line);
    } else {
      var g := q + |line| + 1;
      FirstRow(s, q, lines);
      RowChain(s, g, lines[1..]);
      RowEndsStep(s, q, g);
    }
  }

  /** The first of several rows ends after its line, and the others follow. */
  lemma FirstRow(s: string, q: nat, lines: seq<string>)
    requires |lines| >= 2 && forall i :: 0 <= i < |lines| ==> LineOk(lines[i])
    requires q <= |s| && s[q..] == Join(lines, '\n') + "\n\n"
    ensures RowLine(s, q) == Some(q + |lines[0]| + 1)
    ensures s[q + |lines[0]| + 1..] == Join(lines[1..], '\n') + "\n\n"
    ensures forall i :: 0 <= i < |lines| - 1 ==> LineOk(lines[1..][i])
  {
    var line := lines[0];
    var j1 := Join(lines[1..], '\n');
    var rest := j1 + "\n\n";
    assert Join(lines, '\n') == line + "\n" + j1;
    AppendAssoc(line + "\n", j1, "\n\n");
    RowAt(s, q, line, rest);
  }

  /** A row in front of a run of rows keeps the run's last end. */
  lemma RowEndsStep(s: string, q: nat, g: nat)
    requires q <= |s| && RowLine(s, q) == Some(g)
    requires |RowEnds(s, g)| >= 1 && RowEnds(s, g)[|RowEnds(s, g)| - 1] == |s| - 1
    ensures |RowEnds(s, q)| >= 1 && RowEnds(s, q)[|RowEnds(s, q)| - 1] == |s| - 1
  {
    var later := RowEnds(s, g);
    assert RowEnds(s, q) == [g] + later;
    assert ([g] + later)[|later|] == later[|later| - 1];
  }

  /** The last row: after it only the closing `\n` is left, and no further row can start. */
  lemma LastRow(s: string, q: nat, line: string)
    requires LineOk(line) && q <= |s| && s[q..] == line + "\n\n"
    ensures RowEnds(s, q) == [|s| - 1]
    ensures |RowEnds(s, q)| >= 1 && RowEnds(s, q)[|RowEnds(s, q)| - 1] == |s| - 1
  {
    assert s[q..] == line + "\n" + "\n";
    RowAt(s, q, line, "\n");
    assert RowLine(s, |s| - 1) == None by {
      assert IsSpace(s[|s| - 1]);
      assert SkipSpaces(s, |s| - 1) == |s|;
    }
    assert RowEnds(s, |s| - 1) == [];
  }

  /** Joined well-formed lines start and end with a pipe. */
  lemma {:induction false} JoinedLines(lines: seq<string>)
    requires |lines| >= 1 && forall i :: 0 <= i < |lines| ==> LineOk(lines[i])
    ensures var j := Join(lines, '\n'); |j| >= 2 && j[0] == '|' && j[|j| - 1] == '|'
    decreases |lines|
  {
    if |lines| > 1 {
      JoinedLines(lines[1..]);
    }
  }

  /** Trimming a text that ends in a newline drops just the newline. */
  lemma TrimNewline(x: string)
    requires |x| > 0 && !IsSpace(x[0]) && !IsSpace(x[|x| - 1])
    ensures Trim(x + "\n") == x
  {
    var s := x + "\n";
    TrimBounds(s);
    assert SkipSpaces(s, 0) == 0 by {
      assert s[0] == x[0];
    }
    assert SkipSpacesBack(s, 0, |s|) == |x| by {
      assert s[|s| - 1] == '\n';
      assert s[|x| - 1] == x[|x| - 1];
      assert SkipSpacesBack(s, 0, |s|) == SkipSpacesBack(s, 0, |s| - 1);
    }
    assert s[0..|x|] == x;
  }

  /** The body rows of `createTable`, over well-formed rows. */
  lemma {:induction false} BodyRowsOfTexts(v: Variant, body: seq<seq<string>>)
    requires forall i :: 0 <= i < |body| ==> RowOk(body[i])
    ensures forall i :: 0 <= i < |body| ==> '\n' !in RowTexts(body)[i]
    ensures BodyRows(v, RowTexts(body)) == RenderedRows(v, body)
    decreases |body|
  {
    forall i | 0 <= i < |body|
      ensures '\n' !in RowTexts(body)[i]
    {
      RowTextLine(body[i]);
      var t := RowText(body[i]);
      assert forall k :: 0 <= k < |t| ==> t[k] != '\n';
    }
    if |body| > 0 {
      BodyRowsOfTexts(v, body[1..]);
      assert RowTexts(body)[1..] == RowTexts(body[1..]);
      CellsOfRow("", body[0], "");
    }
  }

  /** `createTable` on the rows of a well-formed table and the newline that ends them. */
  lemma CreateTableOf(v: Variant, rows: seq<seq<string>>)
    requires |rows| >= 2 && forall i :: 0 <= i < |rows| ==> RowOk(rows[i])
    ensures CreateTable(v, Join(RowTexts(rows), '\n') + "\n") == TableView(TrimEach(rows[0]), RenderedRows(v, rows[2..]))
  {
    var lines := RowTexts(rows);
    TableRows(rows);
    assert Cells(lines[0]) == rows[0] by {
      CellsOfRow("", rows[0], "");
    }
    var body := rows[2..];
    assert lines[2..] == RowTexts(body);
    BodyRowsOfTexts(v, body);
    if |rows| == 2 {
      assert RenderedRows(v, body) == [];
    }
  }

  /** The rows `createTable` splits off are the lines of the table. */
  lemma TableRows(rows: seq<seq<string>>)
    requires |rows| >= 1 && forall i :: 0 <= i < |rows| ==> RowOk(rows[i])
    ensures Split(Trim(Join(RowTexts(rows), '\n') + "\n"), '\n') == RowTexts(rows)
  {
    var lines := RowTexts(rows);
    LinesOf(rows);
    JoinedLines(lines);
    TrimNewline(Join(lines, '\n'));
    SplitJoin(lines, '\n');
  }

  /** The table pattern matches the whole of such a response. */
  lemma WholeMatch(s: string, lines: seq<string>)
    requires |lines| >= 1 && forall i :: 0 <= i < |lines| ==> LineOk(lines[i])
    requires s == "\n" + Join(lines, '\n') + "\n\n"
    ensures TableMatchAt(s, 0).Some? && TableMatchAt(s, 0).value == |s| - 1
  {
    Framed(s, Join(lines, '\n'));
    FramedRows(s, lines);
  }

  lemma FramedRows(s: string, lines: seq<string>)
    requires |lines| >= 1 && forall i :: 0 <= i < |lines| ==> LineOk(lines[i])
    requires 1 < |s| && s[0] == '\n' && s[|s| - 1] == '\n' && s[1..] == Join(lines, '\n') + "\n\n"
    ensures TableMatchAt(s, 0).Some? && TableMatchAt(s, 0).value == |s| - 1
  {
    RowChain(s, 1, lines);
    MatchToLastRow(s);
  }

  lemma Framed(s: string, j: string)
    requires s == "\n" + j + "\n\n"
    ensures 1 < |s| && s[0] == '\n' && s[|s| - 1] == '\n' && s[1..] == j + "\n\n"
  {
  }

  /** Rows from just after an opening `\n` that run to the final `\n` make the whole text one match. */
  lemma MatchToLastRow(s: string)
    requires 1 < |s| && s[0] == '\n' && s[|s| - 1] == '\n'
    requires |RowEnds(s, 1)| >= 1 && RowEnds(s, 1)[|RowEnds(s, 1)| - 1] == |s| - 1
    ensures TableMatchAt(s, 0).Some? && TableMatchAt(s, 0).value == |s| - 1
  {
    var ends := RowEnds(s, 1);
    assert BreakAt(s, ends[|ends| - 1]);
  }

  /**
   * A response that is one well-formed table is one match of the table
   * pattern, in both versions: the result is the table of the trimmed header
   * cells and the rendered body cells, the separator row dropped.
   */
  lemma TablePass(v: Variant, header: seq<string>, separator: seq<string>, body: seq<seq<string>>)
    requires RowOk(header) && RowOk(separator) && forall i :: 0 <= i < |body| ==> RowOk(body[i])
    ensures TablesFrom(v, TableSource(header, separator, body), 0)
      == TableText(v, TableView(TrimEach(header), RenderedRows(v, body)))
  {
    var rows := [header, separator] + body;
    var s := TableSource(header, separator, body);
    var t := TableView(TrimEach(header), RenderedRows(v, body));
    assert forall i :: 0 <= i < |rows| ==> RowOk(rows[i]);
    WholeTable(rows, s);
    CreateTableOf(v, rows);
    assert rows[0] == header && rows[2..] == body;
    PassOfMatch(v, s, t);
  }

  /** The source of a table is one match of the table pattern, its group the rows and their final newline. */
  lemma WholeTable(rows: seq<seq<string>>, s: string)
    requires |rows| >= 1 && forall i :: 0 <= i < |rows| ==> RowOk(rows[i])
    requires s == "\n" + Join(RowTexts(rows), '\n') + "\n\n"
    ensures |s| >= 2 && TableMatchAt(s, 0).Some? && TableMatchAt(s, 0).value == |s| - 1
    ensures s[1..|s| - 1] == Join(RowTexts(rows), '\n') + "\n"
  {
    LinesOf(rows);
    WholeMatch(s, RowTexts(rows));
    Inner(Join(RowTexts(rows), '\n'));
  }

  /** Between the blank lines: the rows and the newline that ends the last one. */
  lemma Inner(j: string)
    ensures ("\n" + j + "\n\n")[1..|"\n" + j + "\n\n"| - 1] == j + "\n"
  {
  }

  /** One step of the table pass over a match. */
  lemma TablesFromMatch(v: Variant, s: string, p: nat)
    requires p < |s| && TableMatchAt(s, p).Some?
    ensures TablesFrom(v, s, p)
      == TableText(v, CreateTable(v, s[p + 1..TableMatchAt(s, p).value])) + TablesFrom(v, s, TableMatchAt(s, p).value + 1)
  {
  }

  /** A match of the whole text is replaced by its table. */
  lemma PassOfMatch(v: Variant, s: string, t: TableView)
    requires |s| >= 2 && TableMatchAt(s, 0).Some? && TableMatchAt(s, 0).value == |s| - 1
    requires CreateTable(v, s[1..|s| - 1]) == t
    ensures TablesFrom(v, s, 0) == TableText(v, t)
  {
    TablesFromMatch(v, s, 0);
    assert TablesFrom(v, s, |s|) == [];
  }

  /**
   * Without `*` or `$`, the earlier `parseResponse` returns the bare table
   * element for such a response.
   */
  lemma RenderEarlierTable(header: seq<string>, separator: seq<string>, body: seq<seq<string>>, s: string)
    requires RowOk(header) && RowOk(separator) && forall i :: 0 <= i < |body| ==> RowOk(body[i])
    requires s == TableSource(header, separator, body)
    requires '*' !in s && '$' !in s
    ensures Render(Earlier, s) == TableHtml(TableView(TrimEach(header), RenderedRows(Earlier, body)))
  {
    var t := TableView(TrimEach(header), RenderedRows(Earlier, body));
    TablePass(Earlier, header, separator, body);
    EarlierQuiet(s, t);
  }

  /** Without `*` or `$`, the earlier `parseResponse` is its table pass. */
  lemma EarlierQuiet(s: string, t: TableView)
    requires '*' !in s && '$' !in s && TablesFrom(Earlier, s, 0) == TableText(Earlier, t)
    ensures Render(Earlier, s) == TableHtml(t)
  {
    AbsentChar(s, "**");
    PairPassAbsent(s, "**", "<b>", "</b>");
    assert Bold(s) == s;
    AbsentChar(s, "$$");
    PairPassAbsent(s, "$$", MathOpen, MathClose);
    AbsentChar(s, "$");
    PairPassAbsent(s, "$", MathOpen, MathClose);
  }
}
