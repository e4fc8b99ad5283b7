/**
 * `parseResponse` in its two versions: the one of markdowns.js:37-69 and
 * the earlier one of script.js:195-204, with `parseTables` and
 * `createTable`, which call `parseResponse` again on every body cell.
 *
 * The recursion ends because a cell holds no `\n` (rows come from a split on
 * `\n`), and a text without `\n` holds no table. `Rank` says whether a
 * text holds a `\n`; no pass adds one.
 */
module Renderer {
  import opened Wrappers
  import opened Text
  import opened Html
  import opened Fences
  import opened Inline
  import opened Lines
  import opened Tables

  /** Which `parseResponse`: markdowns.js, or the earlier one in script.js. */
  datatype Variant = Current | Earlier

  function Rank(s: string): nat {
    if '\n' in s then 1 else 0
  }

  /** `parseResponse(response)`. */
  function Render(v: Variant, s: string): string
    decreases Rank(s), 4, 0
  {
    match v
    case Current =>
      var t := TablesFrom(v, Math(Bold(Protect(s))), 0);
      Restore(Italic(Blockquote(Headings(t))), Blocks(s))
    case Earlier =>
      TablesFrom(v, Math(Bold(s)), 0)
  }

  /** `parseTables`: the global replace of the table pattern, from `p` on. */
  function TablesFrom(v: Variant, s: string, p: nat): string
    requires p <= |s|
    decreases Rank(s), 3, |s| - p
  {
    if p == |s| then []
    else
      match TableMatchAt(s, p)
      case Some(g) =>
        assert s[p] in s;
        TableText(v, CreateTable(v, s[p + 1..g])) + TablesFrom(v, s, g + 1)
      case None => [s[p]] + TablesFrom(v, s, p + 1)
  }

  /** What `createTable` returns: markdowns.js:102 puts the consumed newlines back, script.js:239 does not. */
  function TableText(v: Variant, t: TableView): string {
    match v
    case Current => "\n" + TableHtml(t) + "\n"
    case Earlier => TableHtml(t)
  }

  /** Each cell trimmed: `cell.trim()`. */
  function TrimEach(cells: seq<string>): (r: seq<string>)
    ensures |r| == |cells| && forall i :: 0 <= i < |r| ==> r[i] == Trim(cells[i])
  {
    seq(|cells|, i requires 0 <= i < |cells| => Trim(cells[i]))
  }

  /**
   * `createTable(match, table)`: the rows of the trimmed group, row 0 as
   * header text, row 1 skipped, every later row as rendered cells.
   */
  function CreateTable(v: Variant, table: string): (t: TableView)
    decreases 1, 2, 0
  {
    var rows := Split(Trim(table), '\n');
    TableView(TrimEach(Cells(rows[0])), if |rows| > 2 then BodyRows(v, rows[2..]) else [])
  }

  /** The loop `for (let i = 2; i < rows.length; i++)` over the rows it is given. */
  function BodyRows(v: Variant, rows: seq<string>): (r: seq<seq<string>>)
    requires forall i :: 0 <= i < |rows| ==> '\n' !in rows[i]
    decreases 1, 1, |rows|
  {
    if |rows| == 0 then []
    else [RenderCells(v, Cells(rows[0]))] + BodyRows(v, rows[1..])
  }

  /** `td.innerHTML = parseResponse(cell.trim())` for each cell of a row. */
  function RenderCells(v: Variant, cells: seq<string>): (r: seq<string>)
    requires forall i :: 0 <= i < |cells| ==> '\n' !in cells[i]
    decreases 1, 0, |cells|
  {
    if |cells| == 0 then []
    else [Render(v, Trim(cells[0]))] + RenderCells(v, cells[1..])
  }
}
