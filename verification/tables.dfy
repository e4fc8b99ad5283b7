/**
 * The table recogniser of both renderers: the row pattern of
 * `/\n((?:\s*:?[\|:].*?:?\|\n)+)\n/g` (markdowns.js:72) and of
 * `/\n((?:\s*:?[\|:].*\|\n)+)\n/g` (script.js:208), the run of rows the
 * outer `+` keeps, and the cell split of `createTable`.
 */
module Tables {
  import opened Wrappers
  import opened Text

  /** `[\|:]`. */
  predicate IsRowMark(c: char) {
    c == '|' || c == ':'
  }

  /**
   * What a row's tail must be, from `k` on: the rest of the line holds at
   * least one character, its last character is `|`, and the line ends in
   * `\n` rather than another line terminator or the end of the text. The
   * result is the index after that `\n`.
   */
  function TailLine(s: string, k: nat): (r: Option<nat>)
    requires k <= |s|
    ensures r.Some? ==> k + 2 <= r.value <= |s| && s[r.value - 1] == '\n' && s[r.value - 2] == '|'
    ensures r.Some? ==> NoLineTerminator(s[k..r.value - 1])
  {
    var e := LineEnd(s, k);
    if e < |s| && s[e] == '\n' && e >= k + 1 && s[e - 1] == '|' then
      assert forall i :: 0 <= i < e - k ==> s[k..e][i] == s[k + i];
      Some(e + 1)
    else None
  }

  /**
   * A table row starting at `q`, as both row patterns read it: whitespace
   * (blank lines included), a `|` or `:`, then a tail as `TailLine` says.
   */
  function RowLine(s: string, q: nat): (r: Option<nat>)
    requires q <= |s|
    ensures r.Some? ==> q + 3 <= r.value <= |s| && s[r.value - 1] == '\n' && s[r.value - 2] == '|'
  {
    var b := SkipSpaces(s, q);
    if b < |s| && IsRowMark(s[b]) then TailLine(s, b + 1) else None
  }

  // `.*?:?\|\n` from `k`: the lazy dot grows one character at a time, and at
  // each length the optional colon is tried taken before skipped.
  function LazyTail(s: string, k: nat): Option<nat>
    requires k <= |s|
    decreases |s| - k
  {
    if StartsAt(s, k, ":|\n") then Some(k + 3)
    else if StartsAt(s, k, "|\n") then Some(k + 2)
    else if k < |s| && !IsLineTerminator(s[k]) then LazyTail(s, k + 1)
    else None
  }

  /**
   * The row of markdowns.js:72 at `q`. `\s*` is greedy, and giving back
   * whitespace cannot help, since a whitespace character is neither `:`
   * nor `|`; the optional colon is tried taken first, then skipped.
   */
  function RowLazy(s: string, q: nat): Option<nat>
    requires q <= |s|
  {
    var b := SkipSpaces(s, q);
    var taken := if b + 1 < |s| && s[b] == ':' && IsRowMark(s[b + 1]) then LazyTail(s, b + 2) else None;
    if taken.Some? then taken
    else if b < |s| && IsRowMark(s[b]) then LazyTail(s, b + 1)
    else None
  }

  // `.*\|\n` from `k`: the greedy dot first runs to the end of the line,
  // then gives characters back; `q` is where the dot stops.
  function GreedyBack(s: string, k: nat, q: nat): Option<nat>
    requires k <= q <= |s|
    decreases q - k
  {
    if StartsAt(s, q, "|\n") then Some(q + 2)
    else if q > k then GreedyBack(s, k, q - 1)
    else None
  }

  function GreedyTail(s: string, k: nat): Option<nat>
    requires k <= |s|
  {
    GreedyBack(s, k, LineEnd(s, k))
  }

  /** The row of script.js:208 at `q`. */
  function RowGreedy(s: string, q: nat): Option<nat>
    requires q <= |s|
  {
    var b := SkipSpaces(s, q);
    var taken := if b + 1 < |s| && s[b] == ':' && IsRowMark(s[b + 1]) then GreedyTail(s, b + 2) else None;
    if taken.Some? then taken
    else if b < |s| && IsRowMark(s[b]) then GreedyTail(s, b + 1)
    else None
  }

  /** The lazy tail stops at the first `|\n`, which can only be at the end of the line. */
  lemma {:induction false} LazyTailIsTailLine(s: string, k: nat)
    requires k <= |s|
    ensures LazyTail(s, k) == TailLine(s, k)
    decreases |s| - k
  {
    if StartsAt(s, k, ":|\n") {
      ColonPipeEnd(s, k);
    } else if StartsAt(s, k, "|\n") {
      PipeEnd(s, k);
    } else if k < |s| && !IsLineTerminator(s[k]) {
      LazyTailIsTailLine(s, k + 1);
      LazyTailStep(s, k);
    }
  }

  lemma ColonPipeEnd(s: string, k: nat)
    requires StartsAt(s, k, ":|\n")
    ensures TailLine(s, k) == Some(k + 3)
  {
    assert s[k..k + 3] == ":|\n";
    assert s[k] == ':' && s[k + 1] == '|' && s[k + 2] == '\n';
    assert LineEnd(s, k) == LineEnd(s, k + 1) == LineEnd(s, k + 2) == k + 2;
  }

  lemma PipeEnd(s: string, k: nat)
    requires StartsAt(s, k, "|\n")
    ensures TailLine(s, k) == Some(k + 2)
  {
    assert s[k..k + 2] == "|\n";
    assert s[k] == '|' && s[k + 1] == '\n';
    assert LineEnd(s, k) == LineEnd(s, k + 1) == k + 1;
  }

  /** Past a character that starts no `|\n`, the tail line is the one from the next character. */
  lemma LazyTailStep(s: string, k: nat)
    requires k < |s| && !IsLineTerminator(s[k]) && !StartsAt(s, k, "|\n")
    ensures TailLine(s, k) == TailLine(s, k + 1)
  {
    assert LineEnd(s, k) == LineEnd(s, k + 1);
    var e := LineEnd(s, k);
    if e == k + 1 && e < |s| && s[e] == '\n' {
      StartsAtPair(s, k, '|', '\n');
    }
  }

  /** Stopping the greedy dot anywhere before the last character of the line finds no `|\n`. */
  lemma {:induction false} GreedyBackInside(s: string, k: nat, q: nat)
    requires k <= |s| && k <= q && q + 1 < LineEnd(s, k)
    ensures GreedyBack(s, k, q) == None
    decreases q - k
  {
    assert !StartsAt(s, q, "|\n") by {
      assert !IsLineTerminator(s[q + 1]);
      StartsAtPair(s, q, '|', '\n');
    }
    if q > k {
      GreedyBackInside(s, k, q - 1);
    }
  }

  /** The greedy tail gives back characters until `|\n`, found only at the end of the line. */
  lemma GreedyTailIsTailLine(s: string, k: nat)
    requires k <= |s|
    ensures GreedyTail(s, k) == TailLine(s, k)
  {
    var e := LineEnd(s, k);
    assert !StartsAt(s, e, "|\n") by {
      if e < |s| {
        assert IsLineTerminator(s[e]);
      }
    }
    if e > k {
      assert GreedyBack(s, k, e) == GreedyBack(s, k, e - 1);
      if e < |s| {
        StartsAtPair(s, e - 1, '|', '\n');
      }
      if !StartsAt(s, e - 1, "|\n") {
        if e - 1 > k {
          GreedyBackInside(s, k, e - 2);
        }
      }
    }
  }

  /** When the rest of a line holds a `:|` start, both readings of the colon end the row at the same place. */
  lemma ColonTaken(s: string, b: nat, tail: Option<nat>, other: Option<nat>)
    requires b + 1 < |s| && IsRowMark(s[b + 1])
    requires tail == TailLine(s, b + 2) && other == TailLine(s, b + 1)
    ensures tail.Some? ==> tail == other
  {
    assert LineEnd(s, b + 1) == LineEnd(s, b + 2);
  }

  /** The lazy row pattern of markdowns.js:72 accepts exactly the rows `RowLine` describes. */
  lemma RowLazyIsRowLine(s: string, q: nat)
    requires q <= |s|
    ensures RowLazy(s, q) == RowLine(s, q)
  {
    var b := SkipSpaces(s, q);
    if b < |s| && IsRowMark(s[b]) {
      LazyTailIsTailLine(s, b + 1);
      if b + 1 < |s| && s[b] == ':' && IsRowMark(s[b + 1]) {
        LazyTailIsTailLine(s, b + 2);
        ColonTaken(s, b, TailLine(s, b + 2), TailLine(s, b + 1));
      }
      assert RowLazy(s, q) == TailLine(s, b + 1);
    } else {
      assert RowLazy(s, q) == None;
    }
  }

  /** The greedy row pattern of script.js:208 accepts exactly the same rows. */
  lemma RowGreedyIsRowLine(s: string, q: nat)
    requires q <= |s|
    ensures RowGreedy(s, q) == RowLine(s, q)
  {
    var b := SkipSpaces(s, q);
    if b < |s| && IsRowMark(s[b]) {
      GreedyTailIsTailLine(s, b + 1);
      if b + 1 < |s| && s[b] == ':' && IsRowMark(s[b + 1]) {
        GreedyTailIsTailLine(s, b + 2);
        ColonTaken(s, b, TailLine(s, b + 2), TailLine(s, b + 1));
      }
      assert RowGreedy(s, q) == TailLine(s, b + 1);
    } else {
      assert RowGreedy(s, q) == None;
    }
  }

  /** The ends of the rows `(?:row)+` takes from `q` on, each row starting where the last ended. */
  function RowEnds(s: string, q: nat): (r: seq<nat>)
    requires q <= |s|
    ensures forall i :: 0 <= i < |r| ==> q < r[i] <= |s| && s[r[i] - 1] == '\n'
    decreases |s| - q
  {
    match RowLine(s, q)
    case Some(g) => [g] + RowEnds(s, g)
    case None => []
  }

  /** A row end after which the closing `\n` of the table pattern follows. */
  predicate BreakAt(s: string, g: nat) {
    g < |s| && s[g] == '\n'
  }

  /**
   * The index of the row end the greedy `+` settles on: it gives back rows
   * from the last one until the closing `\n` matches.
   */
  function LastBreak(s: string, ends: seq<nat>): (r: Option<nat>)
    ensures r.Some? ==> r.value < |ends| && BreakAt(s, ends[r.value])
    ensures r.Some? ==> forall j :: r.value < j < |ends| ==> !BreakAt(s, ends[j])
    ensures r.None? ==> forall j :: 0 <= j < |ends| ==> !BreakAt(s, ends[j])
  {
    if |ends| == 0 then None
    else if BreakAt(s, ends[|ends| - 1]) then Some(|ends| - 1)
    else LastBreak(s, ends[..|ends| - 1])
  }

  /**
   * Where a table match that starts at `p` ends: `s[p]` is the opening
   * `\n`, the group is `s[p + 1..g]` and the closing `\n` is `s[g]`.
   */
  function TableMatchAt(s: string, p: nat): (r: Option<nat>)
    requires p < |s|
    ensures r.Some? ==> s[p] == '\n' && p + 1 < r.value && BreakAt(s, r.value) && s[r.value - 1] == '\n'
  {
    if s[p] != '\n' then None
    else
      var ends := RowEnds(s, p + 1);
      match LastBreak(s, ends)
      case Some(i) => Some(ends[i])
      case None => None
  }

  /** `row.split('|').slice(1, -1)`: the pieces strictly between the first and the last `|`. */
  function Cells(row: string): (r: seq<string>)
    ensures |r| == if Count(row, '|') >= 1 then Count(row, '|') - 1 else 0
    ensures forall i :: 0 <= i < |r| ==> '|' !in r[i]
    ensures forall i, c :: 0 <= i < |r| && c in r[i] ==> c in row
  {
    var pieces := Split(row, '|');
    if |pieces| >= 2 then
      var inner := pieces[1..|pieces| - 1];
      assert forall i :: 0 <= i < |inner| ==> inner[i] == pieces[i + 1];
      inner
    else []
  }

  /** Splitting at a separator after a separator-free piece yields that piece first. */
  lemma {:induction false} SplitAfter(p: string, t: string, sep: char)
    requires sep !in p
    ensures Split(p + [sep] + t, sep) == [p] + Split(t, sep)
    decreases |p|
  {
    var s := p + [sep] + t;
    if |p| == 0 {
      assert s[0] == sep && s[1..] == t;
    } else {
      assert p[0] in p && s[0] == p[0];
      assert p[1..] + [sep] + t == s[1..];
      assert forall c :: c in p[1..] ==> c in p;
      SplitAfter(p[1..], t, sep);
      var rest := Split(s[1..], sep);
      assert rest[0] == p[1..] && rest[1..] == Split(t, sep);
      assert [s[0]] + p[1..] == p;
    }
  }

  /** `split` undoes `join` when no piece holds the separator. */
  lemma {:induction false} SplitJoin(parts: seq<string>, sep: char)
    requires |parts| >= 1 && forall i :: 0 <= i < |parts| ==> sep !in parts[i]
    ensures Split(Join(parts, sep), sep) == parts
    decreases |parts|
  {
    if |parts| == 1 {
      var p := parts[0];
      SplitNone(p, sep);
    } else {
      SplitJoin(parts[1..], sep);
      SplitAfter(parts[0], Join(parts[1..], sep), sep);
    }
  }

  /** A text without the separator is one piece. */
  lemma {:induction false} SplitNone(p: string, sep: char)
    requires sep !in p
    ensures Split(p, sep) == [p]
    decreases |p|
  {
    if |p| > 0 {
      assert p[0] in p;
      assert forall c :: c in p[1..] ==> c in p;
      SplitNone(p[1..], sep);
      assert p == [p[0]] + p[1..];
    }
  }

  /** The cells of a row are the pieces between its outer pipes, whatever stands outside them. */
  lemma CellsOfRow(lead: string, cells: seq<string>, trail: string)
    requires '|' !in lead && '|' !in trail && forall i :: 0 <= i < |cells| ==> '|' !in cells[i]
    ensures Cells(Join([lead] + cells + [trail], '|')) == cells
  {
    var parts := [lead] + cells + [trail];
    forall i | 0 <= i < |parts|
      ensures '|' !in parts[i]
    {
      if 0 < i < |parts| - 1 {
        assert parts[i] == cells[i - 1];
      }
    }
    CellsOfParts(parts);
    assert parts[1..|parts| - 1] == cells;
  }

  lemma CellsOfParts(parts: seq<string>)
    requires |parts| >= 2 && forall i :: 0 <= i < |parts| ==> '|' !in parts[i]
    ensures Cells(Join(parts, '|')) == parts[1..|parts| - 1]
  {
    SplitJoin(parts, '|');
  }
}
