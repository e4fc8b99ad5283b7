/**
 * Fenced code blocks: the global match of /```[\s\S]*?```/g, the
 * `CODEBLOCK{i}` placeholders `parseResponse` puts in their place before the
 * other passes run, and the code-block UI it puts back afterwards
 * (markdowns.js:1, 9-35, 40-46, 62-66, and script.js:144-172 for the earlier
 * variant).
 *
 * Every step is a `String.prototype.replace` with a string pattern, so it
 * replaces the FIRST occurrence of the pattern and expands `$` patterns in the
 * replacement; `ReplaceInTurn` is that fold.
 */
module Fences {
  import opened Wrappers
  import opened Text
  import opened Html

  const Fence := "```"

  /** `s` holds no "```". */
  predicate NoFence(s: string) {
    Lacks(s, Fence)
  }

  /**
   * End of the match of /```[\s\S]*?```/ that starts at `p`, if one does: the
   * lazy body stops at the first closing fence after the opening one.
   */
  function FenceMatchAt(s: string, p: nat): (r: Option<nat>)
    ensures r.Some? ==> p + 6 <= r.value <= |s| && StartsAt(s, p, Fence) && StartsAt(s, r.value - 3, Fence)
    ensures r.Some? ==> forall k :: p + 3 <= k < r.value - 3 ==> !StartsAt(s, k, Fence)
    ensures r.None? ==> !StartsAt(s, p, Fence) || forall k :: p + 3 <= k ==> !StartsAt(s, k, Fence)
  {
    if StartsAt(s, p, Fence) then
      match IndexFrom(s, Fence, p + 3)
      case Some(j) => Some(j + 3)
      case None => None
    else None
  }

  /** A fence followed, at least three characters later, by another one starts a match. */
  lemma FenceBeforeFence(s: string, q: nat, j: nat)
    ensures StartsAt(s, q, Fence) && q + 3 <= j && StartsAt(s, j, Fence) ==> FenceMatchAt(s, q).Some?
  {
  }

  /** One match of the global scan: it covers `s[start..end]`. */
  datatype Span = Span(start: nat, end: nat)

  /**
   * `spans` are the matches a global regex scan of `s` finds from `p` on:
   * the leftmost match, then the leftmost one after its end, and so on, with
   * no match starting anywhere in between.
   */
  ghost predicate IsScan(s: string, p: nat, spans: seq<Span>)
    decreases |spans|
  {
    if |spans| == 0 then
      forall q :: p <= q < |s| ==> FenceMatchAt(s, q).None?
    else
      && p <= spans[0].start
      && (forall q :: p <= q < spans[0].start ==> FenceMatchAt(s, q).None?)
      && FenceMatchAt(s, spans[0].start) == Some(spans[0].end)
      && IsScan(s, spans[0].end, spans[1..])
  }

  /** The global scan of `s` from `p`. */
  function MatchesFrom(s: string, p: nat): (r: seq<Span>)
    requires p <= |s|
    ensures IsScan(s, p, r)
    ensures forall i :: 0 <= i < |r| ==> p <= r[i].start && r[i].start + 6 <= r[i].end <= |s|
    decreases |s| - p
  {
    if p == |s| then []
    else
      match FenceMatchAt(s, p)
      case Some(e) =>
        var rest := MatchesFrom(s, e);
        ScanCons(s, p, e, rest);
        [Span(p, e)] + rest
      case None =>
        var rest := MatchesFrom(s, p + 1);
        ScanSkip(s, p, rest);
        rest
  }

  lemma ScanCons(s: string, p: nat, e: nat, rest: seq<Span>)
    requires FenceMatchAt(s, p) == Some(e) && IsScan(s, e, rest)
    ensures IsScan(s, p, [Span(p, e)] + rest)
  {
    assert ([Span(p, e)] + rest)[1..] == rest;
  }

  lemma ScanSkip(s: string, p: nat, rest: seq<Span>)
    requires FenceMatchAt(s, p).None? && IsScan(s, p + 1, rest)
    ensures IsScan(s, p, rest)
  {
  }

  /**
   * What a match is: an opening fence, a body with no fence in it, and the
   * closing fence.
   */
  predicate IsCodeBlock(b: string) {
    && |b| >= 6
    && StartsAt(b, 0, Fence)
    && StartsAt(b, |b| - 3, Fence)
    && forall k :: 3 <= k < |b| - 3 ==> !StartsAt(b, k, Fence)
  }

  lemma MatchIsCodeBlock(s: string, start: nat, end: nat)
    requires FenceMatchAt(s, start) == Some(end)
    ensures IsCodeBlock(s[start..end])
  {
    var b := s[start..end];
    StartsAtSlice(s, start, end, 0, Fence);
    StartsAtSlice(s, start, end, |b| - 3, Fence);
    forall k | 3 <= k < |b| - 3
      ensures !StartsAt(b, k, Fence)
    {
      StartsAtSlice(s, start, end, k, Fence);
    }
  }

  /** `text.match(codeBlockRegex)`, with no match read as no blocks. */
  function Blocks(s: string): (r: seq<string>)
    ensures |r| == |MatchesFrom(s, 0)|
    ensures forall i :: 0 <= i < |r| ==> IsCodeBlock(r[i])
    ensures forall i :: 0 <= i < |r| ==> r[i] == s[MatchesFrom(s, 0)[i].start..MatchesFrom(s, 0)[i].end]
  {
    var spans := MatchesFrom(s, 0);
    assert forall i :: 0 <= i < |spans| ==> IsCodeBlock(s[spans[i].start..spans[i].end]) by {
      forall i | 0 <= i < |spans|
        ensures IsCodeBlock(s[spans[i].start..spans[i].end])
      {
        ScanMatches(s, 0, spans, i);
        MatchIsCodeBlock(s, spans[i].start, spans[i].end);
      }
    }
    seq(|spans|, i requires 0 <= i < |spans| => s[spans[i].start..spans[i].end])
  }

  /** Every span of a scan is a match of the regex. */
  lemma {:induction false} ScanMatches(s: string, p: nat, spans: seq<Span>, i: nat)
    requires IsScan(s, p, spans) && i < |spans|
    ensures FenceMatchAt(s, spans[i].start) == Some(spans[i].end)
    decreases i
  {
    if i > 0 {
      ScanMatches(s, spans[0].end, spans[1..], i - 1);
    }
  }

  /** A text in which no fence occurs holds no code block. */
  lemma {:induction false} NoFenceNoMatches(s: string, p: nat)
    requires p <= |s| && NoFence(s)
    ensures MatchesFrom(s, p) == []
    decreases |s| - p
  {
    if p < |s| {
      assert !StartsAt(s, p, Fence);
      NoFenceNoMatches(s, p + 1);
    }
  }

  /**
   * Without a fence there is nothing to protect: no blocks, the text stays as
   * it is, and restoring the (empty) list of blocks leaves any text unchanged.
   */
  lemma NoFenceProtect(s: string, t: string)
    requires NoFence(s)
    ensures Blocks(s) == [] && Protect(s) == s
    ensures Restore(t, Blocks(s)) == t
  {
    NoFenceNoMatches(s, 0);
    assert Placeholders(0, 0) == [];
  }

  /** The common case of the above: a text without a backquote. */
  lemma NoBackquoteProtect(s: string)
    requires '`' !in s
    ensures Blocks(s) == [] && Protect(s) == s
  {
    NoBackquoteNoFence(s);
    NoFenceProtect(s, s);
  }

  /** A fenced block whose body holds no backquote is one match, the whole text. */
  lemma SingleBlock(x: string)
    requires '`' !in x
    ensures Blocks(Fence + x + Fence) == [Fence + x + Fence]
  {
    var s := Fence + x + Fence;
    var j := |s| - 3;
    assert s[j..] == Fence;
    forall k | 3 <= k < j
      ensures !StartsAt(s, k, Fence)
    {
      assert s[k] == x[k - 3];
      assert s[k..k + 3][0] == s[k];
    }
    IndexFromIs(s, Fence, 3, j);
    assert FenceMatchAt(s, 0) == Some(|s|) by {
      assert s[..3] == Fence;
    }
    assert MatchesFrom(s, |s|) == [];
    assert MatchesFrom(s, 0) == [Span(0, |s|)];
    assert s[0..|s|] == s;
  }

  /** Removing the fences of a lone block leaves its body. */
  lemma SingleBlockBody(x: string)
    requires '`' !in x
    ensures RemoveFences(Fence + x + Fence) == x
  {
    var b := Fence + x + Fence;
    SingleBlock(x);
    assert IsCodeBlock(b) by {
      assert Blocks(b)[0] == b;
    }
    RemoveFencesOfBlock(b);
    assert b[3..|b| - 3] == x;
  }

  /** `block.replace(/```/g, '')`: every fence, scanning left to right, removed. */
  function RemoveFences(s: string): (r: string)
    ensures |r| <= |s|
    ensures forall c :: c in r ==> c in s
    decreases |s|
  {
    if |s| == 0 then []
    else if StartsAt(s, 0, Fence) then RemoveFences(s[3..])
    else [s[0]] + RemoveFences(s[1..])
  }

  /** The body of a code block, between its fences. */
  function Body(b: string): string
    requires IsCodeBlock(b)
  {
    b[3..|b| - 3]
  }

  lemma {:induction false} RemoveClosingFence(t: string, n: nat)
    requires n + 3 == |t| && StartsAt(t, n, Fence)
    requires forall k :: 0 <= k < n ==> !StartsAt(t, k, Fence)
    ensures RemoveFences(t) == t[..n]
    decreases n
  {
    if n == 0 {
      assert t[3..] == [];
    } else {
      assert !StartsAt(t, 0, Fence);
      forall k | 0 <= k < n - 1
        ensures !StartsAt(t[1..], k, Fence)
      {
        StartsAtSlice(t, 1, |t|, k, Fence);
      }
      StartsAtSlice(t, 1, |t|, n - 1, Fence);
      RemoveClosingFence(t[1..], n - 1);
      assert t[..n] == [t[0]] + t[1..][..n - 1];
    }
  }

  /** Removing the fences of a matched block leaves exactly its body (markdowns.js:13, 23). */
  lemma RemoveFencesOfBlock(b: string)
    requires IsCodeBlock(b)
    ensures RemoveFences(b) == Body(b)
  {
    var t := b[3..];
    assert t == b[3..|b|];
    forall k | 0 <= k < |t| - 3
      ensures !StartsAt(t, k, Fence)
    {
      assert !StartsAt(b, 3 + k, Fence);
      StartsAtSlice(b, 3, |b|, k, Fence);
    }
    StartsAtSlice(b, 3, |b|, |t| - 3, Fence);
    RemoveClosingFence(t, |t| - 3);
    assert t[..|t| - 3] == Body(b);
  }

  /**
   * `acc.replace(patterns[0], replacements[0]).replace(patterns[1], …)…`:
   * the `reduce` of markdowns.js:12-15, 43-45 and 63-65 and the `forEach` of
   * script.js:147-149.
   */
  function ReplaceInTurn(text: string, patterns: seq<string>, replacements: seq<string>): (r: string)
    requires |patterns| == |replacements|
    ensures forall c :: c in r && (forall i :: 0 <= i < |replacements| ==> c !in replacements[i]) ==> c in text
    decreases |patterns|
  {
    if |patterns| == 0 then text
    else ReplaceInTurn(Replace(text, patterns[0], replacements[0]), patterns[1..], replacements[1..])
  }

  /** With one pattern, the chain is a single `replace`. */
  lemma ReplaceOnce(text: string, pattern: string, replacement: string)
    ensures ReplaceInTurn(text, [pattern], [replacement]) == Replace(text, pattern, replacement)
  {
    assert [pattern][1..] == [] && [replacement][1..] == [];
  }

  /** Upper-case letters and digits: what placeholders are made of. */
  predicate IsPlaceholderChar(c: char) {
    'A' <= c <= 'Z' || '0' <= c <= '9'
  }

  /** `CODEBLOCK${index}` (markdowns.js:44, 64). */
  function Placeholder(index: nat): (r: string)
    ensures forall i :: 0 <= i < |r| ==> IsPlaceholderChar(r[i])
    ensures |r| > 9 && r[0] == 'C' && '0' <= r[|r| - 1] <= '9'
  {
    Marker + DecimalString(index)
  }

  /** The fixed head of every placeholder. */
  const Marker := "CODEBLOCK"

  /** Every placeholder starts with the marker. */
  lemma PlaceholderMarked(index: nat)
    ensures StartsAt(Placeholder(index), 0, Marker)
  {
    assert Placeholder(index)[..9] == Marker;
  }

  /**
   * The marker overlaps itself nowhere: shifted by `m`, its first two
   * characters meet different ones.
   */
  lemma MarkerShift(m: nat)
    requires 0 < m < |Marker|
    ensures Marker[0] == 'C' && Marker[1] == 'O'
    ensures Marker[m] != 'C' || (m + 1 < |Marker| && Marker[m + 1] != 'O')
  {
  }

  /** Different blocks get different placeholders. */
  lemma PlaceholdersDistinct(i: nat, j: nat)
    requires Placeholder(i) == Placeholder(j)
    ensures i == j
  {
    assert DecimalString(i) == Placeholder(i)[9..];
    assert DecimalString(j) == Placeholder(j)[9..];
    DecimalRoundTrip(i);
    DecimalRoundTrip(j);
  }

  /** A placeholder holds no character any pass reacts to. */
  lemma PlaceholderShape(index: nat)
    ensures NoFence(Placeholder(index)) && '$' !in Placeholder(index) && '\n' !in Placeholder(index)
    ensures '`' !in Placeholder(index) && '*' !in Placeholder(index) && '|' !in Placeholder(index)
    ensures '#' !in Placeholder(index) && '>' !in Placeholder(index)
  {
    NoBackquoteNoFence(Placeholder(index));
  }

  lemma NoBackquoteNoFence(t: string)
    requires '`' !in t
    ensures NoFence(t)
  {
    forall q | 0 <= q <= |t|
      ensures !StartsAt(t, q, Fence)
    {
      if q + 3 <= |t| {
        assert t[q..q + 3][0] == t[q];
      }
    }
  }

  /** The placeholders of `count` blocks, numbered from `from`. */
  function Placeholders(from: nat, count: nat): seq<string> {
    seq(count, i requires 0 <= i < count => Placeholder(from + i))
  }

  lemma PlaceholdersTail(from: nat, count: nat)
    requires count > 0
    ensures Placeholders(from, count)[0] == Placeholder(from)
    ensures Placeholders(from, count)[1..] == Placeholders(from + 1, count - 1)
  {
    var a := Placeholders(from, count)[1..];
    var b := Placeholders(from + 1, count - 1);
    forall i | 0 <= i < count - 1
      ensures a[i] == b[i]
    {
      assert from + (i + 1) == (from + 1) + i;
    }
  }

  /** The text of markdowns.js:40-46: every matched block replaced by its placeholder. */
  function Protect(s: string): (r: string)
    ensures '\n' in r ==> '\n' in s
  {
    var blocks := Blocks(s);
    var phs := Placeholders(0, |blocks|);
    forall i | 0 <= i < |phs|
      ensures '\n' !in phs[i]
    {
      PlaceholderShape(i);
    }
    ReplaceInTurn(s, blocks, phs)
  }

  /**
   * The text built position by position: the text between the matches
   * unchanged, match `i` replaced by `reps[i]`.
   */
  ghost function Spliced(s: string, spans: seq<Span>, from: nat, reps: seq<string>): string
    requires from <= |s| && IsScan(s, from, spans) && |reps| == |spans|
    decreases |spans|
  {
    if |spans| == 0 then s[from..]
    else s[from..spans[0].start] + reps[0] + Spliced(s, spans[1..], spans[0].end, reps[1..])
  }

  /**
   * A replacement the fold can splice in without disturbing the search for
   * the later blocks: no fence inside it or across its ends, and no `$`.
   */
  predicate Splicable(r: string) {
    NoFence(r) && '$' !in r && |r| > 0 && r[0] != '`' && r[|r| - 1] != '`'
  }

  /** A fence-free text that does not end in a backquote lets no fence start inside it. */
  lemma NoFenceBefore(a: string, rest: string, j: nat)
    requires NoFence(a) && (a == [] || a[|a| - 1] != '`')
    requires j < |a|
    ensures !StartsAt(a + rest, j, Fence)
  {
    var t := a + rest;
    if j + 3 <= |a| {
      StartsAtLeft(a, rest, j, Fence);
    } else if j + 3 <= |t| {
      assert t[|a| - 1] == a[|a| - 1];
      assert t[j..j + 3][|a| - 1 - j] == t[|a| - 1];
    }
  }

  /** Two fence-free texts whose junction is not two backquotes concatenate to a fence-free text. */
  lemma NoFenceConcat(a: string, b: string)
    requires NoFence(a) && NoFence(b)
    requires a == [] || a[|a| - 1] != '`' || b == [] || b[0] != '`'
    ensures NoFence(a + b)
  {
    var t := a + b;
    forall q | 0 <= q <= |t|
      ensures !StartsAt(t, q, Fence)
    {
      if q + 3 <= |a| {
        StartsAtLeft(a, b, q, Fence);
      } else if q >= |a| {
        StartsAtAppend(a, b, q - |a|, Fence);
      } else if q + 3 <= |t| {
        assert t[q..q + 3][|a| - 1 - q] == t[|a| - 1] == a[|a| - 1];
        assert t[q..q + 3][|a| - q] == t[|a|] == b[0];
      }
    }
  }

  /** The text before the first match of a scan holds no fence that a later one follows. */
  lemma GapHasNoFence(s: string, from: nat, spans: seq<Span>)
    requires from <= |s| && IsScan(s, from, spans) && |spans| > 0
    ensures NoFence(s[from..spans[0].start])
  {
    var start := spans[0].start;
    var gap := s[from..start];
    forall q | 0 <= q <= |gap|
      ensures !StartsAt(gap, q, Fence)
    {
      if q + 3 <= |gap| {
        StartsAtSlice(s, from, start, q, Fence);
        FenceBeforeFence(s, from + q, start);
      }
    }
  }

  /** A code block can occur only where a match of the regex starts. */
  lemma BlockOccursAtMatch(s: string, q: nat, b: string)
    requires IsCodeBlock(b)
    ensures StartsAt(s, q, b) ==> FenceMatchAt(s, q).Some?
  {
    if StartsAt(s, q, b) {
      BlockStartsWithFence(s, q, b);
      StartsAtSlice(s, q, q + |b|, |b| - 3, Fence);
      FenceBeforeFence(s, q, q + |b| - 3);
    }
  }

  lemma BlockStartsWithFence(s: string, q: nat, b: string)
    requires IsCodeBlock(b)
    ensures StartsAt(s, q, b) ==> StartsAt(s, q, Fence)
  {
    if StartsAt(s, q, b) {
      StartsAtPrefix(s, q, b, 3);
      assert b[..3] == Fence;
    }
  }

  /**
   * The first match of the scan is the first occurrence of its text after a
   * fence-free prefix: an earlier occurrence would start with a fence inside
   * the prefix, or start a match inside the gap before it.
   */
  lemma NoEarlierOccurrence(s: string, from: nat, spans: seq<Span>, pref: string)
    requires from <= |s| && IsScan(s, from, spans) && |spans| > 0
    requires NoFence(pref) && (pref == [] || pref[|pref| - 1] != '`')
    ensures spans[0].start + 6 <= spans[0].end <= |s|
    ensures forall j :: 0 <= j < |pref| + spans[0].start - from ==>
              !StartsAt(pref + s[from..], j, s[spans[0].start..spans[0].end])
  {
    var acc := pref + s[from..];
    var sp := spans[0];
    var b := s[sp.start..sp.end];
    MatchIsCodeBlock(s, sp.start, sp.end);
    forall j | 0 <= j < |pref| + sp.start - from
      ensures !StartsAt(acc, j, b)
    {
      if j < |pref| {
        NoOccurrenceInPrefix(pref, s[from..], j, b);
      } else {
        NoOccurrenceInGap(s, from, spans, pref, j - |pref|, b);
      }
    }
  }

  /** A block cannot start inside a fence-free prefix that does not end in a backquote. */
  lemma NoOccurrenceInPrefix(pref: string, rest: string, j: nat, b: string)
    requires NoFence(pref) && (pref == [] || pref[|pref| - 1] != '`')
    requires j < |pref| && IsCodeBlock(b)
    ensures !StartsAt(pref + rest, j, b)
  {
    NoFenceBefore(pref, rest, j);
    BlockStartsWithFence(pref + rest, j, b);
  }

  /** A block cannot start in the gap before the first match of a scan. */
  lemma NoOccurrenceInGap(s: string, from: nat, spans: seq<Span>, pref: string, q: nat, b: string)
    requires from <= |s| && IsScan(s, from, spans) && |spans| > 0
    requires q < spans[0].start - from && IsCodeBlock(b)
    ensures !StartsAt(pref + s[from..], |pref| + q, b)
  {
    StartsAtAppend(pref, s[from..], q, b);
    if q + |b| <= |s| - from {
      StartsAtSlice(s, from, |s|, q, b);
    }
    BlockOccursAtMatch(s, from + q, b);
  }

  /**
   * One step of the fold of markdowns.js:43-45: the first match of the scan
   * gives way to its placeholder `ph`, and what precedes the rest of the text
   * is again fence-free.
   */
  lemma ProtectStep(s: string, from: nat, spans: seq<Span>, pref: string, ph: string)
    requires from <= |s| && IsScan(s, from, spans) && |spans| > 0
    requires NoFence(pref) && (pref == [] || pref[|pref| - 1] != '`')
    requires NoFence(ph) && '$' !in ph && |ph| > 0 && ph[0] != '`'
    ensures spans[0].end <= |s|
    ensures Replace(pref + s[from..], s[spans[0].start..spans[0].end], ph)
            == (pref + s[from..spans[0].start] + ph) + s[spans[0].end..]
    ensures NoFence(pref + s[from..spans[0].start] + ph)
  {
    NoEarlierOccurrence(s, from, spans, pref);
    ReplaceFirstMatch(s, from, spans, pref, ph);
    GapHasNoFence(s, from, spans);
    NoFenceConcat(pref, s[from..spans[0].start]);
    NoFenceConcat(pref + s[from..spans[0].start], ph);
  }

  /** The first match, with no earlier occurrence of its text, is where `replace` splices. */
  lemma ReplaceFirstMatch(s: string, from: nat, spans: seq<Span>, pref: string, ph: string)
    requires from <= |s| && |spans| > 0 && from <= spans[0].start <= spans[0].end <= |s| && '$' !in ph
    requires forall j :: 0 <= j < |pref| + spans[0].start - from ==>
               !StartsAt(pref + s[from..], j, s[spans[0].start..spans[0].end])
    ensures Replace(pref + s[from..], s[spans[0].start..spans[0].end], ph)
            == (pref + s[from..spans[0].start] + ph) + s[spans[0].end..]
  {
    var acc := pref + s[from..];
    var sp := spans[0];
    var b := s[sp.start..sp.end];
    var gap := s[from..sp.start];
    var k := |pref| + |gap|;
    assert acc == (pref + gap) + s[sp.start..];
    StartsAtAppend(pref + gap, s[sp.start..], 0, b);
    StartsAtSlice(s, sp.start, |s|, 0, b);
    ReplaceAt(acc, b, ph, k);
    assert acc[..k] == pref + gap;
    assert acc[k + |b|..] == s[sp.end..];
  }

  /** The blocks are the text under the spans, and so are their tails. */
  predicate BlocksOf(s: string, spans: seq<Span>, blocks: seq<string>) {
    && |blocks| == |spans|
    && forall i :: 0 <= i < |spans| ==> spans[i].start <= spans[i].end <= |s| && blocks[i] == s[spans[i].start..spans[i].end]
  }

  lemma BlocksOfSpans(s: string, spans: seq<Span>, blocks: seq<string>)
    requires |spans| > 0 && BlocksOf(s, spans, blocks)
    ensures BlocksOf(s, spans[1..], blocks[1..])
  {
    forall i | 0 <= i < |spans| - 1
      ensures spans[1..][i].start <= spans[1..][i].end <= |s|
      ensures blocks[1..][i] == s[spans[1..][i].start..spans[1..][i].end]
    {
      assert spans[1..][i] == spans[i + 1] && blocks[1..][i] == blocks[i + 1];
    }
  }

  /**
   * The fold of `replace` calls over the blocks of the scan from `from`,
   * applied to a fence-free prefix followed by the rest of the text, splices
   * each replacement in where its block stood.
   */
  lemma {:induction false} SpliceScan(s: string, from: nat, spans: seq<Span>, pref: string, blocks: seq<string>, reps: seq<string>)
    requires from <= |s| && IsScan(s, from, spans)
    requires NoFence(pref) && (pref == [] || pref[|pref| - 1] != '`')
    requires BlocksOf(s, spans, blocks) && |reps| == |spans| && AllSplicable(reps)
    ensures ReplaceInTurn(pref + s[from..], blocks, reps) == pref + Spliced(s, spans, from, reps)
    decreases |spans|
  {
    if |spans| > 0 {
      var pref' := pref + s[from..spans[0].start] + reps[0];
      AllSplicableTail(reps);
      SpliceStep(s, from, spans, pref, blocks, reps, pref');
      SpliceScan(s, spans[0].end, spans[1..], pref', blocks[1..], reps[1..]);
      SplicedStep(s, from, spans, pref, reps, pref');
    } else {
      assert ReplaceInTurn(pref + s[from..], blocks, reps) == pref + s[from..];
    }
  }

  /** One step of the scan: the first block is replaced, and the chain goes on after it. */
  lemma SpliceStep(s: string, from: nat, spans: seq<Span>, pref: string, blocks: seq<string>, reps: seq<string>, pref': string)
    requires from <= |s| && IsScan(s, from, spans) && |spans| > 0
    requires NoFence(pref) && (pref == [] || pref[|pref| - 1] != '`')
    requires BlocksOf(s, spans, blocks) && |reps| == |spans| && Splicable(reps[0])
    requires pref' == pref + s[from..spans[0].start] + reps[0]
    ensures spans[0].end <= |s| && IsScan(s, spans[0].end, spans[1..]) && BlocksOf(s, spans[1..], blocks[1..])
    ensures NoFence(pref') && pref'[|pref'| - 1] != '`'
    ensures ReplaceInTurn(pref + s[from..], blocks, reps)
            == ReplaceInTurn(pref' + s[spans[0].end..], blocks[1..], reps[1..])
  {
    var ph := reps[0];
    assert blocks[0] == s[spans[0].start..spans[0].end];
    ProtectStep(s, from, spans, pref, ph);
    assert pref'[|pref'| - 1] == ph[|ph| - 1];
    BlocksOfSpans(s, spans, blocks);
  }

  predicate AllSplicable(reps: seq<string>) {
    forall i :: 0 <= i < |reps| ==> Splicable(reps[i])
  }

  lemma AllSplicableTail(reps: seq<string>)
    requires |reps| > 0 && AllSplicable(reps)
    ensures Splicable(reps[0]) && AllSplicable(reps[1..])
  {
    assert forall i :: 0 <= i < |reps| - 1 ==> reps[1..][i] == reps[i + 1];
  }

  lemma SplicedStep(s: string, from: nat, spans: seq<Span>, pref: string, reps: seq<string>, pref': string)
    requires from <= |s| && IsScan(s, from, spans) && |spans| > 0 && |reps| == |spans|
    requires pref' == pref + s[from..spans[0].start] + reps[0]
    ensures pref + Spliced(s, spans, from, reps) == pref' + Spliced(s, spans[1..], spans[0].end, reps[1..])
  {
    AppendAssoc4(pref, s[from..spans[0].start], reps[0], Spliced(s, spans[1..], spans[0].end, reps[1..]));
  }

  /** Every placeholder can be spliced in. */
  lemma PlaceholdersSplicable(from: nat, count: nat)
    ensures AllSplicable(Placeholders(from, count))
  {
    forall i | 0 <= i < count
      ensures Splicable(Placeholders(from, count)[i])
    {
      var ph := Placeholder(from + i);
      PlaceholderShape(from + i);
      assert ph[0] == 'C';
      assert '0' <= ph[|ph| - 1] <= '9';
    }
  }

  /**
   * The placeholders stand exactly where the blocks stood, in order of
   * appearance, and nothing else changes (markdowns.js:40-46).
   */
  lemma ProtectIsPositional(s: string)
    ensures Protect(s) == Spliced(s, MatchesFrom(s, 0), 0, Placeholders(0, |MatchesFrom(s, 0)|))
  {
    var spans := MatchesFrom(s, 0);
    var reps := Placeholders(0, |spans|);
    var blocks := Blocks(s);
    assert [] + s[0..] == s;
    PlaceholdersSplicable(0, |spans|);
    SpliceScan(s, 0, spans, [], blocks, reps);
    assert [] + Spliced(s, spans, 0, reps) == Spliced(s, spans, 0, reps);
  }

  /** `createCodeBlockUI(codeBlock)` (markdowns.js:21-35). */
  function CodeBlockUi(block: string): string {
    CodeBlockHtml(RemoveFences(block))
  }

  /** The code-block UIs of markdowns.js:63-65, one per block. */
  function BlockUis(blocks: seq<string>): (r: seq<string>)
    ensures |r| == |blocks|
  {
    seq(|blocks|, i requires 0 <= i < |blocks| => CodeBlockUi(blocks[i]))
  }

  /** markdowns.js:62-66: each placeholder, first occurrence, gives way to its block's UI. */
  function Restore(text: string, blocks: seq<string>): string {
    ReplaceInTurn(text, Placeholders(0, |blocks|), BlockUis(blocks))
  }

  /** `extractCodeBlocks` of markdowns.js:9-19. */
  function ExtractCodeBlocks(s: string): string {
    var blocks := Blocks(s);
    ReplaceInTurn(s, blocks, seq(|blocks|, i requires 0 <= i < |blocks| => Fence + RemoveFences(blocks[i]) + Fence))
  }

  /** `extractCodeBlocks` of script.js:144-152: each block replaced by its UI in place. */
  function ExtractCodeBlocksEarlier(s: string): string {
    var blocks := Blocks(s);
    ReplaceInTurn(s, blocks, BlockUis(blocks))
  }

  /** The body of a code block holds no fence. */
  lemma BodyNoFence(b: string)
    requires IsCodeBlock(b)
    ensures NoFence(Body(b))
  {
    var body := Body(b);
    forall q | 0 <= q <= |body|
      ensures !StartsAt(body, q, Fence)
    {
      if q + 3 <= |body| {
        StartsAtSlice(b, 3, |b| - 3, q, Fence);
        if q + 3 == |body| {
          assert !StartsAt(b, |b| - 4, Fence);
          var f := b[|b| - 3..|b|];
          assert f == Fence && f[0] == '`' && f[1] == '`';
          assert b[|b| - 3] == f[0] && b[|b| - 2] == f[1];
          var u := b[|b| - 4..|b| - 1];
          assert u == [b[|b| - 4], '`', '`'] && u != Fence;
          assert body[q + 2] == b[|b| - 4] != '`';
        }
      }
    }
  }

  /** The markup around the code text holds no backquote and ends in tag brackets. */
  lemma CodeBlockMarkupShape()
    ensures NoFence(CodeBlockOpen) && NoFence(CodeBlockClose)
    ensures CodeBlockOpen[0] == '<' && CodeBlockOpen[|CodeBlockOpen| - 1] == '>'
    ensures CodeBlockClose[0] == '<' && CodeBlockClose[|CodeBlockClose| - 1] == '>'
  {
    assert '`' !in CodeBlockOpen;
    assert '`' !in PreEnd && '`' !in CopyButton && '`' !in "</div>";
    NoBackquoteNoFence(CodeBlockOpen);
    NoBackquoteNoFence(CodeBlockClose);
  }

  /** The fence is written with characters escaping leaves alone. */
  lemma FenceOutsideEntities()
    ensures OutsideEntities(Fence)
  {
    assert '`' !in EntityChars;
  }

  /** The UI of a `$`-free code block can be spliced in by a `replace` call. */
  lemma CodeBlockUiSplicable(b: string)
    requires IsCodeBlock(b) && '$' !in b
    ensures Splicable(CodeBlockUi(b))
  {
    var body := RemoveFences(b);
    RemoveFencesOfBlock(b);
    BodyNoFence(b);
    FenceOutsideEntities();
    EscapeLacks(body, Fence);
    var e := EscapeText(body);
    CodeBlockMarkupShape();
    NoFenceConcat(e, CodeBlockClose);
    var tail := e + CodeBlockClose;
    NoFenceConcat(CodeBlockOpen, tail);
    AppendAssoc(CodeBlockOpen, e, CodeBlockClose);
    assert tail[|tail| - 1] == CodeBlockClose[|CodeBlockClose| - 1];
    CodeBlockNoDollar(body);
  }

  /** All UIs of `$`-free code blocks can be spliced in. */
  lemma BlockUisSplicable(blocks: seq<string>)
    requires forall i :: 0 <= i < |blocks| ==> IsCodeBlock(blocks[i]) && '$' !in blocks[i]
    ensures AllSplicable(BlockUis(blocks))
  {
    forall i | 0 <= i < |blocks|
      ensures Splicable(BlockUis(blocks)[i])
    {
      CodeBlockUiSplicable(blocks[i]);
    }
  }

  /**
   * script.js:144-152: when no block holds a `$`, each block's UI stands
   * exactly where the block stood, and nothing else changes.
   */
  lemma ExtractEarlierPositional(s: string)
    requires forall i :: 0 <= i < |Blocks(s)| ==> '$' !in Blocks(s)[i]
    ensures ExtractCodeBlocksEarlier(s) == Spliced(s, MatchesFrom(s, 0), 0, BlockUis(Blocks(s)))
  {
    var spans := MatchesFrom(s, 0);
    var blocks := Blocks(s);
    var reps := BlockUis(blocks);
    assert [] + s[0..] == s;
    BlockUisSplicable(blocks);
    SpliceScan(s, 0, spans, [], blocks, reps);
    assert [] + Spliced(s, spans, 0, reps) == Spliced(s, spans, 0, reps);
  }

  /**
   * Behind a text lacking the marker, a placeholder first occurs where it
   * was put: no earlier occurrence, not even one reaching into it.
   */
  lemma PlaceholderFirstAt(acc: string, ph: string, rest: string, j: nat)
    requires Lacks(acc, Marker) && StartsAt(ph, 0, Marker) && j < |acc|
    ensures !StartsAt(acc + ph + rest, j, ph)
  {
    var t := acc + ph + rest;
    assert t == acc + (ph + rest);
    assert ph[..|Marker|] == Marker;
    if j + |Marker| <= |acc| {
      StartsAtLeft(acc, ph + rest, j, Marker);
      assert !StartsAt(t, j, Marker);
      if j + |ph| <= |t| {
        assert t[j..j + |ph|][..|Marker|] == t[j..j + |Marker|];
      }
    } else if j + |ph| <= |t| {
      var m := |acc| - j;
      MarkerShift(m);
      var u := t[j..j + |ph|];
      assert u[m] == t[|acc|] == ph[0] == 'C';
      assert u[m] != ph[m] || u[m + 1] != ph[m + 1] by {
        if ph[m] == 'C' {
          assert u[m + 1] == t[|acc| + 1] == ph[1] == 'O';
        }
      }
    }
  }

  /**
   * A replacement the placeholder chain can splice in: no marker inside it or
   * across its ends, and no `$`.
   */
  predicate Placeable(r: string) {
    Lacks(r, Marker) && '$' !in r && |r| > 0 && r[0] !in Marker && r[|r| - 1] !in Marker
  }

  predicate AllPlaceable(reps: seq<string>) {
    forall i :: 0 <= i < |reps| ==> Placeable(reps[i])
  }

  lemma AllPlaceableTail(reps: seq<string>)
    requires |reps| > 0 && AllPlaceable(reps)
    ensures Placeable(reps[0]) && AllPlaceable(reps[1..])
  {
    assert forall i :: 0 <= i < |reps| - 1 ==> reps[1..][i] == reps[i + 1];
  }

  /** The text before a placeholder, and after its replacement, still lacks the marker. */
  lemma RestoreStepLacks(s: string, gap: string, pref: string, rep: string)
    requires Lacks(gap, Marker) && Lacks(pref, Marker) && (pref == [] || pref[|pref| - 1] !in Marker)
    requires Placeable(rep)
    ensures Lacks(pref + gap, Marker)
    ensures Lacks(pref + gap + rep, Marker) && (pref + gap + rep)[|pref + gap + rep| - 1] !in Marker
  {
    LacksConcat(pref, gap, Marker);
    LacksConcat(pref + gap, rep, Marker);
  }

  /** One placeholder of the chain gives way to its replacement where it stands. */
  lemma RestoreStep(s: string, from: nat, spans: seq<Span>, k: nat, pref: string, reps: seq<string>, pref': string)
    requires from <= |s| && IsScan(s, from, spans) && |spans| > 0 && |reps| == |spans|
    requires Lacks(s, Marker) && Lacks(pref, Marker) && (pref == [] || pref[|pref| - 1] !in Marker)
    requires Placeable(reps[0])
    requires pref' == pref + s[from..spans[0].start] + reps[0]
    ensures spans[0].end <= |s| && IsScan(s, spans[0].end, spans[1..])
    ensures Lacks(pref', Marker) && pref'[|pref'| - 1] !in Marker
    ensures Replace(pref + Spliced(s, spans, from, Placeholders(k, |spans|)), Placeholder(k), reps[0])
            == pref' + Spliced(s, spans[1..], spans[0].end, Placeholders(k + 1, |spans| - 1))
  {
    var n := |spans|;
    var e := spans[0].end;
    ScanMatches(s, from, spans, 0);
    var phs := Placeholders(k, n);
    PlaceholdersTail(k, n);
    var ph := Placeholder(k);
    PlaceholderMarked(k);
    var gap := s[from..spans[0].start];
    LacksSlice(s, from, spans[0].start, Marker);
    RestoreStepLacks(s, gap, pref, reps[0]);
    var acc := pref + gap;
    var rest := Spliced(s, spans[1..], e, phs[1..]);
    var text := pref + Spliced(s, spans, from, phs);
    assert text == acc + ph + rest by {
      AppendAssoc4(pref, gap, ph, rest);
    }
    ReplacePlaceholder(acc, ph, rest, reps[0]);
  }

  /** Behind a text lacking the marker, `replace` swaps a placeholder for a `$`-free replacement in place. */
  lemma ReplacePlaceholder(acc: string, ph: string, rest: string, rep: string)
    requires Lacks(acc, Marker) && StartsAt(ph, 0, Marker) && '$' !in rep
    ensures Replace(acc + ph + rest, ph, rep) == acc + rep + rest
  {
    var text := acc + ph + rest;
    forall j | 0 <= j < |acc|
      ensures !StartsAt(text, j, ph)
    {
      PlaceholderFirstAt(acc, ph, rest, j);
    }
    assert StartsAt(text, |acc|, ph) by {
      assert text[|acc|..|acc| + |ph|] == ph;
    }
    ReplaceAt(text, ph, rep, |acc|);
    assert text[..|acc|] == acc && text[|acc| + |ph|..] == rest;
  }

  /**
   * The fold of `replace` calls over the placeholders of the blocks of the
   * scan from `from`, applied to the text with the placeholders spliced in,
   * splices each replacement in where its placeholder stood.
   */
  lemma {:induction false} RestoreScan(s: string, from: nat, spans: seq<Span>, k: nat, pref: string, reps: seq<string>)
    requires from <= |s| && IsScan(s, from, spans) && |reps| == |spans|
    requires Lacks(s, Marker) && Lacks(pref, Marker) && (pref == [] || pref[|pref| - 1] !in Marker)
    requires AllPlaceable(reps)
    ensures ReplaceInTurn(pref + Spliced(s, spans, from, Placeholders(k, |spans|)), Placeholders(k, |spans|), reps)
            == pref + Spliced(s, spans, from, reps)
    decreases |spans|
  {
    if |spans| > 0 {
      var pref' := pref + s[from..spans[0].start] + reps[0];
      AllPlaceableTail(reps);
      RestoreStep(s, from, spans, k, pref, reps, pref');
      PlaceholdersTail(k, |spans|);
      RestoreScan(s, spans[0].end, spans[1..], k + 1, pref', reps[1..]);
      SplicedStep(s, from, spans, pref, reps, pref');
    }
  }

  /** The markup around the code text never spells the marker. */
  lemma CodeBlockMarkupUnmarked()
    ensures Lacks(CodeBlockOpen, Marker) && Lacks(CodeBlockClose, Marker)
    ensures OutsideEntities(Marker)
  {
    OpenNoK();
    CloseNoK();
    LacksByChar(CodeBlockOpen, Marker, 8);
    LacksByChar(CodeBlockClose, Marker, 8);
  }

  lemma OpenNoK()
    ensures 'K' !in CodeBlockOpen && Marker[8] == 'K'
  {
  }

  lemma CloseNoK()
    ensures 'K' !in CodeBlockClose
  {
    assert 'K' !in PreEnd;
    assert 'K' !in CopyButton;
    assert 'K' !in "</div>";
  }

  /** The UI of a code block without `$` or the marker can replace a placeholder. */
  lemma CodeBlockUiPlaceable(b: string)
    requires IsCodeBlock(b) && '$' !in b && Lacks(b, Marker)
    ensures Placeable(CodeBlockUi(b))
  {
    var body := RemoveFences(b);
    RemoveFencesOfBlock(b);
    LacksSlice(b, 3, |b| - 3, Marker);
    CodeBlockMarkupUnmarked();
    EscapeLacks(body, Marker);
    var e := EscapeText(body);
    CodeBlockMarkupShape();
    LacksConcat(e, CodeBlockClose, Marker);
    var tail := e + CodeBlockClose;
    LacksConcat(CodeBlockOpen, tail, Marker);
    AppendAssoc(CodeBlockOpen, e, CodeBlockClose);
    assert tail[|tail| - 1] == CodeBlockClose[|CodeBlockClose| - 1];
    CodeBlockNoDollar(body);
  }

  /**
   * markdowns.js:40-46 and 62-66: when no block holds a `$` and the text
   * never spells `CODEBLOCK` itself, each block's UI ends up exactly where
   * the block stood, and nothing else changes.
   */
  lemma RestoreProtect(s: string)
    requires Lacks(s, Marker)
    requires forall i :: 0 <= i < |Blocks(s)| ==> '$' !in Blocks(s)[i]
    ensures Restore(Protect(s), Blocks(s)) == Spliced(s, MatchesFrom(s, 0), 0, BlockUis(Blocks(s)))
  {
    var spans := MatchesFrom(s, 0);
    var blocks := Blocks(s);
    var reps := BlockUis(blocks);
    forall i | 0 <= i < |blocks|
      ensures Placeable(reps[i])
    {
      LacksSlice(s, spans[i].start, spans[i].end, Marker);
      CodeBlockUiPlaceable(blocks[i]);
    }
    ProtectIsPositional(s);
    assert [] + Protect(s) == Protect(s);
    RestoreScan(s, 0, spans, 0, [], reps);
    assert [] + Spliced(s, spans, 0, reps) == Spliced(s, spans, 0, reps);
  }

  /**
   * Both renderers put the same code-block UIs in the same places: protecting
   * and restoring (markdowns.js) agrees with replacing in place (script.js),
   * under the conditions of the two positional lemmas.
   */
  lemma RestoreProtectIsEarlier(s: string)
    requires Lacks(s, Marker)
    requires forall i :: 0 <= i < |Blocks(s)| ==> '$' !in Blocks(s)[i]
    ensures Restore(Protect(s), Blocks(s)) == ExtractCodeBlocksEarlier(s)
  {
    RestoreProtect(s);
    ExtractEarlierPositional(s);
  }

  /** Replacing a `$`-free pattern by itself changes nothing. */
  lemma ReplaceBySelf(s: string, p: string)
    requires Literal(p)
    ensures Replace(s, p, p) == s
  {
    match IndexFrom(s, p, 0)
    case None =>
    case Some(k) =>
      SubstituteLiteral(p, p, s, k);
      SpliceSelf(s, k, p);
  }

  /** Cutting an occurrence out and putting it back gives the text again. */
  lemma SpliceSelf(s: string, k: nat, p: string)
    requires StartsAt(s, k, p)
    ensures s[..k] + p + s[k + |p|..] == s
  {
    assert s == s[..k] + s[k..k + |p|] + s[k + |p|..];
  }

  lemma {:induction false} ReplaceEachBySelf(s: string, patterns: seq<string>, replacements: seq<string>)
    requires |patterns| == |replacements|
    requires forall i :: 0 <= i < |patterns| ==> replacements[i] == patterns[i] && Literal(patterns[i])
    ensures ReplaceInTurn(s, patterns, replacements) == s
    decreases |patterns|
  {
    if |patterns| > 0 {
      ReplaceBySelf(s, patterns[0]);
      ReplaceEachBySelf(s, patterns[1..], replacements[1..]);
    }
  }

  /**
   * When no block holds `$`, `extractCodeBlocks` returns its input: each block
   * is rebuilt as fence, body, fence, which is the block itself (markdowns.js:9-19).
   */
  lemma ExtractWithoutDollar(s: string)
    requires forall i :: 0 <= i < |Blocks(s)| ==> '$' !in Blocks(s)[i]
    ensures ExtractCodeBlocks(s) == s
  {
    forall i | 0 <= i < |Blocks(s)|
      ensures Literal(Blocks(s)[i])
    {
      var b := Blocks(s)[i];
      assert forall j :: 0 <= j < |b| ==> b[j] != '$';
    }
    ExtractLiteral(s);
  }

  /**
   * More generally, `extractCodeBlocks` returns its input whenever no `$` in a
   * block starts a substitution code: a lone `$`, or `$` before any other
   * character, is inserted literally (markdowns.js:9-19).
   */
  lemma ExtractLiteral(s: string)
    requires forall i :: 0 <= i < |Blocks(s)| ==> Literal(Blocks(s)[i])
    ensures ExtractCodeBlocks(s) == s
  {
    var blocks := Blocks(s);
    var rebuilt := seq(|blocks|, i requires 0 <= i < |blocks| => Fence + RemoveFences(blocks[i]) + Fence);
    forall i | 0 <= i < |blocks|
      ensures rebuilt[i] == blocks[i]
    {
      RebuildBlock(blocks[i]);
    }
    ReplaceEachBySelf(s, blocks, rebuilt);
  }

  /** A block is its body between two fences. */
  lemma RebuildBlock(b: string)
    requires IsCodeBlock(b)
    ensures Fence + RemoveFences(b) + Fence == b
  {
    RemoveFencesOfBlock(b);
    assert b[..3] == Fence && b[|b| - 3..] == Fence;
    assert b == b[..3] + Body(b) + b[|b| - 3..];
  }

  lemma DollarBlockScan()
    ensures Blocks("```$$```") == ["```$$```"]
    ensures RemoveFences("```$$```") == "$$"
  {
    var x := "$$";
    assert '`' !in x;
    assert "```$$```" == Fence + x + Fence;
    SingleBlock(x);
    SingleBlockBody(x);
  }

  /**
   * A block that holds `$$` is not returned unchanged: the rebuilt block is
   * itself a replacement string, in which `$$` stands for one `$`.
   */
  lemma ExtractCollapsesDollars()
    ensures ExtractCodeBlocks("```$$```") == "```$```"
  {
    var s := "```$$```";
    DollarBlockScan();
    ExtractOfSingle(s);
    ReplaceWhole(s, Fence + "$$" + Fence);
    CollapseDollars(s);
  }

  /** A text that is one block is replaced by the block rebuilt. */
  lemma ExtractOfSingle(s: string)
    requires Blocks(s) == [s]
    ensures ExtractCodeBlocks(s) == Replace(s, s, Fence + RemoveFences(s) + Fence)
  {
    var r := Fence + RemoveFences(s) + Fence;
    assert seq(1, i requires 0 <= i < 1 => Fence + RemoveFences(Blocks(s)[i]) + Fence) == [r];
    ReplaceOnce(s, s, r);
  }

  /** As a replacement string, fence, `$$`, fence reads as fence, `$`, fence. */
  lemma CollapseDollars(s: string)
    requires StartsAt(s, 0, s)
    ensures Substitute(Fence + "$$" + Fence, s, s, 0) == "```$```"
  {
    AppendAssoc(Fence, "$$", Fence);
    SubstitutePlainPrefix(Fence, "$$" + Fence, s, s, 0);
    SubstituteDollarDollar(Fence, s, s, 0);
    AppendAssoc(Fence, "$", Fence);
  }
}
