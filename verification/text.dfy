/**
 * Strings with the semantics of the JavaScript built-ins the chat widget uses:
 * the `\s` class (which is also what `trim()` strips), the line terminators
 * that `.` refuses to match, `split` on a one-character separator, and
 * `replace` with a string pattern, including the `$` patterns of its
 * replacement string.
 */
module Text {
  import opened Wrappers

  /** The characters JavaScript's `.` does not match and multiline `^`/`$` stop at. */
  predicate IsLineTerminator(c: char) {
    c == '\n' || c == '\r' || c == '\U{2028}' || c == '\U{2029}'
  }

  /** JavaScript's `\s`: the WhiteSpace and LineTerminator code points. */
  predicate IsSpace(c: char) {
    || IsLineTerminator(c)
    || c == '\t' || c == '\U{B}' || c == '\U{C}' || c == ' ' || c == '\U{A0}' || c == '\U{FEFF}'
    || c == '\U{1680}' || '\U{2000}' <= c <= '\U{200A}'
    || c == '\U{202F}' || c == '\U{205F}' || c == '\U{3000}'
  }

  predicate AllSpace(s: string) {
    forall i :: 0 <= i < |s| ==> IsSpace(s[i])
  }

  predicate NoLineTerminator(s: string) {
    forall i :: 0 <= i < |s| ==> !IsLineTerminator(s[i])
  }

  /** `pat` occurs in `s` starting at index `i`. */
  predicate StartsAt(s: string, i: nat, pat: string) {
    i + |pat| <= |s| && s[i..i + |pat|] == pat
  }

  /** `pat` occurs nowhere in `s`. */
  predicate Lacks(s: string, pat: string) {
    forall q :: 0 <= q <= |s| ==> !StartsAt(s, q, pat)
  }

  lemma LacksTail(t: string, w: string)
    requires |t| > 0 && Lacks(t, w)
    ensures Lacks(t[1..], w)
  {
    forall q | 0 <= q <= |t| - 1
      ensures !StartsAt(t[1..], q, w)
    {
      StartsAtAppend(t[..1], t[1..], q, w);
      assert t[..1] + t[1..] == t;
    }
  }

  /** A slice of a text lacking a word lacks it too. */
  lemma LacksSlice(s: string, a: nat, b: nat, w: string)
    requires a <= b <= |s| && Lacks(s, w)
    ensures Lacks(s[a..b], w)
  {
    forall q | 0 <= q <= b - a
      ensures !StartsAt(s[a..b], q, w)
    {
      if q + |w| <= b - a {
        StartsAtSlice(s, a, b, q, w);
      }
    }
  }

  /** A text missing one of a word's characters lacks the word. */
  lemma LacksByChar(s: string, w: string, i: nat)
    requires i < |w| && w[i] !in s
    ensures Lacks(s, w)
  {
    forall q | 0 <= q <= |s|
      ensures !StartsAt(s, q, w)
    {
      if q + |w| <= |s| {
        assert s[q..q + |w|][i] == s[q + i];
      }
    }
  }

  /**
   * Two texts lacking a word, joined where one side's character is not in
   * the word, lack it too: an occurrence across the junction would hold both.
   */
  lemma LacksConcat(a: string, b: string, w: string)
    requires Lacks(a, w) && Lacks(b, w)
    requires a == [] || b == [] || a[|a| - 1] !in w || b[0] !in w
    ensures Lacks(a + b, w)
  {
    var t := a + b;
    forall q | 0 <= q <= |t|
      ensures !StartsAt(t, q, w)
    {
      if q + |w| <= |a| {
        StartsAtLeft(a, b, q, w);
      } else if q >= |a| {
        StartsAtAppend(a, b, q - |a|, w);
      } else if q + |w| <= |t| {
        var u := t[q..q + |w|];
        assert u[|a| - 1 - q] == a[|a| - 1] && u[|a| - q] == b[0];
        assert w[|a| - 1 - q] in w && w[|a| - q] in w;
      }
    }
  }

  lemma NoLineTerminatorConcat(a: string, b: string)
    requires NoLineTerminator(a) && NoLineTerminator(b)
    ensures NoLineTerminator(a + b)
  {
    assert forall i :: |a| <= i < |a + b| ==> (a + b)[i] == b[i - |a|];
  }

  lemma AppendAssoc(a: string, b: string, c: string)
    ensures a + b + c == a + (b + c)
  {
  }

  lemma AppendAssoc4(a: string, b: string, c: string, d: string)
    ensures a + b + c + d == a + (b + (c + d))
    ensures a + b + c + d == a + (b + c + d)
  {
  }

  /** A nonempty text is its first character followed by the rest. */
  lemma HeadTail(p: string, x: string)
    requires |p| > 0
    ensures p + x == [p[0]] + (p[1..] + x)
  {
  }

  /** A two-character pattern occurs where its two characters do. */
  lemma StartsAtPair(s: string, q: nat, x: char, y: char)
    requires q + 2 <= |s|
    ensures StartsAt(s, q, [x, y]) <==> s[q] == x && s[q + 1] == y
  {
    assert s[q..q + 2][0] == s[q] && s[q..q + 2][1] == s[q + 1];
  }

  /** Index of the first line terminator at or after `i`, or `|s|`: where `.*` stops. */
  function LineEnd(s: string, i: nat): (e: nat)
    requires i <= |s|
    ensures i <= e <= |s|
    ensures forall k :: i <= k < e ==> !IsLineTerminator(s[k])
    ensures e == |s| || IsLineTerminator(s[e])
    decreases |s| - i
  {
    if i < |s| && !IsLineTerminator(s[i]) then LineEnd(s, i + 1) else i
  }

  /** Index of the first non-whitespace character at or after `i`, or `|s|` if there is none. */
  function SkipSpaces(s: string, i: nat): (j: nat)
    requires i <= |s|
    ensures i <= j <= |s|
    ensures forall k :: i <= k < j ==> IsSpace(s[k])
    ensures j == |s| || !IsSpace(s[j])
    decreases |s| - i
  {
    if i < |s| && IsSpace(s[i]) then SkipSpaces(s, i + 1) else i
  }

  /**
   * Index just past the last non-whitespace character of `s[lo..j]`, or `lo`
   * if that slice is all whitespace.
   */
  function SkipSpacesBack(s: string, lo: nat, j: nat): (e: nat)
    requires lo <= j <= |s|
    ensures lo <= e <= j
    ensures forall k :: e <= k < j ==> IsSpace(s[k])
    ensures e == lo || !IsSpace(s[e - 1])
    decreases j
  {
    if j > lo && IsSpace(s[j - 1]) then SkipSpacesBack(s, lo, j - 1) else j
  }

  /**
   * `s.trim()`: the slice of `s` left when the leading and the trailing
   * whitespace are removed.
   */
  function Trim(s: string): (r: string)
    ensures |r| <= |s|
    ensures r == [] || (!IsSpace(r[0]) && !IsSpace(r[|r| - 1]))
    ensures r == [] <==> AllSpace(s)
    ensures forall c :: c in r ==> c in s
    ensures exists a, e :: 0 <= a <= e <= |s| && r == s[a..e] && AllSpace(s[..a]) && AllSpace(s[e..])
  {
    var a := SkipSpaces(s, 0);
    var e := SkipSpacesBack(s, a, |s|);
    assert AllSpace(s[..a]) && AllSpace(s[e..]);
    assert forall c :: c in s[a..e] ==> c in s by {
      forall c | c in s[a..e] ensures c in s {
        var k :| 0 <= k < e - a && s[a..e][k] == c;
        assert s[a + k] == c;
      }
    }
    s[a..e]
  }

  /** Where the trimmed text sits: everything before and after it is whitespace. */
  lemma TrimBounds(s: string)
    ensures SkipSpaces(s, 0) <= SkipSpacesBack(s, SkipSpaces(s, 0), |s|)
    ensures Trim(s) == s[SkipSpaces(s, 0)..SkipSpacesBack(s, SkipSpaces(s, 0), |s|)]
    ensures AllSpace(s[..SkipSpaces(s, 0)])
    ensures AllSpace(s[SkipSpacesBack(s, SkipSpaces(s, 0), |s|)..])
  {
  }

  /** Number of occurrences of `c` in `s`. */
  function Count(s: string, c: char): nat {
    if |s| == 0 then 0 else (if s[0] == c then 1 else 0) + Count(s[1..], c)
  }

  /** `parts.join(sep)`. */
  function Join(parts: seq<string>, sep: char): string {
    if |parts| == 0 then []
    else if |parts| == 1 then parts[0]
    else parts[0] + [sep] + Join(parts[1..], sep)
  }

  lemma JoinCons(c: char, p: string, ps: seq<string>, sep: char)
    ensures Join([[c] + p] + ps, sep) == [c] + Join([p] + ps, sep)
  {
    assert ([[c] + p] + ps)[1..] == ps;
    assert ([p] + ps)[1..] == ps;
  }

  /**
   * `s.split(sep)` for a one-character separator: the pieces between the
   * occurrences of `sep`, so one more piece than there are separators.
   */
  function Split(s: string, sep: char): (r: seq<string>)
    ensures |r| == Count(s, sep) + 1
    ensures forall i :: 0 <= i < |r| ==> sep !in r[i]
    ensures forall i, c :: 0 <= i < |r| && c in r[i] ==> c in s
    ensures Join(r, sep) == s
  {
    if |s| == 0 then [[]]
    else
      var rest := Split(s[1..], sep);
      if s[0] == sep then
        assert ([[]] + rest)[1..] == rest;
        assert s == [s[0]] + s[1..];
        [[]] + rest
      else
        JoinCons(s[0], rest[0], rest[1..], sep);
        assert [rest[0]] + rest[1..] == rest;
        assert s == [s[0]] + s[1..];
        [[s[0]] + rest[0]] + rest[1..]
  }

  /** An occurrence inside a slice is an occurrence in the whole text, shifted. */
  lemma StartsAtSlice(s: string, a: nat, b: nat, k: nat, pat: string)
    requires a <= b <= |s| && k + |pat| <= b - a
    ensures StartsAt(s[a..b], k, pat) <==> StartsAt(s, a + k, pat)
  {
    var u := s[a..b][k..k + |pat|];
    var v := s[a + k..a + k + |pat|];
    forall i | 0 <= i < |pat|
      ensures u[i] == v[i]
    {
      assert s[a..b][k + i] == s[a + k + i];
    }
    assert u == v;
  }

  /** An occurrence after the first part of a concatenation is an occurrence in the second part. */
  lemma StartsAtAppend(a: string, b: string, k: nat, pat: string)
    ensures StartsAt(a + b, |a| + k, pat) <==> StartsAt(b, k, pat)
  {
    if k + |pat| <= |b| {
      assert (a + b)[|a| + k..|a| + k + |pat|] == b[k..k + |pat|];
    }
  }

  /** An occurrence inside the first part of a concatenation is an occurrence in that part. */
  lemma StartsAtLeft(a: string, b: string, k: nat, pat: string)
    requires k + |pat| <= |a|
    ensures StartsAt(a + b, k, pat) <==> StartsAt(a, k, pat)
  {
    assert (a + b)[k..k + |pat|] == a[k..k + |pat|];
  }

  /** Where a pattern occurs, so does each of its prefixes. */
  lemma StartsAtPrefix(s: string, k: nat, pat: string, n: nat)
    requires StartsAt(s, k, pat) && n <= |pat|
    ensures StartsAt(s, k, pat[..n])
  {
    assert s[k..k + |pat|] == pat;
    assert forall i :: 0 <= i < n ==> s[k..k + n][i] == s[k + i] == pat[i];
  }

  /** Index of the first occurrence of `pat` in `s` at or after `from`. */
  function IndexFrom(s: string, pat: string, from: nat): (r: Option<nat>)
    ensures r.Some? ==> from <= r.value && StartsAt(s, r.value, pat)
    ensures r.Some? ==> forall k :: from <= k < r.value ==> !StartsAt(s, k, pat)
    ensures r.None? ==> forall k :: from <= k ==> !StartsAt(s, k, pat)
    decreases |s| - from
  {
    if from + |pat| > |s| then None
    else if StartsAt(s, from, pat) then Some(from)
    else IndexFrom(s, pat, from + 1)
  }

  /** An occurrence with none before it, from `from` on, is the one `IndexFrom` finds. */
  lemma IndexFromIs(s: string, pat: string, from: nat, k: nat)
    requires from <= k && StartsAt(s, k, pat)
    requires forall j :: from <= j < k ==> !StartsAt(s, j, pat)
    ensures IndexFrom(s, pat, from) == Some(k)
  {
  }

  /**
   * GetSubstitution for a string pattern (so with no capture groups): the text
   * `str.replace(pattern, replacement)` inserts for the match `matched` found
   * at `position`. `$$` stands for `$`, `$&` for the match, `` $` `` for the
   * text before it and `$'` for the text after it; any other `$` is literal.
   */
  function Substitute(replacement: string, matched: string, str: string, position: nat): (r: string)
    requires StartsAt(str, position, matched)
    ensures '$' !in replacement ==> r == replacement
    ensures forall c :: c in r ==> c in replacement || c in str
  {
    if |replacement| == 0 then []
    else if replacement[0] == '$' && |replacement| >= 2 && IsSubstitutionCode(replacement[1]) then
      var tail := Substitute(replacement[2..], matched, str, position);
      if replacement[1] == '$' then "$" + tail
      else if replacement[1] == '&' then matched + tail
      else if replacement[1] == '`' then str[..position] + tail
      else str[position + |matched|..] + tail
    else [replacement[0]] + Substitute(replacement[1..], matched, str, position)
  }

  /** The characters that follow `$` in the patterns `$$`, `$&`, `` $` `` and `$'`. */
  predicate IsSubstitutionCode(c: char) {
    c == '$' || c == '&' || c == '`' || c == '\''
  }

  /** A character other than `$` at the start of a replacement string is inserted as it is. */
  lemma SubstitutePlainChar(c: char, x: string, matched: string, str: string, position: nat)
    requires StartsAt(str, position, matched) && c != '$'
    ensures Substitute([c] + x, matched, str, position) == [c] + Substitute(x, matched, str, position)
  {
    assert ([c] + x)[0] == c && ([c] + x)[1..] == x;
  }

  /** A `$`-free start of a replacement string is inserted as it is. */
  lemma {:induction false} SubstitutePlainPrefix(p: string, x: string, matched: string, str: string, position: nat)
    requires StartsAt(str, position, matched) && '$' !in p
    ensures Substitute(p + x, matched, str, position) == p + Substitute(x, matched, str, position)
    decreases |p|
  {
    if |p| > 0 {
      var c := p[0];
      var q := p[1..];
      var y := Substitute(x, matched, str, position);
      HeadTail(p, x);
      HeadTail(p, y);
      assert c in p;
      assert '$' !in q by {
        forall i | 0 <= i < |q|
          ensures q[i] != '$'
        {
          assert q[i] == p[i + 1];
        }
      }
      SubstitutePlainChar(c, q + x, matched, str, position);
      SubstitutePlainPrefix(q, x, matched, str, position);
    } else {
      assert p + x == x;
    }
  }

  /** `$$` in a replacement string stands for one `$`. */
  lemma SubstituteDollarDollar(x: string, matched: string, str: string, position: nat)
    requires StartsAt(str, position, matched)
    ensures Substitute("$$" + x, matched, str, position) == "$" + Substitute(x, matched, str, position)
  {
    var r := "$$" + x;
    assert r[0] == '$' && r[1] == '$' && r[2..] == x;
  }

  /** No `$` in `r` starts one of the four substitution codes. */
  predicate Literal(r: string) {
    forall i :: 0 <= i < |r| - 1 ==> !(r[i] == '$' && IsSubstitutionCode(r[i + 1]))
  }

  /**
   * A replacement string in which no `$` starts a substitution code is
   * inserted as it is, whatever other `$` it holds.
   */
  lemma {:induction false} SubstituteLiteral(r: string, matched: string, str: string, position: nat)
    requires StartsAt(str, position, matched) && Literal(r)
    ensures Substitute(r, matched, str, position) == r
    decreases |r|
  {
    if |r| > 0 {
      assert Literal(r[1..]) by {
        forall i | 0 <= i < |r[1..]| - 1
          ensures !(r[1..][i] == '$' && IsSubstitutionCode(r[1..][i + 1]))
        {
          assert r[1..][i] == r[i + 1] && r[1..][i + 1] == r[i + 2];
        }
      }
      SubstituteLiteral(r[1..], matched, str, position);
      assert r == [r[0]] + r[1..];
    }
  }

  /** Doubles every `$`, which is how a caller asks `replace` for a literal replacement. */
  function EscapeDollars(s: string): string {
    if |s| == 0 then []
    else if s[0] == '$' then "$$" + EscapeDollars(s[1..])
    else [s[0]] + EscapeDollars(s[1..])
  }

  /** A replacement string with its `$` doubled is inserted literally. */
  lemma {:induction false} SubstituteEscaped(x: string, matched: string, str: string, position: nat)
    requires StartsAt(str, position, matched)
    ensures Substitute(EscapeDollars(x), matched, str, position) == x
    decreases |x|
  {
    if |x| > 0 {
      SubstituteEscaped(x[1..], matched, str, position);
      if x[0] == '$' {
        assert ("$$" + EscapeDollars(x[1..]))[2..] == EscapeDollars(x[1..]);
      } else {
        assert ([x[0]] + EscapeDollars(x[1..]))[1..] == EscapeDollars(x[1..]);
      }
      assert x == [x[0]] + x[1..];
    }
  }

  /**
   * `s.replace(pattern, replacement)` with a string pattern: the first
   * occurrence of `pattern`, if any, gives way to the expanded replacement.
   */
  function Replace(s: string, pattern: string, replacement: string): (r: string)
    ensures forall c :: c in r ==> c in s || c in replacement
  {
    match IndexFrom(s, pattern, 0)
    case None => s
    case Some(k) => s[..k] + Substitute(replacement, pattern, s, k) + s[k + |pattern|..]
  }

  /**
   * Where `pattern` first occurs at `k` and the replacement holds no `$`,
   * `replace` splices the replacement in at `k` and leaves the rest alone.
   */
  lemma ReplaceAt(s: string, pattern: string, replacement: string, k: nat)
    requires StartsAt(s, k, pattern)
    requires forall j :: 0 <= j < k ==> !StartsAt(s, j, pattern)
    requires '$' !in replacement
    ensures Replace(s, pattern, replacement) == s[..k] + replacement + s[k + |pattern|..]
  {
  }

  /** A pattern that is the whole text: the text gives way to the expanded replacement. */
  lemma ReplaceWhole(s: string, replacement: string)
    ensures StartsAt(s, 0, s)
    ensures Replace(s, s, replacement) == Substitute(replacement, s, s, 0)
  {
    assert s[0..|s|] == s;
    IndexFromIs(s, s, 0, 0);
    assert s[..0] == [] && s[|s|..] == [];
  }

  /** A text in which `pattern` does not occur is left as it is. */
  lemma ReplaceAbsent(s: string, pattern: string, replacement: string)
    requires forall j :: 0 <= j ==> !StartsAt(s, j, pattern)
    ensures Replace(s, pattern, replacement) == s
  {
  }

  function Digit(d: nat): char
    requires d < 10
  {
    ['0', '1', '2', '3', '4', '5', '6', '7', '8', '9'][d]
  }

  /** The decimal numeral of `n`, as a template literal prints it. */
  function DecimalString(n: nat): (r: string)
    ensures |r| > 0
    ensures forall i :: 0 <= i < |r| ==> '0' <= r[i] <= '9'
  {
    if n < 10 then [Digit(n)] else DecimalString(n / 10) + [Digit(n % 10)]
  }

  /** The value of a string of decimal digits. */
  function DecimalValue(s: string): nat
    requires forall i :: 0 <= i < |s| ==> '0' <= s[i] <= '9'
  {
    if |s| == 0 then 0 else 10 * DecimalValue(s[..|s| - 1]) + (s[|s| - 1] - '0') as nat
  }

  /** Numerals read back as the number printed, so distinct numbers print differently. */
  lemma {:induction false} DecimalRoundTrip(n: nat)
    ensures DecimalValue(DecimalString(n)) == n
  {
    var r := DecimalString(n);
    if n >= 10 {
      DecimalRoundTrip(n / 10);
      assert r[..|r| - 1] == DecimalString(n / 10);
    }
  }
}
