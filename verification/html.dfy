/**
 * The HTML the renderer splices into its output. The widget builds these
 * elements with `document.createElement` and reads them back through
 * `outerHTML`; here they are datatypes with that serialisation written out.
 */
module Html {
  import opened Wrappers
  import opened Text

  /** Letters, `&` and `;`: the characters the entity references below are made of. */
  const EntityChars := "&;abglmnpst"

  /** The character reference for `c` if it needs one, else `c` itself. */
  function EscapeChar(c: char): (r: string)
    ensures '<' !in r && '>' !in r && '\U{A0}' !in r
    ensures forall x :: x in r ==> x == c || x in EntityChars
  {
    if c == '&' then "&amp;"
    else if c == '<' then "&lt;"
    else if c == '>' then "&gt;"
    else if c == '\U{A0}' then "&nbsp;"
    else [c]
  }

  /**
   * The HTML serialisation of a text node's data (what `outerHTML` shows for
   * `textContent`): `&`, `<`, `>` and U+00A0 become character references.
   */
  function EscapeText(s: string): (r: string)
    ensures '<' !in r && '>' !in r && '\U{A0}' !in r
    ensures forall c :: c in r ==> c in s || c in EntityChars
  {
    if |s| == 0 then [] else EscapeChar(s[0]) + EscapeText(s[1..])
  }

  /** `w` uses no character of an entity reference. */
  predicate OutsideEntities(w: string) {
    forall i :: 0 <= i < |w| ==> w[i] !in EntityChars
  }

  /** A character that needs no reference is written as itself; the others start with `&`. */
  lemma EscapeCharShape(c: char)
    ensures |EscapeChar(c)| > 0
    ensures EscapeChar(c) == [c] || (EscapeChar(c)[0] == '&' && forall x :: x in EscapeChar(c) ==> x in EntityChars)
  {
  }

  /**
   * Escaping invents no character outside the references: escaped text that
   * starts with such a word comes from text starting with the same word.
   */
  lemma {:induction false} EscapePrefix(t: string, w: string)
    requires OutsideEntities(w) && StartsAt(EscapeText(t), 0, w)
    ensures StartsAt(t, 0, w)
    decreases |w|
  {
    if |w| > 0 {
      var u := EscapeText(t);
      assert |t| > 0;
      var e := EscapeChar(t[0]);
      var rest := EscapeText(t[1..]);
      assert u == e + rest;
      EscapeCharShape(t[0]);
      assert u[0] == w[0] && w[0] !in EntityChars;
      assert e == [t[0]];
      assert StartsAt(rest, 0, w[1..]) by {
        assert forall i :: 0 <= i < |w| - 1 ==> rest[i] == u[i + 1] == w[i + 1];
      }
      OutsideEntitiesTail(w);
      EscapePrefix(t[1..], w[1..]);
      assert forall i :: 1 <= i < |w| ==> t[i] == t[1..][i - 1] == w[1..][i - 1];
    }
  }

  lemma OutsideEntitiesTail(w: string)
    requires |w| > 0 && OutsideEntities(w)
    ensures OutsideEntities(w[1..])
  {
    assert forall i :: 0 <= i < |w| - 1 ==> w[1..][i] == w[i + 1];
  }

  /** A word outside the references that does not occur in a text does not occur in its escaping. */
  lemma {:induction false} EscapeLacks(t: string, w: string)
    requires |w| > 0 && OutsideEntities(w) && Lacks(t, w)
    ensures Lacks(EscapeText(t), w)
    decreases |t|
  {
    if |t| > 0 {
      var u := EscapeText(t);
      var e := EscapeChar(t[0]);
      var rest := EscapeText(t[1..]);
      assert u == e + rest;
      LacksTail(t, w);
      EscapeLacks(t[1..], w);
      EscapeCharShape(t[0]);
      forall q | 0 <= q <= |u|
        ensures !StartsAt(u, q, w)
      {
        if q >= |e| {
          StartsAtAppend(e, rest, q - |e|, w);
        } else if e == [t[0]] {
          if StartsAt(u, 0, w) {
            EscapePrefix(t, w);
          }
        } else if q + |w| <= |u| {
          assert u[q] == e[q] && e[q] in EntityChars;
          assert u[q..q + |w|][0] == u[q];
        }
      }
    }
  }

  /** Reads the four character references `EscapeText` writes back as characters. */
  function UnescapeText(s: string): string {
    if |s| == 0 then []
    else if StartsAt(s, 0, "&amp;") then "&" + UnescapeText(s[5..])
    else if StartsAt(s, 0, "&lt;") then "<" + UnescapeText(s[4..])
    else if StartsAt(s, 0, "&gt;") then ">" + UnescapeText(s[4..])
    else if StartsAt(s, 0, "&nbsp;") then "\U{A0}" + UnescapeText(s[6..])
    else [s[0]] + UnescapeText(s[1..])
  }

  lemma UnescapeAmp(rest: string)
    ensures UnescapeText("&amp;" + rest) == "&" + UnescapeText(rest)
  {
    var t := "&amp;" + rest;
    assert t[..5] == "&amp;" && t[5..] == rest;
  }

  lemma UnescapeLt(rest: string)
    ensures UnescapeText("&lt;" + rest) == "<" + UnescapeText(rest)
  {
    var t := "&lt;" + rest;
    assert t[1] == 'l';
    assert t[..4] == "&lt;" && t[4..] == rest;
  }

  lemma UnescapeGt(rest: string)
    ensures UnescapeText("&gt;" + rest) == ">" + UnescapeText(rest)
  {
    var t := "&gt;" + rest;
    assert t[1] == 'g';
    assert t[..4] == "&gt;" && t[4..] == rest;
  }

  lemma UnescapeNbsp(rest: string)
    ensures UnescapeText("&nbsp;" + rest) == "\U{A0}" + UnescapeText(rest)
  {
    var t := "&nbsp;" + rest;
    assert t[1] == 'n';
    assert t[..6] == "&nbsp;" && t[6..] == rest;
  }

  lemma UnescapePlain(c: char, rest: string)
    requires c != '&'
    ensures UnescapeText([c] + rest) == [c] + UnescapeText(rest)
  {
    var t := [c] + rest;
    assert t[0] == c && t[1..] == rest;
    NotAtHead(t, "&amp;");
    NotAtHead(t, "&lt;");
    NotAtHead(t, "&gt;");
    NotAtHead(t, "&nbsp;");
  }

  lemma NotAtHead(t: string, ref: string)
    requires |t| > 0 && |ref| > 0 && t[0] != ref[0]
    ensures !StartsAt(t, 0, ref)
  {
    if |ref| <= |t| {
      assert t[..|ref|][0] == t[0];
    }
  }

  /** One escaped character reads back as that character. */
  lemma UnescapeChar(c: char, rest: string)
    ensures UnescapeText(EscapeChar(c) + rest) == [c] + UnescapeText(rest)
  {
    if c == '&' {
      UnescapeAmp(rest);
    } else if c == '<' {
      UnescapeLt(rest);
    } else if c == '>' {
      UnescapeGt(rest);
    } else if c == '\U{A0}' {
      UnescapeNbsp(rest);
    } else {
      UnescapePlain(c, rest);
    }
  }

  /** Escaped text reads back as the text itself. */
  lemma {:induction false} EscapeRoundTrip(s: string)
    ensures UnescapeText(EscapeText(s)) == s
    decreases |s|
  {
    if |s| > 0 {
      var e := EscapeText(s[1..]);
      assert EscapeText(s) == EscapeChar(s[0]) + e;
      EscapeRoundTrip(s[1..]);
      UnescapeChar(s[0], e);
      assert s == [s[0]] + s[1..];
    }
  }

  /** Serialisation of `<div class="code-block">` up to the code text. */
  const CodeBlockOpen := "<div class=\"code-block\"><pre>"

  /** Serialisation of the rest of the code block, copy button included. */
  const CodeBlockClose := PreEnd + CopyButton + "</div>"

  /** The copy button `createCodeBlockUI` appends after the `<pre>` element. */
  const CopyButton := "<button class=\"copy-code-button\">" + "Copy The Code" + "</button>"

  const PreEnd := "</pre>"

  /** `outerHTML` of the element `createCodeBlockUI` builds for the code `text`. */
  function CodeBlockHtml(text: string): string {
    CodeBlockOpen + EscapeText(text) + CodeBlockClose
  }

  /** The text of the `<pre>` element of a serialised code block, if `html` is one. */
  function PreText(html: string): Option<string> {
    if StartsAt(html, 0, CodeBlockOpen) then
      var rest := html[|CodeBlockOpen|..];
      match IndexFrom(rest, PreEnd, 0)
      case Some(k) => Some(UnescapeText(rest[..k]))
      case None => None
    else None
  }

  /** The markup of a code block holds no `$`, so only the code text can bring one in. */
  lemma CodeBlockNoDollar(text: string)
    requires '$' !in text
    ensures '$' !in CodeBlockHtml(text)
  {
    OpenNoDollar();
    CloseNoDollar();
    assert forall i :: 0 <= i < |EntityChars| ==> EntityChars[i] != '$';
  }

  lemma OpenNoDollar()
    ensures '$' !in CodeBlockOpen && '$' !in PreEnd
  {
  }

  lemma CloseNoDollar()
    ensures '$' !in CopyButton + "</div>"
  {
    assert '$' !in "<button class=\"copy-code-button\">";
    assert '$' !in "Copy The Code" && '$' !in "</button>" && '$' !in "</div>";
  }

  /** The code block shows exactly the text it was built from. */
  lemma PreTextOfCodeBlock(text: string)
    ensures PreText(CodeBlockHtml(text)) == Some(text)
  {
    var e := EscapeText(text);
    var rest := e + CodeBlockClose;
    assert CodeBlockHtml(text) == CodeBlockOpen + rest by {
      AppendAssoc(CodeBlockOpen, e, CodeBlockClose);
    }
    FirstPreEnd(e);
    PreTextAfterOpen(rest, |e|);
    assert rest[..|e|] == e;
    EscapeRoundTrip(text);
  }

  /** Text without `<` holds no `</pre>`, so the first one after it is the one that closes the block. */
  lemma FirstPreEnd(e: string)
    requires '<' !in e
    ensures IndexFrom(e + CodeBlockClose, PreEnd, 0) == Some(|e|)
  {
    var tail := CopyButton + "</div>";
    AppendAssoc(PreEnd, CopyButton, "</div>");
    AppendAssoc(e, PreEnd, tail);
    PreEndAfter(e, tail);
  }

  /** The first `</pre>` after a text without `<`. */
  lemma PreEndAfter(e: string, tail: string)
    requires '<' !in e
    ensures IndexFrom(e + PreEnd + tail, PreEnd, 0) == Some(|e|)
  {
    var rest := e + PreEnd + tail;
    assert rest[|e|..|e| + |PreEnd|] == PreEnd;
    forall k | 0 <= k < |e|
      ensures !StartsAt(rest, k, PreEnd)
    {
      assert rest[k] == e[k];
    }
    IndexFromIs(rest, PreEnd, 0, |e|);
  }

  /** After the opening markup, the `<pre>` text runs up to the first `</pre>`. */
  lemma PreTextAfterOpen(rest: string, k: nat)
    requires IndexFrom(rest, PreEnd, 0) == Some(k)
    ensures PreText(CodeBlockOpen + rest) == Some(UnescapeText(rest[..k]))
  {
    var html := CodeBlockOpen + rest;
    assert html[0..|CodeBlockOpen|] == CodeBlockOpen;
    assert html[|CodeBlockOpen|..] == rest;
  }

  /**
   * The table `createTable` builds: header cells hold text (`textContent`),
   * body cells hold markup (`innerHTML`).
   */
  datatype TableView = TableView(header: seq<string>, body: seq<seq<string>>)

  function HeaderCellsHtml(cells: seq<string>): string {
    if |cells| == 0 then []
    else "<th class=\"table-header\">" + EscapeText(cells[0]) + "</th>" + HeaderCellsHtml(cells[1..])
  }

  function DataCellsHtml(cells: seq<string>): string {
    if |cells| == 0 then []
    else "<td class=\"table-data\">" + cells[0] + "</td>" + DataCellsHtml(cells[1..])
  }

  function BodyRowsHtml(rows: seq<seq<string>>): string {
    if |rows| == 0 then []
    else "<tr>" + DataCellsHtml(rows[0]) + "</tr>" + BodyRowsHtml(rows[1..])
  }

  /** `outerHTML` of the table element: the header row always, then one row per body row. */
  function TableHtml(t: TableView): string {
    "<table><tr>" + HeaderCellsHtml(t.header) + "</tr>" + BodyRowsHtml(t.body) + "</table>"
  }
}
