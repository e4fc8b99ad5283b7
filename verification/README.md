# chatuihzh: budget trimming and response rendering

chatuihzh is a browser chat front end for OpenAI-style chat APIs. Inside its
browser glue sit two small pieces of pure logic, and this project models both
in Dafny and proves properties about them.

1. **Conversation budget trimming** (`script.js`):
   - `getTokenCount` counts the whitespace-separated words of a message.
   - `MAX_TOKENS_BY_MODEL` gives each model id a budget, with 4096 as the fallback.
   - Before each request, `getBotResponse` walks the messages from the system message onward, keeping a running total. At the first message that would push the total over the budget it calls `messages.splice(i)`. It then appends the user's new turn.
   - `splice(i)` removes everything from `i` to the end. So the turns the code drops are the newest ones that no longer fit, not the oldest. The model follows the code, and `Conversation.NewestTurnDropped` shows a concrete case.
2. **Response rendering** (`markdowns.js`, with an earlier version in `script.js`):
   - `parseResponse` swaps each fenced code block for a `CODEBLOCKi` placeholder.
   - It then runs a fixed chain of regex substitutions: bold, display math, inline math, pipe tables, four heading levels, blockquote and italics.
   - Finally it puts back each block as a code-block element.
   - `createTable` splits a table into rows and cells. Row 0 becomes the header and row 1 is dropped. Every later cell is rendered again through `parseResponse`.
   - The earlier `parseResponse` (script.js:195-204) stops after the table pass. Its `createTable` does not add the surrounding newlines back.

Each regex is written out as a scanner over `seq<char>` with the JavaScript semantics of that one pattern:
- lazy `(.*?)` stops at the first closing delimiter;
- `.` does not cross `\n`, `\r`, U+2028 or U+2029;
- `\s` is the JavaScript whitespace set;
- `^` and `$` are multiline anchors.

`String.prototype.replace` with a string pattern is modelled with its replacement-string expansion (`$$`, `$&`, `` $` `` and `$'`), because code text is used as a replacement string. The HTML the code builds with `document.createElement` and reads back through `outerHTML` is written out as its serialisation (`Html.CodeBlockHtml`, `Html.TableHtml`). Text nodes are escaped as the HTML serialiser does.

Modules:
- `Text` holds the string primitives: `StartsAt`, `IndexFrom`, `Split`, `Join`, `Trim`, `Replace` and `Substitute`.
- `Tokens` and `Conversation` model trimming.
- `Html` models the elements.
- `Fences` models code blocks and placeholders.
- `Inline` models the bold, math and italic passes.
- `Lines` models the heading and blockquote passes.
- `Tables` models the table pattern and cells.
- `Renderer` holds the two versions of `parseResponse` and `createTable`.
- `TableFacts` and `RenderFacts` hold end-to-end properties.

Two behaviours of the code are modelled as written:
- `extractCodeBlocks` rebuilds each block as fence, body, fence and uses that text as a replacement string. The function returns its input unchanged whenever no `$` in a block starts one of the codes `$$`, `$&`, `` $` `` or `$'` (`Fences.ExtractLiteral`), in particular when no block holds `$` at all. A block holding such a code can change: one holding `$$` comes back with a single `$` (`Fences.ExtractCollapsesDollars`).
- The blockquote pattern `/>\s(.*?)$/gm` also fires on the `>` that ends an HTML tag from an earlier pass when whitespace follows it. The end-to-end lemmas therefore exclude text that starts with whitespace right after such a tag.

## Model

| member | source | states |
|---|---|---|
| Conversation.MaxTokens | script.js:108 | a listed model id gets its table budget, any other id gets 4096, and no budget is below 4096 |
| Conversation.BudgetsGpt35 | script.js:13-16 | the four GPT-3.5 ids have budgets 4096, 4096, 16384 and 16384 |
| Conversation.BudgetsGpt4 | script.js:17-20 | the four GPT-4 ids have budgets 8192, 8192, 32768 and 32768 |
| Conversation.BudgetsOther | script.js:21-22 | claude-2-100k has 102400 and llama-2-70b-chat 4096; an id the table does not list falls back to 4096 |
| Tokens.SplitOnSpaceRuns | script.js:97 | `split(/\s+/)` yields at least one piece; how many pieces there are, against an independent word count, is stated by Tokens.PiecesCountWords and Tokens.TokenCountIsWordCount |
| Tokens.TokenCount | script.js:96-99 | the token count of any text, empty or all whitespace included, is at least one |
| Tokens.TokenCountIsWordCount | script.js:96-99 | the length of `text.trim().split(/\s+/)` is the number of words of the text, or one when it has none |
| Tokens.PiecesCountWords | script.js:97 | `split(/\s+/)` of a text not ending in whitespace yields one piece more than the words after its first character |
| Tokens.TrimKeepsWords | script.js:97 | trimming a text removes no word |
| Conversation.CountTokens | script.js:110-112 | the loop's counts are the token counts of the messages' contents, in order |
| Conversation.CutPoint | script.js:110-118 | the index where `splice` cuts is the first one whose count takes the running total over the budget, or the length when none does |
| Conversation.CutIsUnique | script.js:110-118 | a list of counts has only one such cut |
| Conversation.CutProperties | script.js:110-118 | the kept counts fit when the first does; a first count over budget is kept alone; counts that fit are kept whole |
| Conversation.TrimToBudget | script.js:110-118 | the result is a nonempty prefix that keeps the system message; it fits the budget when the system message does; a system message over budget is kept alone; a conversation that fits is unchanged; adding back the first dropped message would exceed the budget |
| Conversation.TrimProperties | script.js:110-118 | any trim keeps the system message, fits when the system message fits, keeps an over-budget system message alone and keeps a fitting conversation whole |
| Conversation.TrimIsUnique | script.js:110-118 | the trim of a conversation is determined by the messages and the budget |
| Conversation.TrimTwice | script.js:110-118 | trimming an already trimmed conversation leaves it unchanged |
| Conversation.TotalMonotone | script.js:110-118 | the running total over a longer prefix is never smaller |
| Conversation.PrepareRequest | script.js:108-123 | the request starts with the system message and ends with the new user turn; before that turn lies the trim for the model's budget, and that trim fits the budget whenever the system message does, so the new turn is not counted |
| Conversation.NewestTurnDropped | script.js:115 | with a 5-word system message, two 4-word turns and a budget of 10, `splice` keeps the older turn and drops the newer one |
| Text.Trim | markdowns.js:77 | `trim()` yields a contiguous slice of the text with only whitespace before and after it; the slice neither starts nor ends with whitespace, and it is empty exactly when the text is all whitespace |
| Text.Split | markdowns.js:77 | `split(sep)` yields one more piece than there are separators; no piece holds the separator; joining the pieces gives back the text |
| Text.Substitute | markdowns.js:14 | a replacement string without `$` is inserted as it is, and the expansion brings in only characters of the replacement or of the searched text |
| Text.SubstituteLiteral | markdowns.js:14 | a replacement string in which no `$` starts `$$`, `$&`, `` $` `` or `$'` is inserted exactly as written |
| Text.SubstituteEscaped | markdowns.js:14 | a replacement string with every `$` doubled is inserted literally: the expansion undoes the doubling |
| Text.Replace | markdowns.js:44 | `replace` with a string pattern brings in only characters of the text or of the replacement; where the first occurrence lies and what replaces it is stated by Text.ReplaceAt, Text.ReplaceAbsent and Text.SubstituteLiteral |
| Text.ReplaceAt | markdowns.js:44 | `replace` with a string pattern splices a `$`-free replacement in at the first occurrence and leaves the rest of the text alone |
| Text.ReplaceAbsent | markdowns.js:64 | `replace` leaves a text in which the pattern does not occur unchanged |
| Text.DecimalString | markdowns.js:44 | a template literal prints a number as a nonempty string of decimal digits |
| Text.DecimalRoundTrip | markdowns.js:44 | the printed numeral reads back as the number, so different indexes print differently |
| Html.EscapeText | markdowns.js:23 | the serialised text of a text node holds no `<`, `>` or U+00A0, and only the text's own characters or those of the entity references |
| Html.EscapeRoundTrip | markdowns.js:23 | reading the character references back gives the original text |
| Html.PreTextOfCodeBlock | markdowns.js:21-35 | the `<pre>` element of the serialised code block shows exactly the text it was built from |
| Html.CodeBlockHtml | markdowns.js:21-35 | the serialised code-block element; no contract of its own, and its meaning is stated by Html.PreTextOfCodeBlock (its `<pre>` shows exactly the code text), Html.CodeBlockNoDollar and Fences.CodeBlockUiSplicable |
| Html.TableHtml | markdowns.js:78-100 | the serialised table element; no contract of its own, and TableFacts.CreateTableOf and TableFacts.TablePass state which cells it holds |
| Html.CodeBlockNoDollar | markdowns.js:21-35 | the code-block markup adds no `$`, so only the code text can bring one in |
| Fences.FenceMatchAt | markdowns.js:1 | a match of the code-block regex starts with a fence and ends at the first fence after it, at least six characters on; where none is reported, no fence starts there or none follows |
| Fences.FenceBeforeFence | markdowns.js:1 | a fence followed at least three characters later by another fence starts a match |
| Fences.MatchesFrom | markdowns.js:40 | the global `match` scan yields spans that each match the regex, lie within the text and start after the scan position |
| Fences.ScanMatches | markdowns.js:40 | every span the scan reports is a match of the regex at its start |
| Fences.Blocks | markdowns.js:40 | `match` yields, in order, the text of each match of the scan, each one a fenced code block; no result reads as no blocks |
| Fences.SingleBlock | markdowns.js:40 | a fenced block whose body holds no backquote is one match, the whole text |
| Fences.NoFenceProtect | markdowns.js:40-46 | a text in which three backquotes never occur has no blocks, the placeholder step leaves it unchanged, and restoring leaves any text unchanged |
| Fences.RemoveFences | markdowns.js:23 | removing the fences never lengthens a text and adds no character |
| Fences.RemoveFencesOfBlock | markdowns.js:13 | removing the fences of a matched block leaves exactly its body |
| Fences.RebuildBlock | markdowns.js:14 | a matched block is its fence-free body between two fences |
| Fences.ReplaceInTurn | markdowns.js:43-45 | each step of the fold replaces in turn; any character not in a replacement comes from the original text |
| Fences.Placeholder | markdowns.js:44 | `CODEBLOCK${index}` is a capital C, at least nine more letters or digits, and a final digit |
| Fences.PlaceholdersDistinct | markdowns.js:44 | different blocks get different placeholders |
| Fences.PlaceholderShape | markdowns.js:44 | a placeholder holds no backquote, `$`, `*`, pipe, `#`, `>` or newline, so no later pass reacts to it |
| Fences.ProtectIsPositional | markdowns.js:40-46 | the fold puts placeholder `i` exactly where block `i` stood, in order of appearance, and changes nothing else |
| Fences.SpliceScan | markdowns.js:43-45 | replacing the blocks of a scan in turn, by replacements holding no fence and no `$`, puts each replacement where its block stood |
| Fences.RestoreScan | markdowns.js:62-66 | replacing the placeholders in turn, in a text that never spells `CODEBLOCK` outside them, puts each `$`-free replacement where its placeholder stood |
| Fences.RestoreProtect | markdowns.js:40-66 | when no block holds `$` and the response never spells `CODEBLOCK`, each block's element ends up exactly where the block stood, and the text between blocks is unchanged |
| Fences.ExtractEarlierPositional | script.js:144-152 | when no block holds `$`, the earlier `extractCodeBlocks` puts each block's element exactly where the block stood, and the text between blocks is unchanged |
| Fences.Restore | markdowns.js:62-66 | the put-back fold; no contract of its own, and Fences.RestoreScan, Fences.RestoreProtect and RenderFacts.RestoreSingle state where each element lands |
| Fences.ExtractCodeBlocksEarlier | script.js:144-152 | the earlier in-place fold; no contract of its own, and Fences.ExtractEarlierPositional and RenderFacts.ExtractEarlierSingle state where each element lands |
| Fences.ExtractCodeBlocks | markdowns.js:9-19 | the rebuild fold; no contract of its own, and Fences.ExtractLiteral, Fences.ExtractWithoutDollar and Fences.ExtractCollapsesDollars state when it is the identity and when it is not |
| Fences.RestoreProtectIsEarlier | script.js:144-152 | under both conditions, protecting then restoring gives the same text as the earlier in-place replacement |
| Fences.CodeBlockUiSplicable | markdowns.js:21-35 | the element of a `$`-free block holds no fence and no `$`, and starts and ends with a tag bracket |
| Fences.BodyNoFence | markdowns.js:1 | the body of a matched block holds no fence |
| Html.EscapeLacks | markdowns.js:23 | escaping brings in no word made of characters outside the entity references |
| Fences.Protect | markdowns.js:40-46 | swapping in the placeholders adds no newline |
| Fences.ExtractLiteral | markdowns.js:9-19 | when no `$` in any block starts a substitution code, `extractCodeBlocks` returns its input unchanged, whatever lone `$` the blocks hold |
| Fences.ExtractWithoutDollar | markdowns.js:9-19 | when no block holds `$`, `extractCodeBlocks` returns its input unchanged |
| Fences.ExtractCollapsesDollars | markdowns.js:12-15 | the block ```` ```$$``` ```` comes back as ```` ```$``` ```` because the rebuilt block is read as a replacement string |
| Inline.CloseAt | markdowns.js:48 | where a lazy group closes lies at or after its start, with the closing delimiter inside the text |
| Inline.CloseAtFirst | markdowns.js:48 | a lazy group closes at the first delimiter, with no line terminator before it |
| Inline.CloseAtNone | markdowns.js:48 | a group that does not close meets a line terminator before every later delimiter |
| Inline.PairFromChars | markdowns.js:48 | a pair pass adds no character other than those of its two tags |
| Inline.PairPassOne | markdowns.js:48-50 | one delimited span on one line becomes one element around its text |
| Inline.UnwrapPairFrom | markdowns.js:48 | a pair pass loses nothing: reading each tag back as the delimiter recovers the input, on text holding neither tag's first character |
| Inline.BoldRoundTrip | markdowns.js:48 | on text without `<`, reading every `<b>` and `</b>` back as `**` recovers the input of the bold pass |
| Inline.BoldOne | markdowns.js:48 | `**x**` on one line, with no `*` in `x`, becomes `<b>x</b>` |
| Inline.Bold | script.js:198 | the bold pass adds no newline |
| Inline.BoldBeforeItalic | markdowns.js:48-60 | because bold runs first, `**x**` ends as `<b>x</b>`; the italic pass alone would make two empty italics around `x` |
| Inline.Math | markdowns.js:49-50 | the two math passes add no newline; what they produce is stated by Inline.MathSpans |
| Inline.Italic | markdowns.js:60 | the italic pass adds no newline; Inline.BoldBeforeItalic and RenderFacts.InlineQuiet state what it does and leaves alone |
| Inline.MathSpans | markdowns.js:49-50 | `$$x$$` and `$x$` both become the MathJax span of `x`, the `$$` pass running first; this includes the empty formula, where `$$` alone is left to the `$` pass |
| Lines.HeadingStyles | markdowns.js:53-56 | the four levels get font sizes 30, 26, 22 and 18 px, and only level one is bold |
| Lines.HeadingAt | markdowns.js:3-6 | a heading matches at a line start exactly when `level` signs are followed by one whitespace character and a character that ends no line; the capture then runs to the end of that line |
| Lines.HeadingFromNoNewline | markdowns.js:56 | a heading pass adds no newline |
| Lines.HeadingNone | markdowns.js:56 | a single line that is not a heading of that level goes through the pass unchanged |
| Lines.HeadingOne | markdowns.js:56 | a line of `level` signs, a space and a one-line text becomes the styled span of that text |
| Lines.HeadingLineShape | markdowns.js:2-7 | no other level's regex matches a heading line |
| Lines.HeadingSpanShape | markdowns.js:53-57 | no heading regex matches the span a heading became, so the later levels leave it alone |
| Lines.HeadingLine | markdowns.js:53-57 | after all four passes, a heading line of level one to four is the span of its level |
| Lines.FiveHashesUntouched | markdowns.js:2-7 | a line of five signs matches no heading regex and is left as it is |
| Lines.Headings | markdowns.js:53-57 | the four heading passes in order; no contract of its own, and Lines.HeadingInText, Lines.HeadingLine and Lines.HeadingsAbsent state what they do |
| Lines.Blockquote | markdowns.js:59 | the blockquote pass; no contract of its own, and Lines.BlockquoteQuiet and Lines.QuoteAfterTag state its idle case and its match after a tag |
| Lines.HeadingsAbsent | markdowns.js:53-57 | text without `#` goes through the heading passes unchanged |
| Lines.BlockquoteQuiet | markdowns.js:59 | where no `>` is followed by whitespace, the blockquote pass changes nothing |
| Lines.QuoteAfterTag | markdowns.js:59 | a text ending in `>` with no other quote marker, followed by a newline and a line, has that `>` and the rest of the line turned into the blockquote span |
| Lines.HeadingInText | markdowns.js:53-57 | a heading line of level one to four anywhere in a text without other `#`, between line breaks, becomes the span of its level, and the rest of the text is unchanged |
| Tables.TailLine | markdowns.js:72 | a row's tail is the rest of its line, at least one character long and ending in a pipe, followed by `\n` |
| Tables.RowLine | markdowns.js:72 | a row ends in a pipe and `\n`, at least three characters after its start |
| Tables.RowLazyIsRowLine | markdowns.js:72 | the lazy row pattern of markdowns.js accepts exactly the rows `RowLine` describes, ending them at the same place |
| Tables.RowGreedyIsRowLine | script.js:208 | the greedy row pattern of the earlier version accepts the same rows with the same ends |
| Tables.RowEnds | markdowns.js:72 | each row end the repetition reaches lies past the start, within the text, just after a `\n` |
| Tables.LastBreak | markdowns.js:72 | the greedy `+` settles on the last row end that the closing `\n` follows, and no later row end is followed by one |
| Tables.TableMatchAt | markdowns.js:72 | a table match opens at a `\n` and its group ends with a `\n`, followed by the closing `\n` |
| Tables.Cells | markdowns.js:81 | splitting at pipes and slicing off both ends yields one cell fewer than there are pipes, or none; no cell holds a pipe, and cells hold only characters of the row |
| Tables.CellsOfRow | markdowns.js:92 | the cells of a row are exactly the pieces between its first and last pipe, whatever stands outside them |
| Tables.SplitJoin | markdowns.js:77 | `split` undoes `join` when no piece holds the separator |
| TableFacts.TableRows | markdowns.js:77 | trimming and splitting the group of a table gives back its rows |
| TableFacts.WholeMatch | markdowns.js:72-73 | a response that is `\n`, rows ending in a pipe, and a blank line is one match of the table pattern, whole |
| TableFacts.BodyRowsOfTexts | markdowns.js:90-100 | every body cell is trimmed and rendered by `parseResponse` again |
| TableFacts.CreateTableOf | markdowns.js:76-103 | `createTable` makes the trimmed header cells from row 0, drops row 1 and renders the cells of every later row |
| TableFacts.TablePass | markdowns.js:71-103 | a response that is one well-formed table becomes the table of trimmed header cells and rendered body cells, wrapped in newlines in markdowns.js and bare in the earlier version |
| Renderer.TablesFrom | markdowns.js:71-74 | `parseTables`; no contract of its own, and TableFacts.TablePass and RenderFacts.TablesCopy state what it does to a table and to text without one |
| Renderer.CreateTable | markdowns.js:76-103 | `createTable`; no contract of its own, and TableFacts.CreateTableOf states the header and body cells it builds |
| Renderer.Render | markdowns.js:37-69 | `parseResponse` in both versions (the earlier one is script.js:195-204); no contract of its own, and the RenderFacts lemmas below and TableFacts.RenderEarlierTable state its output |
| TableFacts.RenderEarlierTable | script.js:195-240 | without `*` or `$`, the earlier `parseResponse` of such a response is just the table element |
| RenderFacts.TablesCopy | markdowns.js:71-74 | text without a pipe goes through the table pass unchanged |
| RenderFacts.NoTableWithoutPipe | markdowns.js:72 | every table row ends in a pipe, so text without one holds no table |
| RenderFacts.InlineQuiet | markdowns.js:48-60 | text without `*` and `$` goes through the bold, math and italic passes unchanged |
| RenderFacts.RenderPlain | markdowns.js:37-69 | text without markup comes out as it went in, in both versions |
| RenderFacts.RenderBold | markdowns.js:48 | for a one-line `x` holding no markup character (backquote, `*`, `$`, pipe, `#`, `>`) and not starting with whitespace, `**x**` comes out of either version as `<b>x</b>` |
| RenderFacts.RenderMath | markdowns.js:49-50 | for a one-line `x` holding no markup character (backquote, `*`, `$`, pipe, `#`, `>`), `$$x$$` and `$x$` come out of either version as the MathJax span of `x` |
| RenderFacts.RenderHeading | markdowns.js:53-57 | for a nonempty one-line text holding no markup character and not starting with whitespace, a heading line of one to four signs, a space and that text comes out of markdowns.js as the styled span of the text, and out of the earlier version unchanged |
| RenderFacts.RenderHeadingLast | markdowns.js:37-69 | a heading as the last line of plain text comes out of markdowns.js with only that line turned into its span, and out of the earlier version unchanged |
| RenderFacts.RenderHeadingThenLine | markdowns.js:53-59 | a heading followed by another line: the blockquote pattern matches the `>` ending the span's closing tag and the newline after it, so the closing tag loses its `>` and the next line ends up inside a blockquote span |
| RenderFacts.ProtectSingle | markdowns.js:40-46 | a lone block is swapped for `CODEBLOCK0` |
| RenderFacts.RestoreSingle | markdowns.js:62-66 | `CODEBLOCK0` gives way to the block's element |
| RenderFacts.RenderCodeBlocks | markdowns.js:37-69 | a response whose text outside its code blocks holds no markup comes out with every block turned into its element exactly where it stood and nothing else changed, provided no block holds `$` and the response never spells `CODEBLOCK` |
| RenderFacts.RenderCodeBlock | markdowns.js:40-66 | a fenced block comes out as the code-block element whose `<pre>` shows its body untouched by the passes in between |
| RenderFacts.ExtractEarlierSingle | script.js:144-152 | the earlier `extractCodeBlocks` swaps a lone block for its element, which shows the block's body |

## Left out

- Browser glue is not modelled: DOM events, `fetch`, `localStorage`, clipboard copying, MathJax typesetting (script.js:191), others.js and alt/scripts.js. None of it transforms text the core computes.
- `td.innerHTML = …` hands a cell's markup to the HTML parser, and `outerHTML` serialises it again. The model keeps the markup as it is, because the HTML parser is out of scope. The round trip through the parser changes the text of a body cell: a body cell holding `&`, `>`, U+00A0 or a `<` that opens no tag comes back escaped (`a & b` is serialised as `a &amp; b`). For such cells `Html.TableHtml` and the lemmas built on it differ from what the program produces. Header cells are set through `textContent` and are escaped as the serialiser does.
- `MAX_TOKENS_BY_MODEL[model]` on a prototype key such as `constructor` yields a function, not a budget. The model reads every id outside the table as missing.
- Conversation.TrimToBudget: it counts every message before it looks for the cut, where the loop counts one message per step and stops at the cut. Counting has no effect, so the result is the same.
- RenderFacts.RenderBold: stated only for a one-line `x` without markup characters (`Plain`). With markup inside, the later passes act on it too: `**a $b$ c**` gets a math span inside the bold element, and `**a > b**` gets a blockquote in markdowns.js. Text starting with whitespace is excluded as well, because the blockquote pattern would fire on the `>` of `<b>`.
- RenderFacts.RenderMath: stated only for a one-line `x` without markup characters (`Plain`). With markup inside, other passes act on it too: `$**a**$` gives a math span holding `<b>a</b>`.
- RenderFacts.RenderHeading: stated only for a nonempty one-line text without markup characters (`Plain`). With markup, other passes act on it too: the earlier version turns `# a $b$` into text holding a math span instead of leaving it unchanged. Text starting with whitespace is excluded for the same reason as in RenderFacts.RenderBold. RenderFacts.RenderHeadingLast states a heading as the last line of a longer plain text. RenderFacts.RenderHeadingThenLine states what happens when a line follows: markdowns.js:59 matches the `>` of the heading's closing tag and the newline after it.
- RenderFacts.RenderPlain: stated only for text holding none of the characters the passes react to.
- RenderFacts.RenderCodeBlock: stated for a response that is one fenced block whose body holds no backquote and no `$`. A `$` in the body is read by the restoring `replace` as part of a replacement pattern.
- RenderFacts.RestoreSingle: the same single-block, `$`-free hypothesis.
- RenderFacts.ExtractEarlierSingle: the same single-block, `$`-free hypothesis.
- TableFacts.TablePass: proved for a response that is one whole table, not for tables embedded in other text. `Renderer.TablesFrom` models the embedded case, but no lemma states its result there.
- TableFacts.RenderEarlierTable: stated only for responses without `*` or `$`. Only the earlier version's whole pipeline is stated for tables; markdowns.js is stated at the level of its table pass. The reason is that markdowns.js:102 returns the table between newlines, so the blockquote pattern of markdowns.js:59 always fires on the `>` of `</table>` and the newline after it, as it does after a heading (RenderFacts.RenderHeadingThenLine).
- Lines.BlockquoteQuiet: only the case where the pass does nothing is stated. Lines.QuoteAfterTag states one positive case, the one a heading followed by a line produces. No general property of the pass over arbitrary text is claimed.
- Fences.RestoreProtect: stated for a response that never spells `CODEBLOCK` itself. Otherwise the restore step replaces the user's first occurrence, which the model follows, but no lemma states the outcome.
- Fences.RestoreProtect: also requires blocks without `$`, because the restoring `replace` reads the element as a replacement pattern. Fences.ExtractEarlierPositional carries the same hypothesis for the same reason.
- Fences.Protect: its own contract only says no newline is added. The placement of the placeholders is stated by Fences.ProtectIsPositional.
