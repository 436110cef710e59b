# sphinx-mdinclude renderer and parser extensions in Dafny

sphinx-mdinclude converts Markdown to reStructuredText (RST) so that Sphinx can
include Markdown files. The conversion has two parts:

- **Parsing.** mistune parses the Markdown. Its block and inline grammars are
  extended with RST pass-through rules (`RestBlockParser`, `RestInlineParser`).
- **Rendering.** `RestRenderer` turns the resulting token tree into RST, one
  method per token kind. Its only state is the "raw HTML used" flag. When the
  flag is set, `RestMarkdown.post_process` puts the declaration of the
  `raw-html-md` role in front of the document.

This project models both parts as pure functions and proves what they promise.

| file | module | contents |
|---|---|---|
| `wrappers.dfy` | `Wrappers` | `Option` |
| `text.dfy` | `Text` | The Python `str` operations the renderer relies on: `startswith`, `in`, `replace`, `splitlines`, `"\n".join`, `textwrap.indent`, `strip`/`strip("\n")`. Also their inverses and laws. |
| `width.dfy` | `Width` | A stand-in for docutils' `column_width`: a wide character counts two columns. |
| `render.dfy` | `Render` | Every `RestRenderer` method, plus `PROLOG` and `post_process`. Methods that can raise the flag return `Out(text, rawHtml)`. |
| `document.dfy` | `Document` | The token tree and the renderer run over it. The flag is threaded explicitly and ORed over the tree. Then `post_process`. |
| `lists.dfy` | `ListLemmas` | Why the list-marker sentinel scheme of `list`/`list_item` is sound. |
| `inline_lemmas.dfy` | `InlineLemmas` | Code-span escaping, links around images, image paths. |
| `block_lemmas.dfy` | `BlockLemmas` | Heading underlines, indented directive bodies, table rows, footnote labels. |
| `parse.dfy` | `Parse` | The seven extension rules as matchers plus `parse_*` handlers, and the rule orders of both parsers. |

### How the regular expressions are modelled

Each rule is a function `Parse*(src, pos)`. It returns the token and resume
offset that its handler produces when the rule's expression matches at `pos`.
Otherwise it returns `None`.

- **Anchors.** `^` and `$` have their multi-line meaning.
- **Lazy `.*?`.** Modelled as the first position where the rest can match.
- **Greedy `\s*$`.** Modelled as the last line end inside the whitespace run.

The alternation of all rules at one position is `FirstMatch`: the earliest
rule in `DEFAULT_RULES` that matches wins. mistune's own rules enter only by
name, as an uninterpreted parameter.

## Model

| member | source | states |
|---|---|---|
| `Render.RawHtml` | sphinx_mdinclude/render.py:43-45 | `_raw_html` raises the flag and wraps the HTML, verbatim, in the `raw-html-md` role |
| `Render.Linebreak` | sphinx_mdinclude/render.py:177-179 | a hard line break goes through the raw role as `<br />`, so it raises the flag |
| `Render.Strikethrough` | sphinx_mdinclude/render.py:181-186 | strike-through raises the flag; the text, between `<del>` and `</del>`, can be read back from inside the raw role |
| `Render.InlineHtml` | sphinx_mdinclude/render.py:256-261 | inline HTML raises the flag; it can be read back unchanged from inside the raw role |
| `Render.BlockHtml` | sphinx_mdinclude/render.py:64-69 | block HTML becomes an indented `.. raw:: html` directive; it does not raise the flag |
| `BlockLemmas.BlockHtmlBody` | sphinx_mdinclude/render.py:64-69 | taking one indentation unit off the directive body gives back the HTML exactly |
| `Render.Emphasis` | sphinx_mdinclude/render.py:152-157 | the emphasised text sits unchanged between single asterisks |
| `Render.Strong` | sphinx_mdinclude/render.py:145-160 | `strong` and `double_emphasis` keep the text unchanged between double asterisks |
| `Render.CodeSpanAsWritten` | sphinx_mdinclude/render.py:162-175 | `codespan` as written: the flag is raised iff the code contains a double backtick; otherwise the code sits between double backticks; if so, it is an escaped `<code>` span in the raw role |
| `InlineLemmas.CodeSpanAsWrittenLiteral` | sphinx_mdinclude/render.py:167-168 | as written, code opening or closing with a space, or framed by backticks, becomes a double-backtick literal (see Findings) |
| `Render.CodeSpan` | sphinx_mdinclude/render.py:162-175 | `codespan` corrected as its tests expect (see Findings): the flag is raised iff the code is not a well-formed literal body, that is, it holds a double backtick or has whitespace or a backtick at an end; otherwise the code sits between double backticks; if so, it is an escaped `<code>` span in the raw role |
| `InlineLemmas.CodeSpanOpeningSpace` | sphinx_mdinclude/tests/test_renderer.py:112-121 | code opening with a space takes the raw-HTML span |
| `InlineLemmas.CodeSpanClosingSpace` | sphinx_mdinclude/tests/test_renderer.py:123-132 | code closing with a space takes the raw-HTML span |
| `InlineLemmas.CodeSpanFramed` | sphinx_mdinclude/tests/test_renderer.py:139-148 | code framed by backticks takes the raw-HTML span |
| `InlineLemmas.CodeSpanPlain` | sphinx_mdinclude/tests/test_renderer.py:134-137 | `a` stays the literal ``` ``a`` ``` without the flag |
| `InlineLemmas.CodeSpanAgrees` | sphinx_mdinclude/render.py:167 | the corrected and the written `codespan` agree on safe code and on code with a double backtick, and differ only on code with whitespace or a backtick at an end |
| `InlineLemmas.EscapedHasNoBacktick` | sphinx_mdinclude/render.py:174 | after escaping, no backtick is left that could close the raw role early |
| `InlineLemmas.UnescapeEscape` | sphinx_mdinclude/render.py:174 | escaping backticks as `&#96;` is undone by unescaping whenever the code did not already contain `&#96;` |
| `InlineLemmas.CodeSpanRecoverable` | sphinx_mdinclude/render.py:162-175 | the code can be read back from either form of a code span |
| `Render.InlineMath` | sphinx_mdinclude/render.py:301-303 | the math is kept verbatim inside the `math` role |
| `Render.Link` | sphinx_mdinclude/render.py:195-219 | the four cases in order: text starting with an image directive, a non-empty title (raw `<a>`, flag raised), a `#` url (`:ref:` to the url without `#`), anything else (hyperlink reference) |
| `Render.RewriteTargets` | sphinx_mdinclude/render.py:203 | the `re.sub` leaves text without a `:target: ` field unchanged |
| `InlineLemmas.RewriteImageBlock` | sphinx_mdinclude/render.py:203 | rewriting the `:target:` field of an image directive changes the target to the url and nothing else |
| `InlineLemmas.LinkAroundImage` | sphinx_mdinclude/render.py:202-204 | a link around an image keeps the image path and alt text, makes the link's url the target, ignores the title and raises no flag |
| `Render.ImageBlockLines` | sphinx_mdinclude/render.py:245-254 | the image directive is the five lines: empty, `.. image::`, `:target:`, `:alt:`, empty |
| `Render.Image` | sphinx_mdinclude/render.py:221-243 | an image renders as the image directive whose path and `:target:` are one and the same backslash-free path, with the alt text kept; the title plays no part |
| `Render.ImageLink` | sphinx_mdinclude/render.py:245-254 | an image link is the five lines `""`, `.. image:: <url>`, `   :target: <target>`, `   :alt: <alt>`, `""` joined by newlines |
| `InlineLemmas.LinkAroundImageLink` | sphinx_mdinclude/render.py:202-204 | a link around an image link keeps its url and alt text, makes the link's url its target, ignores the title and raises no flag |
| `Render.ImagePathSlashes` | sphinx_mdinclude/render.py:232-234 | the image path has every Windows separator turned into `/` |
| `InlineLemmas.DirnameOfJoin` | sphinx_mdinclude/render.py:232 | `dirname` gives back the directory that a slash-free name was joined to |
| `InlineLemmas.ImageNextToDocument` | sphinx_mdinclude/render.py:232-243 | for a document without a directory part, the image source is both path and target, whatever the title |
| `Render.Heading` | sphinx_mdinclude/render.py:71-78 | the text over an underline of exactly `column_width(text)` copies of the level's character |
| `BlockLemmas.HeadingMarkInjective` | sphinx_mdinclude/render.py:26-33 | the six levels use six different underline characters |
| `BlockLemmas.HeadingLines` | sphinx_mdinclude/render.py:78 | a one-line heading splits into the lines: empty, the text, the underline |
| `BlockLemmas.HeadingAscii` | sphinx_mdinclude/tests/test_renderer.py:413-416 | `head 1` at level 1 is underlined by six `=` |
| `BlockLemmas.HeadingWide` | sphinx_mdinclude/tests/test_renderer.py:418-421 | eight wide characters are underlined by sixteen `=` |
| `BlockLemmas.ThematicBreakLine` | sphinx_mdinclude/render.py:80-82 | a thematic break is a transition: four dashes on a line of their own |
| `Render.Paragraph` | sphinx_mdinclude/render.py:102-104 | a paragraph is its text on lines of its own |
| `Render.BlockCode` | sphinx_mdinclude/render.py:47-55 | the header chosen by the language is followed by the indented code |
| `BlockLemmas.BlockCodeBody` | sphinx_mdinclude/render.py:47-55 | taking one indentation unit off the body gives back the code exactly |
| `BlockLemmas.CodeHeaderInjective` | sphinx_mdinclude/render.py:48-54 | two fences get the same header iff they announce the same language: `math`, another non-empty tag, or none |
| `Render.BlockQuote` | sphinx_mdinclude/render.py:57-59 | a quote is the indented body of an empty comment `..` |
| `BlockLemmas.BlockQuoteBody` | sphinx_mdinclude/render.py:57-59 | taking one indentation unit off the body gives the quoted text without its surrounding newlines |
| `BlockLemmas.BlockQuoteKeepsText` | sphinx_mdinclude/render.py:59 | `strip("\n")` drops only the newlines at both ends and keeps the text between them |
| `BlockLemmas.IndentBlockInverse` | sphinx_mdinclude/render.py:37 | `_indent_block` is undone by taking one unit off every non-blank line |
| `Render.ListMark` | sphinx_mdinclude/render.py:90 | the ordered marker `#. ` is three wide, the bullet `* ` is two |
| `Render.ListItem` | sphinx_mdinclude/render.py:98-100 | an item starts a fresh line tagged with the sentinel, followed by its text |
| `ListLemmas.MarkIsSafe` | sphinx_mdinclude/render.py:25-95 | replacing the sentinel by either marker can never form a new sentinel |
| `ListLemmas.ListLineByLine` | sphinx_mdinclude/render.py:90-96 | when a body's lines carry the sentinel only at their start, `list` equals line-by-line resolution wrapped in newlines: an item line gets the marker, an empty line stays empty, any other line is indented by the marker's width |
| `ListLemmas.ListShape` | sphinx_mdinclude/render.py:84-96 | for any body, `list` (`Render.List`) starts and ends with a newline and leaves no sentinel |
| `ListLemmas.ListOfItems` | sphinx_mdinclude/render.py:84-100 | items whose text is free of the sentinel render as the line-by-line resolution of their lines, with no sentinel left |
| `Document.ListToken` | sphinx_mdinclude/render.py:84-100 | the same for a list token of the tree, whose items are rendered from their children |
| `Document.OneItemList` | sphinx_mdinclude/tests/test_renderer.py:425-433 | a one-line item converts to `\n\n* x\n` in a bullet list and `\n\n#. x\n` in an ordered one |
| `Render.Table` | sphinx_mdinclude/render.py:106-114 | a table is an indented `.. list-table::` directive |
| `BlockLemmas.TableBody` | sphinx_mdinclude/render.py:106-114 | taking one indentation unit off the directive body gives back the body |
| `Render.TableHead` | sphinx_mdinclude/render.py:116-117 | the header row is announced by `:header-rows: 1` and then rendered like any row |
| `Render.TableRow` | sphinx_mdinclude/render.py:122-134 | a row is empty iff its content is; a non-empty row opens with `* ` and ends in a newline |
| `BlockLemmas.TableRowLines` | sphinx_mdinclude/render.py:127-134 | a non-empty row has the content's lines, the first prefixed by `* ` and every later one by two spaces; the row is those lines, each ended by `\n` |
| `BlockLemmas.RowOfCells` | sphinx_mdinclude/render.py:122-143 | a row of one-line cells is `* - c0`, then `  - c1` and so on, one per line |
| `Render.TableCell` | sphinx_mdinclude/render.py:136-143 | a cell is `- `, its content, and a newline |
| `Render.FootnoteRef` | sphinx_mdinclude/render.py:267-273 | a reference is the auto-numbered label `[#fn-<key>]_` |
| `BlockLemmas.FootnoteRefInjective` | sphinx_mdinclude/render.py:273 | different keys give different references |
| `Render.FootnoteItem` | sphinx_mdinclude/render.py:275-281 | an item is the label `.. [#fn-<key>] ` followed by the note text stripped of surrounding whitespace and a newline |
| `BlockLemmas.FootnoteItemMatchesRef` | sphinx_mdinclude/render.py:273-281 | an item's label is its reference without the trailing `_`, so each reference resolves to the item with its key |
| `BlockLemmas.FootnoteItemText` | sphinx_mdinclude/render.py:281 | the note text loses only the whitespace around it |
| `Render.Footnotes` | sphinx_mdinclude/render.py:283-291 | footnotes are empty iff their text is; otherwise they follow a blank line |
| `BlockLemmas.RestCodeBlockBlank` | sphinx_mdinclude/render.py:312-313 | the literal-block opener is one blank line and no text |
| `Render.Directive` | sphinx_mdinclude/render.py:309-310 | a directive is its raw text on a fresh line |
| `Render.PostProcess` | sphinx_mdinclude/render.py:339-343 | the role declaration is prepended iff the flag is set; otherwise the text is unchanged |
| `Document.TreeFlag` | sphinx_mdinclude/render.py:43-45 | the flag returned by rendering a token tree is raised iff some token in it went through `_raw_html`; code spans follow the corrected `codespan` (see Left out) |
| `Document.Convert` | sphinx_mdinclude/render.py:333-347 | `convert`: the converted document starts with the role declaration iff raw HTML was used somewhere; the rendered text follows unchanged; code spans follow the corrected `codespan` (see Left out) |
| `Document.RawTokenNeedsPrologue` | sphinx_mdinclude/render.py:177-186 | a line break, strike-through or inline HTML token anywhere at top level forces the role declaration |
| `Document.PlainTextNoPrologue` | sphinx_mdinclude/render.py:339-343 | a document of plain text tokens gets no role declaration |
| `Parse.ParseDirective` | sphinx_mdinclude/parse.py:29-31 | the `directive` rule (line 17) plus its handler: `..` after leading spaces at a line start, up to the first newline that is followed by a non-space; the raw text excludes that newline, and parsing resumes right after it (`m.end()`) |
| `Parse.ParseOnelineDirective` | sphinx_mdinclude/parse.py:33-37 | the `oneline_directive` rule (line 18) plus its handler: the same opening up to the end of its line; the raw text has no newline, and parsing resumes one past the line end |
| `Parse.ParseRestCodeBlock` | sphinx_mdinclude/parse.py:39-42 | the `rest_code_block` rule (line 19) plus its handler: `::` at a line start with only whitespace up to a line end; parsing resumes one past the last line end the greedy `\s*` can reach, and the rule fails iff no line end is reachable |
| `Parse.DirectiveShadowsOneline` | sphinx_mdinclude/parse.py:17-18 | wherever the multi-line directive matches, the one-line form would match too |
| `Parse.DirectivePassThrough` | sphinx_mdinclude/parse.py:29-37 | both directive rules render as their source text on a fresh line |
| `Parse.OnelineExample` | sphinx_mdinclude/tests/test_renderer.py:769-772 | `.. a` alone is a one-line directive and not a multi-line one |
| `Parse.DirectiveExample` | sphinx_mdinclude/tests/test_renderer.py:780-783 | a comment with a blank line and an indented body ends before the next unindented line |
| `Parse.ParseInlineMath` | sphinx_mdinclude/parse.py:87-90 | the `inline_math` rule (line 61) plus its handler: the token holds exactly the text between `` `$ `` and the first `` $` `` on the line; the rule fails iff there is no `` $` `` on the line |
| `Parse.InlineMathRendering` | sphinx_mdinclude/parse.py:61-90 | matched math is rendered as the `math` role around the same text |
| `Parse.RoleThenContent` | sphinx_mdinclude/parse.py:62 | the prefix form `` :.*?:`.*?` `` of `rest_role`: the result is a match that uses the first `` :` `` on the line and is the shortest match, and there is none iff no match exists |
| `Parse.ContentThenRole` | sphinx_mdinclude/parse.py:62 | the suffix form `` `[^`]+`:.*?: `` of `rest_role`: a non-empty, backtick-free text, `` `: ``, and the first colon after it on the line; the shortest match, and there is none iff no match exists |
| `Parse.ParseRestRole` | sphinx_mdinclude/parse.py:77-80 | `rest_role` matches iff some match of one of its two forms exists, the prefix form first; the token is the whole match |
| `Parse.RestRolePassThrough` | sphinx_mdinclude/parse.py:77-80 | a matched role renders back to exactly its source |
| `Parse.ParseRestLink` | sphinx_mdinclude/parse.py:82-85 | the `rest_link` rule (line 63) plus its handler: a backtick, text without backticks, then `` `_ ``; the token is the whole match |
| `Parse.RestLinkPassThrough` | sphinx_mdinclude/parse.py:82-85 | a matched link renders back to exactly its source |
| `Parse.ParseEolLiteralMarker` | sphinx_mdinclude/parse.py:92-97 | the `eol_literal_marker` rule (line 64) plus its handler: the marker is `:` iff no whitespace precedes the `::`, otherwise empty; parsing resumes one past the last line end the greedy `\s*` after `::` can reach, and the rule fails iff none is reachable |
| `Parse.EolMarkerExample` | sphinx_mdinclude/tests/test_renderer.py:805-813 | `a::` gives the marker `:`, `a ::` gives the empty marker |
| `Parse.BlockRules` | sphinx_mdinclude/parse.py:23-27 | the block rules are mistune's own, then `directive`, `oneline_directive`, `rest_code_block` |
| `Parse.InlineRules` | sphinx_mdinclude/parse.py:70-75 | the inline rules are `inline_math`, `rest_role`, `rest_link`, `eol_literal_marker`, then mistune's own |
| `Parse.FirstMatchIsFirst` | sphinx_mdinclude/parse.py:68-75 | the alternation of rules yields the first rule in order that matches, and nothing iff none matches |
| `Parse.BlockRuleOrder` | sphinx_mdinclude/parse.py:23-27 | a matching mistune block rule wins over the extensions; among the extensions the multi-line directive wins, then the one-line form, then the code-block marker |
| `Parse.InlineRuleOrder` | sphinx_mdinclude/parse.py:68-75 | a matching extension wins over every mistune inline rule; the order among them is math, role, link, marker |

## Left out

- mistune itself: its scanner, its own block and inline rules, the strikethrough/footnotes/table plugins, and how it builds the token tree. Its rules enter the rule order only as names with an uninterpreted match function. The token tree is an input.
- The scanner's search across positions. Each rule is modelled as a match tried at one given position.
- The `INLINE_HTML` expression (sphinx_mdinclude/parse.py:47-55). It is built from mistune's tag and attribute patterns, which are not part of this model. Inline HTML reaches the renderer as a token.
- `sphinx_mdinclude/sphinx.py`, `setup.py`, `noxfile.py` and `__init__.py`: file reading, Sphinx directive plumbing, packaging. The keyword arguments `RestMarkdown.__init__` swallows (sphinx_mdinclude/render.py:316-331) are not modelled.
- The `$` of the inline `eol_literal_marker` rule is given the multi-line meaning, like the block rules. Which flags mistune compiles the inline expressions with is not part of this model.
- `Width.ColumnWidth`: docutils' `column_width` is approximated. Characters in the listed East Asian wide ranges count two columns and every other character one. Combining characters are not treated specially.
- `Document.Convert`: the token tree renders code spans with the corrected `Render.CodeSpan` of the Findings table, not with `codespan` as written (`Render.CodeSpanAsWritten`). On code with whitespace or a backtick at an end but no double backtick, for example ` a`, the model raises the flag and declares the role, where render.py:167 and 339-343 give a plain literal and no role declaration.
- `Document.TreeFlag`: likewise, `UsesRaw` counts such code spans as raw HTML, which the source as written does not.
- `Render.Heading`: levels outside 1 to 6 are excluded by the type `HeadingLevel`. mistune does not produce them; the source would raise `KeyError`.
- `Render.Image`: only POSIX `os.path` rules are modelled. Windows drive letters and backslash separators in the document path are not.
- `Render.Link`: `re.sub` also expands backslash escapes in the replacement. The model inserts the url verbatim, which matches the source for urls without backslashes.
- `Render.List`: the `level` and `start` arguments are not parameters, because the method ignores them. The properties are proved as lemmas (`ListLemmas.ListOfItems`), not as an `ensures` of the function.
- `Document.ListToken`: stated for items whose rendered text does not contain the sentinel `{#__rest_list_mark__#}`. If it does, `list` replaces that text too.
- The raw-HTML flag is a class attribute that is set on the instance and never reset. A renderer reused for a second document would keep it. The model covers one conversion, which is what `convert` does with a fresh `RestMarkdown`.
- Footnote keys are upper-cased by mistune's footnotes plugin before `footnote_ref` sees them. The renderer is modelled with the key as given.
- Unicode: `\s` and `splitlines` use Python's whitespace and line-boundary sets. Strings are sequences of code points; there is no normalisation.

### Notes on the source's behaviour

- `block_html` does not go through `_raw_html`. It never raises the flag and never causes the role declaration.
- The block directive expressions carry their own inline flags (`(?ms:…)` and `(?m:…)`). So `.` spans lines in the multi-line directive, and `^`/`$` are line anchors.

## Findings

| source | as written | input that shows it | evidently intended | confidence | as-written member | corrected member |
|---|---|---|---|---|---|---|
| sphinx_mdinclude/render.py:167 | `codespan` falls back to the raw-HTML span only when the code contains a double backtick | `` `a`:role:`` with a leading space (tests/test_renderer.py:112-121), `:role:`a` ` with a trailing space (123-132), `` `a` `` (139-148): each becomes a double-backtick literal, which RST does not read as an inline literal | the raw-HTML span also for code with whitespace or a backtick at either end, as those tests expect | medium; not executed | `InlineLemmas.CodeSpanAsWrittenLiteral` on `Render.CodeSpanAsWritten` | `Render.CodeSpan`, with `InlineLemmas.CodeSpanOpeningSpace` |
