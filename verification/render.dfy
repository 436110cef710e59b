/** The reStructuredText renderer (`RestRenderer`): one pure function per
    token kind, from the already rendered text of the token's children to
    an RST fragment. The renderer's only state, the "raw HTML used" flag, is
    returned alongside the text by the operations that can raise it. */
module Render {
  import opened Text
  import opened Width
  import opened Wrappers

  /** A rendered fragment and whether producing it used the raw-HTML role. */
  datatype Out = Out(text: string, rawHtml: bool)

  /** Declares the `raw-html-md` role used for inline raw HTML. */
  const Prolog: string := ".. role:: raw-html-md(raw)\n   :format: html\n\n"

  /** Indentation unit of directive bodies. */
  const IndentUnit: string := "   "

  /** Sentinel that tags the first line of every list item until the
      enclosing list knows its marker. */
  const ListMarker: string := "{#__rest_list_mark__#}"

  /** `_indent_block`: `textwrap.indent` with the indentation unit. */
  function IndentBlock(s: string): string {
    Indent(s, IndentUnit)
  }

  const RawRoleOpen: string := ":raw-html-md:`"

  const ImageHead: string := "\n.. image::"

  type HeadingLevel = l: int | 1 <= l <= 6 witness 1

  // ---------------------------------------------------------------------
  // Raw HTML

  /** `_raw_html`: HTML wrapped in the custom inline role; raises the flag. */
  function RawHtml(html: string): (r: Out)
    ensures r.rawHtml
    ensures StartsWith(r.text, RawRoleOpen) && r.text[|RawRoleOpen|..] == html + "`"
  {
    Out(RawRoleOpen + html + "`", true)
  }

  /** `linebreak`: a hard line break has no RST form, so it is raw `<br />`. */
  function Linebreak(): (r: Out)
    ensures r.rawHtml
    ensures r.text == " " + RawHtml("<br />").text + "\n"
  {
    var h := RawHtml("<br />");
    Out(" " + h.text + "\n", h.rawHtml)
  }

  /** `strikethrough`: RST has no strike-through, so it is raw `<del>`. */
  function Strikethrough(text: string): (r: Out)
    ensures r.rawHtml && StartsWith(r.text, RawRoleOpen)
    ensures |r.text| == |RawRoleOpen| + |text| + 12
    ensures r.text[|RawRoleOpen|..|r.text| - 1] == "<del>" + text + "</del>"
  {
    RawHtml("<del>" + text + "</del>")
  }

  /** `inline_html`: inline HTML passes through the raw role. */
  function InlineHtml(html: string): (r: Out)
    ensures r.rawHtml && StartsWith(r.text, RawRoleOpen)
    ensures |r.text| == |RawRoleOpen| + |html| + 1
    ensures r.text[|RawRoleOpen|..|r.text| - 1] == html
  {
    RawHtml(html)
  }

  /** `block_html`: block HTML becomes an indented `.. raw:: html` directive.
      It does not use the inline role and so leaves the flag alone. */
  function BlockHtml(html: string): (r: string)
    ensures StartsWith(r, "\n\n.. raw:: html\n\n")
    ensures r[|"\n\n.. raw:: html\n\n"|..] == IndentBlock(html) + "\n\n"
  {
    "\n\n.. raw:: html\n\n" + IndentBlock(html) + "\n\n"
  }

  // ---------------------------------------------------------------------
  // Inline markup

  /** `emphasis` */
  function Emphasis(text: string): (r: string)
    ensures |r| == |text| + 2 && r[1..|r| - 1] == text
    ensures r[0] == '*' && r[|r| - 1] == '*'
  {
    "*" + text + "*"
  }

  /** `strong` and `double_emphasis` */
  function Strong(text: string): (r: string)
    ensures |r| == |text| + 4 && r[2..|r| - 2] == text
    ensures r[..2] == "**" && r[|r| - 2..] == "**"
  {
    "**" + text + "**"
  }

  /** `codespan` escaping: every backtick becomes the HTML reference `&#96;`. */
  function EscapeBackticks(code: string): string {
    ReplaceAll(code, "`", "&#96;")
  }

  /** The HTML docutils itself produces for an inline literal. */
  function CodeHtml(escaped: string): string {
    "<code class=\"docutils literal\"><span class=\"pre\">" + escaped + "</span></code>"
  }

  /** Whether `code` can stand between double backticks as an RST inline
      literal: no double backtick inside, and neither whitespace nor a
      backtick at either end. */
  predicate LiteralSafe(code: string) {
    !Contains(code, "``")
    && (|code| > 0 ==> !IsSpace(code[0]) && code[0] != '`'
                       && !IsSpace(code[|code| - 1]) && code[|code| - 1] != '`')
  }

  /** `codespan` as written: a double-backtick literal unless the code
      contains a double backtick; then an escaped raw-HTML `<code>` span.
      Code with a space or a backtick at an end still becomes a literal. */
  function CodeSpanAsWritten(code: string): (r: Out)
    ensures r.rawHtml <==> Contains(code, "``")
    ensures !r.rawHtml ==> r.text == "``" + code + "``"
    ensures r.rawHtml ==> r == RawHtml(CodeHtml(EscapeBackticks(code)))
  {
    if !Contains(code, "``") then Out("``" + code + "``", false)
    else RawHtml(CodeHtml(EscapeBackticks(code)))
  }

  /** `codespan` as its tests expect: the literal form only for code that is
      a well-formed literal body, the escaped raw-HTML span otherwise. */
  function CodeSpan(code: string): (r: Out)
    ensures r.rawHtml <==> !LiteralSafe(code)
    ensures !r.rawHtml ==> r.text == "``" + code + "``"
    ensures r.rawHtml ==> r == RawHtml(CodeHtml(EscapeBackticks(code)))
  {
    if LiteralSafe(code) then Out("``" + code + "``", false)
    else RawHtml(CodeHtml(EscapeBackticks(code)))
  }

  /** `inline_math` */
  function InlineMath(math: string): (r: string)
    ensures StartsWith(r, ":math:`") && r[|":math:`"|..] == math + "`"
  {
    ":math:`" + math + "`"
  }

  // ---------------------------------------------------------------------
  // Links and images

  const TargetKey: string := ":target: "

  /** Index of the first `\n` in `s`, or `|s|`. */
  function FirstNewline(s: string): (k: nat)
    ensures k <= |s|
    ensures k < |s| ==> s[k] == '\n'
    ensures forall i :: 0 <= i < k ==> s[i] != '\n'
  {
    if |s| == 0 || s[0] == '\n' then 0 else 1 + FirstNewline(s[1..])
  }

  /** `re.sub(r":target: (.*)\n", ":target: " + url + "\n", s)`: every
      `:target:` field that ends its line gets `url` as its value. */
  function RewriteTargets(s: string, url: string): (r: string)
    ensures !Contains(s, TargetKey) ==> r == s
    decreases |s|
  {
    if |s| == 0 then []
    else if StartsWith(s, TargetKey) && FirstNewline(s[|TargetKey|..]) < |s| - |TargetKey| then
      TargetKey + url + "\n" + RewriteTargets(s[|TargetKey| + FirstNewline(s[|TargetKey|..]) + 1..], url)
    else [s[0]] + RewriteTargets(s[1..], url)
  }

  /** Python truthiness of an optional title. */
  predicate HasTitle(title: Option<string>) {
    title.Some? && title.value != ""
  }

  /** `link`, checked in this order: a link around an image repoints the
      image's target; a titled link becomes a raw-HTML anchor; a `#fragment`
      link becomes a `:ref:` role; any other link is a hyperlink reference. */
  function Link(url: string, text: string, title: Option<string>): (r: Out)
    ensures StartsWith(text, ImageHead) ==> r == Out(RewriteTargets(text, url), false)
    ensures !StartsWith(text, ImageHead) && HasTitle(title) ==>
              r == RawHtml("<a href=\"" + url + "\" title=\"" + title.value + "\">" + text + "</a>")
    ensures !StartsWith(text, ImageHead) && !HasTitle(title) && StartsWith(url, "#") ==>
              r == Out(":ref:`" + text + " <" + url[1..] + ">`", false)
    ensures !StartsWith(text, ImageHead) && !HasTitle(title) && !StartsWith(url, "#") ==>
              r == Out("`" + text + " <" + url + ">`_", false)
  {
    if StartsWith(text, ImageHead) then Out(RewriteTargets(text, url), false)
    else if HasTitle(title) then
      RawHtml("<a href=\"" + url + "\" title=\"" + title.value + "\">" + text + "</a>")
    else if StartsWith(url, "#") then Out(":ref:`" + text + " <" + url[1..] + ">`", false)
    else Out("`" + text + " <" + url + ">`_", false)
  }

  /** Index just past the last `/` of `p`, or 0 when there is none. */
  function AfterLastSlash(p: string): (i: nat)
    ensures i <= |p|
    ensures i > 0 ==> p[i - 1] == '/'
    ensures forall j :: i <= j < |p| ==> p[j] != '/'
  {
    if |p| == 0 then 0 else if p[|p| - 1] == '/' then |p| else AfterLastSlash(p[..|p| - 1])
  }

  predicate IsSlash(c: char) {
    c == '/'
  }

  predicate AllSlashes(s: string) {
    forall j :: 0 <= j < |s| ==> s[j] == '/'
  }

  /** `os.path.dirname(p)` with POSIX rules: everything up to the last `/`,
      without its trailing slashes unless it consists of slashes only. */
  function Dirname(p: string): string {
    var head := p[..AfterLastSlash(p)];
    if head != "" && !AllSlashes(head) then TrimEnd(head, IsSlash) else head
  }

  /** `os.path.join(dir, src)` with POSIX rules. */
  function PosixJoin(dir: string, src: string): string {
    if StartsWith(src, "/") then src
    else if dir == "" || dir[|dir| - 1] == '/' then dir + src
    else dir + "/" + src
  }

  /** The image path relative to the including document: joined to its
      directory, with Windows separators turned into `/`. */
  function ImagePath(dir: string, src: string): string {
    ReplaceAll(PosixJoin(dir, src), "\\", "/")
  }

  /** The `.. image::` directive shared by `image` and `image_link`; see
      `ImageBlockLines` for its lines. */
  function ImageBlock(path: string, target: string, alt: string): (r: string)
    ensures StartsWith(r, ImageHead)
  {
    "\n.. image:: " + path + "\n   " + TargetKey + target + "\n   :alt: " + alt + "\n"
  }

  /** An image block is the lines `""`, `.. image:: <path>`,
      `   :target: <target>`, `   :alt: <alt>` and `""`, joined by newlines. */
  lemma ImageBlockLines(path: string, target: string, alt: string)
    ensures ImageBlock(path, target, alt)
            == Join(["", ".. image:: " + path, "   " + TargetKey + target, "   :alt: " + alt, ""], "\n")
  {
    JoinFive("", ".. image:: " + path, "   " + TargetKey + target, "   :alt: " + alt, "");
  }

  lemma JoinFive(a: string, b: string, c: string, d: string, e: string)
    ensures Join([a, b, c, d, e], "\n") == a + "\n" + b + "\n" + c + "\n" + d + "\n" + e
  {
    var ls := [a, b, c, d, e];
    assert ls[1..][1..][1..][1..] == [e];
    assert Join(ls[3..], "\n") == d + "\n" + e;
    assert Join(ls[2..], "\n") == c + "\n" + (d + "\n" + e);
    assert Join(ls[1..], "\n") == b + "\n" + (c + "\n" + (d + "\n" + e));
  }

  /** `image`: always clickable, with the image itself as target; the title
      is dropped. `mdincludePath` is the including document's path. */
  function Image(mdincludePath: string, src: string, alt: string, title: Option<string>): (r: string)
    ensures StartsWith(r, ImageHead)
    ensures exists p :: r == ImageBlock(p, p, alt) && !Contains(p, "\\")
  {
    var path := ImagePath(Dirname(mdincludePath), src);
    ImagePathSlashes(Dirname(mdincludePath), src);
    ImageBlock(path, path, alt)
  }

  /** The image path has no backslash left. */
  lemma ImagePathSlashes(dir: string, src: string)
    ensures !Contains(ImagePath(dir, src), "\\")
  {
    assert SafeReplacement("\\", "/");
    ReplaceAllRemoves(PosixJoin(dir, src), "\\", "/");
  }

  /** `image_link` */
  function ImageLink(url: string, target: string, alt: string): (r: string)
    ensures StartsWith(r, ImageHead)
    ensures r == Join(["", ".. image:: " + url, "   :target: " + target, "   :alt: " + alt, ""], "\n")
  {
    ImageBlockLines(url, target, alt);
    assert "   " + TargetKey + target == "   :target: " + target;
    ImageBlock(url, target, alt)
  }

  // ---------------------------------------------------------------------
  // Blocks

  function HeadingMark(level: HeadingLevel): char {
    if level == 1 then '='
    else if level == 2 then '-'
    else if level == 3 then '^'
    else if level == 4 then '~'
    else if level == 5 then '"'
    else '#'
  }

  /** `heading`: the text over an underline of the level's section
      character, as wide on screen as the text. */
  function Heading(text: string, level: HeadingLevel): (r: string)
    ensures |r| == |text| + ColumnWidth(text) + 3
    ensures var u := r[|text| + 2..|r| - 1];
            r == "\n" + text + "\n" + u + "\n"
            && |u| == ColumnWidth(text)
            && forall i :: 0 <= i < |u| ==> u[i] == HeadingMark(level)
  {
    var u := Repeat(HeadingMark(level), ColumnWidth(text));
    assert ("\n" + text + "\n" + u + "\n")[|text| + 2..|text| + 2 + |u|] == u;
    "\n" + text + "\n" + u + "\n"
  }

  /** `thematic_break` */
  const ThematicBreak: string := "\n----\n"

  /** `paragraph` */
  function Paragraph(text: string): (r: string)
    ensures |r| == |text| + 2 && r[0] == '\n' && r[|r| - 1] == '\n' && r[1..|r| - 1] == text
  {
    "\n" + text + "\n"
  }

  /** First line of `block_code`, chosen by the fence's language tag. */
  function CodeHeader(lang: Option<string>): string {
    if lang == Some("math") then "\n.. math::\n\n"
    else if lang.Some? && lang.value != "" then "\n.. code-block:: " + lang.value + "\n\n"
    else "\n.. code-block::\n\n"
  }

  /** `block_code`: the header directive over the indented code. */
  function BlockCode(code: string, lang: Option<string>): (r: string)
    ensures StartsWith(r, CodeHeader(lang))
    ensures r[|CodeHeader(lang)|..] == IndentBlock(code)
  {
    CodeHeader(lang) + IndentBlock(code)
  }

  /** `block_quote`: RST has no quote directive, so the quote is the
      indented body of an empty comment. */
  function BlockQuote(text: string): (r: string)
    ensures StartsWith(r, "\n..\n\n")
    ensures r[5..] == IndentBlock(StripNewlines(text)) + "\n\n"
  {
    var body := IndentBlock(StripNewlines(text)) + "\n\n";
    assert ("\n..\n\n" + body)[5..] == body;
    "\n..\n\n" + body
  }

  // ---------------------------------------------------------------------
  // Lists

  /** The marker of a list: auto-numbered or bulleted. */
  function ListMark(ordered: bool): (m: string)
    ensures |m| == (if ordered then 3 else 2)
  {
    if ordered then "#. " else "* "
  }

  /** `list_item`: starts a new line and tags it with the sentinel. */
  function ListItem(text: string): (r: string)
    ensures StartsWith(r, "\n" + ListMarker) && r[|ListMarker| + 1..] == text
  {
    "\n" + ListMarker + text
  }

  /** The loop of `list`: every non-empty line that is not an item's first
      line is pushed right by the marker's width. */
  function IndentItemLines(lines: seq<string>, mark: string): (r: seq<string>)
    ensures |r| == |lines|
    decreases |lines|
  {
    if |lines| == 0 then []
    else
      var line := lines[0];
      var indented := if line != "" && !StartsWith(line, ListMarker) then Repeat(' ', |mark|) + line else line;
      [indented] + IndentItemLines(lines[1..], mark)
  }

  /** `list`: indent continuation lines, then put the real marker where the
      sentinel is. */
  function List(body: string, ordered: bool): (r: string)
  {
    var mark := ListMark(ordered);
    ReplaceAll("\n" + Join(IndentItemLines(SplitLines(body), mark), "\n") + "\n", ListMarker, mark)
  }

  // ---------------------------------------------------------------------
  // Tables

  /** Prefixes the first line with `first` and every later line with `rest`. */
  function PrefixLines(lines: seq<string>, first: string, rest: string): (r: seq<string>)
    ensures |r| == |lines|
    ensures forall i :: 0 <= i < |r| ==> r[i] == (if i == 0 then first else rest) + lines[i]
    decreases |lines|
  {
    if |lines| == 0 then [] else [first + lines[0]] + PrefixLines(lines[1..], rest, rest)
  }

  /** `table_row`: the row is one bullet whose body is the cells' lines. */
  function TableRow(content: string): (r: string)
    ensures r == "" <==> content == ""
    ensures r != "" ==> StartsWith(r, "* ") && r[|r| - 1] == '\n'
  {
    var lines := SplitLines(content);
    if |lines| == 0 then ""
    else
      var ps := PrefixLines(lines, "* ", "  ");
      assert Join(ps, "\n")[..2] == ps[0][..2] == "* ";
      Join(ps, "\n") + "\n"
  }

  /** `table_cell` */
  function TableCell(content: string): (r: string)
    ensures |r| == |content| + 3 && r[..2] == "- " && r[2..|r| - 1] == content && r[|r| - 1] == '\n'
  {
    "- " + content + "\n"
  }

  /** `table_head`: the header row, declared as such. */
  function TableHead(text: string): (r: string)
    ensures StartsWith(r, ":header-rows: 1\n\n") && r[|":header-rows: 1\n\n"|..] == TableRow(text)
  {
    ":header-rows: 1\n\n" + TableRow(text)
  }

  /** `table`: an indented `.. list-table::` directive. */
  function Table(body: string): (r: string)
    ensures StartsWith(r, "\n.. list-table::\n")
    ensures r[|"\n.. list-table::\n"|..] == IndentBlock(body) + "\n"
  {
    "\n.. list-table::\n" + IndentBlock(body) + "\n"
  }

  // ---------------------------------------------------------------------
  // Footnotes

  /** `footnote_ref`: an auto-numbered RST footnote labelled `fn-<key>`. */
  function FootnoteRef(key: string): (r: string)
    ensures StartsWith(r, "[#fn-") && |r| == |key| + 7 && r[5..|r| - 2] == key && r[|r| - 2..] == "]_"
  {
    "[#fn-" + key + "]_"
  }

  /** `footnote_item`: the matching footnote target with the stripped text. */
  function FootnoteItem(text: string, key: string): (r: string)
    ensures StartsWith(r, ".. [#fn-" + key + "] ") && r[|key| + 10..] == Strip(text) + "\n"
  {
    var head := ".. [#fn-" + key + "] ";
    var tail := Strip(text) + "\n";
    assert |head| == |key| + 10 && (head + tail)[|head|..] == tail;
    head + tail
  }

  /** `footnotes`: the collected items after one blank line, or nothing. */
  function Footnotes(text: string): (r: string)
    ensures text == "" <==> r == ""
    ensures text != "" ==> r == "\n\n" + text
  {
    if text != "" then "\n\n" + text else ""
  }

  // ---------------------------------------------------------------------
  // RST pass-through

  /** `directive`: the explicit markup block verbatim on a fresh line. */
  function Directive(text: string): (r: string)
    ensures |r| == |text| + 1 && r[0] == '\n' && r[1..] == text
  {
    "\n" + text
  }

  /** `rest_code_block`: the literal-block opener is a blank line; the code
      itself is the indented block that follows. */
  const RestCodeBlock: string := "\n\n"

  // ---------------------------------------------------------------------
  // Post-processing

  /** `post_process`: the role declaration goes first exactly when the raw
      role was used. */
  function PostProcess(rendered: Out): (r: string)
    ensures rendered.rawHtml ==> r == Prolog + rendered.text
    ensures !rendered.rawHtml ==> r == rendered.text
  {
    if rendered.rawHtml then Prolog + rendered.text else rendered.text
  }
}
