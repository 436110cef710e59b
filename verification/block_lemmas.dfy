/** Properties of the block renderers: heading underlines, the bodies of
    the indented directives, table rows and footnote labels. */
module BlockLemmas {
  import opened Text
  import opened Width
  import opened Wrappers
  import opened Render

  // ---------------------------------------------------------------------
  // Headings

  /** Each level has its own section character, so the level can be read
      back from the underline. */
  lemma HeadingMarkInjective(a: HeadingLevel, b: HeadingLevel)
    ensures HeadingMark(a) == HeadingMark(b) <==> a == b
  {
  }

  /** A one-line heading renders as three lines: an empty one, the text, and
      an underline of the level's character exactly as wide as the text. */
  lemma HeadingLines(text: string, level: HeadingLevel)
    requires NoLineBoundary(text)
    ensures SplitLines(Heading(text, level))
            == ["", text, Repeat(HeadingMark(level), ColumnWidth(text))]
  {
    var u := Repeat(HeadingMark(level), ColumnWidth(text));
    var ls := ["", text, u];
    assert Join(ls[2..], "\n") == u;
    assert Join(ls[1..], "\n") == text + "\n" + u;
    assert Join(ls, "\n") + "\n" == "\n" + text + "\n" + u + "\n";
    SplitJoin(ls);
  }

  /** `# head 1` is underlined by six `=`. */
  lemma HeadingAscii()
    ensures Heading("head 1", 1) == "\nhead 1\n======\n"
  {
    NarrowWidth("head 1");
    assert Repeat('=', 6) == "======";
  }

  /** `# マルチバイト文字` (eight wide characters) is underlined by sixteen `=`. */
  lemma HeadingWide()
    ensures Heading("マルチバイト文字", 1)
            == "\nマルチバイト文字\n" + Repeat('=', 16) + "\n"
  {
    WideWidth("マルチバイト文字");
  }

  // ---------------------------------------------------------------------
  // Indented directive bodies

  /** `_indent_block` is undone by taking one unit off every non-blank line. */
  lemma IndentBlockInverse(s: string)
    ensures Dedent(IndentBlock(s), IndentUnit) == s
  {
    assert forall i :: 0 <= i < |IndentUnit| ==> IndentUnit[i] == ' ';
    DedentIndent(s, IndentUnit);
  }

  /** The code is the directive body with one indentation unit taken off. */
  lemma BlockCodeBody(code: string, lang: Option<string>)
    ensures var r := BlockCode(code, lang);
            Dedent(r[|CodeHeader(lang)|..], IndentUnit) == code
  {
    IndentBlockInverse(code);
  }

  /** The language a header announces: none for a missing or empty tag. */
  function LangTag(lang: Option<string>): Option<string> {
    if lang.Some? && lang.value != "" then lang else None
  }

  lemma CodeBlockHeaderInjective(x: string, y: string)
    requires "\n.. code-block:: " + x + "\n\n" == "\n.. code-block:: " + y + "\n\n"
    ensures x == y
  {
    var hx := "\n.. code-block:: " + x + "\n\n";
    assert x == hx[17..|hx| - 2];
  }

  lemma CodeBlockHeaderNotBare(x: string)
    ensures "\n.. code-block:: " + x + "\n\n" != "\n.. code-block::\n\n"
  {
    assert |"\n.. code-block:: " + x + "\n\n"| >= 19;
  }

  lemma CodeBlockHeaderNotMath(x: string)
    ensures "\n.. code-block:: " + x + "\n\n" != "\n.. math::\n\n"
  {
    assert |"\n.. code-block:: " + x + "\n\n"| >= 19;
  }

  /** Different language tags give different headers: the header tells the
      language, with `math` announcing a math block instead of code. */
  lemma CodeHeaderInjective(a: Option<string>, b: Option<string>)
    ensures CodeHeader(a) == CodeHeader(b) <==> LangTag(a) == LangTag(b)
  {
    if LangTag(a).Some? {
      CodeBlockHeaderNotBare(a.value);
      CodeBlockHeaderNotMath(a.value);
    }
    if LangTag(b).Some? {
      CodeBlockHeaderNotBare(b.value);
      CodeBlockHeaderNotMath(b.value);
    }
    if LangTag(a).Some? && LangTag(b).Some? && a != Some("math") && b != Some("math") && CodeHeader(a) == CodeHeader(b) {
      CodeBlockHeaderInjective(a.value, b.value);
    }
  }

  /** The HTML is the directive body with one indentation unit taken off. */
  lemma BlockHtmlBody(html: string)
    ensures var r := BlockHtml(html);
            |r| >= 19 && Dedent(r[17..|r| - 2], IndentUnit) == html
  {
    var r := BlockHtml(html);
    assert r[17..|r| - 2] == IndentBlock(html);
    IndentBlockInverse(html);
  }

  /** A block quote's body, with one indentation unit taken off, is the
      quoted text without the newlines around it. */
  lemma BlockQuoteBody(text: string)
    ensures var r := BlockQuote(text);
            |r| >= 7 && Dedent(r[5..|r| - 2], IndentUnit) == StripNewlines(text)
  {
    var r := BlockQuote(text);
    var q := StripNewlines(text);
    assert r[5..|r| - 2] == IndentBlock(q);
    IndentBlockInverse(q);
  }

  /** Only the newlines around the quoted text are dropped. */
  lemma BlockQuoteKeepsText(text: string)
    ensures var q := StripNewlines(text); var a := TrimmedLead(text, IsNewline);
            a + |q| <= |text| && text[a..a + |q|] == q
            && (forall i :: 0 <= i < a ==> text[i] == '\n')
            && (forall i :: a + |q| <= i < |text| ==> text[i] == '\n')
            && (|q| > 0 ==> q[0] != '\n' && q[|q| - 1] != '\n')
  {
    TrimDecomposition(text, IsNewline);
  }

  /** The table body is the directive body with one indentation unit taken off. */
  lemma TableBody(body: string)
    ensures var r := Table(body);
            |r| >= 18 && Dedent(r[17..|r| - 1], IndentUnit) == body
  {
    var r := Table(body);
    assert r[17..|r| - 1] == IndentBlock(body);
    IndentBlockInverse(body);
  }

  // ---------------------------------------------------------------------
  // Tables

  lemma PrefixedHaveNoBoundary(lines: seq<string>)
    requires forall i :: 0 <= i < |lines| ==> NoLineBoundary(lines[i])
    ensures forall i :: 0 <= i < |lines| ==> NoLineBoundary(PrefixLines(lines, "* ", "  ")[i])
  {
    var ps := PrefixLines(lines, "* ", "  ");
    assert NoLineBoundary("* ") && NoLineBoundary("  ");
    forall i | 0 <= i < |lines|
      ensures NoLineBoundary(ps[i])
    {
      NoLineBoundaryConcat(if i == 0 then "* " else "  ", lines[i]);
    }
  }

  /** A row is one bullet: its first line opens with `* `, every other line
      of the content is aligned under it by two spaces, and each line of the
      row, the last one included, ends in `\n`. */
  lemma TableRowLines(content: string)
    requires content != ""
    ensures SplitLines(TableRow(content)) == PrefixLines(SplitLines(content), "* ", "  ")
    ensures TableRow(content) == Join(SplitLines(TableRow(content)), "\n") + "\n"
  {
    var lines := SplitLines(content);
    PrefixedHaveNoBoundary(lines);
    SplitJoin(PrefixLines(lines, "* ", "  "));
  }

  /** The rendered cells of a row, one after the other. */
  function Cells(cs: seq<string>): string
    decreases |cs|
  {
    if |cs| == 0 then "" else TableCell(cs[0]) + Cells(cs[1..])
  }

  /** The lines a row of one-line cells consists of. */
  function CellLines(cs: seq<string>): (r: seq<string>)
    ensures |r| == |cs|
    ensures forall i :: 0 <= i < |cs| ==> r[i] == "- " + cs[i]
    decreases |cs|
  {
    if |cs| == 0 then [] else ["- " + cs[0]] + CellLines(cs[1..])
  }

  lemma {:induction false} CellsJoin(cs: seq<string>)
    requires |cs| > 0
    ensures Cells(cs) == Join(CellLines(cs), "\n") + "\n"
    decreases |cs|
  {
    if |cs| > 1 {
      CellsJoin(cs[1..]);
      assert CellLines(cs)[1..] == CellLines(cs[1..]);
    }
  }

  lemma CellLinesHaveNoBoundary(cs: seq<string>)
    requires forall i :: 0 <= i < |cs| ==> NoLineBoundary(cs[i])
    ensures forall i :: 0 <= i < |cs| ==> NoLineBoundary(CellLines(cs)[i])
  {
    var ls := CellLines(cs);
    assert NoLineBoundary("- ");
    forall i | 0 <= i < |ls|
      ensures NoLineBoundary(ls[i])
    {
      NoLineBoundaryConcat("- ", cs[i]);
    }
  }

  /** A row of one-line cells is a bullet holding a field list of the
      cells: `* - c0`, then `  - c1`, `  - c2` and so on. */
  lemma RowOfCells(cs: seq<string>)
    requires |cs| > 0
    requires forall i :: 0 <= i < |cs| ==> NoLineBoundary(cs[i])
    ensures TableRow(Cells(cs)) == Join(PrefixLines(CellLines(cs), "* ", "  "), "\n") + "\n"
  {
    CellsJoin(cs);
    CellLinesHaveNoBoundary(cs);
    SplitJoin(CellLines(cs));
  }

  // ---------------------------------------------------------------------
  // Footnotes

  /** Different keys give different references. */
  lemma FootnoteRefInjective(a: string, b: string)
    ensures FootnoteRef(a) == FootnoteRef(b) <==> a == b
  {
    if FootnoteRef(a) == FootnoteRef(b) {
      assert a == FootnoteRef(a)[5..|FootnoteRef(a)| - 2];
    }
  }

  /** An item's label is its reference without the trailing underscore, so
      every `[#fn-<key>]_` resolves to the item with the same key. */
  lemma FootnoteItemMatchesRef(text: string, key: string)
    ensures var ref := FootnoteRef(key);
            FootnoteItem(text, key) == ".. " + ref[..|ref| - 1] + " " + Strip(text) + "\n"
  {
    var ref := FootnoteRef(key);
    assert ref[..|ref| - 1] == "[#fn-" + key + "]";
  }

  /** A thematic break is a transition: four dashes on a line of their own. */
  lemma ThematicBreakLine()
    ensures |ThematicBreak| == 6 && ThematicBreak[0] == '\n' && ThematicBreak[5] == '\n'
    ensures forall i :: 1 <= i < 5 ==> ThematicBreak[i] == '-'
  {
  }

  /** The opener of a literal block adds one blank line and no text; the
      `::` that precedes it stays in the paragraph. */
  lemma RestCodeBlockBlank()
    ensures |RestCodeBlock| == 2 && forall i :: 0 <= i < |RestCodeBlock| ==> RestCodeBlock[i] == '\n'
  {
  }

  /** The note text is stripped of the whitespace around it and kept otherwise. */
  lemma FootnoteItemText(text: string)
    ensures var s := Strip(text); var a := TrimmedLead(text, IsSpace);
            a + |s| <= |text| && text[a..a + |s|] == s
            && (forall i :: 0 <= i < a ==> IsSpace(text[i]))
            && (forall i :: a + |s| <= i < |text| ==> IsSpace(text[i]))
            && (|s| > 0 ==> !IsSpace(s[0]) && !IsSpace(s[|s| - 1]))
  {
    TrimDecomposition(text, IsSpace);
  }
}
