/** Rendering a whole token tree: every token is rendered from its
    children's output by the matching `RestRenderer` method, the outputs are
    concatenated, and `post_process` adds the role declaration when any
    token used raw HTML. */
module Document {
  import opened Text
  import opened Wrappers
  import opened Render
  import ListLemmas

  /** The tokens the block and inline parsers hand to the renderer, with the
      attributes the renderer reads. */
  datatype Token =
    | Text(text: string)
    | Emphasis(children: seq<Token>)
    | Strong(children: seq<Token>)
    | DoubleEmphasis(children: seq<Token>)
    | Codespan(code: string)
    | Linebreak
    | Newline
    | Strikethrough(children: seq<Token>)
    | Link(url: string, children: seq<Token>, title: Option<string>)
    | Image(src: string, alt: string, title: Option<string>)
    | InlineHtml(html: string)
    | FootnoteRef(key: string, index: nat)
    | RestRole(raw: string)
    | RestLink(raw: string)
    | InlineMath(math: string)
    | EolLiteralMarker(marker: string)
    | Paragraph(children: seq<Token>)
    | Heading(children: seq<Token>, level: HeadingLevel)
    | ThematicBreak
    | BlockText(children: seq<Token>)
    | BlockCode(code: string, lang: Option<string>)
    | BlockQuote(children: seq<Token>)
    | BlockHtml(html: string)
    | List(children: seq<Token>, ordered: bool)
    | ListItem(children: seq<Token>)
    | Table(children: seq<Token>)
    | TableHead(children: seq<Token>)
    | TableBody(children: seq<Token>)
    | TableRow(children: seq<Token>)
    | TableCell(children: seq<Token>)
    | FootnoteItem(children: seq<Token>, key: string, index: nat)
    | Footnotes(children: seq<Token>)
    | Directive(raw: string)
    | RestCodeBlock

  /** Whether `t` has children that are rendered first. */
  predicate HasChildren(t: Token) {
    t.Emphasis? || t.Strong? || t.DoubleEmphasis? || t.Strikethrough? || t.Link?
    || t.Paragraph? || t.Heading? || t.BlockText? || t.BlockQuote? || t.List?
    || t.ListItem? || t.Table? || t.TableHead? || t.TableBody? || t.TableRow?
    || t.TableCell? || t.FootnoteItem? || t.Footnotes?
  }

  /** The renderer method for `t`, given the rendered text of its children.
      `doc` is the path of the including document. */
  function RenderToken(t: Token, inner: string, doc: string): Out {
    match t
    case Text(text) => Out(text, false)
    case Emphasis(_) => Out(Render.Emphasis(inner), false)
    case Strong(_) => Out(Render.Strong(inner), false)
    case DoubleEmphasis(_) => Out(Render.Strong(inner), false)
    case Codespan(code) => CodeSpan(code)
    case Linebreak => Render.Linebreak()
    case Newline => Out("", false)
    case Strikethrough(_) => Render.Strikethrough(inner)
    case Link(url, _, title) => Render.Link(url, inner, title)
    case Image(src, alt, title) => Out(Render.Image(doc, src, alt, title), false)
    case InlineHtml(html) => Render.InlineHtml(html)
    case FootnoteRef(key, _) => Out(Render.FootnoteRef(key), false)
    case RestRole(raw) => Out(raw, false)
    case RestLink(raw) => Out(raw, false)
    case InlineMath(math) => Out(Render.InlineMath(math), false)
    case EolLiteralMarker(marker) => Out(marker, false)
    case Paragraph(_) => Out(Render.Paragraph(inner), false)
    case Heading(_, level) => Out(Render.Heading(inner, level), false)
    case ThematicBreak => Out(Render.ThematicBreak, false)
    case BlockText(_) => Out(inner, false)
    case BlockCode(code, lang) => Out(Render.BlockCode(code, lang), false)
    case BlockQuote(_) => Out(Render.BlockQuote(inner), false)
    case BlockHtml(html) => Out(Render.BlockHtml(html), false)
    case List(_, ordered) => Out(Render.List(inner, ordered), false)
    case ListItem(_) => Out(Render.ListItem(inner), false)
    case Table(_) => Out(Render.Table(inner), false)
    case TableHead(_) => Out(Render.TableHead(inner), false)
    case TableBody(_) => Out(inner, false)
    case TableRow(_) => Out(Render.TableRow(inner), false)
    case TableCell(_) => Out(Render.TableCell(inner), false)
    case FootnoteItem(_, key, _) => Out(Render.FootnoteItem(inner, key), false)
    case Footnotes(_) => Out(Render.Footnotes(inner), false)
    case Directive(raw) => Out(Render.Directive(raw), false)
    case RestCodeBlock => Out(Render.RestCodeBlock, false)
  }

  /** A token rendered after its children; the flag is raised if the token's
      own method or any child raised it. */
  function RenderTree(t: Token, doc: string): Out
    decreases t, 1
  {
    var inner := if HasChildren(t) then RenderSeq(t.children, doc) else Out("", false);
    var own := RenderToken(t, inner.text, doc);
    Out(own.text, own.rawHtml || inner.rawHtml)
  }

  /** `finalize`: the tokens' outputs concatenated. */
  function RenderSeq(ts: seq<Token>, doc: string): Out
    decreases ts, 0
  {
    if |ts| == 0 then Out("", false)
    else
      var head := RenderTree(ts[0], doc);
      var tail := RenderSeq(ts[1..], doc);
      Out(head.text + tail.text, head.rawHtml || tail.rawHtml)
  }

  /** `convert`, that is `RestMarkdown.parse` after the parsers: render,
      then post-process. The role declaration is put in front of the
      document exactly when some token used raw HTML, and the rendered text
      follows unchanged. */
  function Convert(tokens: seq<Token>, doc: string): (r: string)
    ensures AnyUsesRaw(tokens, doc) ==> r == Prolog + RenderSeq(tokens, doc).text
    ensures !AnyUsesRaw(tokens, doc) ==> r == RenderSeq(tokens, doc).text
  {
    SeqFlag(tokens, doc);
    PostProcess(RenderSeq(tokens, doc))
  }

  // ---------------------------------------------------------------------
  // When raw HTML is used

  /** Whether the token's own method goes through `_raw_html`, given its
      children's text: inline HTML, line breaks, strike-through, a code span
      that is not a well-formed literal body (the corrected `codespan`), and a
      titled link that is not around an image. */
  predicate OwnRaw(t: Token, inner: string) {
    match t
    case Codespan(code) => !LiteralSafe(code)
    case Linebreak => true
    case Strikethrough(_) => true
    case InlineHtml(_) => true
    case Link(_, _, title) => !StartsWith(inner, ImageHead) && HasTitle(title)
    case _ => false
  }

  /** Raw HTML is used somewhere in `t`. */
  predicate UsesRaw(t: Token, doc: string)
    decreases t, 1
  {
    OwnRaw(t, if HasChildren(t) then RenderSeq(t.children, doc).text else "")
    || (HasChildren(t) && AnyUsesRaw(t.children, doc))
  }

  predicate AnyUsesRaw(ts: seq<Token>, doc: string)
    decreases ts, 0
  {
    |ts| > 0 && (UsesRaw(ts[0], doc) || AnyUsesRaw(ts[1..], doc))
  }

  lemma OwnFlag(t: Token, inner: string, doc: string)
    ensures RenderToken(t, inner, doc).rawHtml == OwnRaw(t, inner)
  {
  }

  /** The flag a token's rendering returns says exactly whether raw HTML was
      used in it. */
  lemma {:induction false} TreeFlag(t: Token, doc: string)
    ensures RenderTree(t, doc).rawHtml == UsesRaw(t, doc)
    decreases t, 1
  {
    var inner := if HasChildren(t) then RenderSeq(t.children, doc) else Out("", false);
    OwnFlag(t, inner.text, doc);
    if HasChildren(t) {
      SeqFlag(t.children, doc);
    }
  }

  lemma {:induction false} SeqFlag(ts: seq<Token>, doc: string)
    ensures RenderSeq(ts, doc).rawHtml == AnyUsesRaw(ts, doc)
    decreases ts, 0
  {
    if |ts| > 0 {
      TreeFlag(ts[0], doc);
      SeqFlag(ts[1..], doc);
    }
  }

  /** Nothing in a document without raw-HTML tokens calls for the role. */
  lemma {:induction false} PlainTextNoPrologue(texts: seq<string>, doc: string)
    ensures var ts := seq(|texts|, i requires 0 <= i < |texts| => Text(texts[i]));
            Convert(ts, doc) == RenderSeq(ts, doc).text
    decreases |texts|
  {
    var ts := seq(|texts|, i requires 0 <= i < |texts| => Text(texts[i]));
    NoRawInText(ts, doc);
    SeqFlag(ts, doc);
  }

  /** A line break, a strike-through or inline HTML anywhere in the top
      level of a document puts the role declaration in front of it. */
  lemma RawTokenNeedsPrologue(tokens: seq<Token>, k: nat, doc: string)
    requires k < |tokens|
    requires tokens[k].Linebreak? || tokens[k].Strikethrough? || tokens[k].InlineHtml?
    ensures Convert(tokens, doc) == Prolog + RenderSeq(tokens, doc).text
  {
    RawSomewhere(tokens, k, doc);
    SeqFlag(tokens, doc);
  }

  lemma {:induction false} RawSomewhere(ts: seq<Token>, k: nat, doc: string)
    requires k < |ts| && UsesRaw(ts[k], doc)
    ensures AnyUsesRaw(ts, doc)
    decreases k
  {
    if k > 0 {
      assert ts[1..][k - 1] == ts[k];
      RawSomewhere(ts[1..], k - 1, doc);
    }
  }

  lemma {:induction false} NoRawInText(ts: seq<Token>, doc: string)
    requires forall i :: 0 <= i < |ts| ==> ts[i].Text?
    ensures !AnyUsesRaw(ts, doc)
    decreases |ts|
  {
    if |ts| > 0 {
      NoRawInText(ts[1..], doc);
    }
  }

  // ---------------------------------------------------------------------
  // Lists in the tree

  /** The rendered text of each item of a list. */
  function ItemTexts(items: seq<Token>, doc: string): (r: seq<string>)
    requires forall i :: 0 <= i < |items| ==> items[i].ListItem?
    ensures |r| == |items|
    ensures forall i :: 0 <= i < |items| ==> r[i] == RenderSeq(items[i].children, doc).text
    decreases |items|
  {
    if |items| == 0 then [] else [RenderSeq(items[0].children, doc).text] + ItemTexts(items[1..], doc)
  }

  lemma {:induction false} ItemsRender(items: seq<Token>, doc: string)
    requires forall i :: 0 <= i < |items| ==> items[i].ListItem?
    ensures RenderSeq(items, doc).text == ListLemmas.Items(ItemTexts(items, doc))
    decreases |items|
  {
    if |items| > 0 {
      ItemsRender(items[1..], doc);
      ItemTokenText(items[0], doc);
      assert ItemTexts(items, doc)[1..] == ItemTexts(items[1..], doc);
    }
  }

  lemma ItemTokenText(t: Token, doc: string)
    requires t.ListItem?
    ensures RenderTree(t, doc).text == Render.ListItem(RenderSeq(t.children, doc).text)
  {
    assert HasChildren(t);
    assert RenderToken(t, RenderSeq(t.children, doc).text, doc).text == Render.ListItem(RenderSeq(t.children, doc).text);
  }

  /** A list token whose items' texts are free of the sentinel renders as
      its items resolved line by line, and no sentinel is left. */
  lemma ListToken(items: seq<Token>, ordered: bool, doc: string)
    requires forall i :: 0 <= i < |items| ==> items[i].ListItem?
    requires forall i :: 0 <= i < |items| ==> !Contains(RenderSeq(items[i].children, doc).text, ListMarker)
    ensures var texts := ItemTexts(items, doc);
            RenderTree(List(items, ordered), doc).text
            == "\n" + Join(ListLemmas.ResolveLines(SplitLines(ListLemmas.Items(texts)), ListMark(ordered)), "\n") + "\n"
    ensures !Contains(RenderTree(List(items, ordered), doc).text, ListMarker)
  {
    ListTokenText(items, ordered, doc);
    ItemsRender(items, doc);
    ListLemmas.ListOfItems(ItemTexts(items, doc), ordered);
  }

  lemma ListTokenText(items: seq<Token>, ordered: bool, doc: string)
    ensures RenderTree(List(items, ordered), doc).text == Render.List(RenderSeq(items, doc).text, ordered)
  {
    var t := List(items, ordered);
    assert HasChildren(t) && t.children == items;
    assert RenderToken(t, RenderSeq(items, doc).text, doc).text == Render.List(RenderSeq(items, doc).text, ordered);
  }

  /** A list of one single-line item renders as the marker and the line
      after a blank line: `* list` as `\n\n* list\n`, `1. list` as
      `\n\n#. list\n`. */
  lemma OneItemList(x: string, ordered: bool, doc: string)
    requires NoLineBoundary(x) && !Contains(x, ListMarker)
    ensures Convert([List([ListItem([BlockText([Text(x)])])], ordered)], doc)
            == "\n\n" + ListMark(ordered) + x + "\n"
  {
    var t := List([ListItem([BlockText([Text(x)])])], ordered);
    OneItemListText(x, ordered, doc);
    OneItemListFlag(x, ordered, doc);
    Single(t, doc);
  }

  lemma Single(t: Token, doc: string)
    ensures RenderSeq([t], doc) == RenderTree(t, doc)
  {
    assert [t][1..] == [];
  }

  lemma OneItemListFlag(x: string, ordered: bool, doc: string)
    ensures !RenderTree(List([ListItem([BlockText([Text(x)])])], ordered), doc).rawHtml
  {
    var b := BlockText([Text(x)]);
    var li := ListItem([b]);
    var t := List([li], ordered);
    TreeFlag(t, doc);
    assert !AnyUsesRaw([Text(x)], doc) by { assert [Text(x)][1..] == []; }
    assert !UsesRaw(b, doc);
    assert !AnyUsesRaw([b], doc) by { assert [b][1..] == []; }
    assert !UsesRaw(li, doc);
    assert !AnyUsesRaw([li], doc) by { assert [li][1..] == []; }
  }

  lemma OneItemListText(x: string, ordered: bool, doc: string)
    requires NoLineBoundary(x) && !Contains(x, ListMarker)
    ensures RenderTree(List([ListItem([BlockText([Text(x)])])], ordered), doc).text
            == "\n\n" + ListMark(ordered) + x + "\n"
  {
    var items := [ListItem([BlockText([Text(x)])])];
    OneItemText(x, doc);
    ListToken(items, ordered, doc);
    assert ItemTexts(items, doc) == [x];
    OneItemResolved(x, ListMark(ordered));
  }

  lemma OneItemResolved(x: string, mark: string)
    requires NoLineBoundary(x)
    ensures "\n" + Join(ListLemmas.ResolveLines(SplitLines(ListLemmas.Items([x])), mark), "\n") + "\n"
            == "\n\n" + mark + x + "\n"
  {
    OneItemLines(x);
    ResolveOneItem(x, mark);
  }

  lemma OneItemText(x: string, doc: string)
    ensures RenderSeq([BlockText([Text(x)])], doc).text == x
  {
    Single(Text(x), doc);
    Single(BlockText([Text(x)]), doc);
  }

  lemma OneItemLines(x: string)
    requires NoLineBoundary(x)
    ensures SplitLines(ListLemmas.Items([x])) == ["", ListMarker + x]
  {
    var line := ListMarker + x;
    assert ListLemmas.Items([x]) == "" + "\n" + line;
    ListLemmas.SentinelShape();
    assert NoLineBoundary(line);
    LineEndBeforeNewline("", line);
    SplitLinesSingle(line);
  }

  lemma ResolveOneItem(x: string, mark: string)
    ensures Join(ListLemmas.ResolveLines(["", ListMarker + x], mark), "\n") == "\n" + mark + x
  {
    var line := ListMarker + x;
    assert StartsWith(line, ListMarker);
    assert line[|ListMarker|..] == x;
    assert ListLemmas.ResolveLines(["", line], mark) == ["", mark + x];
    assert Join(["", mark + x], "\n") == "\n" + mark + x;
  }
}
