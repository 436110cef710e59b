/** Soundness of the sentinel scheme behind `list` and `list_item`.

    `list_item` tags the first line of an item with `ListMarker`; `list`
    indents every other non-empty line by the marker's width and then
    replaces every sentinel by the marker. As long as item text never
    contains the sentinel itself, this is the same as resolving the body
    line by line with `ResolveLine`, and no sentinel survives. */
module ListLemmas {
  import opened Text
  import opened Render

  /** What one line of a list body becomes: an item's first line gets the
      marker, an empty line stays empty, any other line is pushed right by
      the marker's width. */
  function ResolveLine(line: string, mark: string): string {
    if StartsWith(line, ListMarker) then mark + line[|ListMarker|..]
    else if line == "" then ""
    else Repeat(' ', |mark|) + line
  }

  function ResolveLines(lines: seq<string>, mark: string): (r: seq<string>)
    ensures |r| == |lines|
    ensures forall i :: 0 <= i < |r| ==> r[i] == ResolveLine(lines[i], mark)
    decreases |lines|
  {
    if |lines| == 0 then [] else [ResolveLine(lines[0], mark)] + ResolveLines(lines[1..], mark)
  }

  /** The sentinel appears in `line` at most once, and then at its start. */
  predicate SentinelOnlyAtStart(line: string) {
    if StartsWith(line, ListMarker) then !Contains(line[|ListMarker|..], ListMarker)
    else !Contains(line, ListMarker)
  }

  /** Every sentinel in `s` begins a line: it is at the very start or right
      after a line boundary. */
  predicate SentinelsAtLineStarts(s: string)
    decreases |s|
  {
    |s| == 0
    || ((IsLineBoundary(s[0]) || !StartsWith(s[1..], ListMarker)) && SentinelsAtLineStarts(s[1..]))
  }

  /** The body `list` receives: the rendered items, one after the other. */
  function Items(texts: seq<string>): string
    decreases |texts|
  {
    if |texts| == 0 then "" else ListItem(texts[0]) + Items(texts[1..])
  }

  // ---------------------------------------------------------------------
  // Facts about the sentinel and the markers

  lemma SentinelShape()
    ensures |ListMarker| == 22 && ListMarker[0] == '{'
    ensures forall i :: 1 <= i < |ListMarker| ==> ListMarker[i] != '{'
    ensures forall i :: 0 <= i < |ListMarker| ==> !IsLineBoundary(ListMarker[i]) && ListMarker[i] != ' '
    ensures forall i :: 0 <= i < |ListMarker| ==> ListMarker[i] != '.' && ListMarker[i] != '*'
    ensures ListMarker[|ListMarker| - 1] == '}'
  {
  }

  /** Both markers can stand in for the sentinel without forming a new one. */
  lemma MarkIsSafe(ordered: bool)
    ensures SafeReplacement(ListMarker, ListMark(ordered))
  {
    SentinelShape();
    var p := ListMarker;
    var m := ListMark(ordered);
    forall i | 1 <= i < |p|
      ensures Incompatible(p[i..], m)
    {
      if ordered {
        if |p[i..]| >= 2 {
          assert p[i..][1] != m[1];
          assert p[i..][..2] != m[..2];
        } else {
          assert p[i..][0] != m[0];
        }
      } else {
        assert p[i..][0] != m[0];
      }
    }
  }

  // ---------------------------------------------------------------------
  // Line-by-line resolution

  lemma ResolveOne(line: string, mark: string)
    requires SentinelOnlyAtStart(line)
    ensures var indented := if line != "" && !StartsWith(line, ListMarker) then Repeat(' ', |mark|) + line else line;
            ReplaceAll(indented, ListMarker, mark) == ResolveLine(line, mark)
  {
    SentinelShape();
    if StartsWith(line, ListMarker) {
      ReplaceAllIdentity(line[|ListMarker|..], ListMarker, mark);
    } else if line != "" {
      var spaces := Repeat(' ', |mark|);
      assert ListMarker[0] !in spaces;
      NotContainsAfter(spaces, line, ListMarker);
      ReplaceAllIdentity(spaces + line, ListMarker, mark);
    }
  }

  lemma {:induction false} ResolveJoin(lines: seq<string>, mark: string)
    requires forall i :: 0 <= i < |lines| ==> SentinelOnlyAtStart(lines[i])
    ensures ReplaceAll(Join(IndentItemLines(lines, mark), "\n"), ListMarker, mark)
            == Join(ResolveLines(lines, mark), "\n")
    decreases |lines|
  {
    if |lines| > 0 {
      var ind := IndentItemLines(lines, mark);
      ResolveOne(lines[0], mark);
      if |lines| > 1 {
        SentinelShape();
        assert ind[1..] == IndentItemLines(lines[1..], mark);
        assert ResolveLines(lines, mark)[1..] == ResolveLines(lines[1..], mark);
        ReplaceAllAround(ind[0], '\n', Join(ind[1..], "\n"), ListMarker, mark);
        ResolveJoin(lines[1..], mark);
      }
    }
  }

  /** Newlines are never part of a sentinel, so wrapping newlines pass through. */
  lemma ReplaceWrapped(j: string, mark: string)
    ensures ReplaceAll("\n" + j + "\n", ListMarker, mark) == "\n" + ReplaceAll(j, ListMarker, mark) + "\n"
  {
    SentinelShape();
    assert "\n" + j + "\n" == [] + ['\n'] + (j + ['\n'] + []);
    ReplaceAllAround([], '\n', j + ['\n'] + [], ListMarker, mark);
    ReplaceAllAround(j, '\n', [], ListMarker, mark);
  }

  /** `list` is line-by-line resolution of its body, wrapped in newlines,
      whenever the body's lines carry sentinels only at their start. */
  lemma ListLineByLine(body: string, ordered: bool)
    requires forall i :: 0 <= i < |SplitLines(body)| ==> SentinelOnlyAtStart(SplitLines(body)[i])
    ensures List(body, ordered)
            == "\n" + Join(ResolveLines(SplitLines(body), ListMark(ordered)), "\n") + "\n"
  {
    var mark := ListMark(ordered);
    var j := Join(IndentItemLines(SplitLines(body), mark), "\n");
    assert List(body, ordered) == ReplaceAll("\n" + j + "\n", ListMarker, mark);
    ReplaceWrapped(j, mark);
    ResolveJoin(SplitLines(body), mark);
  }

  /** Whatever the body, the rendered list starts and ends with a newline and
      contains no sentinel. */
  lemma ListShape(body: string, ordered: bool)
    ensures var r := List(body, ordered);
            |r| >= 2 && r[0] == '\n' && r[|r| - 1] == '\n'
    ensures !Contains(List(body, ordered), ListMarker)
  {
    var mark := ListMark(ordered);
    var j := Join(IndentItemLines(SplitLines(body), mark), "\n");
    assert List(body, ordered) == ReplaceAll("\n" + j + "\n", ListMarker, mark);
    ReplaceWrapped(j, mark);
    MarkIsSafe(ordered);
    ReplaceAllRemoves("\n" + j + "\n", ListMarker, mark);
  }

  // ---------------------------------------------------------------------
  // Item bodies carry sentinels only at line starts

  lemma {:induction false} FreeAtLineStarts(s: string)
    requires !Contains(s, ListMarker)
    ensures SentinelsAtLineStarts(s)
    decreases |s|
  {
    if |s| > 0 {
      FreeAtLineStarts(s[1..]);
    }
  }

  /** A prefix whose later characters cannot open a sentinel, before
      sentinel-free text, keeps every sentinel at a line start. */
  lemma {:induction false} OpenPrefixAtLineStarts(a: string, b: string)
    requires forall i :: 1 <= i < |a| ==> a[i] != ListMarker[0]
    requires !Contains(b, ListMarker)
    ensures SentinelsAtLineStarts(a + b)
    decreases |a|
  {
    if |a| == 0 {
      assert a + b == b;
      FreeAtLineStarts(b);
    } else {
      var s := a + b;
      assert s[1..] == a[1..] + b;
      if |a| >= 2 {
        assert s[1..][0] == a[1];
      }
      OpenPrefixAtLineStarts(a[1..], b);
    }
  }

  /** A list item built from sentinel-free text tags exactly its first line. */
  lemma ItemAtLineStarts(text: string)
    requires !Contains(text, ListMarker)
    ensures SentinelsAtLineStarts(ListItem(text))
  {
    SentinelShape();
    var s := ListItem(text);
    assert s[1..] == ListMarker + text;
    OpenPrefixAtLineStarts(ListMarker, text);
  }

  /** Appending text that starts a new line keeps sentinels at line starts. */
  lemma {:induction false} ConcatAtLineStarts(x: string, y: string)
    requires SentinelsAtLineStarts(x) && SentinelsAtLineStarts(y)
    requires |y| > 0 ==> y[0] == '\n'
    ensures SentinelsAtLineStarts(x + y)
    decreases |x|
  {
    if |x| == 0 {
      assert x + y == y;
    } else {
      var s := x + y;
      assert s[1..] == x[1..] + y;
      if !IsLineBoundary(x[0]) {
        SentinelShape();
        NoStartAcross(x[1..], y, ListMarker);
      }
      ConcatAtLineStarts(x[1..], y);
    }
  }

  lemma {:induction false} ItemsAtLineStarts(texts: seq<string>)
    requires forall i :: 0 <= i < |texts| ==> !Contains(texts[i], ListMarker)
    ensures SentinelsAtLineStarts(Items(texts))
    ensures |Items(texts)| > 0 ==> Items(texts)[0] == '\n'
    decreases |texts|
  {
    if |texts| > 0 {
      ItemAtLineStarts(texts[0]);
      ItemsAtLineStarts(texts[1..]);
      ConcatAtLineStarts(ListItem(texts[0]), Items(texts[1..]));
    }
  }

  lemma StartsWithShorter(a: string, j: nat, p: string)
    requires j <= |a| && StartsWith(a[..j], p)
    ensures StartsWith(a, p)
  {
    assert a[..j][..|p|] == a[..|p|];
  }

  lemma {:induction false} PrefixAtLineStarts(s: string, k: nat)
    requires k <= |s| && SentinelsAtLineStarts(s)
    ensures SentinelsAtLineStarts(s[..k])
    decreases k
  {
    if k > 0 {
      var t := s[..k];
      assert t[0] == s[0];
      assert t[1..] == s[1..][..k - 1];
      if !IsLineBoundary(s[0]) && StartsWith(t[1..], ListMarker) {
        StartsWithShorter(s[1..], k - 1, ListMarker);
      }
      PrefixAtLineStarts(s[1..], k - 1);
    }
  }

  lemma {:induction false} SuffixAtLineStarts(s: string, k: nat)
    requires k <= |s| && SentinelsAtLineStarts(s)
    ensures SentinelsAtLineStarts(s[k..])
    decreases k
  {
    if k > 0 {
      SuffixAtLineStarts(s[1..], k - 1);
      assert s[1..][k - 1..] == s[k..];
    }
  }

  /** Within one line, a sentinel can only be at the start. */
  lemma {:induction false} LineTail(l: string)
    requires |l| > 0 && NoLineBoundary(l) && SentinelsAtLineStarts(l)
    ensures !Contains(l[1..], ListMarker)
    decreases |l|
  {
    if |l| > 1 {
      LineTail(l[1..]);
      assert l[1..][1..] == l[2..];
    }
  }

  lemma OneLine(l: string)
    requires NoLineBoundary(l) && SentinelsAtLineStarts(l)
    ensures SentinelOnlyAtStart(l)
  {
    if |l| > 0 {
      LineTail(l);
      if StartsWith(l, ListMarker) {
        SentinelShape();
        assert l[|ListMarker|..] == l[1..][|ListMarker| - 1..];
        if Contains(l[|ListMarker|..], ListMarker) {
          ContainsSuffix(l[1..], |ListMarker| - 1, ListMarker);
        }
      }
    }
  }

  /** Sentinels at line starts means every line has its sentinel, if any, at its start. */
  lemma {:induction false} LinesAtLineStarts(s: string)
    requires SentinelsAtLineStarts(s)
    ensures forall i :: 0 <= i < |SplitLines(s)| ==> SentinelOnlyAtStart(SplitLines(s)[i])
    decreases |s|
  {
    if |s| > 0 {
      var k := LineEnd(s);
      PrefixAtLineStarts(s, k);
      OneLine(s[..k]);
      if k < |s| {
        SuffixAtLineStarts(s, NextLine(s));
        LinesAtLineStarts(s[NextLine(s)..]);
      } else {
        assert s[..k] == s;
      }
    }
  }

  /** The list a sequence of items renders to: each item's first line gets
      the marker, continuation lines are indented by the marker's width,
      empty lines stay empty, and no sentinel survives. */
  lemma ListOfItems(texts: seq<string>, ordered: bool)
    requires forall i :: 0 <= i < |texts| ==> !Contains(texts[i], ListMarker)
    ensures List(Items(texts), ordered)
            == "\n" + Join(ResolveLines(SplitLines(Items(texts)), ListMark(ordered)), "\n") + "\n"
    ensures !Contains(List(Items(texts), ordered), ListMarker)
  {
    ItemsAtLineStarts(texts);
    LinesAtLineStarts(Items(texts));
    ListLineByLine(Items(texts), ordered);
    ListShape(Items(texts), ordered);
  }
}
