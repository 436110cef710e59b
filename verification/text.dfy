/** String primitives with the semantics of the Python `str` operations the
    renderer is built from: `startswith`, `in`, `replace`, `splitlines`,
    `"\n".join`, `strip` and `textwrap.indent`. Strings are sequences of
    Unicode scalar values. */
module Text {

  /** `s.startswith(p)` */
  predicate StartsWith(s: string, p: string) {
    |p| <= |s| && s[..|p|] == p
  }

  /** `p in s` */
  predicate Contains(s: string, p: string)
    decreases |s|
  {
    StartsWith(s, p) || (|s| > 0 && Contains(s[1..], p))
  }

  /** `c.isspace()`: the characters Python's `str.strip()` removes and `\s` matches. */
  predicate IsSpace(c: char) {
    c == ' ' || ('\t' <= c <= '\r') || ('\U{001C}' <= c <= '\U{001F}')
    || c == '\U{0085}' || c == '\U{00A0}' || c == '\U{1680}'
    || ('\U{2000}' <= c <= '\U{200A}') || c == '\U{2028}' || c == '\U{2029}'
    || c == '\U{202F}' || c == '\U{205F}' || c == '\U{3000}'
  }

  /** The line boundaries recognised by `str.splitlines` ("\r\n" is one boundary). */
  predicate IsLineBoundary(c: char) {
    c == '\n' || c == '\r' || c == '\U{000B}' || c == '\U{000C}'
    || ('\U{001C}' <= c <= '\U{001E}') || c == '\U{0085}'
    || c == '\U{2028}' || c == '\U{2029}'
  }

  predicate NoLineBoundary(s: string) {
    forall i :: 0 <= i < |s| ==> !IsLineBoundary(s[i])
  }

  lemma NoLineBoundaryConcat(a: string, b: string)
    requires NoLineBoundary(a) && NoLineBoundary(b)
    ensures NoLineBoundary(a + b)
  {
    forall i | 0 <= i < |a + b|
      ensures !IsLineBoundary((a + b)[i])
    {
      if i < |a| {
        assert (a + b)[i] == a[i];
      } else {
        assert (a + b)[i] == b[i - |a|];
      }
    }
  }

  /** `s.strip() == ""` */
  predicate IsBlank(s: string) {
    forall i :: 0 <= i < |s| ==> IsSpace(s[i])
  }

  /** A string of `n` copies of `c` (Python's `c * n`). */
  function Repeat(c: char, n: nat): (r: string)
    ensures |r| == n
    ensures forall i :: 0 <= i < n ==> r[i] == c
  {
    if n == 0 then [] else [c] + Repeat(c, n - 1)
  }

  // ---------------------------------------------------------------------
  // Containment

  /** A match of `p` in `a + b` that does not lie inside `a` reaches into `b`. */
  lemma StartsWithConcat(a: string, b: string, p: string)
    requires StartsWith(a + b, p) && !StartsWith(a, p)
    ensures |a| < |p| && |b| > 0 && p[|a|] == b[0]
  {
    assert (a + b)[..|p|][|a|] == b[0];
  }

  /** A string that does not start with `p` keeps not starting with it when
      extended by text that cannot continue a partial match of `p`. */
  lemma NoStartAcross(a: string, b: string, p: string)
    requires !StartsWith(a, p)
    requires |a| < |p| && |b| > 0 ==> p[|a|] != b[0]
    ensures !StartsWith(a + b, p)
  {
    if StartsWith(a + b, p) {
      StartsWithConcat(a, b, p);
    }
  }

  lemma StartsWithLonger(a: string, b: string, p: string)
    requires StartsWith(a, p)
    ensures StartsWith(a + b, p)
  {
    assert (a + b)[..|p|] == a[..|p|];
  }

  /** A string that begins with characters `p` cannot start with, followed by
      one that does not contain `p`, does not contain `p`. */
  lemma {:induction false} NotContainsAfter(a: string, b: string, p: string)
    requires |p| > 0 && p[0] !in a && !Contains(b, p)
    ensures !Contains(a + b, p)
    decreases |a|
  {
    if |a| > 0 {
      assert (a + b)[0] == a[0];
      assert (a + b)[1..] == a[1..] + b;
      NotContainsAfter(a[1..], b, p);
    } else {
      assert a + b == b;
    }
  }

  /** Joining two strings free of `p` with a separator character that `p`
      does not contain creates no occurrence of `p`. */
  lemma {:induction false} NotContainsJoin(a: string, c: char, b: string, p: string)
    requires c !in p && !Contains(a, p) && !Contains(b, p)
    ensures !Contains(a + [c] + b, p)
    decreases |a|
  {
    var s := a + [c] + b;
    assert s == a + ([c] + b);
    NoStartAcross(a, [c] + b, p);
    if |a| > 0 {
      assert s[1..] == a[1..] + [c] + b;
      NotContainsJoin(a[1..], c, b, p);
    } else {
      assert s[1..] == b;
    }
  }

  // ---------------------------------------------------------------------
  // str.replace

  /** A one-character pattern occurs exactly where its character does. */
  lemma {:induction false} ContainsChar(s: string, c: char)
    ensures Contains(s, [c]) <==> c in s
    decreases |s|
  {
    if |s| > 0 {
      ContainsChar(s[1..], c);
      assert s == [s[0]] + s[1..];
    }
  }

  /** An occurrence in a suffix is an occurrence in the whole. */
  lemma ContainsSuffix(s: string, j: nat, p: string)
    requires j <= |s| && Contains(s[j..], p)
    ensures Contains(s, p)
    decreases j
  {
    if j > 0 {
      assert s[1..][j - 1..] == s[j..];
      ContainsSuffix(s[1..], j - 1, p);
    }
  }

  /** `s.replace(p, m)`: every leftmost, non-overlapping occurrence of `p`
      is replaced by `m`, scanning from the left. */
  function ReplaceAll(s: string, p: string, m: string): string
    requires |p| > 0
    decreases |s|
  {
    if |s| == 0 then []
    else if StartsWith(s, p) then m + ReplaceAll(s[|p|..], p, m)
    else [s[0]] + ReplaceAll(s[1..], p, m)
  }

  /** Replacing a pattern that does not occur changes nothing. */
  lemma {:induction false} ReplaceAllIdentity(s: string, p: string, m: string)
    requires |p| > 0 && !Contains(s, p)
    ensures ReplaceAll(s, p, m) == s
    decreases |s|
  {
    if |s| > 0 {
      ReplaceAllIdentity(s[1..], p, m);
      assert [s[0]] + s[1..] == s;
    }
  }

  /** Replacement distributes over a separator character the pattern does not contain. */
  lemma {:induction false} ReplaceAllAround(x: string, c: char, y: string, p: string, m: string)
    requires |p| > 0 && c !in p
    ensures ReplaceAll(x + [c] + y, p, m) == ReplaceAll(x, p, m) + [c] + ReplaceAll(y, p, m)
    decreases |x|
  {
    var s := x + [c] + y;
    if |x| == 0 {
      assert s == [c] + y;
      assert s[1..] == y;
    } else if StartsWith(x, p) {
      assert s == x + ([c] + y);
      StartsWithLonger(x, [c] + y, p);
      assert s[|p|..] == x[|p|..] + [c] + y;
      ReplaceAllAround(x[|p|..], c, y, p, m);
    } else {
      assert s == x + ([c] + y);
      NoStartAcross(x, [c] + y, p);
      assert s[1..] == x[1..] + [c] + y;
      ReplaceAllAround(x[1..], c, y, p, m);
    }
  }

  /** Neither of `x` and `y` is a prefix of the other. */
  predicate Incompatible(x: string, y: string) {
    !StartsWith(x, y) && !StartsWith(y, x)
  }

  /** `m` can replace `p` without forming a new `p` with its surroundings:
      `m` lacks the first character of `p`, and no proper suffix of `p` is
      compatible with `m`. */
  predicate SafeReplacement(p: string, m: string) {
    |p| > 0 && p[0] !in m
    && forall i :: 1 <= i < |p| ==> Incompatible(p[i..], m)
  }

  /** If the output of a safe replacement starts with a proper suffix of
      `p`, then so did the input. */
  lemma {:induction false} ReplaceAllReflects(s: string, p: string, m: string, i: nat)
    requires SafeReplacement(p, m) && 1 <= i < |p|
    requires StartsWith(ReplaceAll(s, p, m), p[i..])
    ensures StartsWith(s, p[i..])
    decreases |s|
  {
    var r := ReplaceAll(s, p, m);
    assert Incompatible(p[i..], m);
    if |s| > 0 && !StartsWith(s, p) {
      var rest := ReplaceAll(s[1..], p, m);
      assert r == [s[0]] + rest;
      assert r[0] == p[i];
      if i + 1 < |p| {
        assert rest[..|p[i + 1..]|] == r[1..|p[i..]|];
        assert p[i + 1..] == p[i..][1..];
        ReplaceAllReflects(s[1..], p, m, i + 1);
        assert s[..|p[i..]|] == [s[0]] + s[1..][..|p[i + 1..]|];
      } else {
        assert s[..|p[i..]|] == [s[0]];
      }
    }
  }

  /** A safe replacement leaves no occurrence of the pattern behind. */
  lemma {:induction false} ReplaceAllRemoves(s: string, p: string, m: string)
    requires SafeReplacement(p, m)
    ensures !Contains(ReplaceAll(s, p, m), p)
    decreases |s|
  {
    var r := ReplaceAll(s, p, m);
    if |s| > 0 {
      if StartsWith(s, p) {
        ReplaceAllRemoves(s[|p|..], p, m);
        NotContainsAfter(m, ReplaceAll(s[|p|..], p, m), p);
      } else {
        var rest := ReplaceAll(s[1..], p, m);
        ReplaceAllRemoves(s[1..], p, m);
        assert r == [s[0]] + rest;
        if StartsWith(r, p) && |p| > 1 {
          ReplaceAllReflects(s[1..], p, m, 1);
        }
        assert r[1..] == rest;
      }
    }
  }

  // ---------------------------------------------------------------------
  // str.splitlines and "\n".join

  /** Index of the first line boundary in `s`, or `|s|` when there is none. */
  function LineEnd(s: string): (k: nat)
    ensures k <= |s|
    ensures k < |s| ==> IsLineBoundary(s[k])
    ensures forall i :: 0 <= i < k ==> !IsLineBoundary(s[i])
  {
    if |s| == 0 || IsLineBoundary(s[0]) then 0 else 1 + LineEnd(s[1..])
  }

  /** Length of the boundary at `k`: "\r\n" is a single two-character boundary. */
  function BreakLength(s: string, k: nat): nat
    requires k < |s|
  {
    if s[k] == '\r' && k + 1 < |s| && s[k + 1] == '\n' then 2 else 1
  }

  /** Where the line after the first one begins (past its boundary). */
  function NextLine(s: string): (e: nat)
    requires |s| > 0
    ensures 0 < e <= |s|
  {
    var k := LineEnd(s);
    if k == |s| then |s| else k + BreakLength(s, k)
  }

  /** `s.splitlines()`: the lines of `s` without their boundaries; a final
      boundary does not start an extra, empty line. */
  function SplitLines(s: string): (ls: seq<string>)
    ensures forall i :: 0 <= i < |ls| ==> NoLineBoundary(ls[i])
    ensures |ls| == 0 <==> |s| == 0
    decreases |s|
  {
    if |s| == 0 then []
    else
      var k := LineEnd(s);
      if k == |s| then [s] else [s[..k]] + SplitLines(s[NextLine(s)..])
  }

  /** `sep.join(ls)` */
  function Join(ls: seq<string>, sep: string): string
    decreases |ls|
  {
    if |ls| == 0 then "" else if |ls| == 1 then ls[0] else ls[0] + sep + Join(ls[1..], sep)
  }

  /** The line that ends the string: its first boundary is the `\n` after it. */
  lemma LineEndBeforeNewline(l: string, rest: string)
    requires NoLineBoundary(l)
    ensures LineEnd(l + "\n" + rest) == |l|
    ensures NextLine(l + "\n" + rest) == |l| + 1
  {
    var s := l + "\n" + rest;
    var k := LineEnd(s);
    assert s[|l|] == '\n';
  }

  /** Splitting lines undoes `"\n".join(ls) + "\n"` for boundary-free lines. */
  lemma {:induction false} SplitJoin(ls: seq<string>)
    requires |ls| > 0
    requires forall i :: 0 <= i < |ls| ==> NoLineBoundary(ls[i])
    ensures SplitLines(Join(ls, "\n") + "\n") == ls
    decreases |ls|
  {
    if |ls| == 1 {
      assert Join(ls, "\n") + "\n" == ls[0] + "\n" + "";
      SplitFirst(ls[0], "");
    } else {
      var tail := Join(ls[1..], "\n") + "\n";
      assert Join(ls, "\n") + "\n" == ls[0] + "\n" + tail;
      SplitFirst(ls[0], tail);
      SplitJoin(ls[1..]);
      assert ls == [ls[0]] + ls[1..];
    }
  }

  /** A boundary-free line followed by `\n` is the first line. */
  lemma SplitFirst(l: string, rest: string)
    requires NoLineBoundary(l)
    ensures SplitLines(l + "\n" + rest) == [l] + SplitLines(rest)
  {
    var s := l + "\n" + rest;
    LineEndBeforeNewline(l, rest);
    assert s[|l| + 1..] == rest;
    assert s[..|l|] == l;
  }

  /** Joining the lines of a boundary-free string gives the string back. */
  lemma SplitLinesSingle(s: string)
    requires |s| > 0 && NoLineBoundary(s)
    ensures SplitLines(s) == [s]
  {
  }

  // ---------------------------------------------------------------------
  // textwrap.indent

  /** `textwrap.indent`'s default rule: a line is prefixed unless it is blank. */
  function IndentLine(line: string, prefix: string): string {
    if IsBlank(line) then line else prefix + line
  }

  /** `textwrap.indent(s, prefix)`: every non-blank line (taken with its
      boundary) gets `prefix` in front. */
  function Indent(s: string, prefix: string): string
    decreases |s|
  {
    if |s| == 0 then "" else IndentLine(s[..NextLine(s)], prefix) + Indent(s[NextLine(s)..], prefix)
  }

  /** The inverse of `IndentLine`: one `prefix` is taken off a non-blank line. */
  function DedentLine(line: string, prefix: string): string {
    if !IsBlank(line) && StartsWith(line, prefix) then line[|prefix|..] else line
  }

  /** Line-by-line removal of one `prefix` from every non-blank line. */
  function Dedent(s: string, prefix: string): string
    decreases |s|
  {
    if |s| == 0 then "" else DedentLine(s[..NextLine(s)], prefix) + Dedent(s[NextLine(s)..], prefix)
  }

  /** An indented text starts with the prefix or with the original first character. */
  lemma IndentStart(s: string, prefix: string)
    requires |s| > 0
    ensures |Indent(s, prefix)| > 0
    ensures Indent(s, prefix)[0] == s[0] || (|prefix| > 0 && Indent(s, prefix)[0] == prefix[0])
  {
    var l := s[..NextLine(s)];
    assert l[0] == s[0];
  }

  /** `LineEnd` is determined by its contract. */
  lemma LineEndIs(s: string, k: nat)
    requires k <= |s|
    requires k < |s| ==> IsLineBoundary(s[k])
    requires forall i :: 0 <= i < k ==> !IsLineBoundary(s[i])
    ensures LineEnd(s) == k
  {
  }

  /** The first line of `pre + s`, for a boundary-free `pre`. */
  lemma LineEndShift(pre: string, s: string)
    requires NoLineBoundary(pre)
    ensures LineEnd(pre + s) == |pre| + LineEnd(s)
  {
    var t := pre + s;
    var k := LineEnd(s);
    assert forall i :: |pre| <= i < |t| ==> t[i] == s[i - |pre|];
    LineEndIs(t, |pre| + k);
  }

  /** A boundary-free `pre` only lengthens the first line. */
  lemma NextLineShift(pre: string, s: string)
    requires |s| > 0 && NoLineBoundary(pre)
    ensures NextLine(pre + s) == |pre| + NextLine(s)
  {
    var t := pre + s;
    LineEndShift(pre, s);
    var k := LineEnd(s);
    if k < |s| {
      assert t[|pre| + k] == s[k];
      if k + 1 < |s| {
        assert t[|pre| + k + 1] == s[k + 1];
      }
    }
  }

  /** The first line of `s`, followed by anything that cannot merge with its
      boundary, is still the first line. */
  lemma NextLineKeep(s: string, rest: string)
    requires |s| > 0
    requires NextLine(s) == |s|
    requires LineEnd(s) == |s| ==> rest == ""
    requires LineEnd(s) < |s| && s[|s| - 1] == '\r' && |rest| > 0 ==> rest[0] != '\n'
    ensures NextLine(s + rest) == |s|
  {
    var u := s + rest;
    var k := LineEnd(s);
    if k < |s| {
      assert u[..k] == s[..k] && u[k] == s[k];
      LineEndIs(u, k);
      if k + 1 < |s| {
        assert u[k + 1] == s[k + 1];
      }
    } else {
      assert u == s;
    }
  }

  /** Indenting keeps line structure: the first line of the indented text is
      exactly the indented first line. */
  lemma IndentNextLine(s: string, prefix: string)
    requires |s| > 0 && NoLineBoundary(prefix)
    ensures NextLine(Indent(s, prefix)) == |IndentLine(s[..NextLine(s)], prefix)|
  {
    var e := NextLine(s);
    var line := s[..e];
    var rest := Indent(s[e..], prefix);
    var pre := if IsBlank(line) then "" else prefix;
    IndentSplit(s, prefix);
    assert IndentLine(line, prefix) == pre + line;
    FirstLineStaysFirst(s, prefix);
    ShiftFirst(pre, line, rest);
  }

  lemma ShiftFirst(pre: string, line: string, rest: string)
    requires NoLineBoundary(pre) && |line| > 0 && NextLine(line + rest) == |line|
    ensures NextLine((pre + line) + rest) == |pre + line|
  {
    assert (pre + line) + rest == pre + (line + rest);
    NextLineShift(pre, line + rest);
  }

  /** Whatever indenting does to the following lines, it cannot merge them
      into the first one. */
  lemma FirstLineStaysFirst(s: string, prefix: string)
    requires |s| > 0 && NoLineBoundary(prefix)
    ensures NextLine(s[..NextLine(s)] + Indent(s[NextLine(s)..], prefix)) == NextLine(s)
  {
    var e := NextLine(s);
    NextLineKeepsFirst(s);
    IndentedRest(s, prefix);
    NextLineKeep(s[..e], Indent(s[e..], prefix));
  }

  /** What follows the first line, once indented, still cannot merge with
      its boundary. */
  lemma IndentedRest(s: string, prefix: string)
    requires |s| > 0 && NoLineBoundary(prefix)
    ensures var e := NextLine(s); var line := s[..e]; var rest := Indent(s[e..], prefix);
            (LineEnd(line) == |line| ==> rest == "")
            && (LineEnd(line) < |line| && line[|line| - 1] == '\r' && |rest| > 0 ==> rest[0] != '\n')
  {
    var e := NextLine(s);
    NextLineKeepsFirst(s);
    if e < |s| {
      IndentStart(s[e..], prefix);
      assert s[e..][0] == s[e];
    } else {
      assert s[e..] == [];
    }
  }

  /** The first line of `s`, taken alone, is one whole line. */
  lemma NextLineKeepsFirst(s: string)
    requires |s| > 0
    ensures var e := NextLine(s);
            NextLine(s[..e]) == e
            && (LineEnd(s[..e]) == e ==> e == |s|)
            && (LineEnd(s[..e]) < e && s[e - 1] == '\r' && e < |s| ==> s[e] != '\n')
  {
    var e := NextLine(s);
    var k := LineEnd(s);
    var line := s[..e];
    if k < |s| {
      assert line[k] == s[k];
      LineEndIs(line, k);
      if e == k + 2 {
        assert line[k + 1] == s[k + 1];
      }
    } else {
      assert line == s;
    }
  }

  /** Dedenting undoes indenting, for a prefix without line boundaries. */
  lemma {:induction false} DedentIndent(s: string, prefix: string)
    requires NoLineBoundary(prefix)
    ensures Dedent(Indent(s, prefix), prefix) == s
    decreases |s|
  {
    if |s| > 0 {
      var e := NextLine(s);
      DedentIndentStep(s, prefix);
      DedentIndentLine(s[..e], prefix);
      DedentIndent(s[e..], prefix);
      Glue(Dedent(Indent(s, prefix), prefix), s, e);
    }
  }

  lemma Glue(whole: string, s: string, e: nat)
    requires e <= |s| && whole == s[..e] + s[e..]
    ensures whole == s
  {
  }

  /** Dedenting an indented text handles its first line on its own. */
  lemma DedentIndentStep(s: string, prefix: string)
    requires |s| > 0 && NoLineBoundary(prefix)
    ensures Dedent(Indent(s, prefix), prefix)
            == DedentLine(IndentLine(s[..NextLine(s)], prefix), prefix) + Dedent(Indent(s[NextLine(s)..], prefix), prefix)
  {
    var e := NextLine(s);
    var il := IndentLine(s[..e], prefix);
    IndentSplit(s, prefix);
    IndentNextLine(s, prefix);
    DedentJoin(Indent(s, prefix), il, Indent(s[e..], prefix), prefix);
  }

  lemma IndentSplit(s: string, prefix: string)
    requires |s| > 0
    ensures Indent(s, prefix) == IndentLine(s[..NextLine(s)], prefix) + Indent(s[NextLine(s)..], prefix)
  {
  }

  lemma DedentSplit(t: string, e: nat, prefix: string)
    requires |t| > 0 && e == NextLine(t)
    ensures Dedent(t, prefix) == DedentLine(t[..e], prefix) + Dedent(t[e..], prefix)
  {
  }

  lemma DedentJoin(t: string, il: string, rest: string, prefix: string)
    requires t == il + rest && |il| > 0 && NextLine(t) == |il|
    ensures Dedent(t, prefix) == DedentLine(il, prefix) + Dedent(rest, prefix)
  {
    DedentSplit(t, |il|, prefix);
    assert t[..|il|] == il && t[|il|..] == rest;
  }

  /** One line: taking the prefix off undoes putting it on. */
  lemma DedentIndentLine(line: string, prefix: string)
    ensures DedentLine(IndentLine(line, prefix), prefix) == line
  {
    var il := IndentLine(line, prefix);
    if !IsBlank(line) {
      assert !IsBlank(il) by {
        var j :| 0 <= j < |line| && !IsSpace(line[j]);
        assert il[|prefix| + j] == line[j];
      }
      assert StartsWith(il, prefix) by {
        assert il[..|prefix|] == prefix;
      }
      assert il[|prefix|..] == line;
    }
  }

  // ---------------------------------------------------------------------
  // str.strip

  /** `s.lstrip(chars)` for the characters `drop` accepts. */
  function TrimStart(s: string, drop: char -> bool): (r: string)
    ensures |r| <= |s| && r == s[|s| - |r|..]
    ensures |r| > 0 ==> !drop(r[0])
    ensures forall i :: 0 <= i < |s| - |r| ==> drop(s[i])
    decreases |s|
  {
    if |s| > 0 && drop(s[0]) then
      var r := TrimStart(s[1..], drop);
      assert s[1..][|s| - 1 - |r|..] == s[|s| - |r|..];
      assert forall i :: 0 <= i < |s| - 1 - |r| ==> s[1..][i] == s[i + 1];
      r
    else s
  }

  /** `s.rstrip(chars)` for the characters `drop` accepts. */
  function TrimEnd(s: string, drop: char -> bool): (r: string)
    ensures |r| <= |s| && r == s[..|r|]
    ensures |r| > 0 ==> !drop(r[|r| - 1])
    ensures forall i :: |r| <= i < |s| ==> drop(s[i])
    decreases |s|
  {
    if |s| > 0 && drop(s[|s| - 1]) then TrimEnd(s[..|s| - 1], drop) else s
  }

  /** `s.strip(chars)` */
  function Trim(s: string, drop: char -> bool): string {
    TrimEnd(TrimStart(s, drop), drop)
  }

  /** How many characters `Trim` removes at the front. */
  function TrimmedLead(s: string, drop: char -> bool): nat {
    |s| - |TrimStart(s, drop)|
  }

  lemma TrimMiddle(s: string, drop: char -> bool)
    ensures var r := Trim(s, drop); var a := TrimmedLead(s, drop);
            a + |r| <= |s| && s[a..a + |r|] == r
  {
    var l := TrimStart(s, drop);
    var r := TrimEnd(l, drop);
    var a := |s| - |l|;
    assert l == s[a..];
    assert r == l[..|r|];
    assert s[a..a + |r|] == r;
  }

  lemma TrimTail(s: string, drop: char -> bool)
    ensures var r := Trim(s, drop); var a := TrimmedLead(s, drop);
            forall i :: a + |r| <= i < |s| ==> drop(s[i])
  {
    var l := TrimStart(s, drop);
    var r := TrimEnd(l, drop);
    var a := |s| - |l|;
    assert l == s[a..];
    forall i | a + |r| <= i < |s|
      ensures drop(s[i])
    {
      assert |r| <= i - a < |l|;
      assert s[i] == l[i - a];
    }
  }

  /** `Trim` removes a maximal run of dropped characters at each end and
      keeps the middle intact. */
  lemma TrimDecomposition(s: string, drop: char -> bool)
    ensures var r := Trim(s, drop); var a := TrimmedLead(s, drop);
            a + |r| <= |s| && s[a..a + |r|] == r
    ensures var a := TrimmedLead(s, drop);
            forall i :: 0 <= i < a ==> drop(s[i])
    ensures var r := Trim(s, drop); var a := TrimmedLead(s, drop);
            forall i :: a + |r| <= i < |s| ==> drop(s[i])
    ensures var r := Trim(s, drop);
            |r| > 0 ==> !drop(r[0]) && !drop(r[|r| - 1])
  {
    TrimMiddle(s, drop);
    TrimTail(s, drop);
    var l := TrimStart(s, drop);
    var r := TrimEnd(l, drop);
    if |r| > 0 {
      assert r[0] == l[0];
    }
  }

  /** `s.strip()` */
  function Strip(s: string): string {
    Trim(s, IsSpace)
  }

  predicate IsNewline(c: char) {
    c == '\n'
  }

  /** `s.strip("\n")` */
  function StripNewlines(s: string): string {
    Trim(s, IsNewline)
  }
}
