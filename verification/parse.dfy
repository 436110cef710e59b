/** The parser extensions: the rules `RestBlockParser` and
    `RestInlineParser` add to mistune, each as the match its regular
    expression finds when tried at position `pos` of the source `src`, and
    the token and resume position its `parse_*` handler produces.

    The block expressions carry their own `(?m:…)` and `(?ms:…)` flags, so
    `^` holds at the start of the source and after a `\n`, and `$` at the
    end of the source and before a `\n`. The inline `$` of
    `eol_literal_marker` is given the same multi-line meaning. `\s` and
    `\S` are Python's Unicode whitespace classes. */
module Parse {
  import opened Text
  import opened Wrappers
  import opened Document
  import Render

  /** A handler's result: the token appended to the state and the position
      parsing resumes at. */
  datatype Step = Step(token: Token, resume: nat)

  /** `^` in multi-line mode. */
  predicate LineStartAt(src: string, pos: nat) {
    pos == 0 || (pos <= |src| && src[pos - 1] == '\n')
  }

  /** `$` in multi-line mode. */
  predicate LineEndAt(src: string, j: nat) {
    j == |src| || (j < |src| && src[j] == '\n')
  }

  /** `src[a..b]` is all whitespace: what a `\s*` can run over. */
  predicate AllSpace(src: string, a: nat, b: nat)
    requires a <= b <= |src|
  {
    forall i :: a <= i < b ==> IsSpace(src[i])
  }

  /** `src[a..b]` stays on one line: what a `.*` without dot-all can run over. */
  predicate OnOneLine(src: string, a: nat, b: nat)
    requires a <= b <= |src|
  {
    forall i :: a <= i < b ==> src[i] != '\n'
  }

  /** A greedy `\s*` started at `k` that ran to `w` can back off to no line end
      beyond `e`: `e` is the last line end reachable through whitespace. */
  lemma LastLineEndIsLast(src: string, k: nat, w: nat, e: nat)
    requires k <= w <= |src| && AllSpace(src, k, w) && (w == |src| || !IsSpace(src[w]))
    requires k <= e <= w && forall j :: e < j <= w ==> !LineEndAt(src, j)
    ensures forall j :: e < j <= |src| && AllSpace(src, k, j) ==> !LineEndAt(src, j)
  {
    forall j | e < j <= |src| && AllSpace(src, k, j)
      ensures !LineEndAt(src, j)
    {
      if j > w {
        assert false;
      }
    }
  }

  /** No line end is reachable through whitespace from `k` when none lies in `[k, w]`. */
  lemma NoLineEndReachable(src: string, k: nat, w: nat)
    requires k <= w <= |src| && AllSpace(src, k, w) && (w == |src| || !IsSpace(src[w]))
    requires forall j :: k <= j <= w ==> !LineEndAt(src, j)
    ensures forall j :: k <= j <= |src| && AllSpace(src, k, j) ==> !LineEndAt(src, j)
  {
    forall j | k <= j <= |src| && AllSpace(src, k, j)
      ensures !LineEndAt(src, j)
    {
      if j > w {
        assert false;
      }
    }
  }

  // ---------------------------------------------------------------------
  // Scanning

  /** End of the run of spaces (` *`) starting at `k`. */
  function SkipSpaces(src: string, k: nat): (e: nat)
    requires k <= |src|
    ensures k <= e <= |src|
    ensures forall j :: k <= j < e ==> src[j] == ' '
    ensures e == |src| || src[e] != ' '
    decreases |src| - k
  {
    if k < |src| && src[k] == ' ' then SkipSpaces(src, k + 1) else k
  }

  /** End of the run of whitespace (greedy `\s*`) starting at `k`. */
  function SkipWhitespace(src: string, k: nat): (e: nat)
    requires k <= |src|
    ensures k <= e <= |src|
    ensures forall j :: k <= j < e ==> IsSpace(src[j])
    ensures e == |src| || !IsSpace(src[e])
    decreases |src| - k
  {
    if k < |src| && IsSpace(src[k]) then SkipWhitespace(src, k + 1) else k
  }

  /** The first `$` at or after `k` (lazy `.*?$` in dot-all mode). */
  function FirstLineEnd(src: string, k: nat): (e: nat)
    requires k <= |src|
    ensures k <= e <= |src| && LineEndAt(src, e)
    ensures forall j :: k <= j < e ==> src[j] != '\n'
    decreases |src| - k
  {
    if k == |src| || src[k] == '\n' then k else FirstLineEnd(src, k + 1)
  }

  /** The largest `$` in `[lo, hi]`: where a greedy `\s*` that ran to `hi`
      backs off to so that `$` can follow. */
  function LastLineEnd(src: string, lo: nat, hi: nat): (r: Option<nat>)
    requires lo <= hi <= |src|
    ensures r.Some? ==> lo <= r.value <= hi && LineEndAt(src, r.value)
                        && forall j :: r.value < j <= hi ==> !LineEndAt(src, j)
    ensures r.None? ==> forall j :: lo <= j <= hi ==> !LineEndAt(src, j)
    decreases hi
  {
    if LineEndAt(src, hi) then Some(hi)
    else if hi == lo then None
    else LastLineEnd(src, lo, hi - 1)
  }

  /** A `\n` followed by a non-whitespace character: where a directive ends. */
  predicate DirectiveBreak(src: string, j: nat) {
    j + 1 < |src| && src[j] == '\n' && !IsSpace(src[j + 1])
  }

  /** The first directive break at or after `k` (lazy `.*?\n(?=\S)` in dot-all mode). */
  function FirstDirectiveBreak(src: string, k: nat): (r: Option<nat>)
    requires k <= |src|
    ensures r.Some? ==> k <= r.value && DirectiveBreak(src, r.value)
                        && forall j :: k <= j < r.value ==> !DirectiveBreak(src, j)
    ensures r.None? ==> forall j :: k <= j < |src| ==> !DirectiveBreak(src, j)
    decreases |src| - k
  {
    if k == |src| then None
    else if DirectiveBreak(src, k) then Some(k)
    else FirstDirectiveBreak(src, k + 1)
  }

  lemma FirstDirectiveBreakIs(src: string, k: nat, b: nat)
    requires k <= b && DirectiveBreak(src, b)
    requires forall j :: k <= j < b ==> !DirectiveBreak(src, j)
    ensures FirstDirectiveBreak(src, k) == Some(b)
  {
  }

  /** The first occurrence of `pat` at or after `k` on the same line (lazy
      `.*?` without dot-all, then `pat`). */
  function FindOnLine(src: string, k: nat, pat: string): (r: Option<nat>)
    requires k <= |src| && |pat| > 0 && '\n' !in pat
    ensures r.Some? ==> k <= r.value <= |src| && StartsWith(src[r.value..], pat)
                        && forall j :: k <= j < r.value ==> src[j] != '\n' && !StartsWith(src[j..], pat)
    ensures r.None? ==> forall j :: k <= j <= |src| && (forall i :: k <= i < j ==> src[i] != '\n')
                                    ==> !StartsWith(src[j..], pat)
    decreases |src| - k
  {
    if k == |src| then None
    else if StartsWith(src[k..], pat) then Some(k)
    else if src[k] == '\n' then None
    else FindOnLine(src, k + 1, pat)
  }

  /** The first `c` at or after `k`, on any line. */
  function FindChar(src: string, k: nat, c: char): (r: Option<nat>)
    requires k <= |src|
    ensures r.Some? ==> k <= r.value < |src| && src[r.value] == c
                        && forall j :: k <= j < r.value ==> src[j] != c
    ensures r.None? ==> forall j :: k <= j < |src| ==> src[j] != c
    decreases |src| - k
  {
    if k == |src| then None else if src[k] == c then Some(k) else FindChar(src, k + 1, c)
  }

  // ---------------------------------------------------------------------
  // Block rules

  /** Where the `..` of an explicit markup block would start: after the
      spaces that open the line. */
  function MarkupStart(src: string, pos: nat): nat
    requires pos <= |src|
  {
    SkipSpaces(src, pos)
  }

  /** `directive` + `parse_directive`: a line of optional spaces and `..`,
      up to the first newline followed by a non-space character; the raw
      text stops before that newline and parsing resumes after it. */
  function ParseDirective(src: string, pos: nat): (r: Option<Step>)
    requires pos <= |src|
    ensures r.Some? ==>
      var i := MarkupStart(src, pos);
      LineStartAt(src, pos) && StartsWith(src[i..], "..")
      && r.value.token.Directive? && pos + 1 <= r.value.resume <= |src|
      && r.value.token.raw == src[pos..r.value.resume - 1]
      && DirectiveBreak(src, r.value.resume - 1)
      && forall j :: i + 2 <= j < r.value.resume - 1 ==> !DirectiveBreak(src, j)
    ensures r.None? <==>
      !LineStartAt(src, pos) || !StartsWith(src[MarkupStart(src, pos)..], "..")
      || FirstDirectiveBreak(src, MarkupStart(src, pos) + 2).None?
  {
    var i := MarkupStart(src, pos);
    if !LineStartAt(src, pos) || !StartsWith(src[i..], "..") then None
    else
      match FirstDirectiveBreak(src, i + 2)
      case None => None
      case Some(k) => Some(Step(Directive(src[pos..k]), k + 1))
  }

  /** `oneline_directive` + `parse_oneline_directive`: the same opening, up
      to the end of its line; the raw text is the whole line and parsing
      resumes one past its end. */
  function ParseOnelineDirective(src: string, pos: nat): (r: Option<Step>)
    requires pos <= |src|
    ensures r.Some? <==> LineStartAt(src, pos) && StartsWith(src[MarkupStart(src, pos)..], "..")
    ensures r.Some? ==>
      r.value.token.Directive? && pos + 1 <= r.value.resume <= |src| + 1
      && r.value.token.raw == src[pos..r.value.resume - 1]
      && LineEndAt(src, r.value.resume - 1)
      && '\n' !in r.value.token.raw
  {
    var i := MarkupStart(src, pos);
    if !LineStartAt(src, pos) || !StartsWith(src[i..], "..") then None
    else
      var k := FirstLineEnd(src, i + 2);
      assert forall j :: pos <= j < k ==> src[j] != '\n';
      Some(Step(Directive(src[pos..k]), k + 1))
  }

  /** `rest_code_block` + `parse_rest_code_block`: a line that is `::`
      followed by whitespace only; the greedy `\s*` can run over following
      blank lines and backs off to the last line end inside the run. */
  function ParseRestCodeBlock(src: string, pos: nat): (r: Option<Step>)
    requires pos <= |src|
    ensures r.Some? ==>
      LineStartAt(src, pos) && StartsWith(src[pos..], "::")
      && r.value.token == RestCodeBlock && r.value.resume >= pos + 3
      && LineEndAt(src, r.value.resume - 1)
      && forall j :: pos + 2 <= j < r.value.resume - 1 ==> IsSpace(src[j])
    ensures r.Some? ==>
      forall j :: r.value.resume - 1 < j <= |src| && AllSpace(src, pos + 2, j) ==> !LineEndAt(src, j)
    ensures r.None? <==>
      !LineStartAt(src, pos) || !StartsWith(src[pos..], "::")
      || LastLineEnd(src, pos + 2, SkipWhitespace(src, pos + 2)).None?
    ensures r.None? && LineStartAt(src, pos) && StartsWith(src[pos..], "::") ==>
      forall j :: pos + 2 <= j <= |src| && AllSpace(src, pos + 2, j) ==> !LineEndAt(src, j)
  {
    if !LineStartAt(src, pos) || !StartsWith(src[pos..], "::") then None
    else
      var w := SkipWhitespace(src, pos + 2);
      match LastLineEnd(src, pos + 2, w)
      case None =>
        NoLineEndReachable(src, pos + 2, w);
        None
      case Some(p) =>
        LastLineEndIsLast(src, pos + 2, w, p);
        Some(Step(RestCodeBlock, p + 1))
  }

  // ---------------------------------------------------------------------
  // Inline rules

  /** `inline_math` + `parse_inline_math`: `` `$ ``, the math up to the first
      `` $` `` on the same line, `` $` ``. */
  function ParseInlineMath(src: string, pos: nat): (r: Option<Step>)
    requires pos <= |src|
    ensures r.Some? ==>
      StartsWith(src[pos..], "`$") && r.value.token.InlineMath?
      && var m := r.value.token.math;
         r.value.resume == pos + |m| + 4 <= |src|
         && src[pos..r.value.resume] == "`$" + m + "$`"
         && '\n' !in m
    ensures r.Some? ==> forall j :: pos + 2 <= j < r.value.resume - 2 ==> !StartsWith(src[j..], "$`")
    ensures r.None? <==> !StartsWith(src[pos..], "`$") || FindOnLine(src, pos + 2, "$`").None?
    ensures r.None? && StartsWith(src[pos..], "`$") ==>
      forall j :: pos + 2 <= j <= |src| && OnOneLine(src, pos + 2, j) ==> !StartsWith(src[j..], "$`")
  {
    if !StartsWith(src[pos..], "`$") then None
    else
      match FindOnLine(src, pos + 2, "$`")
      case None => None
      case Some(k) =>
        assert src[pos..pos + 2] == "`$" && src[k..k + 2] == "$`";
        assert src[pos..k + 2] == src[pos..pos + 2] + src[pos + 2..k] + src[k..k + 2];
        Some(Step(InlineMath(src[pos + 2..k]), k + 2))
  }

  /** `StartsWith` at an index, read as characters. */
  lemma CharAt(src: string, k: nat, c: char)
    requires k < |src|
    ensures StartsWith(src[k..], [c]) <==> src[k] == c
  {
    assert src[k..][..1] == [src[k]];
  }

  lemma PairAt(src: string, k: nat, c: char, d: char)
    requires k + 2 <= |src|
    ensures StartsWith(src[k..], [c, d]) <==> src[k] == c && src[k + 1] == d
  {
    assert src[k..][..2] == [src[k], src[k + 1]];
  }

  /** A match of the first alternative of `rest_role`, `` :.*?:`.*?` ``, on
      `src[pos..e]`, whose `` :` `` is at `j`. */
  predicate RoleMatch(src: string, pos: nat, j: nat, e: nat) {
    pos < j && j + 3 <= e <= |src|
    && src[pos] == ':' && src[j] == ':' && src[j + 1] == '`' && src[e - 1] == '`'
    && OnOneLine(src, pos, e)
  }

  /** A match of the second alternative of `rest_role`, `` `[^`]+`:.*?: ``,
      on `src[pos..e]`, whose closing backtick is at `q`. */
  predicate ContentMatch(src: string, pos: nat, q: nat, e: nat) {
    pos + 1 < q && q + 3 <= e <= |src|
    && src[pos] == '`' && src[q] == '`' && src[q + 1] == ':' && src[e - 1] == ':'
    && (forall k :: pos < k < q ==> src[k] != '`')
    && OnOneLine(src, q + 2, e - 1)
  }

  /** No role-first match of `rest_role` starts at `pos`. */
  ghost predicate NoRoleMatch(src: string, pos: nat)
  {
    forall j: nat, e: nat :: !RoleMatch(src, pos, j, e)
  }

  /** No content-first match of `rest_role` starts at `pos`. */
  ghost predicate NoContentMatch(src: string, pos: nat)
  {
    forall q: nat, e: nat :: !ContentMatch(src, pos, q, e)
  }

  /** Every match of the first alternative uses the first `` :` `` on the line. */
  lemma RoleColonFirst(src: string, pos: nat, j0: nat)
    requires pos < |src| && FindOnLine(src, pos + 1, ":`") == Some(j0)
    ensures forall j: nat, e: nat :: RoleMatch(src, pos, j, e) ==> j0 <= j
  {
    forall j: nat, e: nat | RoleMatch(src, pos, j, e)
      ensures j0 <= j
    {
      PairAt(src, j, ':', '`');
    }
  }

  /** ... and ends at the first backtick after it or later. */
  lemma RoleTickFirst(src: string, pos: nat, j0: nat, l: nat)
    requires pos < |src| && FindOnLine(src, pos + 1, ":`") == Some(j0)
    requires j0 + 2 <= |src| && FindOnLine(src, j0 + 2, "`") == Some(l)
    ensures forall j: nat, e: nat :: RoleMatch(src, pos, j, e) ==> l + 1 <= e
  {
    RoleColonFirst(src, pos, j0);
    forall j: nat, e: nat | RoleMatch(src, pos, j, e)
      ensures l + 1 <= e
    {
      CharAt(src, e - 1, '`');
    }
  }

  /** A match of the first alternative opens with a colon. */
  lemma NoRoleWithoutOpening(src: string, pos: nat)
    requires pos <= |src| && (pos == |src| || src[pos] != ':')
    ensures NoRoleMatch(src, pos)
  {
  }

  lemma NoRoleWithoutColon(src: string, pos: nat)
    requires pos < |src| && FindOnLine(src, pos + 1, ":`").None?
    ensures NoRoleMatch(src, pos)
  {
    forall j: nat, e: nat | RoleMatch(src, pos, j, e)
      ensures false
    {
      assert OnOneLine(src, pos + 1, j);
      PairAt(src, j, ':', '`');
    }
  }

  lemma NoRoleWithoutTick(src: string, pos: nat, j0: nat)
    requires pos < |src| && FindOnLine(src, pos + 1, ":`") == Some(j0)
    requires j0 + 2 <= |src| && FindOnLine(src, j0 + 2, "`").None?
    ensures NoRoleMatch(src, pos)
  {
    RoleColonFirst(src, pos, j0);
    forall j: nat, e: nat | RoleMatch(src, pos, j, e)
      ensures false
    {
      assert OnOneLine(src, j0 + 2, e - 1);
      CharAt(src, e - 1, '`');
    }
  }

  /** The match the lazy first alternative finds: the first `` :` `` on the
      line and the first backtick after it. */
  lemma RoleFound(src: string, pos: nat, j: nat, l: nat)
    requires pos < |src| && src[pos] == ':' && FindOnLine(src, pos + 1, ":`") == Some(j)
    requires j + 2 <= |src| && FindOnLine(src, j + 2, "`") == Some(l)
    ensures pos + 4 <= l + 1 <= |src| && src[l] == '`'
    ensures RoleMatch(src, pos, j, l + 1)
    ensures forall k :: pos < k < j ==> !(src[k] == ':' && src[k + 1] == '`')
    ensures forall i: nat, e: nat :: RoleMatch(src, pos, i, e) ==> l + 1 <= e
  {
    PairAt(src, j, ':', '`');
    CharAt(src, l, '`');
    RoleTickFirst(src, pos, j, l);
    NoEarlierColonTick(src, pos, j);
    forall i | pos <= i < l + 1
      ensures src[i] != '\n'
    {
      if pos < i < j || j + 2 <= i < l {
      } else {
        assert i == pos || i == j || i == j + 1 || i == l;
      }
    }
    assert RoleMatch(src, pos, j, l + 1);
  }

  /** Before the first `` :` `` on the line, no colon is followed by a backtick. */
  lemma NoEarlierColonTick(src: string, pos: nat, j: nat)
    requires pos < |src| && FindOnLine(src, pos + 1, ":`") == Some(j)
    ensures forall k :: pos < k < j ==> !(src[k] == ':' && src[k + 1] == '`')
  {
    forall k | pos < k < j
      ensures !(src[k] == ':' && src[k + 1] == '`')
    {
      PairAt(src, k, ':', '`');
    }
  }

  /** First alternative of `rest_role`, `` :.*?:`.*?` ``: a colon, the
      first `` :` `` on the line and the first backtick after it. If that
      backtick is missing, no later `` :` `` on the line can have one either,
      so the lazy match is also the shortest. */
  function RoleThenContent(src: string, pos: nat): (r: Option<nat>)
    requires pos <= |src|
    ensures r.Some? ==> pos + 4 <= r.value <= |src| && src[pos] == ':' && src[r.value - 1] == '`'
                        && forall j :: pos <= j < r.value ==> src[j] != '\n'
    ensures r.Some? ==> exists j: nat :: RoleMatch(src, pos, j, r.value)
                                    && forall k :: pos < k < j ==> !(src[k] == ':' && src[k + 1] == '`')
    ensures r.Some? ==> forall j: nat, e: nat :: RoleMatch(src, pos, j, e) ==> r.value <= e
    ensures r.None? <==> NoRoleMatch(src, pos)
  {
    if pos == |src| || src[pos] != ':' then
      NoRoleWithoutOpening(src, pos);
      None
    else
      match FindOnLine(src, pos + 1, ":`")
      case None =>
        NoRoleWithoutColon(src, pos);
        None
      case Some(j) =>
        PairAt(src, j, ':', '`');
        match FindOnLine(src, j + 2, "`")
        case None =>
          NoRoleWithoutTick(src, pos, j);
          None
        case Some(l) =>
          RoleFound(src, pos, j, l);
          Some(l + 1)
  }

  /** Every match of the second alternative closes its text at the first
      backtick after `pos`. */
  lemma ContentTickIs(src: string, pos: nat, q0: nat)
    requires pos < |src| && FindChar(src, pos + 1, '`') == Some(q0)
    ensures forall q: nat, e: nat :: ContentMatch(src, pos, q, e) ==> q == q0
  {
  }

  lemma NoContentWithoutTick(src: string, pos: nat)
    requires pos < |src| && FindChar(src, pos + 1, '`').None?
    ensures NoContentMatch(src, pos)
  {
  }

  /** ... and ends at the first colon after `` `: `` or later. */
  lemma ContentColonFirst(src: string, pos: nat, q0: nat, c: nat)
    requires pos < |src| && FindChar(src, pos + 1, '`') == Some(q0)
    requires q0 + 2 <= |src| && FindOnLine(src, q0 + 2, ":") == Some(c)
    ensures forall q: nat, e: nat :: ContentMatch(src, pos, q, e) ==> c + 1 <= e
  {
    ContentTickIs(src, pos, q0);
    forall q: nat, e: nat | ContentMatch(src, pos, q, e)
      ensures c + 1 <= e
    {
      CharAt(src, e - 1, ':');
    }
  }

  lemma NoContentWithoutColon(src: string, pos: nat, q0: nat)
    requires pos < |src| && FindChar(src, pos + 1, '`') == Some(q0)
    requires q0 + 2 <= |src| && FindOnLine(src, q0 + 2, ":").None?
    ensures NoContentMatch(src, pos)
  {
    ContentTickIs(src, pos, q0);
    forall q: nat, e: nat | ContentMatch(src, pos, q, e)
      ensures false
    {
      CharAt(src, e - 1, ':');
    }
  }

  /** Second alternative of `rest_role`, `` `[^`]+`:.*?: ``: a backtick, a
      non-empty text without backticks, `` `: `` and the first colon after it
      on the same line. */
  function ContentThenRole(src: string, pos: nat): (r: Option<nat>)
    requires pos <= |src|
    ensures r.Some? ==> pos + 5 <= r.value <= |src| && src[pos] == '`' && src[r.value - 1] == ':'
    ensures r.Some? ==> exists q: nat :: ContentMatch(src, pos, q, r.value)
                                    && forall k :: q + 2 <= k < r.value - 1 ==> src[k] != ':'
    ensures r.Some? ==> forall q: nat, e: nat :: ContentMatch(src, pos, q, e) ==> r.value <= e
    ensures r.None? <==> NoContentMatch(src, pos)
  {
    if pos == |src| || src[pos] != '`' then None
    else
      match FindChar(src, pos + 1, '`')
      case None =>
        NoContentWithoutTick(src, pos);
        None
      case Some(q) =>
        ContentTickIs(src, pos, q);
        if q == pos + 1 || q + 1 == |src| || src[q + 1] != ':' then None
        else
          match FindOnLine(src, q + 2, ":")
          case None =>
            NoContentWithoutColon(src, pos, q);
            None
          case Some(e) =>
            CharAt(src, e, ':');
            ContentColonFirst(src, pos, q, e);
            assert forall k :: q + 2 <= k < e ==> src[k] != ':' by {
              forall k | q + 2 <= k < e
                ensures src[k] != ':'
              {
                CharAt(src, k, ':');
              }
            }
            assert ContentMatch(src, pos, q, e + 1);
            Some(e + 1)
  }

  /** `rest_role` + `parse_rest_role`: the whole match passes through. */
  function ParseRestRole(src: string, pos: nat): (r: Option<Step>)
    requires pos <= |src|
    ensures r.Some? ==> pos <= r.value.resume <= |src| && r.value.token == RestRole(src[pos..r.value.resume])
    ensures r.None? <==> RoleThenContent(src, pos).None? && ContentThenRole(src, pos).None?
    ensures r.None? <==> NoRoleMatch(src, pos) && NoContentMatch(src, pos)
    ensures RoleThenContent(src, pos).Some? ==> r == Some(Step(RestRole(src[pos..RoleThenContent(src, pos).value]), RoleThenContent(src, pos).value))
    ensures RoleThenContent(src, pos).None? && ContentThenRole(src, pos).Some? ==>
              r == Some(Step(RestRole(src[pos..ContentThenRole(src, pos).value]), ContentThenRole(src, pos).value))
  {
    match RoleThenContent(src, pos)
    case Some(e) => Some(Step(RestRole(src[pos..e]), e))
    case None =>
      match ContentThenRole(src, pos)
      case Some(e) => Some(Step(RestRole(src[pos..e]), e))
      case None => None
  }

  /** `rest_link` + `parse_rest_link`: a backtick, text without backticks,
      `` `_ ``; the whole match passes through. */
  function ParseRestLink(src: string, pos: nat): (r: Option<Step>)
    requires pos <= |src|
    ensures r.Some? ==>
      var e := r.value.resume;
      pos + 3 <= e <= |src| && r.value.token == RestLink(src[pos..e])
      && src[pos] == '`' && src[e - 2..e] == "`_"
      && forall j :: pos < j < e - 2 ==> src[j] != '`'
    ensures r.None? <==>
      pos == |src| || src[pos] != '`' || FindChar(src, pos + 1, '`').None?
      || FindChar(src, pos + 1, '`').value + 1 == |src|
      || src[FindChar(src, pos + 1, '`').value + 1] != '_'
  {
    if pos == |src| || src[pos] != '`' then None
    else
      match FindChar(src, pos + 1, '`')
      case None => None
      case Some(q) =>
        if q + 1 == |src| || src[q + 1] != '_' then None
        else Some(Step(RestLink(src[pos..q + 2]), q + 2))
  }

  /** Where `::` starts: after the optional whitespace group `eol_space`. */
  function MarkerStart(src: string, pos: nat): (w: nat)
    requires pos <= |src|
    ensures pos <= w <= |src|
    ensures forall j :: pos <= j < w ==> IsSpace(src[j])
    ensures w == pos <==> pos == |src| || !IsSpace(src[pos])
  {
    if pos < |src| && IsSpace(src[pos]) then SkipWhitespace(src, pos) else pos
  }

  /** `eol_literal_marker` + `parse_eol_literal_marker`: optional
      whitespace, `::`, whitespace to a line end. The marker is `:` when the
      `::` directly follows the text and empty when whitespace separates
      them; parsing resumes one past the line end. */
  function ParseEolLiteralMarker(src: string, pos: nat): (r: Option<Step>)
    requires pos <= |src|
    ensures r.Some? ==>
      var w := MarkerStart(src, pos);
      StartsWith(src[w..], "::") && r.value.resume >= w + 3
      && LineEndAt(src, r.value.resume - 1)
      && (forall j :: pos <= j < w ==> IsSpace(src[j]))
      && (forall j :: w + 2 <= j < r.value.resume - 1 ==> IsSpace(src[j]))
      && r.value.token == EolLiteralMarker(if w == pos then ":" else "")
    ensures r.Some? ==>
      var w := MarkerStart(src, pos);
      forall j :: r.value.resume - 1 < j <= |src| && AllSpace(src, w + 2, j) ==> !LineEndAt(src, j)
    ensures r.None? <==>
      !StartsWith(src[MarkerStart(src, pos)..], "::")
      || LastLineEnd(src, MarkerStart(src, pos) + 2, SkipWhitespace(src, MarkerStart(src, pos) + 2)).None?
    ensures r.None? && StartsWith(src[MarkerStart(src, pos)..], "::") ==>
      var w := MarkerStart(src, pos);
      forall j :: w + 2 <= j <= |src| && AllSpace(src, w + 2, j) ==> !LineEndAt(src, j)
  {
    var w := MarkerStart(src, pos);
    if !StartsWith(src[w..], "::") then None
    else
      var e := SkipWhitespace(src, w + 2);
      match LastLineEnd(src, w + 2, e)
      case None =>
        NoLineEndReachable(src, w + 2, e);
        None
      case Some(p) =>
        LastLineEndIsLast(src, w + 2, e, p);
        Some(Step(EolLiteralMarker(if w == pos then ":" else ""), p + 1))
  }

  // ---------------------------------------------------------------------
  // Rule order

  /** A rule of either parser: one of mistune's own, by name, or an extension. */
  datatype Rule =
    | Base(name: string)
    | DirectiveRule
    | OnelineDirectiveRule
    | RestCodeBlockRule
    | InlineMathRule
    | RestRoleRule
    | RestLinkRule
    | EolLiteralMarkerRule

  /** `RestBlockParser.DEFAULT_RULES`: mistune's block rules, then the extensions. */
  function BlockRules(base: seq<string>): (r: seq<Rule>)
    ensures |r| == |base| + 3
    ensures forall i :: 0 <= i < |base| ==> r[i] == Base(base[i])
    ensures r[|base|..] == [DirectiveRule, OnelineDirectiveRule, RestCodeBlockRule]
  {
    seq(|base|, i requires 0 <= i < |base| => Base(base[i])) + [DirectiveRule, OnelineDirectiveRule, RestCodeBlockRule]
  }

  /** `RestInlineParser.DEFAULT_RULES`: the extensions, then mistune's inline rules. */
  function InlineRules(base: seq<string>): (r: seq<Rule>)
    ensures |r| == |base| + 4
    ensures r[..4] == InlineExtensions
    ensures forall i :: 0 <= i < |base| ==> r[i + 4] == Base(base[i])
  {
    InlineExtensions + seq(|base|, i requires 0 <= i < |base| => Base(base[i]))
  }

  /** One rule tried at `pos`; mistune's own rules are given by `base`. */
  function TryRule(rule: Rule, src: string, pos: nat, base: string -> Option<Step>): Option<Step>
    requires pos <= |src|
  {
    match rule
    case Base(name) => base(name)
    case DirectiveRule => ParseDirective(src, pos)
    case OnelineDirectiveRule => ParseOnelineDirective(src, pos)
    case RestCodeBlockRule => ParseRestCodeBlock(src, pos)
    case InlineMathRule => ParseInlineMath(src, pos)
    case RestRoleRule => ParseRestRole(src, pos)
    case RestLinkRule => ParseRestLink(src, pos)
    case EolLiteralMarkerRule => ParseEolLiteralMarker(src, pos)
  }

  /** The alternation of all rules at one position: the first rule in order
      that matches wins. */
  function FirstMatch(rules: seq<Rule>, src: string, pos: nat, base: string -> Option<Step>): (r: Option<Step>)
    requires pos <= |src|
    decreases |rules|
  {
    if |rules| == 0 then None
    else
      var m := TryRule(rules[0], src, pos, base);
      if m.Some? then m else FirstMatch(rules[1..], src, pos, base)
  }

  /** `FirstMatch` picks the earliest matching rule and only that one. */
  lemma {:induction false} FirstMatchIsFirst(rules: seq<Rule>, src: string, pos: nat, base: string -> Option<Step>)
    requires pos <= |src|
    ensures var r := FirstMatch(rules, src, pos, base);
            r.None? <==> forall i :: 0 <= i < |rules| ==> TryRule(rules[i], src, pos, base).None?
    ensures var r := FirstMatch(rules, src, pos, base);
            r.Some? ==> exists k :: 0 <= k < |rules| && r == TryRule(rules[k], src, pos, base)
                                    && forall i :: 0 <= i < k ==> TryRule(rules[i], src, pos, base).None?
    decreases |rules|
  {
    if |rules| > 0 {
      FirstMatchIsFirst(rules[1..], src, pos, base);
      var r := FirstMatch(rules, src, pos, base);
      if TryRule(rules[0], src, pos, base).None? && r.Some? {
        var k :| 0 <= k < |rules[1..]| && r == TryRule(rules[1..][k], src, pos, base)
                 && forall i :: 0 <= i < k ==> TryRule(rules[1..][i], src, pos, base).None?;
        assert r == TryRule(rules[k + 1], src, pos, base);
      }
    }
  }

  lemma {:induction false} FirstMatchAppend(a: seq<Rule>, b: seq<Rule>, src: string, pos: nat, base: string -> Option<Step>)
    requires pos <= |src|
    ensures FirstMatch(a + b, src, pos, base)
            == (if FirstMatch(a, src, pos, base).Some? then FirstMatch(a, src, pos, base) else FirstMatch(b, src, pos, base))
    decreases |a|
  {
    if |a| == 0 {
      assert a + b == b;
    } else {
      assert (a + b)[1..] == a[1..] + b;
      FirstMatchAppend(a[1..], b, src, pos, base);
    }
  }

  /** A block rule of mistune's own that matches wins over the extensions;
      among the extensions, a directive spanning several lines wins over the
      one-line form, which wins over the literal-block marker. */
  lemma BlockRuleOrder(names: seq<string>, src: string, pos: nat, base: string -> Option<Step>)
    requires pos <= |src|
    ensures var own := FirstMatch(BlockRules(names)[..|names|], src, pos, base);
            FirstMatch(BlockRules(names), src, pos, base)
            == if own.Some? then own
               else if ParseDirective(src, pos).Some? then ParseDirective(src, pos)
               else if ParseOnelineDirective(src, pos).Some? then ParseOnelineDirective(src, pos)
               else ParseRestCodeBlock(src, pos)
  {
    var rules := BlockRules(names);
    assert rules == rules[..|names|] + [DirectiveRule, OnelineDirectiveRule, RestCodeBlockRule];
    FirstMatchAppend(rules[..|names|], [DirectiveRule, OnelineDirectiveRule, RestCodeBlockRule], src, pos, base);
  }

  /** The four inline extensions, in their order. */
  const InlineExtensions: seq<Rule> := [InlineMathRule, RestRoleRule, RestLinkRule, EolLiteralMarkerRule]

  lemma InlineExtensionsOrder(src: string, pos: nat, base: string -> Option<Step>)
    requires pos <= |src|
    ensures FirstMatch(InlineExtensions, src, pos, base)
            == if ParseInlineMath(src, pos).Some? then ParseInlineMath(src, pos)
               else if ParseRestRole(src, pos).Some? then ParseRestRole(src, pos)
               else if ParseRestLink(src, pos).Some? then ParseRestLink(src, pos)
               else ParseEolLiteralMarker(src, pos)
  {
    FirstOfFour(InlineMathRule, RestRoleRule, RestLinkRule, EolLiteralMarkerRule, src, pos, base);
    TryInlineMath(src, pos, base);
    TryRestRole(src, pos, base);
    TryRestLink(src, pos, base);
    TryEolLiteralMarker(src, pos, base);
  }

  /** Each inline extension rule runs its own parser. */
  lemma TryInlineMath(src: string, pos: nat, base: string -> Option<Step>)
    requires pos <= |src|
    ensures TryRule(InlineMathRule, src, pos, base) == ParseInlineMath(src, pos)
  {
  }

  lemma TryRestRole(src: string, pos: nat, base: string -> Option<Step>)
    requires pos <= |src|
    ensures TryRule(RestRoleRule, src, pos, base) == ParseRestRole(src, pos)
  {
  }

  lemma TryRestLink(src: string, pos: nat, base: string -> Option<Step>)
    requires pos <= |src|
    ensures TryRule(RestLinkRule, src, pos, base) == ParseRestLink(src, pos)
  {
  }

  lemma TryEolLiteralMarker(src: string, pos: nat, base: string -> Option<Step>)
    requires pos <= |src|
    ensures TryRule(EolLiteralMarkerRule, src, pos, base) == ParseEolLiteralMarker(src, pos)
  {
  }

  /** Four rules in a row: the first that matches decides. */
  lemma FirstOfFour(a: Rule, b: Rule, c: Rule, d: Rule, src: string, pos: nat, base: string -> Option<Step>)
    requires pos <= |src|
    ensures var ta := TryRule(a, src, pos, base); var tb := TryRule(b, src, pos, base);
            var tc := TryRule(c, src, pos, base);
            FirstMatch([a, b, c, d], src, pos, base)
            == if ta.Some? then ta else if tb.Some? then tb else if tc.Some? then tc else TryRule(d, src, pos, base)
  {
    FirstMatchCons(d, [], src, pos, base);
    assert [d] + [] == [d];
    FirstMatchCons(c, [d], src, pos, base);
    FirstMatchCons(b, [c, d], src, pos, base);
    FirstMatchCons(a, [b, c, d], src, pos, base);
  }

  /** Trying a list of rules tries its head first. */
  lemma FirstMatchCons(r: Rule, rest: seq<Rule>, src: string, pos: nat, base: string -> Option<Step>)
    requires pos <= |src|
    ensures FirstMatch([r] + rest, src, pos, base)
            == if TryRule(r, src, pos, base).Some? then TryRule(r, src, pos, base) else FirstMatch(rest, src, pos, base)
  {
    assert ([r] + rest)[1..] == rest;
  }

  /** The inline extensions are tried before any of mistune's inline rules,
      in the order math, role, link, literal marker. */
  lemma InlineRuleOrder(names: seq<string>, src: string, pos: nat, base: string -> Option<Step>)
    requires pos <= |src|
    ensures var ext := FirstMatch(InlineExtensions, src, pos, base);
            FirstMatch(InlineRules(names), src, pos, base)
            == if ext.Some? then ext else FirstMatch(InlineRules(names)[4..], src, pos, base)
    ensures FirstMatch(InlineExtensions, src, pos, base)
            == if ParseInlineMath(src, pos).Some? then ParseInlineMath(src, pos)
               else if ParseRestRole(src, pos).Some? then ParseRestRole(src, pos)
               else if ParseRestLink(src, pos).Some? then ParseRestLink(src, pos)
               else ParseEolLiteralMarker(src, pos)
  {
    var rules := InlineRules(names);
    assert rules == InlineExtensions + rules[4..];
    FirstMatchAppend(InlineExtensions, rules[4..], src, pos, base);
    InlineExtensionsOrder(src, pos, base);
  }

  /** Wherever the multi-line directive matches, the one-line form would
      match too: the order of the two rules is what keeps a directive with an
      indented body in one piece. */
  lemma DirectiveShadowsOneline(src: string, pos: nat)
    requires pos <= |src| && ParseDirective(src, pos).Some?
    ensures ParseOnelineDirective(src, pos).Some?
  {
  }

  // ---------------------------------------------------------------------
  // Pass-through

  /** A matched role renders back to exactly the source it was matched from. */
  lemma RestRolePassThrough(src: string, pos: nat, doc: string)
    requires pos <= |src|
    ensures ParseRestRole(src, pos).Some? ==>
              var st := ParseRestRole(src, pos).value;
              RenderTree(st.token, doc) == Render.Out(src[pos..st.resume], false)
  {
    if ParseRestRole(src, pos).Some? {
      var st := ParseRestRole(src, pos).value;
      RawRenders(src[pos..st.resume], doc);
    }
  }

  /** A role or link token renders as its raw text. */
  lemma RawRenders(raw: string, doc: string)
    ensures RenderTree(RestRole(raw), doc) == Render.Out(raw, false)
    ensures RenderTree(RestLink(raw), doc) == Render.Out(raw, false)
  {
  }

  /** A matched link renders back to exactly the source it was matched from. */
  lemma RestLinkPassThrough(src: string, pos: nat, doc: string)
    requires pos <= |src| && ParseRestLink(src, pos).Some?
    ensures var st := ParseRestLink(src, pos).value;
            RenderTree(st.token, doc) == Render.Out(src[pos..st.resume], false)
  {
  }

  /** A directive renders as its source lines, without the newline that ended
      them, on a fresh line. */
  lemma DirectivePassThrough(src: string, pos: nat, doc: string)
    requires pos <= |src|
    ensures ParseDirective(src, pos).Some? ==>
              var st := ParseDirective(src, pos).value;
              RenderTree(st.token, doc).text == "\n" + src[pos..st.resume - 1]
    ensures ParseOnelineDirective(src, pos).Some? ==>
              var st := ParseOnelineDirective(src, pos).value;
              RenderTree(st.token, doc).text == "\n" + src[pos..st.resume - 1]
  {
  }

  /** Inline math keeps its content and is rendered as the `math` role. */
  lemma InlineMathRendering(src: string, pos: nat, doc: string)
    requires pos <= |src| && ParseInlineMath(src, pos).Some?
    ensures var st := ParseInlineMath(src, pos).value;
            src[pos..st.resume] == "`$" + st.token.math + "$`"
            && RenderTree(st.token, doc).text == ":math:`" + st.token.math + "`"
  {
  }

  // ---------------------------------------------------------------------
  // Examples

  /** `.. a` on its own is a one-line directive; parsing resumes past the end. */
  lemma OnelineExample()
    ensures ParseDirective(".. a", 0).None?
    ensures ParseOnelineDirective(".. a", 0) == Some(Step(Directive(".. a"), 5))
  {
    assert SkipSpaces(".. a", 0) == 0;
    assert forall j :: 2 <= j < 4 ==> !DirectiveBreak(".. a", j);
    assert FirstLineEnd(".. a", 2) == 4;
    assert ".. a"[0..4] == ".. a";
    assert FirstDirectiveBreak(".. a", 2).None?;
  }

  /** A comment with an indented body and a blank line ends before the next
      unindented line, which is left for the paragraph rule. */
  lemma DirectiveExample()
    ensures ParseDirective("..\n\n   comment\n\nnewline", 0)
            == Some(Step(Directive("..\n\n   comment\n"), 16))
  {
    var src := "..\n\n   comment\n\nnewline";
    assert MarkupStart(src, 0) == 0;
    assert StartsWith(src[0..], "..") by {
      assert src[0..][..2] == "..";
    }
    assert DirectiveBreak(src, 15);
    assert forall j :: 2 <= j < 15 ==> src[j] != '\n' || IsSpace(src[j + 1]);
    FirstDirectiveBreakIs(src, 2, 15);
    assert src[0..15] == "..\n\n   comment\n";
  }

  /** `a::` ends in a literal-block marker rendered as a single colon;
      `a ::` in one rendered as nothing. */
  lemma EolMarkerExample()
    ensures ParseEolLiteralMarker("a::", 1) == Some(Step(EolLiteralMarker(":"), 4))
    ensures ParseEolLiteralMarker("a ::", 1) == Some(Step(EolLiteralMarker(""), 5))
  {
    assert SkipWhitespace("a::", 3) == 3;
    assert SkipWhitespace("a ::", 1) == 2;
    assert SkipWhitespace("a ::", 4) == 4;
  }
}
