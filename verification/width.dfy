/** Display width of text, standing in for `docutils.utils.column_width`:
    a character whose East Asian width class is Wide or Fullwidth occupies
    two columns, every other character one. */
module Width {

  /** The main Wide and Fullwidth blocks: Hangul Jamo, the CJK and Kana
      blocks, Hangul syllables, CJK compatibility ideographs, CJK
      compatibility forms, fullwidth forms and fullwidth signs. */
  predicate IsWide(c: char) {
    ('\U{1100}' <= c <= '\U{115F}')
    || ('\U{2E80}' <= c <= '\U{303E}')
    || ('\U{3041}' <= c <= '\U{A4CF}')
    || ('\U{AC00}' <= c <= '\U{D7A3}')
    || ('\U{F900}' <= c <= '\U{FAFF}')
    || ('\U{FE30}' <= c <= '\U{FE4F}')
    || ('\U{FF00}' <= c <= '\U{FF60}')
    || ('\U{FFE0}' <= c <= '\U{FFE6}')
    || ('\U{20000}' <= c <= '\U{3FFFD}')
  }

  function CharWidth(c: char): nat {
    if IsWide(c) then 2 else 1
  }

  /** Number of wide characters in `s`. */
  function WideCount(s: string): (n: nat)
    ensures n <= |s|
  {
    if |s| == 0 then 0 else (if IsWide(s[0]) then 1 else 0) + WideCount(s[1..])
  }

  /** Columns `s` occupies: one per character plus one more per wide character,
      so never less than its length and never more than twice it. */
  function ColumnWidth(s: string): (w: nat)
    ensures |s| <= w <= 2 * |s|
    ensures w == |s| + WideCount(s)
  {
    if |s| == 0 then 0 else CharWidth(s[0]) + ColumnWidth(s[1..])
  }

  /** Text without wide characters is exactly as wide as it is long. */
  lemma {:induction false} NarrowWidth(s: string)
    requires forall i :: 0 <= i < |s| ==> !IsWide(s[i])
    ensures ColumnWidth(s) == |s|
  {
    if |s| > 0 {
      NarrowWidth(s[1..]);
    }
  }

  /** Text made only of wide characters is twice as wide as it is long. */
  lemma {:induction false} WideWidth(s: string)
    requires forall i :: 0 <= i < |s| ==> IsWide(s[i])
    ensures ColumnWidth(s) == 2 * |s|
  {
    if |s| > 0 {
      WideWidth(s[1..]);
    }
  }

  /** Width adds up over concatenation. */
  lemma {:induction false} WidthConcat(a: string, b: string)
    ensures ColumnWidth(a + b) == ColumnWidth(a) + ColumnWidth(b)
  {
    if |a| > 0 {
      assert (a + b)[1..] == a[1..] + b;
      WidthConcat(a[1..], b);
    } else {
      assert a + b == b;
    }
  }
}
