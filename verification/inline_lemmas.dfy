/** Properties of the inline renderers: the escaping `codespan` falls back
    to, the way `link` repoints an image, and how `image` builds its path. */
module InlineLemmas {
  import opened Text
  import opened Wrappers
  import opened Render

  // ---------------------------------------------------------------------
  // Code spans

  /** The HTML character reference a backtick is escaped to. */
  const Escaped: string := "&#96;"

  /** Reading the escaped text back: every reference becomes a backtick again. */
  function UnescapeBackticks(s: string): string {
    ReplaceAll(s, Escaped, "`")
  }

  /** Escaped code has no backtick left to end the raw role early. */
  lemma EscapedHasNoBacktick(code: string)
    ensures !Contains(EscapeBackticks(code), "`")
  {
    assert SafeReplacement("`", Escaped);
    ReplaceAllRemoves(code, "`", Escaped);
  }

  /** Escaping copies a stretch of text without backticks and ampersands, so
      such a stretch at the front of the output was at the front of the input. */
  lemma {:induction false} EscapeKeepsPlainStart(s: string, t: string)
    requires forall i :: 0 <= i < |t| ==> t[i] != '`' && t[i] != '&'
    requires StartsWith(EscapeBackticks(s), t)
    ensures StartsWith(s, t)
    decreases |t|
  {
    if |t| > 0 {
      var r := EscapeBackticks(s);
      assert |s| > 0;
      assert r[0] == t[0];
      assert !StartsWith(s, "`");
      assert r == [s[0]] + EscapeBackticks(s[1..]);
      assert EscapeBackticks(s[1..])[..|t| - 1] == r[1..|t|];
      EscapeKeepsPlainStart(s[1..], t[1..]);
      assert s[..|t|] == [s[0]] + s[1..][..|t| - 1];
    }
  }

  /** A reference at the front of the escaped text was in the input already. */
  lemma EscapedStartReflects(code: string)
    requires |code| > 0 && !StartsWith(code, "`")
    requires StartsWith([code[0]] + EscapeBackticks(code[1..]), Escaped)
    ensures StartsWith(code, Escaped)
  {
    var r := [code[0]] + EscapeBackticks(code[1..]);
    assert EscapeBackticks(code[1..])[..4] == r[1..5];
    EscapeKeepsPlainStart(code[1..], "#96;");
    assert code[..5] == [code[0]] + code[1..][..4];
  }

  /** Escaping is undone by unescaping, provided the code did not already
      contain the reference itself. */
  lemma {:induction false} UnescapeEscape(code: string)
    requires !Contains(code, Escaped)
    ensures UnescapeBackticks(EscapeBackticks(code)) == code
    decreases |code|
  {
    if |code| > 0 {
      var rest := EscapeBackticks(code[1..]);
      UnescapeEscape(code[1..]);
      if StartsWith(code, "`") {
        assert EscapeBackticks(code) == Escaped + rest;
        assert (Escaped + rest)[|Escaped|..] == rest;
      } else {
        var r := [code[0]] + rest;
        assert EscapeBackticks(code) == r;
        if StartsWith(r, Escaped) {
          EscapedStartReflects(code);
        }
        assert UnescapeBackticks(r) == [code[0]] + UnescapeBackticks(rest);
      }
    }
  }

  /** `codespan` keeps the code recoverable in both forms: between the double
      backticks of the literal, or, unescaped, inside the raw `<code>` span. */
  lemma CodeSpanRecoverable(code: string)
    requires !Contains(code, Escaped)
    ensures var r := CodeSpan(code);
            !r.rawHtml ==> |r.text| == |code| + 4 && r.text[2..|r.text| - 2] == code
    ensures var r := CodeSpan(code);
            r.rawHtml ==> exists e :: r.text == RawHtml(CodeHtml(e)).text && UnescapeBackticks(e) == code
    ensures var r := CodeSpan(code);
            r.rawHtml ==> !Contains(EscapeBackticks(code), "`")
  {
    var e := EscapeBackticks(code);
    UnescapeEscape(code);
    EscapedHasNoBacktick(code);
    if CodeSpan(code).rawHtml {
      assert CodeSpan(code).text == RawHtml(CodeHtml(e)).text;
    } else {
      assert CodeSpan(code).text == "``" + code + "``";
    }
  }

  /** Text with no two backticks in a row contains no double backtick. */
  lemma {:induction false} NoDoubleBacktick(s: string)
    requires forall i :: 0 <= i < |s| - 1 ==> !(s[i] == '`' && s[i + 1] == '`')
    ensures !Contains(s, "``")
    decreases |s|
  {
    if |s| > 0 {
      if |s| >= 2 {
        assert s[..2] != "``" by {
          assert !(s[0] == '`' && s[1] == '`');
        }
      }
      assert forall i :: 0 <= i < |s| - 1 ==> s[1..][i] == s[i + 1];
      NoDoubleBacktick(s[1..]);
    }
  }

  /** As written, code opening or closing with a space, or framed by
      backticks, is put between double backticks, which RST does not read
      as an inline literal; test_renderer.py:112-148 expects the raw-HTML
      span for such code. */
  lemma CodeSpanAsWrittenLiteral()
    ensures CodeSpanAsWritten(" a") == Out("`` a``", false)
    ensures CodeSpanAsWritten("a ") == Out("``a ``", false)
    ensures CodeSpanAsWritten("`a`") == Out("```a```", false)
  {
    SingleBackticksLiteral(" a");
    SingleBackticksLiteral("a ");
    SingleBackticksLiteral("`a`");
  }

  /** As written, code whose backticks are all single is always a literal. */
  lemma SingleBackticksLiteral(code: string)
    requires forall i :: 0 <= i < |code| - 1 ==> !(code[i] == '`' && code[i + 1] == '`')
    ensures CodeSpanAsWritten(code) == Out("``" + code + "``", false)
  {
    NoDoubleBacktick(code);
  }

  /** The two definitions differ exactly on code without a double backtick
      that has whitespace or a backtick at an end: as written it becomes a
      literal, corrected it becomes the raw-HTML span. */
  lemma CodeSpanDiffers(code: string)
    requires !Contains(code, "``") && !LiteralSafe(code)
    ensures CodeSpanAsWritten(code) == Out("``" + code + "``", false)
    ensures CodeSpan(code).rawHtml
  {
  }

  /** The corrected `codespan` sends code opening with a space
      (test_renderer.py:112-121) through the raw-HTML span. */
  lemma CodeSpanOpeningSpace()
    ensures CodeSpan(" `a`:role:").rawHtml
  {
    assert " `a`:role:"[0] == ' ';
  }

  /** ... code closing with a space (test_renderer.py:123-132) ... */
  lemma CodeSpanClosingSpace()
    ensures CodeSpan(":role:`a` ").rawHtml
  {
    assert ":role:`a` "[9] == ' ';
  }

  /** ... and code framed by backticks (test_renderer.py:139-148). */
  lemma CodeSpanFramed()
    ensures CodeSpan("`a`").rawHtml
  {
    assert "`a`"[0] == '`';
  }

  /** Plain code stays a literal (test_renderer.py:134-137). */
  lemma CodeSpanPlain()
    ensures CodeSpan("a") == Out("``a``", false)
  {
    NoDoubleBacktick("a");
  }

  /** Where the code is a well-formed literal body the two definitions agree,
      and where it holds a double backtick they agree too: they differ only
      on code with whitespace or a backtick at an end. */
  lemma CodeSpanAgrees(code: string)
    ensures LiteralSafe(code) || Contains(code, "``") ==> CodeSpan(code) == CodeSpanAsWritten(code)
    ensures CodeSpan(code) != CodeSpanAsWritten(code) ==>
              !Contains(code, "``") && |code| > 0
              && (IsSpace(code[0]) || code[0] == '`' || IsSpace(code[|code| - 1]) || code[|code| - 1] == '`')
  {
  }

  // ---------------------------------------------------------------------
  // Links around images

  /** Text that cannot start a `:target: ` field anywhere before `b`. */
  predicate NoTargetBefore(a: string, b: string) {
    forall i :: 0 <= i < |a| ==> !StartsWith(a[i..] + b, TargetKey)
  }

  /** Text in which no target field starts is copied unchanged. */
  lemma {:induction false} RewriteSkip(a: string, b: string, url: string)
    requires NoTargetBefore(a, b)
    ensures RewriteTargets(a + b, url) == a + RewriteTargets(b, url)
    decreases |a|
  {
    if |a| == 0 {
      assert a + b == b;
    } else {
      assert a[0..] == a;
      assert (a + b)[1..] == a[1..] + b;
      forall i | 0 <= i < |a| - 1
        ensures !StartsWith(a[1..][i..] + b, TargetKey)
      {
        assert a[1..][i..] == a[i + 1..];
      }
      RewriteSkip(a[1..], b, url);
    }
  }

  /** A field whose value ends at a newline gets `url` as its new value. */
  lemma RewriteLine(target: string, rest: string, url: string)
    requires '\n' !in target
    ensures RewriteTargets(TargetKey + target + "\n" + rest, url)
            == TargetKey + url + "\n" + RewriteTargets(rest, url)
  {
    var s := TargetKey + target + "\n" + rest;
    var v := s[|TargetKey|..];
    assert v == target + "\n" + rest;
    assert v[|target|] == '\n';
    assert FirstNewline(v) == |target|;
    assert s[|TargetKey| + |target| + 1..] == rest;
  }

  /** Constant text in which every `:` is followed by something other than `t`. */
  lemma ColonSkip(a: string, b: string)
    requires forall i :: 0 <= i < |a| ==> a[i] != ':' || (i + 1 < |a| && a[i + 1] != 't')
    ensures NoTargetBefore(a, b)
  {
    forall i | 0 <= i < |a|
      ensures !StartsWith(a[i..] + b, TargetKey)
    {
      var x := a[i..] + b;
      if |x| >= |TargetKey| {
        if a[i] != ':' {
          assert x[..|TargetKey|][0] != TargetKey[0];
        } else {
          assert x[..|TargetKey|][1] != TargetKey[1];
        }
      }
    }
  }

  /** Text without the field name, followed by a new line, cannot start one. */
  lemma FreeSkip(x: string, b: string)
    requires !Contains(x, TargetKey) && |b| > 0 && b[0] == '\n'
    ensures NoTargetBefore(x, b)
  {
    forall i | 0 <= i < |x|
      ensures !StartsWith(x[i..] + b, TargetKey)
    {
      if StartsWith(x[i..], TargetKey) {
        ContainsSuffix(x, i, TargetKey);
      }
      NoStartAcross(x[i..], b, TargetKey);
    }
  }

  /** The last line of an image block has no target field to rewrite. */
  lemma RewriteAltLine(alt: string, url: string)
    requires !Contains(alt, TargetKey)
    ensures RewriteTargets("   :alt: " + alt + "\n", url) == "   :alt: " + alt + "\n"
  {
    ColonSkip("   :alt: ", alt + "\n");
    RewriteSkip("   :alt: ", alt + "\n", url);
    FreeSkip(alt, "\n");
    RewriteSkip(alt, "\n", url);
    assert RewriteTargets("\n", url) == "\n";
    assert "   :alt: " + alt + "\n" == "   :alt: " + (alt + "\n");
  }

  /** The image line is copied unchanged up to the newline that ends it. */
  lemma RewriteImageLine(path: string, rest: string, url: string)
    requires !Contains(path, TargetKey) && |rest| > 0 && rest[0] == '\n'
    ensures RewriteTargets("\n.. image:: " + (path + rest), url)
            == "\n.. image:: " + (path + RewriteTargets(rest, url))
  {
    ColonSkip("\n.. image:: ", path + rest);
    RewriteSkip("\n.. image:: ", path + rest, url);
    FreeSkip(path, rest);
    RewriteSkip(path, rest, url);
  }

  /** The target line gets the new target; the alt line stays. */
  lemma RewriteTargetLine(target: string, alt: string, url: string)
    requires '\n' !in target && !Contains(alt, TargetKey)
    ensures RewriteTargets("\n   " + (TargetKey + target + "\n" + ("   :alt: " + alt + "\n")), url)
            == "\n   " + (TargetKey + url + "\n" + ("   :alt: " + alt + "\n"))
  {
    var tail := "   :alt: " + alt + "\n";
    ColonSkip("\n   ", TargetKey + target + "\n" + tail);
    RewriteSkip("\n   ", TargetKey + target + "\n" + tail, url);
    RewriteLine(target, tail, url);
    RewriteAltLine(alt, url);
  }

  /** An image block, grouped the way the rewrite walks it. */
  lemma ImageBlockParts(path: string, target: string, alt: string)
    ensures ImageBlock(path, target, alt)
            == "\n.. image:: " + (path + ("\n   " + (TargetKey + target + "\n" + ("   :alt: " + alt + "\n"))))
  {
  }

  /** Rewriting an image block changes its target and nothing else. */
  lemma RewriteImageBlock(url: string, path: string, target: string, alt: string)
    requires '\n' !in target
    requires !Contains(path, TargetKey) && !Contains(alt, TargetKey)
    ensures RewriteTargets(ImageBlock(path, target, alt), url) == ImageBlock(path, url, alt)
  {
    ImageBlockParts(path, target, alt);
    ImageBlockParts(path, url, alt);
    RewriteImageLine(path, "\n   " + (TargetKey + target + "\n" + ("   :alt: " + alt + "\n")), url);
    RewriteTargetLine(target, alt, url);
  }

  /** A link around an image keeps the image and its alt text and makes the
      link's url the image's target, whatever the link's title. */
  lemma LinkAroundImage(url: string, path: string, target: string, alt: string, title: Option<string>)
    requires '\n' !in target
    requires !Contains(path, TargetKey) && !Contains(alt, TargetKey)
    ensures Link(url, ImageBlock(path, target, alt), title) == Out(ImageBlock(path, url, alt), false)
  {
    assert StartsWith(ImageBlock(path, target, alt), ImageHead);
    RewriteImageBlock(url, path, target, alt);
  }

  /** A link around an image link retargets it the same way: the url, the
      alt text and the directive stay, and the link's url becomes the target. */
  lemma LinkAroundImageLink(url: string, src: string, target: string, alt: string, title: Option<string>)
    requires '\n' !in target
    requires !Contains(src, TargetKey) && !Contains(alt, TargetKey)
    ensures Link(url, ImageLink(src, target, alt), title) == Out(ImageLink(src, url, alt), false)
  {
    LinkAroundImage(url, src, target, alt, title);
  }

  // ---------------------------------------------------------------------
  // Image paths

  /** Appending a name without a slash leaves the last slash where it was. */
  lemma {:induction false} AfterLastSlashAppend(p: string, name: string)
    requires '/' !in name
    ensures AfterLastSlash(p + name) == AfterLastSlash(p)
    decreases |name|
  {
    if |name| > 0 {
      var q := p + name;
      assert q[..|q| - 1] == p + name[..|name| - 1];
      AfterLastSlashAppend(p, name[..|name| - 1]);
    } else {
      assert p + name == p;
    }
  }

  /** `dirname` gives back the directory a file name was joined to. */
  lemma DirnameOfJoin(dir: string, name: string)
    requires dir != "" && dir[|dir| - 1] != '/' && '/' !in name
    ensures Dirname(PosixJoin(dir, name)) == dir
  {
    var d := dir + "/";
    if |name| > 0 {
      assert name[0] in name;
    }
    assert PosixJoin(dir, name) == d + name;
    AfterLastSlashAppend(d, name);
    assert (d + name)[..|d|] == d;
    assert !AllSlashes(d) by {
      assert d[|dir| - 1] != '/';
    }
    assert d[..|d| - 1] == dir;
  }

  /** A document path without a directory puts images next to it. */
  lemma DirnameOfName(name: string)
    requires '/' !in name
    ensures Dirname(name) == ""
  {
    assert forall j :: 0 <= j < |name| ==> name[j] != '/';
  }

  /** An image referenced from a document in the current directory keeps
      its source as both path and target: `![alt text](a.png)` in
      `README.md` becomes `.. image:: a.png` with target `a.png`. */
  lemma ImageNextToDocument(doc: string, src: string, alt: string, title: Option<string>)
    requires '/' !in doc && '\\' !in src
    ensures Image(doc, src, alt, title) == ImageBlock(src, src, alt)
  {
    DirnameOfName(doc);
    assert PosixJoin("", src) == src;
    ContainsChar(src, '\\');
    ReplaceAllIdentity(src, "\\", "/");
  }
}
