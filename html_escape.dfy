/**
 * The server-side escaper `escape_html_keep_math` of app.py: four chained
 * `str.replace` calls that turn `&`, `<`, `>` into entities and line breaks
 * into `<br>`, leaving `$` and `\` alone so that LaTeX survives.
 */
module HtmlEscape {

  /** Number of occurrences of `c` in `s`. */
  function Count(s: string, c: char): (n: nat)
    ensures n <= |s|
    ensures n == 0 <==> c !in s
  {
    if s == [] then 0 else (if s[0] == c then 1 else 0) + Count(s[1..], c)
  }

  /**
   * Python's `s.replace(c, rep)` for a one-character pattern `c`: every
   * occurrence of `c`, read left to right, is replaced by `rep`; nothing
   * else changes.
   */
  function ReplaceChar(s: string, c: char, rep: string): (r: string)
    ensures c !in s ==> r == s
    ensures c !in rep ==> c !in r
  {
    if s == [] then []
    else (if s[0] == c then rep else [s[0]]) + ReplaceChar(s[1..], c, rep)
  }

  /** `escape_html_keep_math(s)` exactly as written: the four replaces in source order. */
  function EscapeHtmlKeepMath(s: string): (r: string)
    ensures '\n' !in r
    ensures '&' !in s && '<' !in s && '>' !in s && '\n' !in s ==> r == s
  {
    ReplaceChar(ReplaceChar(ReplaceChar(ReplaceChar(s, '&', "&amp;"), '<', "&lt;"), '>', "&gt;"), '\n', "<br>")
  }

  /** What one input character becomes. */
  function EscapeChar(c: char): string {
    match c
    case '&' => "&amp;"
    case '<' => "&lt;"
    case '>' => "&gt;"
    case '\n' => "<br>"
    case _ => [c]
  }

  /** The reference definition: escape every character on its own and concatenate, in order. */
  function EscapeMap(s: string): string {
    if s == [] then [] else EscapeChar(s[0]) + EscapeMap(s[1..])
  }

  /**
   * Inverse of the escaper: reads the four inserted sequences back as the
   * characters they stand for, and every other character as itself.
   */
  function Unescape(r: string): string
    decreases |r|
  {
    if r == [] then []
    else if "&amp;" <= r then ['&'] + Unescape(r[5..])
    else if "&lt;" <= r then ['<'] + Unescape(r[4..])
    else if "&gt;" <= r then ['>'] + Unescape(r[4..])
    else if "<br>" <= r then ['\n'] + Unescape(r[4..])
    else [r[0]] + Unescape(r[1..])
  }

  lemma {:induction false} ReplaceCharAppend(a: string, b: string, c: char, rep: string)
    ensures ReplaceChar(a + b, c, rep) == ReplaceChar(a, c, rep) + ReplaceChar(b, c, rep)
  {
    if a == [] {
      assert a + b == b;
    } else {
      assert (a + b)[0] == a[0];
      assert (a + b)[1..] == a[1..] + b;
      ReplaceCharAppend(a[1..], b, c, rep);
    }
  }

  /** The chain distributes over concatenation, because each replace does. */
  lemma EscapeAppend(a: string, b: string)
    ensures EscapeHtmlKeepMath(a + b) == EscapeHtmlKeepMath(a) + EscapeHtmlKeepMath(b)
  {
    var a1, b1 := ReplaceChar(a, '&', "&amp;"), ReplaceChar(b, '&', "&amp;");
    ReplaceCharAppend(a, b, '&', "&amp;");
    var a2, b2 := ReplaceChar(a1, '<', "&lt;"), ReplaceChar(b1, '<', "&lt;");
    ReplaceCharAppend(a1, b1, '<', "&lt;");
    var a3, b3 := ReplaceChar(a2, '>', "&gt;"), ReplaceChar(b2, '>', "&gt;");
    ReplaceCharAppend(a2, b2, '>', "&gt;");
    ReplaceCharAppend(a3, b3, '\n', "<br>");
  }

  /**
   * On one character the chain gives that character's escape: `&` goes
   * first, so the `&` of an entity inserted later is never escaped again,
   * and the newline goes last, so no `<` of `<br>` is escaped either.
   */
  lemma EscapeOneChar(c: char)
    ensures EscapeHtmlKeepMath([c]) == EscapeChar(c)
  {
    if c == '&' {
      EscapeAmpersand();
    } else if c == '<' {
      EscapeLess();
    } else if c == '>' {
      EscapeGreater();
    } else if c == '\n' {
      EscapeNewline();
    } else {
      assert '&' !in [c] && '<' !in [c] && '>' !in [c] && '\n' !in [c];
    }
  }

  lemma EscapeAmpersand()
    ensures EscapeHtmlKeepMath("&") == "&amp;"
  {
    ReplaceOne('&', "&amp;");
    assert '<' !in "&amp;" && '>' !in "&amp;" && '\n' !in "&amp;";
  }

  lemma EscapeLess()
    ensures EscapeHtmlKeepMath("<") == "&lt;"
  {
    assert ReplaceChar("<", '&', "&amp;") == "<";
    ReplaceOne('<', "&lt;");
    assert '>' !in "&lt;" && '\n' !in "&lt;";
  }

  lemma EscapeGreater()
    ensures EscapeHtmlKeepMath(">") == "&gt;"
  {
    assert ReplaceChar(">", '&', "&amp;") == ">";
    assert ReplaceChar(">", '<', "&lt;") == ">";
    ReplaceOne('>', "&gt;");
    assert '\n' !in "&gt;";
  }

  lemma EscapeNewline()
    ensures EscapeHtmlKeepMath("\n") == "<br>"
  {
    assert ReplaceChar("\n", '&', "&amp;") == "\n";
    assert ReplaceChar("\n", '<', "&lt;") == "\n";
    assert ReplaceChar("\n", '>', "&gt;") == "\n";
    ReplaceOne('\n', "<br>");
  }

  /** Replacing `c` in the one-character string `[c]` gives the replacement. */
  lemma ReplaceOne(c: char, rep: string)
    ensures ReplaceChar([c], c, rep) == rep
  {
    assert ReplaceChar([c][1..], c, rep) == [];
  }

  /** The central fact: the chained replaces equal the per-character map. */
  lemma {:induction false} EscapeIsCharMap(s: string)
    ensures EscapeHtmlKeepMath(s) == EscapeMap(s)
  {
    if s != [] {
      assert s == [s[0]] + s[1..];
      EscapeAppend([s[0]], s[1..]);
      EscapeOneChar(s[0]);
      EscapeIsCharMap(s[1..]);
    }
  }

  lemma {:induction false} CountAppend(a: string, b: string, c: char)
    ensures Count(a + b, c) == Count(a, c) + Count(b, c)
  {
    if a == [] {
      assert a + b == b;
    } else {
      assert (a + b)[1..] == a[1..] + b;
      CountAppend(a[1..], b, c);
    }
  }

  /**
   * Exact output length: each `&` grows by four characters, each `<`, `>`
   * and newline by three, and every other character keeps its length.
   */
  lemma {:induction false} EscapedLength(s: string)
    ensures |EscapeHtmlKeepMath(s)| ==
      |s| + 4 * Count(s, '&') + 3 * Count(s, '<') + 3 * Count(s, '>') + 3 * Count(s, '\n')
  {
    EscapeIsCharMap(s);
    MapLength(s);
  }

  lemma {:induction false} MapLength(s: string)
    ensures |EscapeMap(s)| ==
      |s| + 4 * Count(s, '&') + 3 * Count(s, '<') + 3 * Count(s, '>') + 3 * Count(s, '\n')
  {
    if s != [] {
      MapLength(s[1..]);
    }
  }

  /** Escaped text reads back as the original: no inserted entity is escaped twice. */
  lemma {:induction false} UnescapeEscape(s: string)
    ensures Unescape(EscapeHtmlKeepMath(s)) == s
  {
    EscapeIsCharMap(s);
    UnescapeMap(s);
  }

  lemma {:induction false} UnescapeMap(s: string)
    ensures Unescape(EscapeMap(s)) == s
  {
    if s != [] {
      var c, t := s[0], EscapeMap(s[1..]);
      var r := EscapeChar(c) + t;
      assert EscapeMap(s) == r;
      UnescapeMap(s[1..]);
      if c == '&' {
        assert "&amp;" <= r;
        assert r[5..] == t;
      } else if c == '<' {
        assert r[1] == 'l' != "&amp;"[1];
        assert !("&amp;" <= r) && "&lt;" <= r;
        assert r[4..] == t;
      } else if c == '>' {
        assert r[1] == 'g' != "&amp;"[1] && r[1] != "&lt;"[1];
        assert !("&amp;" <= r) && !("&lt;" <= r) && "&gt;" <= r;
        assert r[4..] == t;
      } else if c == '\n' {
        assert r[0] == '<' != '&';
        assert !("&amp;" <= r) && !("&lt;" <= r) && !("&gt;" <= r) && "<br>" <= r;
        assert r[4..] == t;
      } else {
        assert r[0] == c;
        assert !("&amp;" <= r) && !("&lt;" <= r) && !("&gt;" <= r) && !("<br>" <= r);
        assert r[1..] == t;
      }
      assert s == [c] + s[1..];
    }
  }

  /** Two different texts never escape to the same HTML. */
  lemma EscapeInjective(a: string, b: string)
    requires EscapeHtmlKeepMath(a) == EscapeHtmlKeepMath(b)
    ensures a == b
  {
    UnescapeEscape(a);
    UnescapeEscape(b);
  }

  /** At index `i` of `r`, an `&` starts an entity, a `<` starts `<br>` and a `>` ends one. */
  predicate MarkupInsertedAt(r: string, i: nat)
    requires i < |r|
  {
    && (r[i] == '&' ==> "&amp;" <= r[i..] || "&lt;" <= r[i..] || "&gt;" <= r[i..])
    && (r[i] == '<' ==> "<br>" <= r[i..])
    && (r[i] == '>' ==> i >= 3 && "<br>" <= r[i - 3..])
  }

  /**
   * No stray markup: every `&` of the output begins `&amp;`, `&lt;` or
   * `&gt;`, and every `<` and `>` belongs to an inserted `<br>`.
   */
  lemma EscapedMarkupIsInserted(s: string)
    ensures forall i | 0 <= i < |EscapeHtmlKeepMath(s)| :: MarkupInsertedAt(EscapeHtmlKeepMath(s), i)
  {
    EscapeIsCharMap(s);
    forall i | 0 <= i < |EscapeMap(s)|
      ensures MarkupInsertedAt(EscapeMap(s), i)
    {
      MapMarkupAt(s, i);
    }
  }

  lemma {:induction false} MapMarkupAt(s: string, i: nat)
    requires i < |EscapeMap(s)|
    ensures MarkupInsertedAt(EscapeMap(s), i)
  {
    var e, t := EscapeChar(s[0]), EscapeMap(s[1..]);
    assert EscapeMap(s) == e + t;
    if i < |e| {
      TokenMarkupAt(s[0], t, i);
    } else {
      MapMarkupAt(s[1..], i - |e|);
      ShiftMarkup(e, t, i - |e|);
    }
  }

  /** Inside the escape of one character, whatever follows it. */
  lemma TokenMarkupAt(c: char, t: string, i: nat)
    requires i < |EscapeChar(c)|
    ensures MarkupInsertedAt(EscapeChar(c) + t, i)
  {
    var e := EscapeChar(c);
    var r := e + t;
    assert r[i] == e[i];
    assert r[0..] == r;
    if c == '&' || c == '<' || c == '>' {
      assert r[i] == '&' ==> i == 0;
      assert r[i] != '<' && r[i] != '>';
    } else if c == '\n' {
      assert r[i] == '<' ==> i == 0;
      assert r[i] == '>' ==> i == 3;
      assert r[i] != '&';
    } else {
      assert r[i] == c;
    }
  }

  /** Text put in front moves every inserted piece of markup along with it. */
  lemma ShiftMarkup(e: string, t: string, j: nat)
    requires j < |t| && MarkupInsertedAt(t, j)
    ensures MarkupInsertedAt(e + t, |e| + j)
  {
    var r, i := e + t, |e| + j;
    assert r[i] == t[j];
    assert r[i..] == t[j..];
    if t[j] == '>' {
      assert r[i - 3..] == t[j - 3..];
    }
  }

  /** The characters LaTeX needs from the escaper: `$` and backslash. */
  predicate IsMathMark(c: char) {
    c == '$' || c == '\\'
  }

  /** The `$` and backslash characters of `s`, in order. */
  function MathMarks(s: string): string {
    if s == [] then []
    else (if IsMathMark(s[0]) then [s[0]] else []) + MathMarks(s[1..])
  }

  lemma {:induction false} MathMarksAppend(a: string, b: string)
    ensures MathMarks(a + b) == MathMarks(a) + MathMarks(b)
  {
    if a == [] {
      assert a + b == b;
    } else {
      var head := if IsMathMark(a[0]) then [a[0]] else [];
      assert (a + b)[0] == a[0] && (a + b)[1..] == a[1..] + b;
      assert MathMarks(a + b) == head + MathMarks(a[1..] + b);
      MathMarksAppend(a[1..], b);
      assert MathMarks(a) == head + MathMarks(a[1..]);
    }
  }

  /**
   * `$` and backslash survive escaping in number and relative order: the
   * sequence of them in the output is the one in the input.
   */
  lemma {:induction false} MathMarksKept(s: string)
    ensures MathMarks(EscapeHtmlKeepMath(s)) == MathMarks(s)
    ensures Count(EscapeHtmlKeepMath(s), '$') == Count(s, '$')
    ensures Count(EscapeHtmlKeepMath(s), '\\') == Count(s, '\\')
  {
    EscapeIsCharMap(s);
    MapKeepsMarks(s);
  }

  lemma {:induction false} MapKeepsMarks(s: string)
    ensures MathMarks(EscapeMap(s)) == MathMarks(s)
    ensures Count(EscapeMap(s), '$') == Count(s, '$')
    ensures Count(EscapeMap(s), '\\') == Count(s, '\\')
  {
    if s != [] {
      var c, e, t := s[0], EscapeChar(s[0]), EscapeMap(s[1..]);
      MapKeepsMarks(s[1..]);
      MathMarksAppend(e, t);
      CountAppend(e, t, '$');
      CountAppend(e, t, '\\');
      EscapeCharKeepsMarks(c);
      assert s == [c] + s[1..];
      MathMarksAppend([c], s[1..]);
      CountAppend([c], s[1..], '$');
      CountAppend([c], s[1..], '\\');
    }
  }

  lemma EscapeCharKeepsMarks(c: char)
    ensures MathMarks(EscapeChar(c)) == MathMarks([c])
    ensures Count(EscapeChar(c), '$') == Count([c], '$')
    ensures Count(EscapeChar(c), '\\') == Count([c], '\\')
  {
    if c == '&' || c == '<' || c == '>' || c == '\n' {
      var e := EscapeChar(c);
      assert '$' !in e && '\\' !in e;
      assert MathMarks(e) == [] by { NoMarks(e); }
      assert MathMarks([c]) == [] by { NoMarks([c]); }
    }
  }

  lemma {:induction false} NoMarks(s: string)
    requires '$' !in s && '\\' !in s
    ensures MathMarks(s) == []
  {
    if s != [] {
      NoMarks(s[1..]);
    }
  }
}
