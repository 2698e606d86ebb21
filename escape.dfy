/** The two HTML escapers: the three-character one written inline in both versions of
    `formatMessage` of public/chat.js, and `escapeHtml` of public/script.js, which maps five
    characters. Both rewrite one character at a time, left to right, and copy every other
    character unchanged. */
module Escape {
  import opened Text

  // ---------------------------------------------------------------------------
  // The three-character escaper of public/chat.js

  predicate IsCodeSpecial(c: char) {
    c == '&' || c == '<' || c == '>'
  }

  /** The replacement of one character by the table `{ "&": "&amp;", "<": "&lt;", ">": "&gt;" }`. */
  function CodeEntity(c: char): string {
    if c == '&' then "&amp;"
    else if c == '<' then "&lt;"
    else if c == '>' then "&gt;"
    else [c]
  }

  predicate NoCodeSpecial(s: string) {
    forall i :: 0 <= i < |s| ==> !IsCodeSpecial(s[i])
  }

  lemma ExcludesNoCodeSpecial(s: string)
    requires Excludes(s, '&') && Excludes(s, '<') && Excludes(s, '>')
    ensures NoCodeSpecial(s)
  {
  }

  /** `code.replace(/[&<>]/g, …)`: the result holds no raw `<` or `>`; it is no shorter than
      the input, and exactly as long (and then equal to it) when the input holds none of
      the three characters. */
  function EscapeCode(s: string): (r: string)
    ensures forall i :: 0 <= i < |r| ==> r[i] != '<' && r[i] != '>'
    ensures |r| >= |s|
    ensures |r| == |s| <==> NoCodeSpecial(s)
    ensures NoCodeSpecial(s) ==> r == s
  {
    if s == [] then []
    else
      var rest := EscapeCode(s[1..]);
      assert NoCodeSpecial(s) ==> NoCodeSpecial(s[1..]) by {
        if NoCodeSpecial(s) {
          forall i | 0 <= i < |s[1..]| ensures !IsCodeSpecial(s[1..][i]) { assert s[1..][i] == s[i + 1]; }
        }
      }
      assert NoCodeSpecial(s[1..]) && !IsCodeSpecial(s[0]) ==> NoCodeSpecial(s) by {
        if NoCodeSpecial(s[1..]) && !IsCodeSpecial(s[0]) {
          forall i | 0 <= i < |s| ensures !IsCodeSpecial(s[i]) { if i > 0 { assert s[i] == s[1..][i - 1]; } }
        }
      }
      assert s == [s[0]] + s[1..];
      CodeEntity(s[0]) + rest
  }

  // ---------------------------------------------------------------------------
  // `escapeHtml` of public/script.js

  predicate IsHtmlSpecial(c: char) {
    c == '&' || c == '<' || c == '>' || c == '"' || c == '\''
  }

  /** The replacement of one character by the table of `escapeHtml`. */
  function HtmlEntity(c: char): string {
    if c == '&' then "&amp;"
    else if c == '<' then "&lt;"
    else if c == '>' then "&gt;"
    else if c == '"' then "&quot;"
    else if c == '\'' then "&#39;"
    else [c]
  }

  predicate NoHtmlSpecial(s: string) {
    forall i :: 0 <= i < |s| ==> !IsHtmlSpecial(s[i])
  }

  lemma NoHtmlSpecialCons(s: string)
    requires s != []
    ensures NoHtmlSpecial(s) <==> !IsHtmlSpecial(s[0]) && NoHtmlSpecial(s[1..])
  {
    if NoHtmlSpecial(s) {
      forall i | 0 <= i < |s[1..]| ensures !IsHtmlSpecial(s[1..][i]) { assert s[1..][i] == s[i + 1]; }
    }
    if !IsHtmlSpecial(s[0]) && NoHtmlSpecial(s[1..]) {
      forall i | 0 <= i < |s| ensures !IsHtmlSpecial(s[i]) { if i > 0 { assert s[i] == s[1..][i - 1]; } }
    }
  }

  /** A replacement holds none of `< > " '`. */
  lemma HtmlEntitySafe(c: char)
    ensures var e := HtmlEntity(c);
            Excludes(e, '<') && Excludes(e, '>') && Excludes(e, '"') && Excludes(e, '\'')
  {
  }

  /** `escapeHtml(str)`: the result holds none of `< > " '`; it is no shorter than the input,
      and exactly as long (and then equal to it) when the input holds none of the five. */
  function EscapeHtml(s: string): (r: string)
    ensures Excludes(r, '<') && Excludes(r, '>') && Excludes(r, '"') && Excludes(r, '\'')
    ensures |r| >= |s|
    ensures |r| == |s| <==> NoHtmlSpecial(s)
    ensures NoHtmlSpecial(s) ==> r == s
  {
    if s == [] then []
    else
      var rest := EscapeHtml(s[1..]);
      NoHtmlSpecialCons(s);
      HtmlEntitySafe(s[0]);
      ExcludesAppend(HtmlEntity(s[0]), rest, '<');
      ExcludesAppend(HtmlEntity(s[0]), rest, '>');
      ExcludesAppend(HtmlEntity(s[0]), rest, '"');
      ExcludesAppend(HtmlEntity(s[0]), rest, '\'');
      assert s == [s[0]] + s[1..];
      HtmlEntity(s[0]) + rest
  }

  // ---------------------------------------------------------------------------
  // The inverse: decoding the five entities

  /** Decodes `&amp; &lt; &gt; &quot; &#39;` left to right and copies everything else. */
  function Unescape(s: string): string
    decreases |s|
  {
    if s == [] then []
    else if s[0] != '&' then [s[0]] + Unescape(s[1..])
    else if OccursAt(s, "&amp;", 0) then "&" + Unescape(s[5..])
    else if OccursAt(s, "&lt;", 0) then "<" + Unescape(s[4..])
    else if OccursAt(s, "&gt;", 0) then ">" + Unescape(s[4..])
    else if OccursAt(s, "&quot;", 0) then "\"" + Unescape(s[6..])
    else if OccursAt(s, "&#39;", 0) then "'" + Unescape(s[5..])
    else "&" + Unescape(s[1..])
  }

  lemma NotPrefix(s: string, p: string, i: nat)
    requires i < |p| && i < |s| && s[i] != p[i]
    ensures !OccursAt(s, p, 0)
  {
    assert |p| <= |s| ==> s[..|p|][i] == s[i];
  }

  lemma UnescapeEntity(e: string, c: char, x: string)
    requires e == HtmlEntity(c)
    ensures Unescape(e + x) == [c] + Unescape(x)
  {
    var s := e + x;
    if c == '&' {
      assert s[..5] == e && s[5..] == x;
    } else if c == '<' || c == '>' {
      NotPrefix(s, "&amp;", 1);
      if c == '>' { NotPrefix(s, "&lt;", 1); }
      assert s[..4] == e && s[4..] == x;
    } else if c == '"' {
      NotPrefix(s, "&amp;", 1);
      NotPrefix(s, "&lt;", 1);
      NotPrefix(s, "&gt;", 1);
      assert s[..6] == e && s[6..] == x;
    } else if c == '\'' {
      NotPrefix(s, "&amp;", 1);
      NotPrefix(s, "&lt;", 1);
      NotPrefix(s, "&gt;", 1);
      NotPrefix(s, "&quot;", 1);
      assert s[..5] == e && s[5..] == x;
    } else {
      assert s[1..] == x;
    }
  }

  /** Nothing is lost by `escapeHtml`: decoding its output gives the input back. */
  lemma {:induction false} UnescapeEscapeHtml(s: string)
    ensures Unescape(EscapeHtml(s)) == s
    decreases |s|
  {
    if s != [] {
      UnescapeEscapeHtml(s[1..]);
      UnescapeEntity(HtmlEntity(s[0]), s[0], EscapeHtml(s[1..]));
      assert s == [s[0]] + s[1..];
    }
  }

  /** Each replacement of the three-character table decodes to the character it
      replaced; a quote character, left raw, decodes to itself. */
  lemma UnescapeCodeEntity(c: char, x: string)
    ensures Unescape(CodeEntity(c) + x) == [c] + Unescape(x)
  {
    if c == '"' || c == '\'' {
      assert ([c] + x)[1..] == x;
    } else {
      UnescapeEntity(CodeEntity(c), c, x);
    }
  }

  /** Nothing is lost by the three-character escaper either: the same decoder inverts it,
      since the quote characters it leaves raw decode to themselves. */
  lemma {:induction false} UnescapeEscapeCode(s: string)
    ensures Unescape(EscapeCode(s)) == s
    decreases |s|
  {
    if s != [] {
      EscapeCodeCons(s);
      UnescapeEscapeCode(s[1..]);
      UnescapeCodeEntity(s[0], EscapeCode(s[1..]));
      assert s == [s[0]] + s[1..];
    }
  }

  lemma EscapeCodeCons(s: string)
    requires s != []
    ensures EscapeCode(s) == CodeEntity(s[0]) + EscapeCode(s[1..])
  {
  }

  /** Escaping a concatenation escapes each part: no replacement straddles a boundary. */
  lemma {:induction false} EscapeCodeAppend(a: string, b: string)
    ensures EscapeCode(a + b) == EscapeCode(a) + EscapeCode(b)
    decreases |a|
  {
    if a == [] {
      assert a + b == b;
    } else {
      assert (a + b)[0] == a[0] && (a + b)[1..] == a[1..] + b;
      EscapeCodeAppend(a[1..], b);
      EscapeCodeCons(a + b);
      EscapeCodeCons(a);
      Associate(CodeEntity(a[0]), EscapeCode(a[1..]), EscapeCode(b));
    }
  }

  /** The two escapers agree on text without quote characters. */
  lemma {:induction false} EscapeHtmlAgreesWithCode(s: string)
    requires forall i :: 0 <= i < |s| ==> s[i] != '"' && s[i] != '\''
    ensures EscapeHtml(s) == EscapeCode(s)
    decreases |s|
  {
    if s != [] {
      EscapeHtmlAgreesWithCode(s[1..]);
    }
  }

  /** Escaping is not idempotent: escaping already escaped text escapes its ampersands again. */
  lemma EscapeCodeTwice()
    ensures EscapeCode("<") == "&lt;"
    ensures EscapeCode(EscapeCode("<")) == "&amp;lt;"
  {
    assert EscapeCode("<") == "&lt;";
    assert "&lt;"[1..] == "lt;";
    assert "lt;"[1..] == "t;";
    assert "t;"[1..] == ";";
    assert ";"[1..] == "";
  }

  /** Text around one `<` that holds none of the three characters is copied, and the `<`
      becomes `&lt;`. */
  lemma EscapeCodeOnce(a: string, b: string)
    requires Excludes(a, '&') && Excludes(a, '<') && Excludes(a, '>')
    requires Excludes(b, '&') && Excludes(b, '<') && Excludes(b, '>')
    ensures EscapeCode(a + "<" + b) == a + "&lt;" + b
  {
    ExcludesNoCodeSpecial(a);
    ExcludesNoCodeSpecial(b);
    EscapeCodeAppend(a, "<");
    EscapeCodeAppend(a + "<", b);
    EscapeCodeTwice();
  }

  /** A character that no entity of the three-character escaper uses stays absent. */
  lemma {:induction false} EscapeCodeExcludes(s: string, c: char)
    requires Excludes(s, c) && c !in {'&', 'a', 'm', 'p', 'l', 't', 'g', ';'}
    ensures Excludes(EscapeCode(s), c)
    decreases |s|
  {
    if s != [] {
      assert Excludes(s[1..], c) by {
        forall i | 0 <= i < |s[1..]| ensures s[1..][i] != c { assert s[1..][i] == s[i + 1]; }
      }
      EscapeCodeExcludes(s[1..], c);
      assert Excludes(CodeEntity(s[0]), c);
      ExcludesAppend(CodeEntity(s[0]), EscapeCode(s[1..]), c);
    }
  }

  /** A character that no entity of `escapeHtml` uses stays absent. */
  lemma {:induction false} EscapeHtmlExcludes(s: string, c: char)
    requires Excludes(s, c) && c !in {'&', 'a', 'm', 'p', 'l', 't', 'g', ';', 'q', 'u', 'o', '#', '3', '9'}
    ensures Excludes(EscapeHtml(s), c)
    decreases |s|
  {
    if s != [] {
      assert Excludes(s[1..], c) by {
        forall i | 0 <= i < |s[1..]| ensures s[1..][i] != c { assert s[1..][i] == s[i + 1]; }
      }
      EscapeHtmlExcludes(s[1..], c);
      assert Excludes(HtmlEntity(s[0]), c);
      ExcludesAppend(HtmlEntity(s[0]), EscapeHtml(s[1..]), c);
    }
  }
}
