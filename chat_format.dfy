/** The two `formatMessage` versions and `detectLanguage` of public/chat.js.

    The first version (public/chat.js:110-131) rewrites fenced blocks first, labelling a block
    without a tag `plaintext`, and then turns URLs into anchors, so a URL inside a block is
    linked too. The second version (public/chat.js:156-180) links URLs first and then rewrites
    blocks, labelling a block without a tag by `detectLanguage`. */
module ChatFormat {
  import opened Text
  import opened Escape
  import opened Fences
  import opened Links

  // ---------------------------------------------------------------------------
  // First version

  /** The block template of the first version around a label and already escaped code: the
      header with the label and the copy button, then the code. */
  function CodeBlock(lang: string, escaped: string): string {
    CodeHeader(lang) + CodeBody(lang, escaped)
  }

  function CodeHeader(lang: string): string {
    "\n      <div class=\"code-block\">" + "\n        <div class=\"code-header\">" + "\n          <span>"
    + lang
    + "</span>\n          <button" + " class=\"copy-btn\"" + " onclick=\"copyCode(this)\">"
    + "Copy</button>\n        </div>"
  }

  function CodeBody(lang: string, escaped: string): string {
    "\n        <pre><code" + " class=\"language-" + lang + "\">" + escaped + "</code></pre>\n      </div>\n    "
  }

  /** `lang || "plaintext"`: an absent tag is the empty string, which is falsy. */
  function LabelOrPlaintext(tag: string): string {
    if tag == "" then "plaintext" else tag
  }

  /** The replacement callback of the first version. */
  function RewriteBlock(tag: string, code: string): string {
    CodeBlock(LabelOrPlaintext(tag), EscapeCode(code))
  }

  /** `formatMessage(text)`, first version: blocks, then links. */
  function FormatMessage(text: string): string {
    Linkify(ReplaceFences(text, Word, RewriteBlock))
  }

  /** The block template ends in white space, so links never run out of it. */
  lemma CodeBlockEndsInSpace(lang: string, escaped: string)
    ensures var b := CodeBlock(lang, escaped); b != [] && IsSpace(b[|b| - 1])
  {
    var head := CodeHeader(lang) + "\n        <pre><code" + " class=\"language-" + lang + "\">" + escaped;
    var tail := "</code></pre>\n      </div>\n    ";
    assert CodeBlock(lang, escaped) == head + tail;
    assert (head + tail)[|head + tail| - 1] == tail[|tail| - 1];
  }

  /** Text with neither a three-backtick run nor `http://` or `https://` is returned
      unchanged. */
  lemma FormatMessagePlain(text: string)
    requires NoTicks(text) && NoScheme(text)
    ensures FormatMessage(text) == text
  {
    NoFenceUnchanged(text, Word, RewriteBlock);
    NoSchemeUnchanged(text);
  }

  /** A leading block is replaced by the template, labelled and classed by its tag or by
      `plaintext` when the tag is absent, with its code escaped; the text after its closing
      fence is formatted on its own, as if the block were not there. */
  lemma FormatMessageBlock(f: Fence, rest: string)
    requires ValidFence(Word, f)
    ensures FormatMessage(Source(f) + rest)
         == Linkify(CodeBlock(LabelOrPlaintext(f.tag), EscapeCode(f.code))) + FormatMessage(rest)
  {
    ReplaceBlock(f, rest, Word, RewriteBlock);
    var b := CodeBlock(LabelOrPlaintext(f.tag), EscapeCode(f.code));
    CodeBlockEndsInSpace(LabelOrPlaintext(f.tag), EscapeCode(f.code));
    LinkifyAppend(b, ReplaceFences(rest, Word, RewriteBlock));
  }

  /** A label is a word or `plaintext`, so it holds neither a colon nor a backtick. */
  lemma LabelExcludes(tag: string, c: char)
    requires forall j :: 0 <= j < |tag| ==> IsWordChar(tag[j])
    requires c == ':' || c == '`'
    ensures Excludes(LabelOrPlaintext(tag), c)
  {
  }

  lemma CodeHeaderExcludes(lang: string, c: char)
    requires Excludes(lang, c)
    requires c == ':' || c == '`'
    ensures Excludes(CodeHeader(lang), c)
  {
    var t := Extend("\n      <div class=\"code-block\">", "\n        <div class=\"code-header\">", c);
    t := Extend(t, "\n          <span>", c);
    t := Extend(t, lang, c);
    t := Extend(t, "</span>\n          <button", c);
    t := Extend(t, " class=\"copy-btn\"", c);
    t := Extend(t, " onclick=\"copyCode(this)\">", c);
    t := Extend(t, "Copy</button>\n        </div>", c);
  }

  lemma CodeBodyExcludes(lang: string, escaped: string, c: char)
    requires Excludes(lang, c) && Excludes(escaped, c)
    requires c == ':' || c == '`'
    ensures Excludes(CodeBody(lang, escaped), c)
  {
    var t := Extend("\n        <pre><code", " class=\"language-", c);
    t := Extend(t, lang, c);
    t := Extend(t, "\">", c);
    t := Extend(t, escaped, c);
    t := Extend(t, "</code></pre>\n      </div>\n    ", c);
  }

  /** The first template adds neither a colon nor a backtick of its own. */
  lemma CodeBlockExcludes(lang: string, escaped: string, c: char)
    requires Excludes(lang, c) && Excludes(escaped, c)
    requires c == ':' || c == '`'
    ensures Excludes(CodeBlock(lang, escaped), c)
  {
    CodeHeaderExcludes(lang, c);
    CodeBodyExcludes(lang, escaped, c);
    var t := Extend(CodeHeader(lang), CodeBody(lang, escaped), c);
  }

  /** Escaping maps a backtick to itself and every other character to text without one,
      so an escaped text starts with a backtick exactly when the text does. */
  lemma EscapeCodeHead(s: string)
    requires s != []
    ensures EscapeCode(s) != [] && (EscapeCode(s)[0] == '`' <==> s[0] == '`')
  {
    EscapeCodeCons(s);
  }

  /** Three backticks at the front of an escaped text come from three at the front of the
      text. */
  lemma EscapeTicksAtFront(s: string)
    ensures TicksAt(EscapeCode(s), 0) ==> TicksAt(s, 0)
  {
    if TicksAt(EscapeCode(s), 0) {
      EscapeCodeHead(s);
      EscapeCodeCons(s);
      var r := EscapeCode(s[1..]);
      assert EscapeCode(s) == "`" + r;
      assert r != [] && r[0] == '`' && |r| >= 2;
      EscapeCodeHead(s[1..]);
      EscapeCodeCons(s[1..]);
      assert s[1..][1..] == s[2..];
      var t := EscapeCode(s[2..]);
      assert r == "`" + t && t[0] == '`';
      assert s[2..] != [];
      EscapeCodeHead(s[2..]);
    }
  }

  /** Escaping adds no three backticks in a row: backticks are copied one for one and the
      entities hold none. */
  lemma {:induction false} EscapeCodeNoTicks(s: string)
    requires NoTicks(s)
    ensures NoTicks(EscapeCode(s))
    decreases |s|
  {
    if s != [] {
      var e := CodeEntity(s[0]);
      var r := EscapeCode(s[1..]);
      EscapeCodeCons(s);
      NoTicksTail(s);
      EscapeCodeNoTicks(s[1..]);
      EscapeTicksAtFront(s);
      assert !TicksAt(s, 0);
      forall j | 0 <= j < |e + r| ensures !TicksAt(e + r, j) {
        if |e| <= j {
          if j + 3 <= |e + r| {
            assert (e + r)[j] == r[j - |e|] && (e + r)[j + 1] == r[j + 1 - |e|] && (e + r)[j + 2] == r[j + 2 - |e|];
            assert !TicksAt(r, j - |e|);
          }
        } else if s[0] != '`' {
          assert (e + r)[j] == e[j];
        }
      }
    }
  }

  /** The code of a valid block, escaped and put into the first template, holds no three
      backticks in a row: the template holds no backtick and puts `>` before the code and `<`
      after it. */
  lemma CodeBlockNoTicks(lang: string, code: string)
    requires Excludes(lang, '`') && Lazy(code)
    ensures NoTicks(CodeBlock(lang, EscapeCode(code)))
  {
    var esc := EscapeCode(code);
    LazyNoTicks(code);
    EscapeCodeNoTicks(code);
    CodeHeaderExcludes(lang, '`');
    var front := "\n        <pre><code" + " class=\"language-" + lang + "\">";
    var tail := "</code></pre>\n      </div>\n    ";
    var t := Extend("\n        <pre><code", " class=\"language-", '`');
    t := Extend(t, lang, '`');
    t := Extend(t, "\">", '`');
    t := Extend(CodeHeader(lang), t, '`');
    assert Excludes(tail, '`');
    NoTicksJoin(t, esc, tail);
    AroundCode(CodeHeader(lang), front, esc, tail);
  }

  /** A template around escaped code, written as the text before the code, the code and
      the text after it. */
  lemma AroundCode(head: string, front: string, esc: string, tail: string)
    ensures head + (front + esc + tail) == (head + front) + esc + tail
  {
  }

  /** Formatting a message whose one block holds code without colons gives the block's
      HTML, and formatting that HTML again changes nothing: its escaped code holds no scheme,
      and no fence, since a shortest match holds no three backticks in a row. */
  lemma FormatMessageIdempotent(f: Fence)
    requires ValidFence(Word, f) && Excludes(f.code, ':')
    ensures FormatMessage(Source(f)) == RewriteBlock(f.tag, f.code)
    ensures FormatMessage(FormatMessage(Source(f))) == FormatMessage(Source(f))
  {
    var b := RewriteBlock(f.tag, f.code);
    var lang := LabelOrPlaintext(f.tag);
    LabelExcludes(f.tag, ':');
    LabelExcludes(f.tag, '`');
    EscapeCodeExcludes(f.code, ':');
    CodeBlockExcludes(lang, EscapeCode(f.code), ':');
    ColonFreeNoScheme(b);
    CodeBlockNoTicks(lang, f.code);
    FormatMessageBlock(f, "");
    assert Source(f) + "" == Source(f);
    NoSchemeUnchanged(b);
    FormatMessagePlain("");
    assert b + "" == b;
    FormatMessagePlain(b);
  }

  /** The code of the example below: it holds one `<` and neither a colon nor a backtick. */
  lemma ExampleCode(lt: string, tail: string)
    requires lt == "let x = 1 " && tail == " 2;\n"
    ensures Excludes(lt + "<" + tail, ':') && Excludes(lt + "<" + tail, '`')
    ensures EscapeCode(lt + "<" + tail) == "let x = 1 &lt; 2;\n"
  {
    assert Excludes(lt, '&') && Excludes(lt, '<') && Excludes(lt, '>');
    assert Excludes(tail, '&') && Excludes(tail, '<') && Excludes(tail, '>');
    EscapeCodeOnce(lt, tail);
    assert Excludes(lt, '`') && Excludes(lt, ':') && Excludes(tail, '`') && Excludes(tail, ':');
    ExcludesAppend(lt, "<", '`');
    ExcludesAppend(lt + "<", tail, '`');
    ExcludesAppend(lt, "<", ':');
    ExcludesAppend(lt + "<", tail, ':');
  }

  /** The block of the example below, with what its proof needs. */
  lemma ExampleFence(text: string) returns (f: Fence)
    requires text == "```js\nlet x = 1 < 2;\n```"
    ensures Source(f) == text && f.tag == "js"
    ensures ValidFence(Word, f) && Excludes(f.code, ':') && Excludes(f.code, '`')
    ensures EscapeCode(f.code) == "let x = 1 &lt; 2;\n"
  {
    var lt, tail := "let x = 1 ", " 2;\n";
    ExampleCode(lt, tail);
    f := Fence("js", lt + "<" + tail);
    ExampleSource(f);
    TickFreeLazy(f.code);
  }

  lemma ExampleSource(f: Fence)
    requires f == Fence("js", "let x = 1 " + "<" + " 2;\n")
    ensures Source(f) == "```js\nlet x = 1 < 2;\n```"
  {
  }

  /** A worked example: the `<` of a `js` block is escaped once, and formatting the
      resulting HTML again leaves it as it is. */
  lemma FormatMessageEscapesOnce(text: string)
    requires text == "```js\nlet x = 1 < 2;\n```"
    ensures FormatMessage(text) == CodeBlock("js", "let x = 1 &lt; 2;\n")
    ensures FormatMessage(FormatMessage(text)) == FormatMessage(text)
  {
    var f := ExampleFence(text);
    FormatMessageIdempotent(f);
  }

  /** Backticks inside a block are covered too: a JavaScript template literal is formatted
      to the block's HTML, and formatting that again leaves it as it is. */
  lemma FormatMessageTemplateLiteral(f: Fence)
    requires f == Fence("js", "s = `a`;\n")
    ensures FormatMessage(FormatMessage(Source(f))) == FormatMessage(Source(f))
  {
    var code := f.code + "```";
    forall j | 0 <= j < |f.code| ensures !TicksAt(code, j) {
      assert code[5] == 'a' && code[7] == ';';
    }
    FormatMessageIdempotent(f);
  }

  /** An anchor around a URL without backticks holds no backtick either. */
  lemma AnchorTickFree(u: string)
    requires Excludes(u, '`')
    ensures Excludes(Anchor(u), '`')
  {
    var a := Extend("<a href=\"", u, '`');
    var b := Extend(a, "\" target=\"_blank\">", '`');
    var d := Extend(b, u, '`');
    var e := Extend(d, "</a>", '`');
  }

  /** Formatting is not idempotent: a bare URL is formatted to its anchor, and formatting
      that anchor again links the URL inside its `href` attribute a second time. */
  lemma FormatMessageRelinks(u: string)
    requires ValidUrl(u) && Excludes(u, '`')
    ensures FormatMessage(u) == Anchor(u)
    ensures FormatMessage(FormatMessage(u)) != FormatMessage(u)
  {
    TickFreeNoTicks(u);
    NoFenceUnchanged(u, Word, RewriteBlock);
    UrlAlone(u);
    AnchorTickFree(u);
    TickFreeNoTicks(Anchor(u));
    NoFenceUnchanged(Anchor(u), Word, RewriteBlock);
    AnchorRelinked(u);
  }

  /** A block without a tag gets the label and the class `language-plaintext`. */
  lemma UntaggedIsPlaintext(code: string)
    ensures RewriteBlock("", code) == CodeBlock("plaintext", EscapeCode(code))
    ensures NoCodeSpecial(code) ==> RewriteBlock("", code) == CodeBlock("plaintext", code)
  {
  }

  // ---------------------------------------------------------------------------
  // `detectLanguage`

  /** `detectLanguage(code)`: the first rule that applies, in a fixed order of priority:
      `<?php` gives php; else `function`, `const` or `let` gives javascript; else `def ` or
      `import ` gives python; else `<html` gives html; else plaintext. */
  function DetectLanguage(code: string): (lang: string)
    ensures lang == "php" <==> HasSubstring(code, "<?php")
    ensures lang == "javascript" <==>
              !HasSubstring(code, "<?php")
              && (HasSubstring(code, "function") || HasSubstring(code, "const") || HasSubstring(code, "let"))
    ensures lang == "python" <==>
              !HasSubstring(code, "<?php")
              && !HasSubstring(code, "function") && !HasSubstring(code, "const") && !HasSubstring(code, "let")
              && (HasSubstring(code, "def ") || HasSubstring(code, "import "))
    ensures lang == "html" <==>
              !HasSubstring(code, "<?php")
              && !HasSubstring(code, "function") && !HasSubstring(code, "const") && !HasSubstring(code, "let")
              && !HasSubstring(code, "def ") && !HasSubstring(code, "import ")
              && HasSubstring(code, "<html")
    ensures lang == "plaintext" <==>
              !HasSubstring(code, "<?php")
              && !HasSubstring(code, "function") && !HasSubstring(code, "const") && !HasSubstring(code, "let")
              && !HasSubstring(code, "def ") && !HasSubstring(code, "import ")
              && !HasSubstring(code, "<html")
  {
    if Includes(code, "<?php") then "php"
    else if Includes(code, "function") || Includes(code, "const") || Includes(code, "let") then "javascript"
    else if Includes(code, "def ") || Includes(code, "import ") then "python"
    else if Includes(code, "<html") then "html"
    else "plaintext"
  }

  /** A pattern whose first character does not occur in `s` does not occur in `s`. */
  lemma AbsentFirstChar(s: string, p: string)
    requires p != [] && forall i :: 0 <= i < |s| ==> s[i] != p[0]
    ensures !HasSubstring(s, p)
  {
    forall i: nat ensures !OccursAt(s, p, i) {
      if i + |p| <= |s| {
        assert s[i..i + |p|][0] == s[i];
      }
    }
  }

  /** The order matters: Python code that mentions `let` anywhere, even inside a word like
      `complete`, is classified as javascript. */
  lemma DetectLanguagePriority()
    ensures DetectLanguage("def complete():") == "javascript"
  {
    var s := "def complete():";
    assert s[8..11] == "let";
    assert OccursAt(s, "let", 8);
    AbsentFirstChar(s, "<?php");
  }

  // ---------------------------------------------------------------------------
  // Second version

  /** The block template of the second version: the label and the copy button, then the
      code, all inside one `pre`. */
  function LabelledBlock(lang: string, safe: string): string {
    LabelledHeader(lang) + LabelledBody(lang, safe)
  }

  function LabelledHeader(lang: string): string {
    "\n            <pre>" + "\n              <span" + " class=\"lang-label\">"
    + lang
    + "</span>" + "\n              <button" + " class=\"copy-btn\"" + " onclick=\"copyCode(this)\">"
    + "Sao chép</button>"
  }

  function LabelledBody(lang: string, safe: string): string {
    "\n              <code class=\"" + lang + "\">" + safe + "</code>\n            </pre>"
  }

  /** `lang || detectLanguage(code)`. */
  function LabelOrDetected(tag: string, code: string): string {
    if tag == "" then DetectLanguage(code) else tag
  }

  /** The replacement callback of the second version. */
  function RewriteLabelled(tag: string, code: string): string {
    LabelledBlock(LabelOrDetected(tag, code), EscapeCode(code))
  }

  /** `formatMessage(text)`, second version: links, then blocks. */
  function FormatMessageLinksFirst(text: string): string {
    ReplaceFences(Linkify(text), Word, RewriteLabelled)
  }

  /** Text with neither a three-backtick run nor a scheme is returned unchanged by the
      second version too. */
  lemma FormatMessageLinksFirstPlain(text: string)
    requires NoTicks(text) && NoScheme(text)
    ensures FormatMessageLinksFirst(text) == text
  {
    NoSchemeUnchanged(text);
    NoFenceUnchanged(text, Word, RewriteLabelled);
  }

  /** In the second version a block without a tag is labelled and classed by the guessed
      language of its code; a tagged block keeps its tag. */
  lemma LabelledBlockLanguage(f: Fence, rest: string)
    requires ValidFence(Word, f)
    ensures ReplaceFences(Source(f) + rest, Word, RewriteLabelled)
         == LabelledBlock(if f.tag == "" then DetectLanguage(f.code) else f.tag, EscapeCode(f.code))
            + ReplaceFences(rest, Word, RewriteLabelled)
  {
    ReplaceBlock(f, rest, Word, RewriteLabelled);
  }

  lemma LabelledHeaderExcludes(lang: string, c: char)
    requires Excludes(lang, c)
    requires c == ':' || c == '`'
    ensures Excludes(LabelledHeader(lang), c)
  {
    var t := Extend("\n            <pre>", "\n              <span", c);
    t := Extend(t, " class=\"lang-label\">", c);
    t := Extend(t, lang, c);
    t := Extend(t, "</span>", c);
    t := Extend(t, "\n              <button", c);
    t := Extend(t, " class=\"copy-btn\"", c);
    t := Extend(t, " onclick=\"copyCode(this)\">", c);
    t := Extend(t, "Sao chép</button>", c);
  }

  lemma LabelledBodyExcludes(lang: string, safe: string, c: char)
    requires Excludes(lang, c) && Excludes(safe, c)
    requires c == ':' || c == '`'
    ensures Excludes(LabelledBody(lang, safe), c)
  {
    var t := Extend("\n              <code class=\"", lang, c);
    t := Extend(t, "\">", c);
    t := Extend(t, safe, c);
    t := Extend(t, "</code>\n            </pre>", c);
  }

  /** The second template adds neither a colon nor a backtick of its own. */
  lemma LabelledBlockExcludes(lang: string, safe: string, c: char)
    requires Excludes(lang, c) && Excludes(safe, c)
    requires c == ':' || c == '`'
    ensures Excludes(LabelledBlock(lang, safe), c)
  {
    LabelledHeaderExcludes(lang, c);
    LabelledBodyExcludes(lang, safe, c);
    var t := Extend(LabelledHeader(lang), LabelledBody(lang, safe), c);
  }

  /** Every label of the second version is a word, one of the five guesses or a tag. */
  lemma DetectedExcludes(tag: string, code: string, c: char)
    requires forall j :: 0 <= j < |tag| ==> IsWordChar(tag[j])
    requires c == ':' || c == '`'
    ensures Excludes(LabelOrDetected(tag, code), c)
  {
  }

  /** A block whose tag is a word and whose code has no colon has no colon in its source. */
  lemma SourceColonFree(f: Fence)
    requires forall j :: 0 <= j < |f.tag| ==> IsWordChar(f.tag[j])
    requires Excludes(f.code, ':')
    ensures Excludes(Source(f), ':')
  {
    var t := Extend("```", f.tag, ':');
    t := Extend(t, "\n", ':');
    t := Extend(t, f.code, ':');
    t := Extend(t, "```", ':');
  }

  /** The second template, like the first, holds no backtick and puts `>` before the code
      and `<` after it, so the escaped code of a valid block leaves it without a fence. */
  lemma LabelledBlockNoTicks(lang: string, code: string)
    requires Excludes(lang, '`') && Lazy(code)
    ensures NoTicks(LabelledBlock(lang, EscapeCode(code)))
  {
    var esc := EscapeCode(code);
    LazyNoTicks(code);
    EscapeCodeNoTicks(code);
    LabelledHeaderExcludes(lang, '`');
    var front := "\n              <code class=\"" + lang + "\">";
    var tail := "</code>\n            </pre>";
    var t := Extend("\n              <code class=\"", lang, '`');
    t := Extend(t, "\">", '`');
    t := Extend(LabelledHeader(lang), t, '`');
    assert Excludes(tail, '`');
    NoTicksJoin(t, esc, tail);
    AroundCode(LabelledHeader(lang), front, esc, tail);
  }

  /** The second version formats a message whose one block holds code without colons to
      the block's HTML, and formatting that HTML again changes nothing. */
  lemma FormatMessageLinksFirstIdempotent(f: Fence)
    requires ValidFence(Word, f) && Excludes(f.code, ':')
    ensures FormatMessageLinksFirst(Source(f)) == RewriteLabelled(f.tag, f.code)
    ensures FormatMessageLinksFirst(FormatMessageLinksFirst(Source(f))) == FormatMessageLinksFirst(Source(f))
  {
    var lang := LabelOrDetected(f.tag, f.code);
    var b := RewriteLabelled(f.tag, f.code);
    SourceColonFree(f);
    ColonFreeNoScheme(Source(f));
    NoSchemeUnchanged(Source(f));
    LabelledBlockLanguage(f, "");
    assert Source(f) + "" == Source(f);
    NoFenceUnchanged("", Word, RewriteLabelled);
    assert b + "" == b;
    DetectedExcludes(f.tag, f.code, ':');
    DetectedExcludes(f.tag, f.code, '`');
    EscapeCodeExcludes(f.code, ':');
    LabelledBlockExcludes(lang, EscapeCode(f.code), ':');
    LabelledBlockNoTicks(lang, f.code);
    ColonFreeNoScheme(b);
    FormatMessageLinksFirstPlain(b);
  }
}
