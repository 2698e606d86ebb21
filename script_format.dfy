/** `formatMessage` of public/script.js (public/script.js:58-64): fenced blocks whose tag is
    a run of lower-case letters, possibly empty, become `<pre><code class="language-TAG">`
    around the code escaped by `escapeHtml`. There is no link conversion. */
module ScriptFormat {
  import opened Text
  import opened Escape
  import opened Fences

  /** The replacement callback: `lang || ""` is the tag itself, empty when absent. */
  function RewriteBlock(tag: string, code: string): string {
    "<pre><code class=\"language-" + tag + "\">" + EscapeHtml(code) + "</code></pre>"
  }

  /** `formatMessage(text)`. */
  function FormatMessage(text: string): string {
    ReplaceFences(text, Lower, RewriteBlock)
  }

  /** Text without a three-backtick run is returned unchanged: nothing outside a block is
      touched, URLs included. */
  lemma FormatMessagePlain(text: string)
    requires NoTicks(text)
    ensures FormatMessage(text) == text
  {
    NoFenceUnchanged(text, Lower, RewriteBlock);
  }

  /** A leading block is replaced by the template with its tag as class and its code
      escaped, and the text after its closing fence is formatted on its own. */
  lemma FormatMessageBlock(f: Fence, rest: string)
    requires ValidFence(Lower, f)
    ensures FormatMessage(Source(f) + rest)
         == "<pre><code class=\"language-" + f.tag + "\">" + EscapeHtml(f.code) + "</code></pre>"
            + FormatMessage(rest)
  {
    ReplaceBlock(f, rest, Lower, RewriteBlock);
  }

  /** Text in front of a block is copied unchanged, URLs included, when no fence can start
      inside it; the block after it is rewritten as usual. */
  lemma FormatMessageTextThenBlock(p: string, f: Fence, rest: string)
    requires NoTicks(p) && (p == [] || p[|p| - 1] != '`')
    requires ValidFence(Lower, f)
    ensures FormatMessage(p + Source(f) + rest) == p + RewriteBlock(f.tag, f.code) + FormatMessage(rest)
  {
    calc {
      FormatMessage(p + Source(f) + rest);
      { assert p + Source(f) + rest == p + (Source(f) + rest); ReplaceAfterText(p, Source(f) + rest, Lower, RewriteBlock); }
      p + FormatMessage(Source(f) + rest);
      { ReplaceBlock(f, rest, Lower, RewriteBlock); }
      p + (RewriteBlock(f.tag, f.code) + FormatMessage(rest));
    }
  }

  /** A block without a tag gets the class `language-`, with nothing after the dash. */
  lemma UntaggedBlock(code: string, rest: string)
    requires Lazy(code)
    ensures FormatMessage(Source(Fence("", code)) + rest) == RewriteBlock("", code) + FormatMessage(rest)
    ensures RewriteBlock("", code) == "<pre><code class=\"language-\">" + EscapeHtml(code) + "</code></pre>"
  {
    var open := "<pre><code class=\"language-";
    assert open + "" == open;
    assert open + "\">" == "<pre><code class=\"language-\">";
    assert ValidFence(Lower, Fence("", code));
    ReplaceBlock(Fence("", code), rest, Lower, RewriteBlock);
  }

  /** The tag run starting at `i` ends at `k` when the class characters stop there. */
  lemma {:induction false} TagEndAt(s: string, cls: TagClass, i: nat, k: nat)
    requires i <= k <= |s|
    requires forall j :: i <= j < k ==> InClass(cls, s[j])
    requires k == |s| || !InClass(cls, s[k])
    ensures TagEnd(s, cls, i) == k
    decreases k - i
  {
    if i < k {
      TagEndAt(s, cls, i + 1, k);
    }
  }

  /** A tag with a character outside `[a-z]` (an upper-case letter or a digit, say) stops
      the pattern before the newline, so no block starts at the opening fence. */
  lemma BadTagNoMatch(s: string, k: nat)
    requires TicksAt(s, 0) && 3 <= k < |s|
    requires forall j :: 3 <= j < k ==> IsLower(s[j])
    requires s[k] != '\n' && !IsLower(s[k])
    ensures MatchFrom(s, 0, Lower).None?
  {
    TagEndAt(s, Lower, 3, k);
    assert TagEnd(s, Lower, 3) == k;
  }
}
