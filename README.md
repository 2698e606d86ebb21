# Chat widget formatting and send logic, in Dafny

This project models the string logic and the small state machines of the two browser scripts
of a Workers AI chat page, `public/chat.js` and `public/script.js`:

- the message formatter `formatMessage` in its three variants: the first version of
  `public/chat.js` (fenced code blocks, then links), its second version (links, then code
  blocks, an untagged block labelled by `detectLanguage`), and the one of `public/script.js`
  (code blocks with a `[a-z]*` tag, no links);
- the HTML escapers: the three-character one inlined in `public/chat.js` and the
  five-character `escapeHtml` of `public/script.js`;
- the language guesser `detectLanguage`;
- the accumulation of the streamed reply in `sendMessage` (split each decoded chunk on
  newlines, parse each line, append the truthy `response` fields);
- the single-flight `sendMessage` state (`isProcessing`, `chatHistory`, the controls, the
  typing indicator, the bubbles of the chat log), the tab switch and `createImage`.

Each pattern replace (code blocks, links) is modelled as a left-to-right scanner that, at every
position, takes the match starting there or copies one character, as a global replace does.
The scan produces pieces that reassemble to the input (`Fences.Scan`, `Links.ScanLinks`), and
the matching is specified independently (`Fences.MatchAt`, `Links.UrlAt`) and proved to be
exactly what the scanner finds. The character replaces of the escapers are recursions over the
characters that replace each one by its table entry (`Escape.EscapeCode`, `Escape.EscapeHtml`).

Modules, one file each: `Wrappers` (Option), `Text` (character classes, `includes`, `trim`,
`split("\n")`), `Escape`, `Fences` (the shared code-block search), `Links`, `ChatFormat` (the
two formatters and `detectLanguage` of `public/chat.js`), `ScriptFormat` (the formatter of
`public/script.js`), `Stream` (the accumulation loops), `Session` (`sendMessage`), `Tabs`
(the tab switch) and `Images` (the image generator).

Three facts about re-formatting and failure, as the code has them:

- The streaming loop (public/chat.js:81-83, public/script.js:121-123) formats the raw
  accumulated `responseText` after every line that contributes, and never formats its own
  output, so each piece of code is escaped exactly once. The escaper itself is not
  idempotent: `<` becomes `&lt;`, and escaping that again gives `&amp;lt;`
  (`Escape.EscapeCodeTwice`).
- Formatting HTML that is already formatted is not a no-op in general. A bare URL becomes
  its anchor, and formatting the anchor again links the URL inside `href="..."` a second
  time, together with its closing quote, because `[^\s]+` stops only at white space
  (`Links.AnchorRelinked`, `ChatFormat.FormatMessageRelinks`). This is why
  `ChatFormat.FormatMessageIdempotent` is proved only for a block whose code holds no colon,
  so no scheme. Backticks in the code are allowed: a shortest match holds no three
  backticks in a row, and the template puts `>` before the code and `<` after it, so the
  block's HTML holds no fence (`ChatFormat.CodeBlockNoTicks`,
  `ChatFormat.FormatMessageTemplateLiteral`).
- On a failure the error text is only shown as a bubble (public/chat.js:92-97). It is not
  pushed to `chatHistory`, which keeps the user entry without an assistant answer
  (`Session.ChatSession.Finish`).

## Model

| member | source | states |
|---|---|---|
| Text.Includes | public/chat.js:183-187 | `s.includes(p)` is true exactly when `p` occurs at some position of `s` |
| Text.Trim | public/chat.js:38 | `userInput.value.trim()`: no longer than the input; it is the input with its leading and trailing JavaScript white space removed (see TrimSound), as also at public/script.js:78 and :161 |
| Text.TrimSound | public/chat.js:38 | the trimmed text is a contiguous part of the input that follows only white space and is followed only by white space, and it neither starts nor ends with white space |
| Text.TrimEmpty | public/chat.js:38-39 | the trimmed text is empty exactly when the input is all white space |
| Text.SplitLines | public/chat.js:76 | `chunk.split("\n")`: at least one piece, the empty text giving one empty piece; the pieces are newline-free and join back to the chunk (see SplitLinesSound) |
| Text.SplitLinesSound | public/chat.js:76 | `split("\n")` gives at least one piece, no piece holds a newline, and joining the pieces with newlines gives the chunk back |
| Text.SplitLinesUnique | public/chat.js:76 | any cut of a text into newline-free pieces that join back to it is the one `split("\n")` gives |
| Text.SplitLinesAtNewline | public/chat.js:76 | the pieces of `a + "\n" + b` are the pieces of `a` followed by those of `b` |
| Text.SplitLinesSingle | public/chat.js:76 | a chunk without a newline is one piece |
| Escape.CodeEntity | public/chat.js:115 | the table of the inline escaper: `&`, `<` and `>` map to `&amp;`, `&lt;` and `&gt;`, any other character to itself |
| Escape.EscapeCode | public/chat.js:115 | the escaped code holds no raw `<` or `>`, is never shorter than the code, and is the code itself exactly when the code holds none of `& < >` |
| Escape.UnescapeEscapeCode | public/chat.js:115 | decoding the entities of the escaped code gives the code back, so every other character is copied unchanged |
| Escape.EscapeCodeAppend | public/chat.js:115 | the escaper works character by character: escaping a concatenation is concatenating the escapes |
| Escape.EscapeCodeTwice | public/chat.js:115 | `<` escapes to `&lt;`, and escaping that again gives `&amp;lt;`: the escaper is not idempotent |
| Escape.EscapeCodeOnce | public/chat.js:115 | in code holding one `<` and none of `& < >` otherwise, only that `<` is replaced by `&lt;` |
| Escape.EscapeCodeExcludes | public/chat.js:115 | a character that is not in the entities and not in the code is not in the escaped code |
| Escape.HtmlEntity | public/script.js:67-73 | the table of `escapeHtml`: the three above and `"` to `&quot;`, `'` to `&#39;`, any other character to itself |
| Escape.EscapeHtml | public/script.js:65-75 | the result holds none of `< > " '`, is never shorter than the input, and is the input itself exactly when it holds none of the five characters |
| Escape.UnescapeEscapeHtml | public/script.js:65-75 | decoding the five entities of `escapeHtml(s)` gives `s` back |
| Escape.EscapeHtmlAgreesWithCode | public/script.js:65-75 | on text without quotes `escapeHtml` agrees with the three-character escaper |
| Escape.EscapeHtmlExcludes | public/script.js:65-75 | a character that is not in the entities and not in the input is not in the output |
| Fences.TagEndSound | public/chat.js:112 | the tag run holds only class characters and stops at the first other character |
| Fences.TicksFromSound | public/chat.js:112 | the closing fence found is the first three backticks at or after the start of the code |
| Fences.MatchFrom | public/chat.js:112 | the code-block pattern tried at one position: a found match starts with three backticks and has a newline right after its tag, and it fits inside the text; it is exactly a pattern match (see MatchFromSound) |
| Fences.LazyNoTicks | public/chat.js:112 | the code of a shortest `[\s\S]*?` match holds no three backticks in a row |
| Fences.MatchFromSound | public/chat.js:112 | the search at a position finds a tag and code length exactly when the pattern (fence, tag, newline, code without a fence, fence) matches there with them, so a match is unique |
| Fences.TickFreeLazy | public/chat.js:112 | code without a backtick is always a shortest match |
| Fences.MatchedBlock | public/chat.js:112-113 | a match is a block whose tag is of the class, whose code is a shortest match, and whose source text is the matched text |
| Fences.BlockMatches | public/chat.js:112-113 | conversely, a well-formed block in the text is a match at its position |
| Fences.NextSound | public/chat.js:112-113 | the piece cut at the front of the text is cut from a prefix of it, and a block piece is well formed |
| Fences.ReplaceFences | public/chat.js:111-112 | the global replace of the code-block pattern: the scan's blocks go through the callback on their tag and code, and all other characters are copied |
| Fences.ScanSound | public/chat.js:112-113 | the pieces of the replace reassemble to the text, and every block among them is well formed |
| Fences.ReplaceBlock | public/chat.js:112-113 | a block at the front is replaced by the callback on its tag and code, and the replace resumes after its closing fence: matches do not overlap |
| Fences.NoFenceUnchanged | public/chat.js:112-113 | text without three backticks in a row comes back unchanged |
| Fences.UnclosedFenceUnchanged | public/chat.js:112-113 | an opening fence that is never closed is not replaced |
| Fences.ReplaceAfterText | public/chat.js:112-113 | text in which no fence can start is copied unchanged in front of what follows it |
| Links.RunLengthSound | public/chat.js:128 | the run holds no white space and stops at white space or at the end |
| Links.UrlFrom | public/chat.js:128 | the URL pattern tried at the front: a found length is positive and fits inside the text; it is exactly the length of a URL starting there (see UrlFromSound) |
| Links.UrlFromSound | public/chat.js:128 | the search at the front finds a length exactly when a URL of that length starts there: a scheme, at least one more non-white-space character, up to white space or the end |
| Links.ColonFreeNoScheme | public/chat.js:128 | text without a colon holds no scheme |
| Links.NextLinkSound | public/chat.js:128 | the piece cut at the front is cut from a prefix; a URL piece is valid and is followed by white space unless the text ends |
| Links.Anchor | public/chat.js:128 | the replacement `<a href="$1" target="_blank">$1</a>` with the URL in both places |
| Links.Linkify | public/chat.js:128 | the global replace of the URL pattern: each URL found by the scan becomes its anchor, and all other characters are copied |
| Links.ScanLinksSound | public/chat.js:128 | the pieces reassemble to the text and every URL among them starts with a scheme, has at least one more character and holds no white space |
| Links.ScanLinksMaximal | public/chat.js:128 | every URL found is maximal: the next piece is a copied white-space character |
| Links.NoSchemeUnchanged | public/chat.js:128 | text without `http://` and `https://` comes back unchanged |
| Links.UrlAlone | public/chat.js:128 | a text that is one URL becomes `<a href="URL" target="_blank">URL</a>` |
| Links.LinkifyAppend | public/chat.js:128 | text that ends in white space is linked independently of what follows it |
| Links.LinkifyUrl | public/chat.js:128 | a URL at the front becomes its anchor and the replace resumes right after it |
| Links.LinkifyCopies | public/chat.js:128 | where no URL starts, the character is copied and the replace resumes at the next one |
| Links.LinkifyCopiedPrefix | public/chat.js:128 | the text before the first scheme is copied unchanged |
| Links.AnchorRelinked | public/chat.js:128 | linking an anchor again changes it: the URL inside `href="..."` is followed by a quote, not white space, so it is linked a second time |
| ChatFormat.CodeBlock | public/chat.js:116-124 | the block template of the first version: the header with the label and the copy button, then `<pre><code class="language-LANG">` around the escaped code |
| ChatFormat.LabelOrPlaintext | public/chat.js:114 | the label: the tag, or `plaintext` when the tag is absent |
| ChatFormat.RewriteBlock | public/chat.js:112-125 | the replacement callback of the first version: the template labelled by the tag, or `plaintext` when it is absent, around the code escaped by the three-character table |
| ChatFormat.FormatMessage | public/chat.js:109-131 | the first version: code blocks replaced, then links converted in the result |
| ChatFormat.CodeBlockEndsInSpace | public/chat.js:116-124 | the block template ends in white space |
| ChatFormat.FormatMessagePlain | public/chat.js:110-131 | text with no fence and no scheme is returned unchanged |
| ChatFormat.FormatMessageBlock | public/chat.js:110-131 | a leading block becomes the linked template, labelled by its tag or `plaintext`, with its code escaped, and the rest is formatted on its own |
| ChatFormat.UntaggedIsPlaintext | public/chat.js:114-122 | a block without a tag gets the label and the class `plaintext` |
| ChatFormat.LabelExcludes | public/chat.js:114 | a label is a word or `plaintext`, so it holds no colon and no backtick |
| ChatFormat.CodeBlockExcludes | public/chat.js:116-124 | the template adds no colon and no backtick of its own |
| ChatFormat.FormatMessageIdempotent | public/chat.js:110-131 | a message that is one valid block whose code holds no colon, backticks allowed, is formatted to the block's HTML, and formatting that HTML again changes nothing |
| ChatFormat.FormatMessageEscapesOnce | public/chat.js:110-131 | the block ```` ```js\nlet x = 1 < 2;\n``` ```` becomes the template with `let x = 1 &lt; 2;`, and formatting that again leaves it as it is |
| ChatFormat.EscapeCodeNoTicks | public/chat.js:115 | escaping code adds no three backticks in a row: backticks are copied one for one and the entities hold none |
| ChatFormat.CodeBlockNoTicks | public/chat.js:116-124 | the first template around the escaped code of a shortest match holds no fence |
| ChatFormat.FormatMessageTemplateLiteral | public/chat.js:110-131 | a `js` block holding a template literal with single backticks is formatted to HTML that formatting leaves as it is |
| ChatFormat.FormatMessageRelinks | public/chat.js:109-131 | formatting is not idempotent: a bare URL becomes its anchor, and formatting that anchor again changes it |
| ChatFormat.DetectLanguage | public/chat.js:182-189 | each of the five answers is given exactly when its rule applies and no earlier rule does |
| ChatFormat.AbsentFirstChar | public/chat.js:183 | a pattern whose first character is absent from the code does not occur in it |
| ChatFormat.DetectLanguagePriority | public/chat.js:184-186 | the rules are ordered: `def complete():` is classified javascript, because `let` occurs inside `complete` |
| ChatFormat.LabelledBlock | public/chat.js:171-176 | the block template of the second version: the label, the copy button and `<code class="LANG">` around the escaped code, inside `<pre>` |
| ChatFormat.LabelOrDetected | public/chat.js:166 | the label of the second version: the tag, or the guessed language of the code when the tag is absent |
| ChatFormat.RewriteLabelled | public/chat.js:165-177 | the replacement callback of the second version: the template labelled by the tag, or the guessed language of the code when it is absent, around the escaped code |
| ChatFormat.FormatMessageLinksFirst | public/chat.js:156-180 | the second version: links converted first, then code blocks replaced in the result |
| ChatFormat.FormatMessageLinksFirstPlain | public/chat.js:156-180 | the second version also returns text with no fence and no scheme unchanged |
| ChatFormat.LabelledBlockLanguage | public/chat.js:164-177 | in the second version an untagged block is labelled and classed by the guessed language and a tagged one by its tag |
| ChatFormat.LabelledBlockExcludes | public/chat.js:171-176 | the second template adds no colon and no backtick of its own |
| ChatFormat.DetectedExcludes | public/chat.js:166 | every label of the second version holds no colon and no backtick |
| ChatFormat.LabelledBlockNoTicks | public/chat.js:171-176 | the second template around the escaped code of a shortest match holds no fence |
| ChatFormat.FormatMessageLinksFirstIdempotent | public/chat.js:156-180 | the second version formats a one-block message whose code holds no colon, backticks allowed, to the block's HTML, and formatting that again changes nothing |
| ScriptFormat.RewriteBlock | public/script.js:60-63 | the replacement callback: `<pre><code class="language-TAG">` around the code passed through `escapeHtml` |
| ScriptFormat.FormatMessage | public/script.js:58-64 | the global replace of the `[a-z]*`-tagged code-block pattern by that callback, with no link conversion |
| ScriptFormat.FormatMessagePlain | public/script.js:58-64 | text without a fence is returned unchanged, URLs included |
| ScriptFormat.FormatMessageBlock | public/script.js:58-64 | a leading block becomes `<pre><code class="language-TAG">` around its code passed through `escapeHtml`, and the rest is formatted on its own |
| ScriptFormat.FormatMessageTextThenBlock | public/script.js:58-64 | text before a block in which no fence can start is copied unchanged, and the block after it is rewritten |
| ScriptFormat.UntaggedBlock | public/script.js:60-62 | a block with an empty tag gets the class `language-` |
| ScriptFormat.TagEndAt | public/script.js:60 | the tag run ends where the `[a-z]` characters stop |
| ScriptFormat.BadTagNoMatch | public/script.js:60 | a tag with a character outside `[a-z]` before the newline means no block starts at that fence |
| Stream.LineText | public/chat.js:80-82 | what one line adds: the text of its `response` when `jsonData.response` is truthy and adds some text, and nothing otherwise, an unparseable line included |
| Stream.LinesText | public/chat.js:78-88 | what the lines of a chunk add, in order |
| Stream.ChunkText | public/chat.js:75-88 | what one chunk adds: its `split("\n")` pieces handed to the inner loop in order |
| Stream.StreamText | public/chat.js:72-89 | the final `responseText`: what the chunks add, in order, each split on newlines |
| Stream.AccumulateLines | public/chat.js:78-88 | the inner loop appends exactly what the lines of a chunk add to the text, and the paragraph shows its formatting once anything was added |
| Stream.Accumulate | public/chat.js:70-89 | the two loops compute the in-order concatenation of the truthy `response` fields of the parsed lines of all chunks, and the paragraph shows its formatting, or stays empty |
| Stream.LinesTextAppend | public/chat.js:78-88 | the lines contribute in order: the text of a concatenation of lines is the concatenation of their texts |
| Stream.StreamTextAppend | public/chat.js:72-89 | chunks contribute in order: the text of a stream is that of its first part followed by that of the rest |
| Stream.Swallowed | public/chat.js:79-87 | a line that does not parse, or has no `response` that adds text, contributes nothing and the lines around it contribute as usual |
| Stream.ChunkTextNewline | public/chat.js:75-76 | within a chunk, what a newline separates is accumulated separately |
| Stream.SingleLineChunk | public/chat.js:76-86 | a chunk of one line adds that line's response |
| Stream.SplitRecordLost | public/chat.js:72-89 | a record cut into two chunks whose halves do not parse adds nothing, while the same text in one chunk adds its response |
| Stream.TrailingNewline | public/chat.js:76 | a chunk ending in a newline adds what it adds without the newline, since the empty last piece does not parse |
| Stream.StreamOfTwo | public/chat.js:72-89 | a stream of two chunks adds what the first adds followed by what the second adds |
| Stream.StreamOfOne | public/chat.js:72-89 | a stream of one chunk adds what that chunk adds |
| Stream.CutAtNewline | public/chat.js:72-89 | a stream cut right after a newline loses nothing |
| Session.Greeting | public/chat.js:8-14 | the assistant entry the history starts with: the English greeting of public/chat.js, or the Vietnamese one of public/script.js:26-32 |
| Session.ChatSession.constructor | public/chat.js:8-15 | the history starts with the assistant greeting, nothing is in flight and the log is empty |
| Session.ChatSession.Type | public/chat.js:38-43 | the user edits `userInput.value`, which is possible only while the box is enabled, so while no request is in flight; nothing else changes |
| Session.ChatSession.Submit | public/chat.js:38-58 | a blank box or a request in flight changes nothing; otherwise the trimmed text is appended to the history and shown, the box is cleared, the request is in flight, and an empty reply paragraph is added |
| Session.ChatSession.Finish | public/chat.js:60-104 | the assistant entry with the accumulated text is appended only on a completed stream; on failure the error bubble is added and the history is unchanged; the flag, the indicator and the controls are always reset |
| Session.ChatSession.SendMessage | public/chat.js:37-104 | a blank box or a request in flight changes neither history, flag, box nor log; an accepted send ends with nothing in flight, the box cleared, the history grown by the user entry and, on success, the assistant entry, and the log grown by the user bubble and the ending bubbles |
| Session.Ending | public/chat.js:83-97 | the bubbles a request ends with: the reply paragraph showing the formatted text, or empty when nothing arrived, then the error bubble with the text of public/chat.js:96 unless the stream was read to the end |
| Session.EndingShape | public/chat.js:83-97 | a completed request ends with the reply alone; a failed one with the reply, empty when `fetch` failed, then the error bubble |
| Session.Gained | public/chat.js:49-91 | what an accepted send adds to `chatHistory`: the user entry, then the assistant entry only when the stream was read to the end |
| Session.GainedLength | public/chat.js:49-91 | an accepted send adds two entries, user then assistant, on success and one, the user entry, on failure |
| Session.SecondSubmitIgnored | public/chat.js:38-58 | on a freshly opened page, a second send while the first is in flight is ignored, the box being disabled and cleared and the flag set: the history holds the greeting and one user entry, the log one user bubble and the empty reply |
| Tabs.TabBar.Selected | public/script.js:7-18 | in a consistent state the selected tab is the one whose panel is shown |
| Tabs.TabBar.ClickChat | public/script.js:7-12 | the chat tab is active and its panel shown, the other hidden and inactive |
| Tabs.TabBar.ClickImage | public/script.js:13-18 | the image tab is active and its panel shown, the other hidden and inactive |
| Tabs.TabBar.Click | public/script.js:7-18 | after either click exactly one tab is active and one panel shown, and it is the clicked one |
| Images.ImageHtml | public/script.js:167-169 | the image markup: the endpoint with the encoded prompt as `src`, and the fixed `alt` text |
| Images.ImageGenerator.constructor | public/script.js:148-150 | the prompt is as given, the button enabled and the result empty |
| Images.ImageGenerator.CreateImage | public/script.js:160-175 | a blank trimmed prompt changes nothing; otherwise the result is the image for the encoded trimmed prompt, or the failure message, and the button ends enabled |

## Left out

- The DOM: element creation, `innerHTML`, classes, focus, `scrollTop`, the auto-resize and
  keyboard handlers, and `addMessageToChat`'s markup around the message. A bubble of the log
  keeps the content it was given; `loadContent`, `executeScripts` and the menu are not part
  of this model.
- `fetch`, `response.ok`, `getReader`/`read` and `TextDecoder`: the network outcome is an
  input of `Session.ChatSession.Finish` and the stream is the sequence of decoded chunks.
- `JSON.parse` and the read of `.response`: a parameter `parse` from a line to a record
  (unparseable, or parsed with the text that `+=` makes of a truthy `response`, a number
  `42` giving "42", or none for a missing or falsy one). The conversion itself is inside
  `parse`. As a simplification, a truthy value whose text is empty (an empty array) is
  treated like a falsy one. The source would then write the formatted, unchanged text to
  the paragraph once more. With the page's formatters that shows the same thing, because
  they map the empty text to itself (`ChatFormat.FormatMessagePlain`).
- `copyCode`: clipboard access and timers.
- `console.error` in the failure path of `sendMessage`: logging only.
- `Prism.highlightAll` and `hljs.highlightElement`: external highlighters.
- `encodeURIComponent`: a parameter of `Images.ImageGenerator.CreateImage`.
- Asynchrony: `sendMessage` is split at its first `await` into `Submit` and `Finish`, and
  each part is one atomic step; interleavings of events with the pending request are only
  modelled in that a second submit sees the flag already set.
- The structural breakage of `public/chat.js` (the missing brace after `sendMessage`, the
  stray `<script>` line): each function's logic is modelled as written.
- Strings are sequences of characters; JavaScript's UTF-16 code units and surrogate pairs
  are not modelled.
- ChatFormat.FormatMessageIdempotent: proved only for a block whose code holds no colon. The
  colon stands in for a scheme: a URL in the code is linked again inside its own anchor
  (`Links.AnchorRelinked`), so some restriction is needed, and excluding the colon is a
  simpler condition to carry through the proof than excluding `http://` and `https://`.
- ChatFormat.FormatMessageLinksFirstIdempotent: the same colon restriction, for the same
  reason.
