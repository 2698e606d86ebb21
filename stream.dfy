/** The accumulation loop of `sendMessage`, identical in public/chat.js:72-89 and
    public/script.js:112-129. Each decoded chunk is split on newlines; each line is handed to
    `JSON.parse` and, when that succeeds with a truthy `response` field, the field is appended
    to `responseText` and the formatted text is written to the reply paragraph. Any exception
    in the body (a line that is not JSON, or that parses to `null`) is swallowed.

    `JSON.parse` followed by the `.response` read is a parameter `parse`, and the stream is
    the sequence of chunks after decoding. */
module Stream {
  import opened Wrappers
  import opened Text

  /** What the body of the inner `try` sees for one line: an exception, or a parsed value
      with the text that `responseText += jsonData.response` appends when the field is truthy
      (a string as it is, a number or an object converted to text), or none when the field
      is missing or falsy. */
  datatype Record = Unparseable | Parsed(response: Option<string>)

  /** The test `if (jsonData.response)`: the line parsed and its `response` adds some
      text. */
  predicate Contributes(r: Record) {
    r.Parsed? && r.response.Some? && r.response.value != ""
  }

  /** What one line adds: the text of its `response` when there is some, else nothing. */
  function LineText(r: Record): string {
    if Contributes(r) then r.response.value else ""
  }

  /** The in-order concatenation of what the lines add. */
  function LinesText(lines: seq<string>, parse: string -> Record): string {
    if lines == [] then ""
    else LinesText(lines[..|lines| - 1], parse) + LineText(parse(lines[|lines| - 1]))
  }

  /** What one chunk adds: its lines after `split("\n")`. */
  function ChunkText(chunk: string, parse: string -> Record): string {
    LinesText(SplitLines(chunk), parse)
  }

  /** The final `responseText`: what the chunks add, in order. */
  function StreamText(chunks: seq<string>, parse: string -> Record): string {
    if chunks == [] then ""
    else StreamText(chunks[..|chunks| - 1], parse) + ChunkText(chunks[|chunks| - 1], parse)
  }

  lemma LinesTextSnoc(lines: seq<string>, j: nat, parse: string -> Record)
    requires j < |lines|
    ensures LinesText(lines[..j + 1], parse) == LinesText(lines[..j], parse) + LineText(parse(lines[j]))
  {
    assert lines[..j + 1][..j] == lines[..j];
  }

  lemma StreamTextSnoc(chunks: seq<string>, i: nat, parse: string -> Record)
    requires i < |chunks|
    ensures StreamText(chunks[..i + 1], parse) == StreamText(chunks[..i], parse) + ChunkText(chunks[i], parse)
  {
    assert chunks[..i + 1][..i] == chunks[..i];
  }

  /** The inner `for` over the lines of one chunk: it appends what the lines add to the
      text so far, and the paragraph keeps showing the formatted text once any line has
      contributed. */
  method AccumulateLines(lines: seq<string>, parse: string -> Record, format: string -> string,
                         text: string, display: string)
    returns (responseText: string, shown: string)
    requires display == if text == "" then "" else format(text)
    ensures responseText == text + LinesText(lines, parse)
    ensures shown == if responseText == "" then "" else format(responseText)
  {
    responseText, shown := text, display;
    var j := 0;
    while j < |lines|
      invariant 0 <= j <= |lines|
      invariant responseText == text + LinesText(lines[..j], parse)
      invariant shown == if responseText == "" then "" else format(responseText)
    {
      var record := parse(lines[j]);
      ghost var prefix := LinesText(lines[..j], parse);
      LinesTextSnoc(lines, j, parse);
      if Contributes(record) {
        var v := record.response.value;
        Associate(text, prefix, v);
        responseText := responseText + v;
        shown := format(responseText);
      } else {
        assert prefix + LineText(record) == prefix;
      }
      j := j + 1;
    }
    assert lines[..j] == lines;
  }

  /** The outer `while (true)` over the chunks of the stream, with the inner loop over
      the lines of each. `format` is the page's `formatMessage`; `shown` is the last value
      written to the reply paragraph, which starts empty. The loops compute exactly the
      specified text, and the paragraph shows its formatting, or stays empty when no line
      contributed anything. */
  method Accumulate(chunks: seq<string>, parse: string -> Record, format: string -> string)
    returns (responseText: string, shown: string)
    ensures responseText == StreamText(chunks, parse)
    ensures shown == if responseText == "" then "" else format(responseText)
  {
    responseText := "";
    shown := "";
    var i := 0;
    while i < |chunks|
      invariant 0 <= i <= |chunks|
      invariant responseText == StreamText(chunks[..i], parse)
      invariant shown == if responseText == "" then "" else format(responseText)
    {
      var lines := SplitLines(chunks[i]);
      StreamTextSnoc(chunks, i, parse);
      responseText, shown := AccumulateLines(lines, parse, format, responseText, shown);
      i := i + 1;
    }
    assert chunks[..i] == chunks;
  }

  // ---------------------------------------------------------------------------
  // Properties of the accumulated text

  /** The last element of a concatenation with a non-empty right part, and what precedes it. */
  lemma SnocSplit(xs: seq<string>, ys: seq<string>)
    requires ys != []
    ensures (xs + ys)[..|xs + ys| - 1] == xs + ys[..|ys| - 1]
    ensures (xs + ys)[|xs + ys| - 1] == ys[|ys| - 1]
  {
  }

  lemma {:induction false} LinesTextAppend(xs: seq<string>, ys: seq<string>, parse: string -> Record)
    ensures LinesText(xs + ys, parse) == LinesText(xs, parse) + LinesText(ys, parse)
    decreases |ys|
  {
    if ys == [] {
      assert xs + ys == xs;
    } else {
      var ys', last := ys[..|ys| - 1], LineText(parse(ys[|ys| - 1]));
      SnocSplit(xs, ys);
      LinesTextAppend(xs, ys', parse);
      Associate(LinesText(xs, parse), LinesText(ys', parse), last);
    }
  }

  /** Order is kept across chunk boundaries: the text of a stream is the text of its first
      part followed by the text of the rest. */
  lemma {:induction false} StreamTextAppend(xs: seq<string>, ys: seq<string>, parse: string -> Record)
    ensures StreamText(xs + ys, parse) == StreamText(xs, parse) + StreamText(ys, parse)
    decreases |ys|
  {
    if ys == [] {
      assert xs + ys == xs;
    } else {
      var ys', last := ys[..|ys| - 1], ChunkText(ys[|ys| - 1], parse);
      SnocSplit(xs, ys);
      StreamTextAppend(xs, ys', parse);
      Associate(StreamText(xs, parse), StreamText(ys', parse), last);
    }
  }

  lemma LinesOfOne(line: string, parse: string -> Record)
    ensures LinesText([line], parse) == LineText(parse(line))
  {
    assert [line][..0] == [];
  }

  /** A line that does not parse, or whose `response` is missing or empty, is swallowed:
      the lines around it contribute as if it were not there. */
  lemma Swallowed(xs: seq<string>, line: string, ys: seq<string>, parse: string -> Record)
    requires !Contributes(parse(line))
    ensures LinesText(xs + [line] + ys, parse) == LinesText(xs, parse) + LinesText(ys, parse)
  {
    LinesTextAppend(xs + [line], ys, parse);
    LinesTextAppend(xs, [line], parse);
    LinesOfOne(line, parse);
    assert LinesText(xs, parse) + "" == LinesText(xs, parse);
  }

  /** Within a chunk, what a newline separates is accumulated separately. */
  lemma ChunkTextNewline(a: string, b: string, parse: string -> Record)
    ensures ChunkText(a + "\n" + b, parse) == ChunkText(a, parse) + ChunkText(b, parse)
  {
    SplitLinesAtNewline(a, b);
    LinesTextAppend(SplitLines(a), SplitLines(b), parse);
  }

  /** A chunk that is one line adds that line's response. */
  lemma SingleLineChunk(line: string, parse: string -> Record)
    requires NoNewline(line)
    ensures ChunkText(line, parse) == LineText(parse(line))
  {
    SplitLinesSingle(line);
    assert [line][..0] == [];
  }

  /** A record split across two chunks is lost: when neither half parses, the two chunks
      add nothing, while the same bytes in one chunk add the record's response. */
  lemma SplitRecordLost(a: string, b: string, parse: string -> Record)
    requires NoNewline(a) && NoNewline(b)
    requires !Contributes(parse(a)) && !Contributes(parse(b))
    ensures StreamText([a, b], parse) == ""
    ensures StreamText([a + b], parse) == LineText(parse(a + b))
  {
    StreamOfTwo(a, b, parse);
    SingleLineChunk(a, parse);
    SingleLineChunk(b, parse);
    NoNewlineAppend(a, b);
    StreamOfOne(a + b, parse);
    SingleLineChunk(a + b, parse);
  }

  /** A chunk that ends in a newline adds what it adds without that newline. */
  lemma TrailingNewline(a: string, parse: string -> Record)
    requires parse("").Unparseable?
    ensures ChunkText(a + "\n", parse) == ChunkText(a, parse)
  {
    ChunkTextNewline(a, "", parse);
    assert a + "\n" + "" == a + "\n";
    SingleLineChunk("", parse);
  }

  lemma StreamOfTwo(x: string, y: string, parse: string -> Record)
    ensures StreamText([x, y], parse) == ChunkText(x, parse) + ChunkText(y, parse)
  {
    assert [x, y][..1] == [x];
    assert [x][..0] == [];
  }

  lemma StreamOfOne(x: string, parse: string -> Record)
    ensures StreamText([x], parse) == ChunkText(x, parse)
  {
    assert [x][..0] == [];
  }

  /** Cutting the stream right after a newline loses nothing, because the empty line that
      `split` then produces does not parse: such a stream adds what the joined text adds. */
  lemma CutAtNewline(a: string, b: string, parse: string -> Record)
    requires parse("").Unparseable?
    ensures StreamText([a + "\n", b], parse) == StreamText([a + "\n" + b], parse)
  {
    StreamOfTwo(a + "\n", b, parse);
    TrailingNewline(a, parse);
    ChunkTextNewline(a, b, parse);
    StreamOfOne(a + "\n" + b, parse);
  }
}
