/** The fenced-code-block search shared by the three `formatMessage` variants: a global
    `replace` with the pattern "three backticks, an optional tag, a newline, the shortest run
    of any characters, three backticks". The two scripts differ only in the tag class:
    `(\w+)?` in public/chat.js and `([a-z]*)` in public/script.js.

    The search is modelled as a left-to-right scan that, at each position, either takes the
    match that begins there or copies one character, exactly as a global regular-expression
    replace does. Its result is a sequence of pieces that reassembles to the input. */
module Fences {
  import opened Wrappers
  import opened Text

  /** The character class allowed in the language tag. */
  datatype TagClass = Word | Lower

  predicate InClass(cls: TagClass, c: char) {
    match cls
    case Word => IsWordChar(c)
    case Lower => IsLower(c)
  }

  /** Three backticks start at position `j` of `s`. */
  predicate TicksAt(s: string, j: int) {
    0 <= j && j + 3 <= |s| && s[j] == '`' && s[j + 1] == '`' && s[j + 2] == '`'
  }

  predicate NoTicks(s: string) {
    forall j :: 0 <= j < |s| ==> !TicksAt(s, j)
  }

  /** Text without backticks has no fences. */
  lemma TickFreeNoTicks(s: string)
    requires Excludes(s, '`')
    ensures NoTicks(s)
  {
  }

  /** Text without three backticks in a row, between two texts without any backtick, still
      has none: a run crossing a boundary would need a backtick on the other side. */
  lemma NoTicksJoin(a: string, b: string, c: string)
    requires Excludes(a, '`') && NoTicks(b) && Excludes(c, '`')
    ensures NoTicks(a + b + c)
  {
    var s := a + b + c;
    forall j | 0 <= j < |s| ensures !TicksAt(s, j) {
      if j < |a| {
        assert s[j] == a[j];
      } else if j + 3 <= |a| + |b| {
        assert s[j] == b[j - |a|] && s[j + 1] == b[j + 1 - |a|] && s[j + 2] == b[j + 2 - |a|];
        assert !TicksAt(b, j - |a|);
      } else if |a| + |b| < |s| {
        assert s[|a| + |b|] == c[0];
      }
    }
  }

  /** The lengths of the tag and of the code of a match. */
  datatype Span = Span(tagLen: nat, codeLen: nat)

  /** The pattern matches at position `i` of `s` with a tag of `n` characters and `m`
      characters of code: an opening fence, a tag of class characters, a newline, code in
      which no three backticks start, and the closing fence. */
  ghost predicate MatchAt(s: string, i: nat, cls: TagClass, n: nat, m: nat) {
    && TicksAt(s, i)
    && i + 7 + n + m <= |s|
    && (forall j :: i + 3 <= j < i + 3 + n ==> InClass(cls, s[j]))
    && s[i + 3 + n] == '\n'
    && TicksAt(s, i + 4 + n + m)
    && (forall j :: i + 4 + n <= j < i + 4 + n + m ==> !TicksAt(s, j))
  }

  /** The end of the longest run of tag characters starting at `i`. */
  function TagEnd(s: string, cls: TagClass, i: nat): (e: nat)
    requires i <= |s|
    ensures i <= e <= |s|
    decreases |s| - i
  {
    if i == |s| || !InClass(cls, s[i]) then i else TagEnd(s, cls, i + 1)
  }

  /** The run is all tag characters and stops at the first other character. */
  lemma {:induction false} TagEndSound(s: string, cls: TagClass, i: nat)
    requires i <= |s|
    ensures forall j :: i <= j < TagEnd(s, cls, i) ==> InClass(cls, s[j])
    ensures TagEnd(s, cls, i) < |s| ==> !InClass(cls, s[TagEnd(s, cls, i)])
    decreases |s| - i
  {
    if i < |s| && InClass(cls, s[i]) {
      TagEndSound(s, cls, i + 1);
    }
  }

  /** The first position at or after `i` where three backticks start, if any. */
  function TicksFrom(s: string, i: nat): (k: Option<nat>)
    requires i <= |s|
    ensures k.Some? ==> i <= k.value && k.value + 3 <= |s|
    decreases |s| - i
  {
    if i + 3 > |s| then None
    else if TicksAt(s, i) then Some(i)
    else TicksFrom(s, i + 1)
  }

  /** The position found holds three backticks and none start before it; when none is
      found, none start anywhere from `i` on. */
  lemma {:induction false} TicksFromSound(s: string, i: nat)
    requires i <= |s|
    ensures TicksFrom(s, i).Some? ==>
              TicksAt(s, TicksFrom(s, i).value) && forall j :: i <= j < TicksFrom(s, i).value ==> !TicksAt(s, j)
    ensures TicksFrom(s, i).None? ==> forall j :: i <= j ==> !TicksAt(s, j)
    decreases |s| - i
  {
    if i + 3 <= |s| && !TicksAt(s, i) {
      TicksFromSound(s, i + 1);
    }
  }

  /** The search at position `i`: the opening fence, the longest run of tag characters,
      a newline, and the nearest closing fence after it. */
  function MatchFrom(s: string, i: nat, cls: TagClass): (r: Option<Span>)
    requires i <= |s|
    ensures r.Some? ==> var n, m := r.value.tagLen, r.value.codeLen;
              TicksAt(s, i) && i + 7 + n + m <= |s| && s[i + 3 + n] == '\n'
  {
    if !TicksAt(s, i) then None
    else
      var e := TagEnd(s, cls, i + 3);
      if e == |s| || s[e] != '\n' then None
      else
        match TicksFrom(s, e + 1)
        case None => None
        case Some(k) => Some(Span(e - i - 3, k - e - 1))
  }

  /** What the search finds is a match. */
  lemma MatchFromFinds(s: string, i: nat, cls: TagClass)
    requires i <= |s| && MatchFrom(s, i, cls).Some?
    ensures MatchAt(s, i, cls, MatchFrom(s, i, cls).value.tagLen, MatchFrom(s, i, cls).value.codeLen)
  {
    var e := TagEnd(s, cls, i + 3);
    TagEndSound(s, cls, i + 3);
    TicksFromSound(s, e + 1);
  }

  /** The tag of a match is the longest run of class characters, since a newline is not
      one. */
  lemma MatchedTagEnd(s: string, i: nat, cls: TagClass, n: nat, m: nat)
    requires MatchAt(s, i, cls, n, m)
    ensures TagEnd(s, cls, i + 3) == i + 3 + n
  {
    TagEndSound(s, cls, i + 3);
    assert !InClass(cls, s[i + 3 + n]);
  }

  /** The closing fence of a match is the first one after the newline. */
  lemma MatchedClose(s: string, i: nat, cls: TagClass, n: nat, m: nat)
    requires MatchAt(s, i, cls, n, m)
    ensures TicksFrom(s, i + 4 + n) == Some(i + 4 + n + m)
  {
    TicksFromSound(s, i + 4 + n);
  }

  /** A match is what the search finds. */
  lemma MatchFound(s: string, i: nat, cls: TagClass, n: nat, m: nat)
    requires MatchAt(s, i, cls, n, m)
    ensures MatchFrom(s, i, cls) == Some(Span(n, m))
  {
    MatchedTagEnd(s, i, cls, n, m);
    MatchedClose(s, i, cls, n, m);
  }

  /** The search finds `Span(n, m)` exactly when the pattern matches at `i` with those
      lengths, so a match, when there is one, is unique. */
  lemma MatchFromSound(s: string, i: nat, cls: TagClass)
    requires i <= |s|
    ensures forall n: nat, m: nat :: MatchAt(s, i, cls, n, m) <==> MatchFrom(s, i, cls) == Some(Span(n, m))
  {
    forall n: nat, m: nat ensures MatchAt(s, i, cls, n, m) <==> MatchFrom(s, i, cls) == Some(Span(n, m)) {
      if MatchAt(s, i, cls, n, m) {
        MatchFound(s, i, cls, n, m);
      }
      if MatchFrom(s, i, cls) == Some(Span(n, m)) {
        MatchFromFinds(s, i, cls);
      }
    }
  }

  // ---------------------------------------------------------------------------
  // Blocks and pieces

  /** A matched block: the tag (empty when absent) and the code between the fences. */
  datatype Fence = Fence(tag: string, code: string)

  /** The text a block was matched from. */
  function Source(f: Fence): string {
    "```" + f.tag + "\n" + f.code + "```"
  }

  /** The shortest-match condition: no three backticks start inside the code, not even
      ones that run into the closing fence. */
  ghost predicate Lazy(code: string) {
    forall j :: 0 <= j < |code| ==> !TicksAt(code + "```", j)
  }

  /** Code without a backtick is always a shortest match. */
  lemma TickFreeLazy(code: string)
    requires Excludes(code, '`')
    ensures Lazy(code)
  {
    forall j | 0 <= j < |code| ensures !TicksAt(code + "```", j) {
      assert (code + "```")[j] == code[j];
    }
  }

  /** The code of a shortest match holds no three backticks in a row, although it may hold
      single backticks. */
  lemma LazyNoTicks(code: string)
    requires Lazy(code)
    ensures NoTicks(code)
  {
    forall j | 0 <= j < |code| ensures !TicksAt(code, j) {
      assert !TicksAt(code + "```", j);
    }
  }

  ghost predicate ValidFence(cls: TagClass, f: Fence) {
    (forall j :: 0 <= j < |f.tag| ==> InClass(cls, f.tag[j])) && Lazy(f.code)
  }

  function FenceOf(s: string, i: nat, sp: Span): Fence
    requires i + 7 + sp.tagLen + sp.codeLen <= |s|
  {
    Fence(s[i + 3..i + 3 + sp.tagLen], s[i + 4 + sp.tagLen..i + 4 + sp.tagLen + sp.codeLen])
  }

  lemma TicksInSlice(s: string, a: nat, b: nat, j: nat)
    requires a <= b <= |s| && j + 3 <= b - a
    ensures TicksAt(s[a..b], j) == TicksAt(s, a + j)
  {
  }

  lemma TicksText(s: string, j: nat)
    requires TicksAt(s, j)
    ensures s[j..j + 3] == "```"
  {
  }

  /** The code of a match, with the closing fence after it, is a shortest match. */
  lemma MatchedLazy(s: string, i: nat, cls: TagClass, n: nat, m: nat)
    requires MatchAt(s, i, cls, n, m)
    ensures Lazy(FenceOf(s, i, Span(n, m)).code)
  {
    var code := FenceOf(s, i, Span(n, m)).code;
    var a := i + 4 + n;
    TicksText(s, a + m);
    SliceSplit(s, a, a + m, a + m + 3);
    assert code + "```" == s[a..a + m + 3];
    forall j | 0 <= j < m ensures !TicksAt(code + "```", j) {
      TicksInSlice(s, a, a + m + 3, j);
    }
  }

  /** The tag of a match is made of class characters. */
  lemma MatchedTag(s: string, i: nat, cls: TagClass, n: nat, m: nat)
    requires MatchAt(s, i, cls, n, m)
    ensures forall j :: 0 <= j < n ==> InClass(cls, FenceOf(s, i, Span(n, m)).tag[j])
  {
    var tag := FenceOf(s, i, Span(n, m)).tag;
    forall j | 0 <= j < n ensures InClass(cls, tag[j]) {
      assert tag[j] == s[i + 3 + j];
    }
  }

  /** A match is a well-formed block. */
  lemma MatchedValid(s: string, i: nat, cls: TagClass, n: nat, m: nat)
    requires MatchAt(s, i, cls, n, m)
    ensures ValidFence(cls, FenceOf(s, i, Span(n, m)))
  {
    MatchedTag(s, i, cls, n, m);
    MatchedLazy(s, i, cls, n, m);
  }

  /** Fences and a newline at the right places make the slice the source text of the block
      cut from it. */
  lemma SourceAt(s: string, i: nat, n: nat, m: nat)
    requires i + 7 + n + m <= |s|
    requires TicksAt(s, i) && s[i + 3 + n] == '\n' && TicksAt(s, i + 4 + n + m)
    ensures s[i..i + 7 + n + m] == Source(FenceOf(s, i, Span(n, m)))
  {
    var a := i + 4 + n;
    TicksText(s, i);
    TicksText(s, a + m);
    assert s[i + 3 + n..a] == "\n";
    SliceSplit(s, i, i + 3, i + 3 + n);
    SliceSplit(s, i, i + 3 + n, a);
    SliceSplit(s, i, a, a + m);
    SliceSplit(s, i, a + m, a + m + 3);
  }

  /** The matched part of `s` is the source text of the block cut from it. */
  lemma MatchedSource(s: string, i: nat, cls: TagClass, n: nat, m: nat)
    requires MatchAt(s, i, cls, n, m)
    ensures s[i..i + 7 + n + m] == Source(FenceOf(s, i, Span(n, m)))
  {
    SourceAt(s, i, n, m);
  }

  /** A match is a well-formed block whose source text is the matched part of `s`. */
  lemma MatchedBlock(s: string, i: nat, cls: TagClass, n: nat, m: nat)
    requires MatchAt(s, i, cls, n, m)
    ensures ValidFence(cls, FenceOf(s, i, Span(n, m)))
    ensures s[i..i + 7 + n + m] == Source(FenceOf(s, i, Span(n, m)))
  {
    MatchedValid(s, i, cls, n, m);
    MatchedSource(s, i, cls, n, m);
  }

  /** Code that is a shortest match, found in `s` with the closing fence after it, holds no
      three backticks of `s`. */
  lemma LazyIn(s: string, a: nat, code: string)
    requires a + |code| + 3 <= |s| && s[a..a + |code| + 3] == code + "```" && Lazy(code)
    ensures forall j :: a <= j < a + |code| ==> !TicksAt(s, j)
  {
    forall j | a <= j < a + |code| ensures !TicksAt(s, j) {
      TicksInSlice(s, a, a + |code| + 3, j - a);
    }
  }

  lemma SourceParts(f: Fence)
    ensures |Source(f)| == 7 + |f.tag| + |f.code|
    ensures Source(f)[..3] == "```"
    ensures Source(f)[3..3 + |f.tag|] == f.tag
    ensures Source(f)[3 + |f.tag|] == '\n'
    ensures Source(f)[4 + |f.tag|..] == f.code + "```"
  {
    assert Source(f) == ("```" + f.tag) + ("\n" + (f.code + "```"));
  }

  lemma SubSlice(s: string, i: nat, l: nat, x: nat, y: nat)
    requires i + l <= |s| && x <= y <= l
    ensures s[i..i + l][x..y] == s[i + x..i + y]
  {
    var t := s[i..i + l];
    forall k | 0 <= k < y - x ensures t[x..y][k] == s[i + x..i + y][k] {
      assert t[x + k] == s[i + x + k];
    }
  }

  lemma TextTicks(s: string, j: nat)
    requires j + 3 <= |s| && s[j..j + 3] == "```"
    ensures TicksAt(s, j)
  {
    assert s[j..j + 3][0] == s[j] && s[j..j + 3][1] == s[j + 1] && s[j..j + 3][2] == s[j + 2];
  }

  /** The opening fence, the tag and the newline of a block found at `i`. */
  lemma BlockHead(s: string, i: nat, cls: TagClass, f: Fence)
    requires forall j :: 0 <= j < |f.tag| ==> InClass(cls, f.tag[j])
    requires i + |Source(f)| <= |s| && s[i..i + |Source(f)|] == Source(f)
    ensures TicksAt(s, i) && s[i + 3 + |f.tag|] == '\n'
    ensures forall j :: i + 3 <= j < i + 3 + |f.tag| ==> InClass(cls, s[j])
  {
    var n, l := |f.tag|, |Source(f)|;
    SourceParts(f);
    SubSlice(s, i, l, 0, 3);
    TextTicks(s, i);
    SubSlice(s, i, l, 3, 3 + n);
    forall j | i + 3 <= j < i + 3 + n ensures InClass(cls, s[j]) {
      assert s[i + 3..i + 3 + n][j - i - 3] == s[j];
    }
    assert s[i..i + l][3 + n] == s[i + 3 + n];
  }

  /** The code and the closing fence of a block found at `i`. */
  lemma BlockBody(s: string, i: nat, f: Fence)
    requires Lazy(f.code)
    requires i + |Source(f)| <= |s| && s[i..i + |Source(f)|] == Source(f)
    ensures TicksAt(s, i + 4 + |f.tag| + |f.code|)
    ensures forall j :: i + 4 + |f.tag| <= j < i + 4 + |f.tag| + |f.code| ==> !TicksAt(s, j)
  {
    var n, m, l := |f.tag|, |f.code|, |Source(f)|;
    var a := i + 4 + n;
    SourceParts(f);
    SubSlice(s, i, l, 4 + n, l);
    assert s[a..a + m + 3] == f.code + "```";
    SubSlice(s, a, m + 3, m, m + 3);
    assert (f.code + "```")[m..m + 3] == "```";
    TextTicks(s, a + m);
    LazyIn(s, a, f.code);
  }

  /** Conversely, a well-formed block at position `i` is a match there. */
  lemma BlockMatches(s: string, i: nat, cls: TagClass, f: Fence)
    requires ValidFence(cls, f)
    requires i + |Source(f)| <= |s| && s[i..i + |Source(f)|] == Source(f)
    ensures MatchAt(s, i, cls, |f.tag|, |f.code|)
  {
    SourceParts(f);
    BlockHead(s, i, cls, f);
    BlockBody(s, i, f);
  }

  datatype Piece = Text(c: char) | Block(fence: Fence)

  /** The text one piece was cut from. */
  function PieceText(p: Piece): string {
    match p
    case Text(c) => [c]
    case Block(f) => Source(f)
  }

  /** The input text the pieces were cut from. */
  function Original(ps: seq<Piece>): string {
    if ps == [] then "" else PieceText(ps[0]) + Original(ps[1..])
  }

  /** Every block among the pieces has a tag of the right class and is a shortest match. */
  ghost predicate BlocksValid(ps: seq<Piece>, cls: TagClass) {
    forall k :: 0 <= k < |ps| && ps[k].Block? ==> ValidFence(cls, ps[k].fence)
  }

  /** The piece cut at the front of a text and the number of characters it covers. */
  datatype Cut = Cut(piece: Piece, len: nat)

  /** At the front of `s`: the block that matches there, or else one copied character. */
  function Next(s: string, cls: TagClass): (c: Cut)
    requires s != []
    ensures 1 <= c.len <= |s|
  {
    match MatchFrom(s, 0, cls)
    case Some(sp) => Cut(Block(FenceOf(s, 0, sp)), 7 + sp.tagLen + sp.codeLen)
    case None => Cut(Text(s[0]), 1)
  }

  /** `text.replace(pattern, …)` cut into pieces, from left to right. */
  function Scan(s: string, cls: TagClass): seq<Piece>
    decreases |s|
  {
    if s == [] then []
    else
      var c := Next(s, cls);
      [c.piece] + Scan(s[c.len..], cls)
  }

  lemma OriginalCons(p: Piece, rest: seq<Piece>)
    ensures Original([p] + rest) == PieceText(p) + Original(rest)
  {
    assert ([p] + rest)[1..] == rest;
  }

  lemma BlocksValidCons(ps: seq<Piece>, p: Piece, rest: seq<Piece>, cls: TagClass)
    requires ps == [p] + rest
    requires p.Block? ==> ValidFence(cls, p.fence)
    requires BlocksValid(rest, cls)
    ensures BlocksValid(ps, cls)
  {
    forall k | 1 <= k < |ps| ensures ps[k] == rest[k - 1] {
    }
  }

  lemma ScanCons(s: string, cls: TagClass)
    requires s != []
    ensures Scan(s, cls) == [Next(s, cls).piece] + Scan(s[Next(s, cls).len..], cls)
  {
  }

  lemma NextAtMatch(s: string, cls: TagClass, sp: Span)
    requires s != [] && MatchFrom(s, 0, cls) == Some(sp) && 7 + sp.tagLen + sp.codeLen <= |s|
    ensures Next(s, cls) == Cut(Block(FenceOf(s, 0, sp)), 7 + sp.tagLen + sp.codeLen)
  {
  }

  lemma OriginalStep(s: string, p: Piece, rest: seq<Piece>, j: nat)
    requires j <= |s| && PieceText(p) == s[..j] && Original(rest) == s[j..]
    ensures Original([p] + rest) == s
  {
    OriginalCons(p, rest);
    assert s[..j] + s[j..] == s;
  }

  /** The piece cut at the front is cut from a prefix of the text, and a block has a tag of
      the right class and is a shortest match. */
  lemma NextSound(s: string, cls: TagClass)
    requires s != []
    ensures PieceText(Next(s, cls).piece) == s[..Next(s, cls).len]
    ensures Next(s, cls).piece.Block? ==> ValidFence(cls, Next(s, cls).piece.fence)
  {
    match MatchFrom(s, 0, cls)
    case Some(sp) =>
      MatchFromFinds(s, 0, cls);
      MatchedValid(s, 0, cls, sp.tagLen, sp.codeLen);
      MatchedSource(s, 0, cls, sp.tagLen, sp.codeLen);
    case None =>
  }

  /** One step of the scan: the first piece is cut from a non-empty prefix of the text, a
      block has a tag of the right class and is a shortest match, and the scan goes on
      after the prefix. */
  lemma ScanStep(s: string, cls: TagClass) returns (p: Piece, j: nat)
    requires s != []
    ensures 1 <= j <= |s| && PieceText(p) == s[..j]
    ensures p.Block? ==> ValidFence(cls, p.fence)
    ensures Scan(s, cls) == [p] + Scan(s[j..], cls)
  {
    NextSound(s, cls);
    p, j := Next(s, cls).piece, Next(s, cls).len;
  }

  /** The pieces reassemble to the text. */
  lemma {:induction false} ScanOriginal(s: string, cls: TagClass)
    ensures Original(Scan(s, cls)) == s
    decreases |s|
  {
    if s != [] {
      var p, j := ScanStep(s, cls);
      ScanOriginal(s[j..], cls);
      OriginalStep(s, p, Scan(s[j..], cls), j);
    }
  }

  /** Every block of the scan has a tag of the right class and is closed by the nearest
      fence. */
  lemma {:induction false} ScanValid(s: string, cls: TagClass)
    ensures BlocksValid(Scan(s, cls), cls)
    decreases |s|
  {
    if s != [] {
      var p, j := ScanStep(s, cls);
      ScanValid(s[j..], cls);
      BlocksValidCons(Scan(s, cls), p, Scan(s[j..], cls), cls);
    }
  }

  /** The pieces reassemble to the text, and every block has a tag of the right class and
      is closed by the nearest fence. */
  lemma ScanSound(s: string, cls: TagClass)
    ensures Original(Scan(s, cls)) == s
    ensures BlocksValid(Scan(s, cls), cls)
  {
    ScanOriginal(s, cls);
    ScanValid(s, cls);
  }

  /** Replaces each piece: a copied character by itself, a block by `render(tag, code)`. */
  function Render(ps: seq<Piece>, render: (string, string) -> string): string {
    if ps == [] then ""
    else
      (match ps[0] case Text(c) => [c] case Block(f) => render(f.tag, f.code))
      + Render(ps[1..], render)
  }

  /** The global replace itself. */
  function ReplaceFences(s: string, cls: TagClass, render: (string, string) -> string): string {
    Render(Scan(s, cls), render)
  }

  // ---------------------------------------------------------------------------
  // Properties of the replace

  /** The search at the front of a block's source text finds that block. */
  lemma MatchFromBlock(f: Fence, rest: string, cls: TagClass)
    requires ValidFence(cls, f)
    ensures MatchFrom(Source(f) + rest, 0, cls) == Some(Span(|f.tag|, |f.code|))
    ensures FenceOf(Source(f) + rest, 0, Span(|f.tag|, |f.code|)) == f
    ensures (Source(f) + rest)[|Source(f)|..] == rest
  {
    var s := Source(f) + rest;
    assert s[0..|Source(f)|] == Source(f);
    BlockMatches(s, 0, cls, f);
    MatchFound(s, 0, cls, |f.tag|, |f.code|);
    assert s[3..3 + |f.tag|] == f.tag;
    assert s[4 + |f.tag|..4 + |f.tag| + |f.code|] == f.code;
  }

  /** The piece cut at the front of a block's source text is that block. */
  lemma NextAtBlock(f: Fence, rest: string, cls: TagClass)
    requires ValidFence(cls, f)
    ensures Next(Source(f) + rest, cls) == Cut(Block(f), |Source(f)|)
    ensures (Source(f) + rest)[|Source(f)|..] == rest
  {
    var sp := Span(|f.tag|, |f.code|);
    MatchFromBlock(f, rest, cls);
    SourceParts(f);
    NextAtMatch(Source(f) + rest, cls, sp);
  }

  lemma RenderCons(p: Piece, rest: seq<Piece>, render: (string, string) -> string)
    ensures Render([p] + rest, render)
         == (match p case Text(c) => [c] case Block(f) => render(f.tag, f.code)) + Render(rest, render)
  {
    assert ([p] + rest)[1..] == rest;
  }

  /** A well-formed block at the start is replaced, and the scan resumes after its closing
      fence: matches do not overlap, and what follows is replaced on its own. */
  lemma ReplaceBlock(f: Fence, rest: string, cls: TagClass, render: (string, string) -> string)
    requires ValidFence(cls, f)
    ensures ReplaceFences(Source(f) + rest, cls, render) == render(f.tag, f.code) + ReplaceFences(rest, cls, render)
  {
    var s := Source(f) + rest;
    NextAtBlock(f, rest, cls);
    ScanCons(s, cls);
    RenderCons(Block(f), Scan(rest, cls), render);
  }

  lemma TicksInTail(s: string)
    requires s != []
    ensures forall j :: 0 <= j ==> TicksAt(s[1..], j) == TicksAt(s, j + 1)
  {
  }

  /** Where no match can begin or end, characters are copied one by one. */
  lemma {:induction false} ReplaceLate(s: string, c: nat, cls: TagClass, render: (string, string) -> string)
    requires c <= 3
    requires forall j :: c <= j ==> !TicksAt(s, j)
    ensures ReplaceFences(s, cls, render) == s
    decreases |s|
  {
    if s != [] {
      assert forall n: nat, m: nat :: !MatchAt(s, 0, cls, n, m);
      MatchFromSound(s, 0, cls);
      var ps := Scan(s, cls);
      assert ps[1..] == Scan(s[1..], cls);
      TicksInTail(s);
      ReplaceLate(s[1..], if c == 0 then 0 else c - 1, cls, render);
      assert s == [s[0]] + s[1..];
    }
  }

  /** Text with no three backticks in a row comes back unchanged. */
  lemma NoFenceUnchanged(s: string, cls: TagClass, render: (string, string) -> string)
    requires NoTicks(s)
    ensures ReplaceFences(s, cls, render) == s
  {
    ReplaceLate(s, 0, cls, render);
  }

  /** An opening fence that is never closed is not replaced: text whose only backtick runs
      start within its first three characters comes back unchanged. */
  lemma UnclosedFenceUnchanged(s: string, cls: TagClass, render: (string, string) -> string)
    requires TicksAt(s, 0)
    requires forall j :: 3 <= j ==> !TicksAt(s, j)
    ensures ReplaceFences(s, cls, render) == s
  {
    ReplaceLate(s, 3, cls, render);
  }

  /** Where no match starts, the first character is copied and the scan resumes after it. */
  lemma ReplaceCopies(s: string, cls: TagClass, render: (string, string) -> string)
    requires s != [] && MatchFrom(s, 0, cls).None?
    ensures ReplaceFences(s, cls, render) == [s[0]] + ReplaceFences(s[1..], cls, render)
  {
    assert Scan(s, cls) == [Text(s[0])] + Scan(s[1..], cls);
    RenderCons(Text(s[0]), Scan(s[1..], cls), render);
  }

  lemma NoTicksTail(p: string)
    requires p != [] && NoTicks(p)
    ensures NoTicks(p[1..])
  {
    forall j | 0 <= j < |p[1..]| ensures !TicksAt(p[1..], j) { assert !TicksAt(p, j + 1); }
  }

  /** No fence starts at the front of `p + s` when `p` holds no three backticks and does not
      end in one. */
  lemma NoFenceAtFront(p: string, s: string)
    requires p != [] && NoTicks(p) && p[|p| - 1] != '`'
    ensures !TicksAt(p + s, 0)
  {
    if |p| >= 3 { assert !TicksAt(p, 0); } else { assert (p + s)[|p| - 1] == p[|p| - 1]; }
  }

  lemma CopyFront(p: string, s: string, cls: TagClass, render: (string, string) -> string)
    requires p != [] && NoTicks(p) && p[|p| - 1] != '`'
    ensures ReplaceFences(p + s, cls, render) == [p[0]] + ReplaceFences(p[1..] + s, cls, render)
  {
    NoFenceAtFront(p, s);
    assert MatchFrom(p + s, 0, cls).None?;
    ReplaceCopies(p + s, cls, render);
    assert (p + s)[0] == p[0] && (p + s)[1..] == p[1..] + s;
  }

  /** Text before a block is copied unchanged when no fence can start inside it: it has no
      three backticks in a row and does not end in a backtick. */
  lemma {:induction false} ReplaceAfterText(p: string, s: string, cls: TagClass, render: (string, string) -> string)
    requires NoTicks(p) && (p == [] || p[|p| - 1] != '`')
    ensures ReplaceFences(p + s, cls, render) == p + ReplaceFences(s, cls, render)
    decreases |p|
  {
    if p == [] {
      assert p + s == s;
    } else {
      NoTicksTail(p);
      assert p[1..] == [] || p[1..][|p[1..]| - 1] == p[|p| - 1];
      CopyFront(p, s, cls, render);
      ReplaceAfterText(p[1..], s, cls, render);
      Associate([p[0]], p[1..], ReplaceFences(s, cls, render));
      assert [p[0]] + p[1..] == p;
    }
  }
}
