/** Link conversion in public/chat.js: the global replace of `/(https?:\/\/[^\s]+)/g` by
    `<a href="$1" target="_blank">$1</a>`. A match starts with `http://` or `https://`,
    followed by at least one more non-white-space character, and runs to the next white
    space or the end of the text (the `+` is greedy). */
module Links {
  import opened Wrappers
  import opened Text

  /** `http://` starts at position `i`. */
  predicate HttpAt(s: string, i: nat) {
    i + 7 <= |s| && s[i] == 'h' && s[i + 1] == 't' && s[i + 2] == 't' && s[i + 3] == 'p'
    && s[i + 4] == ':' && s[i + 5] == '/' && s[i + 6] == '/'
  }

  /** `https://` starts at position `i`. */
  predicate HttpsAt(s: string, i: nat) {
    i + 8 <= |s| && s[i] == 'h' && s[i + 1] == 't' && s[i + 2] == 't' && s[i + 3] == 'p'
    && s[i + 4] == 's' && s[i + 5] == ':' && s[i + 6] == '/' && s[i + 7] == '/'
  }

  ghost predicate NoScheme(s: string) {
    forall i: nat :: !HttpAt(s, i) && !HttpsAt(s, i)
  }

  /** Every scheme holds a colon, so text without colons holds no scheme. */
  lemma ColonFreeNoScheme(s: string)
    requires Excludes(s, ':')
    ensures NoScheme(s)
  {
    forall i: nat ensures !HttpAt(s, i) && !HttpsAt(s, i) {
      if i + 5 < |s| { assert s[i + 4] != ':' && s[i + 5] != ':'; }
    }
  }

  /** The pattern matches at the start of `s` with a URL of `len` characters. */
  ghost predicate UrlAt(s: string, len: nat) {
    && ((HttpAt(s, 0) && len > 7) || (HttpsAt(s, 0) && len > 8))
    && len <= |s|
    && (forall j :: 0 <= j < len ==> !IsSpace(s[j]))
    && (len == |s| || IsSpace(s[len]))
  }

  /** The end of the longest run of non-white-space characters starting at `i`. */
  function RunLength(s: string, i: nat): (e: nat)
    requires i <= |s|
    ensures i <= e <= |s|
    decreases |s| - i
  {
    if i == |s| || IsSpace(s[i]) then i else RunLength(s, i + 1)
  }

  /** The run holds no white space and stops at white space or at the end. */
  lemma {:induction false} RunLengthSound(s: string, i: nat)
    requires i <= |s|
    ensures forall j :: i <= j < RunLength(s, i) ==> !IsSpace(s[j])
    ensures RunLength(s, i) < |s| ==> IsSpace(s[RunLength(s, i)])
    decreases |s| - i
  {
    if i < |s| && !IsSpace(s[i]) {
      RunLengthSound(s, i + 1);
    }
  }

  /** The length of the scheme at the start of `s`, or 0 when there is none. */
  function SchemeLength(s: string): nat {
    if HttpsAt(s, 0) then 8 else if HttpAt(s, 0) then 7 else 0
  }

  /** The search at the start of `s`: a scheme, at least one non-white-space character
      after it, then the rest of the run (the `+` is greedy). */
  function UrlFrom(s: string): (r: Option<nat>)
    ensures r.Some? ==> 0 < r.value <= |s|
  {
    var p := SchemeLength(s);
    if p > 0 && p < |s| && !IsSpace(s[p]) then Some(RunLength(s, p)) else None
  }

  /** What the search finds is a URL. */
  lemma UrlFromFinds(s: string)
    requires UrlFrom(s).Some?
    ensures UrlAt(s, UrlFrom(s).value)
  {
    var p := SchemeLength(s);
    RunLengthSound(s, p);
    assert forall j :: 0 <= j < p ==> !IsSpace(s[j]);
  }

  /** A URL is what the search finds. */
  lemma UrlFound(s: string, len: nat)
    requires UrlAt(s, len)
    ensures UrlFrom(s) == Some(len)
  {
    var p := SchemeLength(s);
    assert p < len;
    RunLengthSound(s, p);
  }

  /** The search finds `len` exactly when a URL of that length starts at the front, so the
      match, when there is one, is unique. */
  lemma UrlFromSound(s: string)
    ensures forall len: nat :: UrlAt(s, len) <==> UrlFrom(s) == Some(len)
  {
    forall len: nat ensures UrlAt(s, len) <==> UrlFrom(s) == Some(len) {
      if UrlAt(s, len) {
        UrlFound(s, len);
      }
      if UrlFrom(s) == Some(len) {
        UrlFromFinds(s);
      }
    }
  }

  predicate ValidUrl(u: string) {
    ((HttpAt(u, 0) && |u| > 7) || (HttpsAt(u, 0) && |u| > 8))
    && forall j :: 0 <= j < |u| ==> !IsSpace(u[j])
  }

  /** A matched URL is a valid one. */
  lemma UrlPiece(s: string, len: nat)
    requires UrlAt(s, len)
    ensures ValidUrl(s[..len])
  {
    var u := s[..len];
    assert forall j :: 0 <= j < len ==> u[j] == s[j];
  }

  datatype LinkPiece = Plain(c: char) | Url(url: string)

  /** The text one piece was cut from. */
  function LinkPieceText(p: LinkPiece): string {
    match p
    case Plain(c) => [c]
    case Url(u) => u
  }

  function LinkOriginal(ps: seq<LinkPiece>): string {
    if ps == [] then "" else LinkPieceText(ps[0]) + LinkOriginal(ps[1..])
  }

  /** Every URL among the pieces starts with a scheme followed by at least one more
      character and holds no white space. */
  ghost predicate UrlsValid(ps: seq<LinkPiece>) {
    forall k :: 0 <= k < |ps| && ps[k].Url? ==> ValidUrl(ps[k].url)
  }

  /** The piece cut at the front of a text and the number of characters it covers. */
  datatype LinkCut = LinkCut(piece: LinkPiece, len: nat)

  /** At the front of `s`: the URL that starts there, or else one copied character. */
  function NextLink(s: string): (c: LinkCut)
    requires s != []
    ensures 1 <= c.len <= |s|
  {
    match UrlFrom(s)
    case Some(len) => LinkCut(Url(s[..len]), len)
    case None => LinkCut(Plain(s[0]), 1)
  }

  /** The text cut into URLs and copied characters, from left to right. */
  function ScanLinks(s: string): seq<LinkPiece>
    decreases |s|
  {
    if s == [] then []
    else
      var c := NextLink(s);
      [c.piece] + ScanLinks(s[c.len..])
  }

  lemma ScanLinksCons(s: string)
    requires s != []
    ensures ScanLinks(s) == [NextLink(s).piece] + ScanLinks(s[NextLink(s).len..])
  {
  }

  /** The piece cut at the front is cut from a prefix of the text; a URL is valid and is
      followed by white space unless the text ends. */
  lemma NextLinkSound(s: string)
    requires s != []
    ensures LinkPieceText(NextLink(s).piece) == s[..NextLink(s).len]
    ensures NextLink(s).piece.Url? ==>
              ValidUrl(NextLink(s).piece.url) && (NextLink(s).len < |s| ==> IsSpace(s[NextLink(s).len]))
  {
    match UrlFrom(s)
    case Some(len) =>
      UrlFromFinds(s);
      UrlPiece(s, len);
    case None =>
  }

  lemma LinkOriginalStep(s: string, ps: seq<LinkPiece>, p: LinkPiece, rest: seq<LinkPiece>, j: nat)
    requires ps == [p] + rest
    requires j <= |s| && LinkPieceText(p) == s[..j] && LinkOriginal(rest) == s[j..]
    ensures LinkOriginal(ps) == s
  {
    assert ps[1..] == rest;
    assert s[..j] + s[j..] == s;
  }

  lemma UrlsValidCons(ps: seq<LinkPiece>, p: LinkPiece, rest: seq<LinkPiece>)
    requires ps == [p] + rest
    requires p.Url? ==> ValidUrl(p.url)
    requires UrlsValid(rest)
    ensures UrlsValid(ps)
  {
    forall k | 1 <= k < |ps| ensures ps[k] == rest[k - 1] {
    }
  }

  /** The pieces reassemble to the text. */
  lemma {:induction false} ScanLinksOriginal(s: string)
    ensures LinkOriginal(ScanLinks(s)) == s
    decreases |s|
  {
    if s != [] {
      var c := NextLink(s);
      ScanLinksCons(s);
      NextLinkSound(s);
      ScanLinksOriginal(s[c.len..]);
      LinkOriginalStep(s, ScanLinks(s), c.piece, ScanLinks(s[c.len..]), c.len);
    }
  }

  /** Every URL of the scan is a valid one. */
  lemma {:induction false} ScanLinksValid(s: string)
    ensures UrlsValid(ScanLinks(s))
    decreases |s|
  {
    if s != [] {
      var c := NextLink(s);
      ScanLinksCons(s);
      NextLinkSound(s);
      ScanLinksValid(s[c.len..]);
      UrlsValidCons(ScanLinks(s), c.piece, ScanLinks(s[c.len..]));
    }
  }

  /** The pieces reassemble to the text, and each URL starts with a scheme followed by at
      least one more character and holds no white space. */
  lemma ScanLinksSound(s: string)
    ensures LinkOriginal(ScanLinks(s)) == s
    ensures UrlsValid(ScanLinks(s))
  {
    ScanLinksOriginal(s);
    ScanLinksValid(s);
  }

  /** At a white-space character no URL starts: it is copied. */
  lemma SpaceIsPlain(s: string)
    requires s != [] && IsSpace(s[0])
    ensures ScanLinks(s)[0] == Plain(s[0])
  {
    assert UrlFrom(s) == None;
    ScanLinksCons(s);
  }

  /** URLs are maximal: the piece after a URL is a copied white-space character. */
  ghost predicate Maximal(ps: seq<LinkPiece>) {
    forall k :: 0 <= k < |ps| - 1 && ps[k].Url? ==> ps[k + 1].Plain? && IsSpace(ps[k + 1].c)
  }

  lemma MaximalCons(ps: seq<LinkPiece>, p: LinkPiece, rest: seq<LinkPiece>)
    requires ps == [p] + rest
    requires Maximal(rest)
    requires p.Url? && rest != [] ==> rest[0].Plain? && IsSpace(rest[0].c)
    ensures Maximal(ps)
  {
    assert forall k :: 1 <= k < |ps| ==> ps[k] == rest[k - 1];
  }

  /** Every URL the scan finds is as long as it can be: it would otherwise have run on. */
  lemma {:induction false} ScanLinksMaximal(s: string)
    ensures Maximal(ScanLinks(s))
    decreases |s|
  {
    if s != [] {
      var c := NextLink(s);
      ScanLinksCons(s);
      NextLinkSound(s);
      ScanLinksMaximal(s[c.len..]);
      if c.piece.Url? && c.len < |s| {
        SpaceIsPlain(s[c.len..]);
      }
      MaximalCons(ScanLinks(s), c.piece, ScanLinks(s[c.len..]));
    }
  }

  /** The replacement text `<a href="$1" target="_blank">$1</a>`. */
  function Anchor(u: string): string {
    "<a href=\"" + u + "\" target=\"_blank\">" + u + "</a>"
  }

  /** What replaces one piece: a copied character itself, a URL its anchor. */
  function RenderLink(p: LinkPiece): string {
    match p
    case Plain(c) => [c]
    case Url(u) => Anchor(u)
  }

  function RenderLinks(ps: seq<LinkPiece>): string {
    if ps == [] then "" else RenderLink(ps[0]) + RenderLinks(ps[1..])
  }

  /** `html.replace(/(https?:\/\/[^\s]+)/g, '<a href="$1" target="_blank">$1</a>')`. */
  function Linkify(s: string): string {
    RenderLinks(ScanLinks(s))
  }

  // ---------------------------------------------------------------------------
  // Properties

  lemma SchemeInTail(s: string)
    requires s != []
    ensures forall i: nat :: HttpAt(s[1..], i) == HttpAt(s, i + 1) && HttpsAt(s[1..], i) == HttpsAt(s, i + 1)
  {
  }

  lemma LinkifyCons(s: string)
    requires s != []
    ensures Linkify(s) == RenderLink(NextLink(s).piece) + Linkify(s[NextLink(s).len..])
  {
    ScanLinksCons(s);
    var ps := ScanLinks(s);
    assert ps[1..] == ScanLinks(s[NextLink(s).len..]);
  }

  /** A URL at the front is replaced by its anchor, and the replace resumes right after
      it. */
  lemma LinkifyUrl(s: string, len: nat)
    requires UrlAt(s, len)
    ensures Linkify(s) == Anchor(s[..len]) + Linkify(s[len..])
  {
    UrlFound(s, len);
    LinkifyCons(s);
  }

  /** Where no URL starts, the first character is copied and the replace goes on from the
      next one. */
  lemma LinkifyCopies(s: string)
    requires s != [] && forall len: nat :: !UrlAt(s, len)
    ensures Linkify(s) == [s[0]] + Linkify(s[1..])
  {
    UrlFromSound(s);
    LinkifyCons(s);
  }

  /** The text in front of the first scheme is copied unchanged, and the replace goes on
      from there. */
  lemma {:induction false} LinkifyCopiedPrefix(s: string, n: nat)
    requires n <= |s|
    requires forall k: nat :: k < n ==> !HttpAt(s, k) && !HttpsAt(s, k)
    ensures Linkify(s) == s[..n] + Linkify(s[n..])
    decreases n
  {
    if n > 0 {
      var t := s[1..];
      assert !HttpAt(s, 0) && !HttpsAt(s, 0);
      LinkifyCopies(s);
      SchemeInTail(s);
      LinkifyCopiedPrefix(t, n - 1);
      assert t[n - 1..] == s[n..];
      CopyStep(s, n, Linkify(s), Linkify(t), Linkify(s[n..]));
    }
  }

  lemma CopyStep(s: string, n: nat, x: string, w: string, z: string)
    requires 0 < n <= |s| && x == [s[0]] + w && w == s[1..][..n - 1] + z
    ensures x == s[..n] + z
  {
    Associate([s[0]], s[1..][..n - 1], z);
    assert [s[0]] + s[1..][..n - 1] == s[..n];
  }

  /** An anchor is its opening `<a href="` followed by the URL, the closing quote and the
      rest of the template. */
  lemma AnchorParts(u: string)
    ensures Anchor(u) == "<a href=\"" + (u + ("\"" + (" target=\"_blank\">" + u + "</a>")))
  {
    assert "\" target=\"_blank\">" == "\"" + " target=\"_blank\">";
  }

  /** No scheme starts inside the opening `<a href="` of an anchor. */
  lemma HrefNoScheme(p: string, t: string)
    requires p == "<a href=\""
    ensures forall k: nat :: k < |p| ==> !HttpAt(p + t, k) && !HttpsAt(p + t, k)
  {
    var s := p + t;
    forall k: nat | k < |p| ensures !HttpAt(s, k) && !HttpsAt(s, k) {
      assert s[k] == p[k];
      if k < |p| - 1 { assert s[k + 1] == p[k + 1]; }
    }
  }

  /** A URL followed by a quote and then white space: the pattern takes the quote too. */
  lemma UrlThenQuote(u: string, r: string)
    requires ValidUrl(u) && r != [] && IsSpace(r[0])
    ensures UrlAt(u + ("\"" + r), |u| + 1)
  {
    var t := u + ("\"" + r);
    assert t[|u|] == '"' && t[|u| + 1] == r[0];
    assert forall j :: 0 <= j < |u| ==> t[j] == u[j];
  }

  /** Linking is not idempotent: in an anchor, the URL inside `href="..."` is followed by a
      quote rather than white space, so linking the anchor again takes the URL and that
      quote as a URL of its own, and the result differs from the anchor right after
      `<a href="`. */
  lemma AnchorRelinked(u: string)
    requires ValidUrl(u)
    ensures Linkify(Anchor(u)) != Anchor(u)
  {
    var p, r := "<a href=\"", " target=\"_blank\">" + u + "</a>";
    var t := u + ("\"" + r);
    AnchorParts(u);
    HrefNoScheme(p, t);
    LinkifyCopiedPrefix(p + t, 9);
    assert (p + t)[..9] == p && (p + t)[9..] == t;
    UrlThenQuote(u, r);
    LinkifyUrl(t, |u| + 1);
    assert Linkify(p + t)[9] == '<';
    assert (p + t)[9] == u[0];
  }

  /** Text in which neither `http://` nor `https://` occurs comes back unchanged. */
  lemma {:induction false} NoSchemeUnchanged(s: string)
    requires NoScheme(s)
    ensures Linkify(s) == s
    decreases |s|
  {
    if s != [] {
      assert !HttpAt(s, 0) && !HttpsAt(s, 0);
      LinkifyCons(s);
      SchemeInTail(s);
      NoSchemeUnchanged(s[1..]);
      assert s == [s[0]] + s[1..];
    }
  }

  /** A whole text that is one URL becomes one anchor whose link and visible text are both
      that URL. */
  lemma UrlAlone(u: string)
    requires ValidUrl(u)
    ensures Linkify(u) == Anchor(u)
  {
    UrlFound(u, |u|);
    LinkifyCons(u);
    assert u[|u|..] == [] && u[..|u|] == u;
  }

  /** After text that ends in white space, a match is the same as in that text alone. */
  lemma UrlAtAppend(a: string, b: string, len: nat)
    requires a != [] && IsSpace(a[|a| - 1])
    ensures UrlAt(a + b, len) <==> len < |a| && UrlAt(a, len)
  {
    var s := a + b;
    assert forall j :: 0 <= j < |a| ==> s[j] == a[j];
    if UrlAt(s, len) {
      assert !IsSpace(s[|a| - 1]) || len <= |a| - 1;
    }
    if UrlAt(a, len) {
      assert !IsSpace(a[|a| - 1]) || len <= |a| - 1;
    }
  }

  lemma UrlFromAppend(a: string, b: string)
    requires a != [] && IsSpace(a[|a| - 1])
    ensures UrlFrom(a + b) == UrlFrom(a)
    ensures UrlFrom(a).Some? ==> UrlFrom(a).value < |a|
  {
    UrlFromSound(a);
    UrlFromSound(a + b);
    match UrlFrom(a + b)
    case Some(l) =>
      UrlAtAppend(a, b, l);
    case None =>
      match UrlFrom(a)
      case Some(l) =>
        UrlAtAppend(a, b, l);
      case None =>
  }

  /** After text that ends in white space, the piece cut at the front is the same as in that
      text alone, and it ends inside that text. */
  lemma NextLinkAppend(a: string, b: string)
    requires a != [] && IsSpace(a[|a| - 1])
    ensures NextLink(a + b) == NextLink(a)
  {
    UrlFromAppend(a, b);
    match UrlFrom(a)
    case Some(len) =>
      assert (a + b)[..len] == a[..len];
    case None =>
      assert (a + b)[0] == a[0];
  }

  lemma AppendStep(a: string, b: string)
    requires a != [] && NextLink(a + b) == NextLink(a)
    requires Linkify(a[NextLink(a).len..] + b) == Linkify(a[NextLink(a).len..]) + Linkify(b)
    ensures Linkify(a + b) == Linkify(a) + Linkify(b)
  {
    var c := NextLink(a);
    LinkifyCons(a + b);
    LinkifyCons(a);
    SliceAppend(a, b, c.len);
    Associate(RenderLink(c.piece), Linkify(a[c.len..]), Linkify(b));
  }

  /** A text ending in white space is linked independently of what follows it: no URL runs
      across white space. */
  lemma {:induction false} LinkifyAppend(a: string, b: string)
    requires a != [] && IsSpace(a[|a| - 1])
    ensures Linkify(a + b) == Linkify(a) + Linkify(b)
    decreases |a|
  {
    NextLinkAppend(a, b);
    var a2 := a[NextLink(a).len..];
    if a2 == [] {
      assert a2 + b == b;
      assert Linkify(a2) == [];
    } else {
      assert a2[|a2| - 1] == a[|a| - 1];
      LinkifyAppend(a2, b);
    }
    AppendStep(a, b);
  }
}
