/** Character classes and string helpers shared by both scripts: the whitespace set of
    JavaScript's `\s` and `String.prototype.trim`, the regular-expression classes `\w` and
    `[a-z]`, `String.prototype.includes`, `String.prototype.trim` and `split("\n")`. */
module Text {

  /** JavaScript's white space and line terminators: the set `\s` matches and `trim` removes. */
  predicate IsSpace(c: char) {
    c == '\t' || c == '\n' || c == '\U{000B}' || c == '\U{000C}' || c == '\r' || c == ' '
    || c == '\U{00A0}' || c == '\U{1680}' || ('\U{2000}' <= c <= '\U{200A}')
    || c == '\U{2028}' || c == '\U{2029}' || c == '\U{202F}' || c == '\U{205F}'
    || c == '\U{3000}' || c == '\U{FEFF}'
  }

  /** The class `\w`: ASCII letters, digits and the underscore. */
  predicate IsWordChar(c: char) {
    ('a' <= c <= 'z') || ('A' <= c <= 'Z') || ('0' <= c <= '9') || c == '_'
  }

  /** The class `[a-z]`. */
  predicate IsLower(c: char) {
    'a' <= c <= 'z'
  }

  predicate AllSpace(s: string) {
    forall i :: 0 <= i < |s| ==> IsSpace(s[i])
  }

  /** The character `c` does not occur in `s`. */
  predicate Excludes(s: string, c: char) {
    forall i :: 0 <= i < |s| ==> s[i] != c
  }

  lemma ExcludesAppend(a: string, b: string, c: char)
    ensures Excludes(a + b, c) <==> Excludes(a, c) && Excludes(b, c)
  {
    if Excludes(a, c) && Excludes(b, c) {
      forall i | 0 <= i < |a + b| ensures (a + b)[i] != c {
        if i < |a| { assert (a + b)[i] == a[i]; } else { assert (a + b)[i] == b[i - |a|]; }
      }
    }
    if Excludes(a + b, c) {
      forall i | 0 <= i < |a| ensures a[i] != c { assert (a + b)[i] == a[i]; }
      forall i | 0 <= i < |b| ensures b[i] != c { assert (a + b)[i + |a|] == b[i]; }
    }
  }

  /** `a + b`, for which absence of `c` follows from its absence from both parts. */
  lemma Extend(a: string, b: string, c: char) returns (r: string)
    requires Excludes(a, c) && Excludes(b, c)
    ensures r == a + b && Excludes(r, c)
  {
    ExcludesAppend(a, b, c);
    r := a + b;
  }

  // ---------------------------------------------------------------------------
  // Sequence algebra

  lemma Associate(a: string, b: string, c: string)
    ensures (a + b) + c == a + (b + c)
  {
  }

  lemma SliceSplit(s: string, a: nat, b: nat, c: nat)
    requires a <= b <= c <= |s|
    ensures s[a..c] == s[a..b] + s[b..c]
  {
  }

  lemma SliceAppend(a: string, b: string, j: nat)
    requires j <= |a|
    ensures (a + b)[j..] == a[j..] + b
  {
  }

  // ---------------------------------------------------------------------------
  // Substring search (`includes`)

  /** `p` occurs in `s` at position `i`. */
  predicate OccursAt(s: string, p: string, i: nat) {
    i + |p| <= |s| && s[i..i + |p|] == p
  }

  ghost predicate HasSubstring(s: string, p: string) {
    exists i: nat :: OccursAt(s, p, i)
  }

  /** `s.includes(p)`: true exactly when `p` occurs somewhere in `s`. */
  function Includes(s: string, p: string): (r: bool)
    ensures r <==> HasSubstring(s, p)
    decreases |s|
  {
    if |s| < |p| then
      assert forall i: nat :: !OccursAt(s, p, i);
      false
    else if s[..|p|] == p then
      assert OccursAt(s, p, 0);
      true
    else
      var r := Includes(s[1..], p);
      assert r ==> HasSubstring(s, p) by {
        if r {
          var i: nat :| OccursAt(s[1..], p, i);
          assert s[i + 1..i + 1 + |p|] == s[1..][i..i + |p|];
          assert OccursAt(s, p, i + 1);
        }
      }
      assert HasSubstring(s, p) ==> r by {
        if HasSubstring(s, p) {
          var i: nat :| OccursAt(s, p, i);
          assert i != 0;
          assert s[1..][i - 1..i - 1 + |p|] == s[i..i + |p|];
          assert OccursAt(s[1..], p, i - 1);
        }
      }
      r
  }

  // ---------------------------------------------------------------------------
  // `trim`

  /** Number of leading white-space characters. */
  function LeadingSpace(s: string): (n: nat)
    ensures n <= |s|
  {
    if s == [] || !IsSpace(s[0]) then 0 else LeadingSpace(s[1..]) + 1
  }

  /** The leading run is all white space, and what follows it is not. */
  lemma {:induction false} LeadingSpaceSound(s: string)
    ensures AllSpace(s[..LeadingSpace(s)])
    ensures LeadingSpace(s) < |s| ==> !IsSpace(s[LeadingSpace(s)])
  {
    if s != [] && IsSpace(s[0]) {
      var n := LeadingSpace(s[1..]);
      LeadingSpaceSound(s[1..]);
      var t := s[..n + 1];
      forall i | 0 <= i < n + 1 ensures IsSpace(t[i]) {
        if i > 0 { assert t[i] == s[1..][..n][i - 1]; }
      }
    }
  }

  /** Number of trailing white-space characters. */
  function TrailingSpace(s: string): (n: nat)
    ensures n <= |s|
  {
    if s == [] || !IsSpace(s[|s| - 1]) then 0 else TrailingSpace(s[..|s| - 1]) + 1
  }

  /** The trailing run is all white space, and what precedes it is not. */
  lemma {:induction false} TrailingSpaceSound(s: string)
    ensures AllSpace(s[|s| - TrailingSpace(s)..])
    ensures TrailingSpace(s) < |s| ==> !IsSpace(s[|s| - TrailingSpace(s) - 1])
  {
    if s != [] && IsSpace(s[|s| - 1]) {
      var init := s[..|s| - 1];
      var n := TrailingSpace(init);
      TrailingSpaceSound(init);
      var t := s[|s| - (n + 1)..];
      forall i | 0 <= i < n + 1 ensures IsSpace(t[i]) {
        if i < n { assert t[i] == init[|init| - n..][i]; }
      }
    }
  }

  ghost predicate TrimmedFrom(s: string, r: string, a: nat) {
    a + |r| <= |s| && s[a..a + |r|] == r && AllSpace(s[..a]) && AllSpace(s[a + |r|..])
  }

  /** `s.trim()`: `s` with its leading and trailing white space removed. */
  function Trim(s: string): (r: string)
    ensures |r| <= |s|
  {
    var a := LeadingSpace(s);
    s[a..|s| - TrailingSpace(s[a..])]
  }

  /** Cutting `a` white-space characters from the front and then `b` from the back, when
      neither cut could go further, leaves a part of `s` that neither starts nor ends with
      white space and is surrounded only by white space. */
  lemma TrimParts(s: string, a: nat, e: nat, rest: string, r: string)
    requires a <= e <= |s| && rest == s[a..] && r == s[a..e]
    requires AllSpace(s[..a]) && (a < |s| ==> !IsSpace(s[a]))
    requires AllSpace(rest[e - a..]) && (a < e ==> !IsSpace(rest[e - a - 1]))
    ensures TrimmedFrom(s, r, a)
    ensures r != [] ==> !IsSpace(r[0]) && !IsSpace(r[|r| - 1])
  {
    assert s[e..] == rest[e - a..];
    if a < e {
      assert r[0] == s[a];
      assert r[|r| - 1] == rest[e - a - 1];
    }
  }

  /** The trimmed text is the part of `s` after its leading white space that is followed
      only by white space, and it neither starts nor ends with white space. */
  lemma TrimSound(s: string)
    ensures TrimmedFrom(s, Trim(s), LeadingSpace(s))
    ensures Trim(s) != [] ==> !IsSpace(Trim(s)[0]) && !IsSpace(Trim(s)[|Trim(s)| - 1])
  {
    var a := LeadingSpace(s);
    var rest := s[a..];
    LeadingSpaceSound(s);
    TrailingSpaceSound(rest);
    TrimParts(s, a, |s| - TrailingSpace(rest), rest, Trim(s));
  }

  /** The trimmed text is empty exactly when `s` is all white space. */
  lemma TrimEmpty(s: string)
    ensures Trim(s) == [] <==> AllSpace(s)
  {
    var a := LeadingSpace(s);
    TrimSound(s);
    LeadingSpaceSound(s);
    if Trim(s) == [] {
      assert s[..a] == s;
    }
  }

  // ---------------------------------------------------------------------------
  // `split("\n")` and its inverse `join("\n")`

  predicate NoNewline(s: string) {
    forall i :: 0 <= i < |s| ==> s[i] != '\n'
  }

  predicate AllNoNewline(lines: seq<string>) {
    forall k :: 0 <= k < |lines| ==> NoNewline(lines[k])
  }

  /** `lines.join("\n")`. */
  function JoinLines(lines: seq<string>): string
  {
    if |lines| == 0 then ""
    else if |lines| == 1 then lines[0]
    else lines[0] + "\n" + JoinLines(lines[1..])
  }

  /** `s.split("\n")`: the pieces of `s` between newlines. */
  function SplitLines(s: string): (r: seq<string>)
    ensures r != []
  {
    if s == [] then [[]]
    else
      var rest := SplitLines(s[1..]);
      if s[0] == '\n' then [[]] + rest
      else [[s[0]] + (if rest == [] then [] else rest[0])] + (if rest == [] then [] else rest[1..])
  }

  /** Joining with an empty first piece puts a newline in front. */
  lemma JoinLinesEmptyHead(lines: seq<string>)
    requires |lines| >= 1
    ensures JoinLines([[]] + lines) == "\n" + JoinLines(lines)
  {
    assert ([[]] + lines)[1..] == lines;
  }

  /** Joining with a character put in front of the first piece puts it in front of the join. */
  lemma JoinLinesConsHead(c: char, lines: seq<string>)
    requires |lines| >= 1
    ensures JoinLines([[c] + lines[0]] + lines[1..]) == [c] + JoinLines(lines)
  {
    var t := [[c] + lines[0]] + lines[1..];
    assert t[0] == [c] + lines[0] && t[1..] == lines[1..];
    if |lines| > 1 {
      Associate([c], lines[0], "\n");
      Associate([c], lines[0] + "\n", JoinLines(lines[1..]));
    }
  }

  lemma AllNoNewlineTail(lines: seq<string>)
    requires |lines| >= 1 && AllNoNewline(lines)
    ensures NoNewline(lines[0]) && AllNoNewline(lines[1..])
  {
    assert forall k :: 0 <= k < |lines| - 1 ==> lines[1..][k] == lines[k + 1];
  }

  /** The pieces are never none, each is free of newlines, and joined back with newlines
      they give `s` again. */
  lemma {:induction false} SplitLinesSound(s: string)
    ensures |SplitLines(s)| >= 1 && AllNoNewline(SplitLines(s))
    ensures JoinLines(SplitLines(s)) == s
    decreases |s|
  {
    if s != [] {
      SplitLinesSound(s[1..]);
      var rest := SplitLines(s[1..]);
      if s[0] == '\n' {
        assert SplitLines(s) == [[]] + rest;
        AllNoNewlineAppend([[]], rest);
        JoinLinesEmptyHead(rest);
        assert s == "\n" + s[1..];
      } else {
        assert SplitLines(s) == [[s[0]] + rest[0]] + rest[1..];
        AllNoNewlineTail(rest);
        NoNewlineAppend([s[0]], rest[0]);
        AllNoNewlineAppend([[s[0]] + rest[0]], rest[1..]);
        JoinLinesConsHead(s[0], rest);
        assert s == [s[0]] + s[1..];
      }
    }
  }

  lemma {:induction false} JoinLinesAppend(x: seq<string>, y: seq<string>)
    requires |x| >= 1 && |y| >= 1
    ensures JoinLines(x + y) == JoinLines(x) + "\n" + JoinLines(y)
    decreases |x|
  {
    if |x| == 1 {
      assert (x + y)[1..] == y;
    } else {
      assert (x + y)[1..] == x[1..] + y;
      JoinLinesAppend(x[1..], y);
    }
  }

  /** The first piece of a join is a prefix, followed by a newline when more pieces follow. */
  lemma JoinLinesHead(lines: seq<string>)
    requires |lines| >= 1
    ensures |JoinLines(lines)| >= |lines[0]| + (if |lines| > 1 then 1 else 0)
    ensures JoinLines(lines)[..|lines[0]|] == lines[0]
    ensures |lines| > 1 ==>
              JoinLines(lines)[|lines[0]|] == '\n' && JoinLines(lines)[|lines[0]| + 1..] == JoinLines(lines[1..])
  {
  }

  /** `split("\n")` is the only way to cut `s` into newline-free pieces that join back to `s`. */
  lemma {:induction false} SplitLinesUnique(s: string, lines: seq<string>)
    requires |lines| >= 1 && AllNoNewline(lines) && JoinLines(lines) == s
    ensures lines == SplitLines(s)
    decreases |s|
  {
    JoinLinesHead(lines);
    SplitLinesSound(s);
    if s == [] {
      assert lines == [[]];
    } else if s[0] == '\n' {
      assert NoNewline(lines[0]);
      assert lines[0] == [];
      assert s[1..] == JoinLines(lines[1..]);
      SplitLinesUnique(s[1..], lines[1..]);
      assert lines == [[]] + lines[1..];
    } else {
      assert lines[0] != [];
      var tail := [lines[0][1..]] + lines[1..];
      assert lines[0] == [s[0]] + lines[0][1..];
      assert NoNewline(lines[0][1..]) by {
        forall i | 0 <= i < |lines[0][1..]| ensures lines[0][1..][i] != '\n' {
          assert lines[0][1..][i] == lines[0][i + 1];
        }
      }
      assert AllNoNewline(tail) by {
        forall k | 0 <= k < |tail| ensures NoNewline(tail[k]) {
          if k > 0 { assert tail[k] == lines[k]; }
        }
      }
      assert tail[1..] == lines[1..];
      if |lines| == 1 {
        assert JoinLines(tail) == lines[0][1..] == s[1..];
      } else {
        assert s == lines[0] + "\n" + JoinLines(lines[1..]);
        assert s[1..] == lines[0][1..] + "\n" + JoinLines(lines[1..]);
        assert JoinLines(tail) == s[1..];
      }
      SplitLinesUnique(s[1..], tail);
    }
  }

  lemma AllNoNewlineAppend(x: seq<string>, y: seq<string>)
    requires AllNoNewline(x) && AllNoNewline(y)
    ensures AllNoNewline(x + y)
  {
    forall k | 0 <= k < |x + y| ensures NoNewline((x + y)[k]) {
      if k < |x| { assert (x + y)[k] == x[k]; } else { assert (x + y)[k] == y[k - |x|]; }
    }
  }

  lemma NoNewlineAppend(a: string, b: string)
    requires NoNewline(a) && NoNewline(b)
    ensures NoNewline(a + b)
  {
    forall i | 0 <= i < |a + b| ensures (a + b)[i] != '\n' {
      if i < |a| { assert (a + b)[i] == a[i]; } else { assert (a + b)[i] == b[i - |a|]; }
    }
  }

  /** Splitting at a newline splits the pieces: `(a + "\n" + b).split("\n")` is the pieces of
      `a` followed by the pieces of `b`. */
  lemma SplitLinesAtNewline(a: string, b: string)
    ensures SplitLines(a + "\n" + b) == SplitLines(a) + SplitLines(b)
  {
    var x, y := SplitLines(a), SplitLines(b);
    SplitLinesSound(a);
    SplitLinesSound(b);
    AllNoNewlineAppend(x, y);
    JoinLinesAppend(x, y);
    SplitLinesUnique(a + "\n" + b, x + y);
  }

  /** A string without newlines is a single piece. */
  lemma SplitLinesSingle(a: string)
    requires NoNewline(a)
    ensures SplitLines(a) == [a]
  {
    SplitLinesUnique(a, [a]);
  }
}
