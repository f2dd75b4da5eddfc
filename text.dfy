/**
 * The handful of Python `str` operations the core relies on, written out:
 * `isspace`, `strip()` / `strip(chars)`, `find`, `rfind`, `join`,
 * `splitlines()` and the word count of `split()`.
 */
module Text {

  /** Python's `str.isspace` for one character. The same set is removed by
    * `str.strip()`, split on by `str.split()` and matched by the regex class `\s`. */
  predicate IsSpace(c: char) {
    var n := c as int;
    (0x09 <= n <= 0x0D) || (0x1C <= n <= 0x20) || n == 0x85 || n == 0xA0 || n == 0x1680
    || (0x2000 <= n <= 0x200A) || n == 0x2028 || n == 0x2029 || n == 0x202F
    || n == 0x205F || n == 0x3000
  }

  /** The character sets `strip` and the word scan work with: whitespace,
    * its complement (the characters of a word), and one given character. */
  datatype CharClass = Whitespace | WordChars | OneChar(c: char)

  predicate Drops(cls: CharClass, x: char) {
    match cls
    case Whitespace => IsSpace(x)
    case WordChars => !IsSpace(x)
    case OneChar(c) => x == c
  }

  predicate AllDrop(s: string, drop: CharClass) {
    forall i :: 0 <= i < |s| ==> Drops(drop, s[i])
  }

  lemma AllDropConcat(x: string, y: string, drop: CharClass)
    requires AllDrop(x, drop) && AllDrop(y, drop)
    ensures AllDrop(x + y, drop)
  {
    forall i | 0 <= i < |x + y| ensures Drops(drop, (x + y)[i]) {
      if i >= |x| { assert (x + y)[i] == y[i - |x|]; }
    }
  }

  // ---------------------------------------------------------------------------
  // strip
  // ---------------------------------------------------------------------------

  /** `lstrip`: drops the leading characters that satisfy `drop`. */
  function LStrip(s: string, drop: CharClass): (r: string)
    ensures |r| <= |s|
    ensures |r| > 0 ==> !Drops(drop, r[0])
    decreases |s|
  {
    if |s| > 0 && Drops(drop, s[0]) then LStrip(s[1..], drop) else s
  }

  /** `rstrip`: drops the trailing characters that satisfy `drop`. */
  function RStrip(s: string, drop: CharClass): (r: string)
    ensures |r| <= |s|
    ensures |r| > 0 ==> !Drops(drop, r[|r| - 1])
    decreases |s|
  {
    if |s| > 0 && Drops(drop, s[|s| - 1]) then RStrip(s[..|s| - 1], drop) else s
  }

  /** `strip(chars)`, with the character set given as a `CharClass`. */
  function StripBy(s: string, drop: CharClass): (r: string)
    ensures |r| <= |s|
    ensures |r| > 0 ==> !Drops(drop, r[0]) && !Drops(drop, r[|r| - 1])
  {
    var l := LStrip(s, drop);
    RStripPrefix(l, drop);
    RStrip(l, drop)
  }

  /** `str.strip()` with no argument: removes surrounding whitespace. */
  function Strip(s: string): string {
    StripBy(s, Whitespace)
  }

  /** `str.strip(c)` for a one-character argument. */
  function StripChar(s: string, c: char): string {
    StripBy(s, OneChar(c))
  }

  /** What `lstrip` removes is a run of dropped characters in front. */
  lemma {:induction false} LStripParts(s: string, drop: CharClass) returns (pre: string)
    ensures s == pre + LStrip(s, drop) && AllDrop(pre, drop)
    decreases |s|
  {
    if |s| > 0 && Drops(drop, s[0]) {
      var rest := LStripParts(s[1..], drop);
      pre := [s[0]] + rest;
      assert s == [s[0]] + s[1..];
      Assoc([s[0]], rest, LStrip(s, drop));
    } else {
      pre := "";
    }
  }

  /** What `rstrip` removes is a run of dropped characters at the end. */
  lemma {:induction false} RStripParts(s: string, drop: CharClass) returns (post: string)
    ensures s == RStrip(s, drop) + post && AllDrop(post, drop)
    decreases |s|
  {
    if |s| > 0 && Drops(drop, s[|s| - 1]) {
      var rest := RStripParts(s[..|s| - 1], drop);
      post := rest + [s[|s| - 1]];
      assert s == s[..|s| - 1] + [s[|s| - 1]];
      Assoc(RStrip(s, drop), rest, [s[|s| - 1]]);
    } else {
      post := "";
    }
  }

  lemma RStripPrefix(s: string, drop: CharClass)
    ensures RStrip(s, drop) == s[..|RStrip(s, drop)|]
  {
    var post := RStripParts(s, drop);
    var r := RStrip(s, drop);
    assert s[..|r|] == (r + post)[..|r|];
  }

  /** Whatever `strip` removes lies at the two ends: the input is the result
    * with a run of dropped characters before it and another after it. */
  lemma StripParts(s: string, drop: CharClass) returns (pre: string, post: string)
    ensures s == pre + StripBy(s, drop) + post
    ensures AllDrop(pre, drop) && AllDrop(post, drop)
  {
    var l := LStrip(s, drop);
    pre := LStripParts(s, drop);
    post := RStripParts(l, drop);
    var r := RStrip(l, drop);
    assert StripBy(s, drop) == r;
    Assoc(pre, r, post);
  }

  /** The result of `strip` is empty exactly when every character is dropped. */
  lemma StripEmptyIff(s: string, drop: CharClass)
    ensures |StripBy(s, drop)| == 0 <==> AllDrop(s, drop)
  {
    var pre, post := StripParts(s, drop);
    var r := StripBy(s, drop);
    if |r| == 0 {
      assert s == pre + post;
      AllDropConcat(pre, post, drop);
    } else {
      assert s[|pre|] == r[0];
    }
  }

  lemma {:induction false} LStripDropsPrefix(a: string, m: string, drop: CharClass)
    requires AllDrop(a, drop)
    requires |m| == 0 || !Drops(drop, m[0])
    ensures LStrip(a + m, drop) == m
    decreases |a|
  {
    if |a| > 0 {
      assert (a + m)[1..] == a[1..] + m;
      LStripDropsPrefix(a[1..], m, drop);
    } else {
      assert a + m == m;
    }
  }

  lemma {:induction false} RStripDropsSuffix(m: string, b: string, drop: CharClass)
    requires AllDrop(b, drop)
    requires |m| == 0 || !Drops(drop, m[|m| - 1])
    ensures RStrip(m + b, drop) == m
    decreases |b|
  {
    if |b| > 0 {
      assert (m + b)[..|m + b| - 1] == m + b[..|b| - 1];
      RStripDropsSuffix(m, b[..|b| - 1], drop);
    } else {
      assert m + b == m;
    }
  }

  /** `strip` is determined by the decomposition: a run of dropped characters,
    * a middle that neither begins nor ends with one, and another such run. */
  lemma StripUnique(a: string, m: string, b: string, drop: CharClass)
    requires AllDrop(a, drop) && AllDrop(b, drop)
    requires |m| == 0 || (!Drops(drop, m[0]) && !Drops(drop, m[|m| - 1]))
    ensures StripBy(a + m + b, drop) == m
  {
    if |m| == 0 {
      AllDropConcat(a, b, drop);
      assert a + m + b == a + b;
      StripEmptyIff(a + m + b, drop);
    } else {
      assert a + m + b == a + (m + b);
      LStripDropsPrefix(a, m + b, drop);
      RStripDropsSuffix(m, b, drop);
    }
  }

  /** A text that already begins and ends with kept characters is left alone. */
  lemma StripKeeps(s: string, drop: CharClass)
    requires |s| > 0 && !Drops(drop, s[0]) && !Drops(drop, s[|s| - 1])
    ensures StripBy(s, drop) == s
  {
    StripUnique([], s, [], drop);
    assert [] + s + [] == s;
  }

  /** Stripping twice is stripping once. */
  lemma StripIdempotent(s: string, drop: CharClass)
    ensures StripBy(StripBy(s, drop), drop) == StripBy(s, drop)
  {
    var r := StripBy(s, drop);
    if |r| > 0 { StripKeeps(r, drop); }
  }

  lemma Regroup(a: string, pre: string, r: string, post: string, b: string)
    ensures a + (pre + r + post) + b == (a + pre) + r + (post + b)
  {
  }

  /** Dropped characters in front of, or after, a text do not survive `strip`. */
  lemma StripIgnoresAround(a: string, x: string, b: string, drop: CharClass)
    requires AllDrop(a, drop) && AllDrop(b, drop)
    ensures StripBy(a + x + b, drop) == StripBy(x, drop)
  {
    var r := StripBy(x, drop);
    var pre, post := StripParts(x, drop);
    Regroup(a, pre, r, post, b);
    AllDropConcat(a, pre, drop);
    AllDropConcat(post, b, drop);
    StripUnique(a + pre, r, post + b, drop);
  }

  // ---------------------------------------------------------------------------
  // find / rfind
  // ---------------------------------------------------------------------------

  predicate OccursAt(s: string, sub: string, i: int) {
    0 <= i && i + |sub| <= |s| && s[i..i + |sub|] == sub
  }

  function FindFrom(s: string, sub: string, i: nat): (r: int)
    requires i <= |s|
    ensures r == -1 || (i <= r && OccursAt(s, sub, r))
    ensures r == -1 ==> forall k :: i <= k ==> !OccursAt(s, sub, k)
    ensures r != -1 ==> forall k :: i <= k < r ==> !OccursAt(s, sub, k)
    decreases |s| - i
  {
    if i + |sub| > |s| then -1
    else if s[i..i + |sub|] == sub then i
    else FindFrom(s, sub, i + 1)
  }

  /** `s.find(sub)`: the lowest index where `sub` occurs, or -1. */
  function Find(s: string, sub: string): (r: int)
    ensures r == -1 || OccursAt(s, sub, r)
    ensures r == -1 <==> forall k :: !OccursAt(s, sub, k)
    ensures forall k :: 0 <= k < r ==> !OccursAt(s, sub, k)
  {
    FindFrom(s, sub, 0)
  }

  /** The index of the first `c` in `s`, or `|s|` when there is none: where
    * `s.split(c, 1)` splits. */
  function IndexOf(s: string, c: char): (i: nat)
    ensures i <= |s|
    ensures i < |s| <==> c in s
    ensures i < |s| ==> s[i] == c
    ensures forall k :: 0 <= k < i ==> s[k] != c
  {
    if |s| == 0 then 0
    else if s[0] == c then 0
    else 1 + IndexOf(s[1..], c)
  }

  function RFindAtMost(s: string, sub: string, i: int): (r: int)
    requires -1 <= i
    ensures r == -1 || (r <= i && OccursAt(s, sub, r))
    ensures forall k :: r < k <= i ==> !OccursAt(s, sub, k)
    decreases i + 1
  {
    if i < 0 then -1
    else if OccursAt(s, sub, i) then i
    else RFindAtMost(s, sub, i - 1)
  }

  /** `s.rfind(sub)`: the highest index where `sub` occurs, or -1. */
  function RFind(s: string, sub: string): (r: int)
    ensures r == -1 || OccursAt(s, sub, r)
    ensures r == -1 <==> forall k :: !OccursAt(s, sub, k)
    ensures forall k :: r < k ==> !OccursAt(s, sub, k)
  {
    if |sub| > |s| then -1 else RFindAtMost(s, sub, |s| - |sub|)
  }

  /** The first occurrence in a prefix that ends with `sub` stays the first
    * occurrence whatever follows the prefix. */
  lemma FindInPrefix(p: string, rest: string, sub: string, i: nat)
    requires OccursAt(p, sub, i)
    requires forall k :: 0 <= k < i ==> !OccursAt(p, sub, k)
    ensures Find(p + rest, sub) == i
  {
    var s := p + rest;
    assert s[i..i + |sub|] == p[i..i + |sub|];
    forall k | 0 <= k < i
      ensures !OccursAt(s, sub, k)
    {
      if OccursAt(s, sub, k) {
        assert s[k..k + |sub|] == p[k..k + |sub|];
        assert OccursAt(p, sub, k);
      }
    }
    assert OccursAt(s, sub, i);
  }

  // ---------------------------------------------------------------------------
  // join
  // ---------------------------------------------------------------------------

  /** `sep.join(parts)`. */
  function Join(sep: string, parts: seq<string>): string
    decreases |parts|
  {
    if |parts| == 0 then ""
    else if |parts| == 1 then parts[0]
    else parts[0] + sep + Join(sep, parts[1..])
  }

  /** Appending one more part appends the separator and that part, so the
    * parts appear in the joined text in their order. */
  lemma {:induction false} JoinSnoc(sep: string, parts: seq<string>, x: string)
    requires |parts| > 0
    ensures Join(sep, parts + [x]) == Join(sep, parts) + sep + x
    decreases |parts|
  {
    if |parts| == 1 {
      assert (parts + [x])[1..] == [x];
    } else {
      assert (parts + [x])[1..] == parts[1..] + [x];
      JoinSnoc(sep, parts[1..], x);
    }
  }

  /** Every character of every part is in the joined text. */
  lemma {:induction false} JoinContains(sep: string, parts: seq<string>, j: nat, k: nat)
    requires j < |parts| && k < |parts[j]|
    ensures parts[j][k] in Join(sep, parts)
    decreases |parts|
  {
    if |parts| > 1 {
      if j == 0 {
        assert (parts[0] + sep + Join(sep, parts[1..]))[k] == parts[0][k];
      } else {
        JoinContains(sep, parts[1..], j - 1, k);
      }
    }
  }

  /** A joined text made only of whitespace comes from whitespace-only parts. */
  lemma {:induction false} JoinAllSpace(sep: string, parts: seq<string>, j: nat)
    requires j < |parts|
    requires AllDrop(Join(sep, parts), Whitespace)
    ensures AllDrop(parts[j], Whitespace)
  {
    forall k | 0 <= k < |parts[j]|
      ensures IsSpace(parts[j][k])
    {
      JoinContains(sep, parts, j, k);
    }
  }

  // ---------------------------------------------------------------------------
  // splitlines
  // ---------------------------------------------------------------------------

  /** The line boundaries recognised by Python's `str.splitlines()`. */
  predicate IsLineBreak(c: char) {
    var n := c as int;
    n == 0x0A || n == 0x0D || n == 0x0B || n == 0x0C || n == 0x1C || n == 0x1D
    || n == 0x1E || n == 0x85 || n == 0x2028 || n == 0x2029
  }

  function FirstBreak(t: string): (i: nat)
    ensures i <= |t|
    ensures i < |t| ==> IsLineBreak(t[i])
  {
    if |t| == 0 || IsLineBreak(t[0]) then 0 else 1 + FirstBreak(t[1..])
  }

  /** No line boundary comes before the one `FirstBreak` finds. */
  lemma {:induction false} FirstBreakFirst(t: string)
    ensures forall k :: 0 <= k < FirstBreak(t) ==> !IsLineBreak(t[k])
  {
    if |t| > 0 && !IsLineBreak(t[0]) {
      FirstBreakFirst(t[1..]);
      forall k | 0 < k < FirstBreak(t) ensures !IsLineBreak(t[k]) {
        assert t[k] == t[1..][k - 1];
      }
    }
  }

  /** `str.splitlines()`: `\r\n` counts as one boundary and a final boundary
    * does not open an empty last line. */
  function SplitLines(t: string): (lines: seq<string>)
    ensures |t| == 0 <==> |lines| == 0
    decreases |t|
  {
    if |t| == 0 then []
    else
      var i := FirstBreak(t);
      if i == |t| then [t]
      else [t[..i]] + SplitLines(t[NextLineStart(t, i)..])
  }

  /** Where the next line starts after the boundary at `i`: past `\r\n` as
    * one unit, past any other boundary character alone. */
  function NextLineStart(t: string, i: nat): (j: nat)
    requires i < |t|
    ensures i < j <= |t|
    ensures t[i] == '\n' ==> j == i + 1
  {
    if t[i] == '\r' && i + 1 < |t| && t[i + 1] == '\n' then i + 2 else i + 1
  }

  /** `s` holds no line boundary. */
  predicate NoBreakIn(s: string) {
    forall k :: 0 <= k < |s| ==> !IsLineBreak(s[k])
  }

  /** No line holds a line boundary. */
  lemma {:induction false} SplitLinesNoBreaks(t: string)
    ensures forall j :: 0 <= j < |SplitLines(t)| ==> NoBreakIn(SplitLines(t)[j])
    decreases |t|
  {
    if |t| > 0 {
      var i := FirstBreak(t);
      FirstBreakFirst(t);
      if i < |t| {
        var j := NextLineStart(t, i);
        SplitLinesNoBreaks(t[j..]);
        var line, tail := t[..i], SplitLines(t[j..]);
        assert NoBreakIn(line) by {
          forall k | 0 <= k < |line| ensures !IsLineBreak(line[k]) {
            assert line[k] == t[k];
          }
        }
        ConsAll(line, tail);
      } else {
        assert t[..i] == t;
      }
    }
  }

  lemma ConsAll(line: string, tail: seq<string>)
    requires NoBreakIn(line)
    requires forall j :: 0 <= j < |tail| ==> NoBreakIn(tail[j])
    ensures forall j :: 0 <= j < |[line] + tail| ==> NoBreakIn(([line] + tail)[j])
  {
    forall j | 0 < j < |[line] + tail| ensures NoBreakIn(([line] + tail)[j]) {
      assert ([line] + tail)[j] == tail[j - 1];
    }
  }

  predicate OnlyNewlineBreaks(t: string) {
    forall k :: 0 <= k < |t| && IsLineBreak(t[k]) ==> t[k] == '\n'
  }

  /** The text `splitlines()` loses at the end: one final `\n`, if any. */
  function FinalNewline(t: string): string {
    if |t| > 0 && t[|t| - 1] == '\n' then "\n" else ""
  }

  lemma JoinCons(sep: string, x: string, tail: seq<string>)
    requires |tail| > 0
    ensures Join(sep, [x] + tail) == x + sep + Join(sep, tail)
  {
    assert ([x] + tail)[1..] == tail;
  }

  /** For a text whose only line boundary is `\n`, joining the lines with `\n`
    * gives the text back, less a final `\n`. */
  lemma {:induction false} SplitLinesJoin(t: string)
    requires OnlyNewlineBreaks(t)
    ensures Join("\n", SplitLines(t)) + FinalNewline(t) == t
    decreases |t|
  {
    if |t| > 0 {
      var i := FirstBreak(t);
      FirstBreakFirst(t);
      if i < |t| {
        var rest := t[i + 1..];
        assert OnlyNewlineBreaks(rest) by {
          forall k | 0 <= k < |rest| && IsLineBreak(rest[k]) ensures rest[k] == '\n' {
            assert rest[k] == t[i + 1 + k];
          }
        }
        SplitLinesJoin(rest);
        assert t[i] == '\n';
        SplitLinesStep(t, i);
      }
    }
  }

  /** One step of `SplitLinesJoin`: the first line, its `\n`, and the rest. */
  lemma SplitLinesStep(t: string, i: nat)
    requires i == FirstBreak(t) && i < |t| && t[i] == '\n'
    requires Join("\n", SplitLines(t[i + 1..])) + FinalNewline(t[i + 1..]) == t[i + 1..]
    ensures Join("\n", SplitLines(t)) + FinalNewline(t) == t
  {
    SplitLinesUnfold(t, i);
    SplitAround(t, i);
    assert [t[i]] == "\n";
    Rebuild(t, t[..i], t[i + 1..], SplitLines(t[i + 1..]), SplitLines(t));
  }

  /** A line, a `\n` and a rest that joins back give a text that joins back. */
  lemma Rebuild(t: string, line: string, rest: string, tail: seq<string>, lines: seq<string>)
    requires t == line + "\n" + rest && lines == [line] + tail
    requires |rest| == 0 <==> |tail| == 0
    requires Join("\n", tail) + FinalNewline(rest) == rest
    ensures Join("\n", lines) + FinalNewline(t) == t
  {
    if |rest| == 0 {
      assert lines == [line];
      assert t[|t| - 1] == '\n';
    } else {
      JoinCons("\n", line, tail);
      assert t[|t| - 1] == rest[|rest| - 1];
      Assoc(line + "\n", Join("\n", tail), FinalNewline(rest));
    }
  }

  lemma SplitAround(t: string, i: nat)
    requires i < |t|
    ensures t == t[..i] + [t[i]] + t[i + 1..]
  {
  }

  lemma Assoc(p: string, q: string, r: string)
    ensures (p + q) + r == p + (q + r)
  {
  }

  lemma SplitLinesUnfold(t: string, i: nat)
    requires i == FirstBreak(t) && i < |t| && t[i] == '\n'
    ensures SplitLines(t) == [t[..i]] + SplitLines(t[i + 1..])
  {
    assert NextLineStart(t, i) == i + 1;
  }

  // ---------------------------------------------------------------------------
  // split() word count
  // ---------------------------------------------------------------------------

  lemma {:induction false} LStripAppend(a: string, b: string, drop: CharClass)
    requires |LStrip(a, drop)| > 0
    ensures LStrip(a + b, drop) == LStrip(a, drop) + b
    decreases |a|
  {
    if Drops(drop, a[0]) {
      assert (a + b)[1..] == a[1..] + b;
      LStripAppend(a[1..], b, drop);
    }
  }

  /** `len(s.split())`: the number of maximal runs of non-whitespace. */
  function WordCount(s: string): nat
    decreases |s|
  {
    if |s| == 0 then 0
    else if IsSpace(s[0]) then WordCount(s[1..])
    else 1 + WordCount(LStrip(s[1..], WordChars))
  }

  /** No words exactly when the text is all whitespace. */
  lemma {:induction false} WordCountZero(s: string)
    ensures WordCount(s) == 0 <==> AllDrop(s, Whitespace)
    decreases |s|
  {
    if |s| > 0 && IsSpace(s[0]) {
      WordCountZero(s[1..]);
      if AllDrop(s[1..], Whitespace) {
        AllDropConcat([s[0]], s[1..], Whitespace);
        assert [s[0]] + s[1..] == s;
      }
    }
  }

  lemma ConsTail(x: char, a: string, c: char, b: string)
    ensures ([x] + a + [c] + b)[1..] == a + [c] + b
    ensures [x] + a + [c] + b == [x] + (a + [c] + b)
  {
  }

  lemma WordCountSpaceFirst(c: char, b: string)
    requires IsSpace(c)
    ensures WordCount([c] + b) == WordCount(b)
  {
    assert ([c] + b)[1..] == b;
  }

  /** One whitespace character between two texts separates their words:
    * the counts add up. */
  lemma {:induction false} WordCountSplit(a: string, c: char, b: string)
    requires IsSpace(c)
    ensures WordCount(a + [c] + b) == WordCount(a) + WordCount(b)
    decreases |a|, 1
  {
    if |a| == 0 {
      assert a + [c] + b == [c] + b;
      WordCountSpaceFirst(c, b);
    } else {
      var x, t := a[0], a[1..];
      assert a == [x] + t;
      ConsTail(x, t, c, b);
      if IsSpace(x) {
        WordCountSplit(t, c, b);
      } else {
        WordCountWordFirst(x, t, c, b);
      }
    }
  }

  lemma {:induction false} WordCountWordFirst(x: char, t: string, c: char, b: string)
    requires IsSpace(c) && !IsSpace(x)
    ensures WordCount([x] + t + [c] + b) == WordCount([x] + t) + WordCount(b)
    decreases |t| + 1, 0
  {
    var s := [x] + t + [c] + b;
    ConsTail(x, t, c, b);
    assert s[1..] == t + ([c] + b);
    assert ([x] + t)[1..] == t;
    var w := LStrip(t, WordChars);
    if |w| > 0 {
      LStripAppend(t, [c] + b, WordChars);
      assert w + ([c] + b) == w + [c] + b;
      WordCountSplit(w, c, b);
    } else {
      WordCountOneWord(t, c, b);
    }
  }

  /** The case of `WordCountWordFirst` where the first word runs up to `c`. */
  lemma WordCountOneWord(t: string, c: char, b: string)
    requires IsSpace(c) && |LStrip(t, WordChars)| == 0
    ensures LStrip(t + ([c] + b), WordChars) == [c] + b
    ensures WordCount([c] + b) == WordCount(b)
  {
    var pre := LStripParts(t, WordChars);
    assert t == pre;
    LStripDropsPrefix(t, [c] + b, WordChars);
    WordCountSpaceFirst(c, b);
  }
}
