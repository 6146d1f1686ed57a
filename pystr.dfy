/** The three Python string operations the cookie parser relies on, over
    strings of Unicode scalar values:
    - `str.splitlines()` with no argument (line terminators dropped),
    - `str.strip()` with no argument (Unicode whitespace as `str.isspace`),
    - `sep in s` and `s.split(sep, 1)` for a one-character separator. */
module PyStr {

  /** The line boundaries `str.splitlines` recognises (besides the pair "\r\n"). */
  predicate IsLineBreak(c: char) {
    c == '\n' || c == '\r' || c == '\U{0B}' || c == '\U{0C}'
    || c == '\U{1C}' || c == '\U{1D}' || c == '\U{1E}'
    || c == '\U{85}' || c == '\U{2028}' || c == '\U{2029}'
  }

  /** The characters for which `str.isspace` holds, the ones `str.strip()` removes. */
  predicate IsSpace(c: char) {
    ('\t' <= c <= '\r') || ('\U{1C}' <= c <= '\U{1F}') || c == ' '
    || c == '\U{85}' || c == '\U{A0}' || c == '\U{1680}'
    || ('\U{2000}' <= c <= '\U{200A}')
    || c == '\U{2028}' || c == '\U{2029}' || c == '\U{202F}'
    || c == '\U{205F}' || c == '\U{3000}'
  }

  predicate NoBreaks(s: string) {
    forall k :: 0 <= k < |s| ==> !IsLineBreak(s[k])
  }

  predicate AllSpace(s: string) {
    forall k :: 0 <= k < |s| ==> IsSpace(s[k])
  }

  /** A string that `strip()` leaves as it is: empty, or not starting or ending in whitespace. */
  predicate IsStripped(s: string) {
    s == [] || (!IsSpace(s[0]) && !IsSpace(s[|s| - 1]))
  }

  // ---------------------------------------------------------------------------
  // str.splitlines()
  // ---------------------------------------------------------------------------

  /** Position of the first line break in `s`, or `|s|` when there is none. */
  function FirstBreak(s: string): (i: nat)
    ensures i <= |s|
    ensures NoBreaks(s[..i])
    ensures i < |s| ==> IsLineBreak(s[i])
  {
    if s == [] then 0
    else if IsLineBreak(s[0]) then 0
    else
      var j := FirstBreak(s[1..]);
      assert s[1..][..j] == s[1..j + 1];
      1 + j
  }

  /** The length of the terminator that starts at `s[i]`: "\r\n" is one terminator. */
  function TerminatorLength(s: string, i: nat): (n: nat)
    requires i < |s| && IsLineBreak(s[i])
    ensures 1 <= n <= 2 && i + n <= |s|
    ensures n == 2 <==> (s[i] == '\r' && i + 1 < |s| && s[i + 1] == '\n')
  {
    if s[i] == '\r' && i + 1 < |s| && s[i + 1] == '\n' then 2 else 1
  }

  /** `s.splitlines()`: the lines of `s` without their terminators; a final
      terminator does not start a further, empty line. */
  function SplitLines(s: string): (lines: seq<string>)
    ensures forall j :: 0 <= j < |lines| ==> NoBreaks(lines[j])
    ensures lines == [] <==> s == []
    decreases |s|
  {
    if s == [] then []
    else
      var i := FirstBreak(s);
      if i == |s| then [s]
      else [s[..i]] + SplitLines(s[i + TerminatorLength(s, i)..])
  }

  /** A single line terminator as `str.splitlines` reads it. */
  predicate IsTerminator(t: string) {
    t == "\r\n" || (|t| == 1 && IsLineBreak(t[0]))
  }

  /** The lines, each followed by the terminator `t`. */
  function JoinLines(lines: seq<string>, t: string): (s: string) {
    if lines == [] then [] else lines[0] + t + JoinLines(lines[1..], t)
  }

  /** The first break of a break-free line followed by a break is at the end of that line. */
  lemma {:induction false} FirstBreakOfLine(l: string, rest: string)
    requires NoBreaks(l)
    requires rest != [] && IsLineBreak(rest[0])
    ensures FirstBreak(l + rest) == |l|
  {
    if l != [] {
      assert (l + rest)[0] == l[0];
      assert (l + rest)[1..] == l[1..] + rest;
      FirstBreakOfLine(l[1..], rest);
    }
  }

  /** A line without breaks, then one terminator, is the first line. A bare "\r"
      is read as a whole terminator only when no '\n' follows it. */
  lemma SplitLinesCons(l: string, t: string, rest: string)
    requires NoBreaks(l) && IsTerminator(t)
    requires t == "\r" ==> rest == [] || rest[0] != '\n'
    ensures SplitLines(l + t + rest) == [l] + SplitLines(rest)
  {
    var s := l + t + rest;
    assert s == l + (t + rest);
    FirstBreakOfLine(l, t + rest);
    assert s[..|l|] == l;
    assert s[|l| + TerminatorLength(s, |l|)..] == rest;
  }

  /** A non-empty string without line breaks is a single line. */
  lemma SplitLinesSingle(s: string)
    requires s != [] && NoBreaks(s)
    ensures SplitLines(s) == [s]
  {
    assert s[..|s|] == s;
  }

  /** Splitting undoes joining: break-free lines, each followed by the same
      terminator and then any text that does not start with '\n', split into
      those lines and then the lines of that text. */
  lemma {:induction false} SplitJoinThen(lines: seq<string>, t: string, tail: string)
    requires forall j :: 0 <= j < |lines| ==> NoBreaks(lines[j])
    requires IsTerminator(t)
    requires tail == [] || tail[0] != '\n'
    ensures SplitLines(JoinLines(lines, t) + tail) == lines + SplitLines(tail)
  {
    if lines != [] {
      var rest := JoinLines(lines[1..], t) + tail;
      assert SplitLines(rest) == lines[1..] + SplitLines(tail) by {
        SplitJoinThen(lines[1..], t, tail);
      }
      assert SplitLines(lines[0] + t + rest) == [lines[0]] + SplitLines(rest) by {
        if t == "\r" {
          JoinedStart(lines[1..], t, tail);
        }
        SplitLinesCons(lines[0], t, rest);
      }
      JoinedLinesCons(lines, t, tail);
    } else {
      assert JoinLines(lines, t) + tail == tail;
    }
  }

  lemma JoinedLinesCons(lines: seq<string>, t: string, tail: string)
    requires lines != []
    requires SplitLines(JoinLines(lines[1..], t) + tail) == lines[1..] + SplitLines(tail)
    requires SplitLines(lines[0] + t + (JoinLines(lines[1..], t) + tail))
      == [lines[0]] + SplitLines(JoinLines(lines[1..], t) + tail)
    ensures SplitLines(JoinLines(lines, t) + tail) == lines + SplitLines(tail)
  {
    JoinLinesUnfold(lines, t, tail);
    ConsAppend(lines, SplitLines(tail));
  }

  lemma JoinLinesUnfold(lines: seq<string>, t: string, tail: string)
    requires lines != []
    ensures JoinLines(lines, t) + tail == lines[0] + t + (JoinLines(lines[1..], t) + tail)
  {
  }

  lemma ConsAppend<T>(xs: seq<T>, ys: seq<T>)
    requires xs != []
    ensures [xs[0]] + (xs[1..] + ys) == xs + ys
  {
    assert xs == [xs[0]] + xs[1..];
  }

  /** Joined lines with a bare "\r" terminator never start with '\n'. */
  lemma JoinedStart(lines: seq<string>, t: string, tail: string)
    requires forall j :: 0 <= j < |lines| ==> NoBreaks(lines[j])
    requires t == "\r"
    requires tail == [] || tail[0] != '\n'
    ensures var s := JoinLines(lines, t) + tail; s == [] || s[0] != '\n'
  {
    if lines != [] {
      var s := JoinLines(lines, t) + tail;
      assert s == lines[0] + (t + JoinLines(lines[1..], t) + tail);
      if lines[0] != [] {
        assert s[0] == lines[0][0];
      } else {
        assert s[0] == t[0];
      }
    }
  }

  /** `splitlines` round trip: break-free lines each followed by one terminator. */
  lemma SplitJoin(lines: seq<string>, t: string)
    requires forall j :: 0 <= j < |lines| ==> NoBreaks(lines[j])
    requires IsTerminator(t)
    ensures SplitLines(JoinLines(lines, t)) == lines
  {
    SplitJoinThen(lines, t, []);
    assert JoinLines(lines, t) + [] == JoinLines(lines, t);
  }

  /** `splitlines` round trip when the last line has no terminator. */
  lemma SplitJoinUnterminated(lines: seq<string>, t: string, last: string)
    requires forall j :: 0 <= j < |lines| ==> NoBreaks(lines[j])
    requires IsTerminator(t)
    requires last != [] && NoBreaks(last)
    ensures SplitLines(JoinLines(lines, t) + last) == lines + [last]
  {
    SplitJoinThen(lines, t, last);
    SplitLinesSingle(last);
  }

  // ---------------------------------------------------------------------------
  // sep in s, s.split(sep, 1)
  // ---------------------------------------------------------------------------

  /** Position of the first occurrence of `c` in `s`. */
  function IndexOf(s: string, c: char): (i: nat)
    requires c in s
    ensures i < |s| && s[i] == c
    ensures c !in s[..i]
  {
    if s[0] == c then 0
    else
      assert c in s[1..];
      var j := IndexOf(s[1..], c);
      assert s[..j + 1] == [s[0]] + s[1..][..j];
      1 + j
  }

  /** `s.split(sep, 1)` on a string that contains `sep`: the text before the
      first `sep` and all the text after it. */
  function SplitAtFirst(s: string, sep: char): (parts: (string, string))
    requires sep in s
    ensures s == parts.0 + [sep] + parts.1
    ensures sep !in parts.0
  {
    var i := IndexOf(s, sep);
    assert s == s[..i] + [sep] + s[i + 1..];
    (s[..i], s[i + 1..])
  }

  /** The first separator in `k + [sep] + v`, when `k` holds none, is the one after `k`. */
  lemma {:induction false} IndexOfFirst(k: string, v: string, sep: char)
    requires sep !in k
    ensures sep in k + [sep] + v
    ensures IndexOf(k + [sep] + v, sep) == |k|
  {
    var s := k + [sep] + v;
    assert s[|k|] == sep;
    if k != [] {
      assert s[0] == k[0];
      assert s[1..] == k[1..] + [sep] + v;
      IndexOfFirst(k[1..], v, sep);
    }
  }

  /** The split is determined by where the first separator is. */
  lemma SplitAtFirstUnique(k: string, v: string, sep: char)
    requires sep !in k
    ensures sep in k + [sep] + v
    ensures SplitAtFirst(k + [sep] + v, sep) == (k, v)
  {
    var s := k + [sep] + v;
    IndexOfFirst(k, v, sep);
    assert s[..|k|] == k;
    assert s[|k| + 1..] == v;
  }

  // ---------------------------------------------------------------------------
  // str.strip()
  // ---------------------------------------------------------------------------

  /** How many whitespace characters `s` starts with. */
  function LeadingSpace(s: string): (n: nat)
    ensures n <= |s|
    ensures forall k :: 0 <= k < n ==> IsSpace(s[k])
    ensures n < |s| ==> !IsSpace(s[n])
  {
    if s != [] && IsSpace(s[0]) then 1 + LeadingSpace(s[1..]) else 0
  }

  /** How many whitespace characters `s` ends with. */
  function TrailingSpace(s: string): (n: nat)
    ensures n <= |s|
    ensures forall k :: |s| - n <= k < |s| ==> IsSpace(s[k])
    ensures n < |s| ==> !IsSpace(s[|s| - n - 1])
  {
    if s != [] && IsSpace(s[|s| - 1]) then 1 + TrailingSpace(s[..|s| - 1]) else 0
  }

  /** `s.strip()`: the slice of `s` between its leading whitespace and the
      whitespace that ends what is left. */
  function Strip(s: string): (r: string)
    ensures IsStripped(r)
    ensures |r| <= |s|
  {
    var i := LeadingSpace(s);
    var j := |s| - TrailingSpace(s[i..]);
    assert j < |s| ==> s[i..][j - i] == s[j];
    s[i..j]
  }

  /** `strip()` adds nothing: every character of the result is one of `s`. */
  lemma StripWithin(s: string, c: char)
    ensures c in Strip(s) ==> c in s
  {
    var i := LeadingSpace(s);
    var r := Strip(s);
    if c in r {
      var k :| 0 <= k < |r| && r[k] == c;
      assert s[i + k] == c;
    }
  }

  /** `strip()` removes only whitespace: every other character of `s` survives. */
  lemma StripKeeps(s: string, c: char)
    requires c in s && !IsSpace(c)
    ensures c in Strip(s)
  {
    var i := LeadingSpace(s);
    var rest := s[i..];
    var r := Strip(s);
    var k :| 0 <= k < |s| && s[k] == c;
    assert i <= k;
    assert rest[k - i] == c;
    assert k - i < |rest| - TrailingSpace(rest);
    assert r[k - i] == c;
  }

  /** Whitespace, then text that does not start with whitespace: the whitespace is all that leads. */
  lemma {:induction false} LeadingSpaceOf(w: string, t: string)
    requires AllSpace(w) && (t == [] || !IsSpace(t[0]))
    ensures LeadingSpace(w + t) == |w|
  {
    if w != [] {
      assert (w + t)[0] == w[0];
      assert (w + t)[1..] == w[1..] + t;
      LeadingSpaceOf(w[1..], t);
    } else {
      assert w + t == t;
    }
  }

  /** Text that does not end in whitespace, then whitespace: the whitespace is all that trails. */
  lemma {:induction false} TrailingSpaceOf(t: string, w: string)
    requires AllSpace(w) && (t == [] || !IsSpace(t[|t| - 1]))
    ensures TrailingSpace(t + w) == |w|
  {
    if w != [] {
      var s := t + w;
      assert s[|s| - 1] == w[|w| - 1];
      assert s[..|s| - 1] == t + w[..|w| - 1];
      TrailingSpaceOf(t, w[..|w| - 1]);
    } else {
      assert t + w == t;
    }
  }

  /** Whitespace, then a stripped string, then whitespace: `strip()` gives back that string. */
  lemma StripPadded(w1: string, t: string, w2: string)
    requires AllSpace(w1) && AllSpace(w2) && IsStripped(t)
    ensures Strip(w1 + t + w2) == t
  {
    var s := w1 + t + w2;
    if t == [] {
      assert s == (w1 + w2) + [];
      LeadingSpaceOf(w1 + w2, []);
    } else {
      assert s == w1 + (t + w2);
      LeadingSpaceOf(w1, t + w2);
      assert s[|w1|..] == t + w2;
      TrailingSpaceOf(t, w2);
      assert s[|w1|..|s| - |w2|] == t;
    }
  }

  /** Every string is whitespace, then its stripped form, then whitespace; with
      `StripPadded` this fixes `Strip(s)` for every `s`. */
  lemma StripSplits(s: string)
    ensures exists w1, w2 :: AllSpace(w1) && AllSpace(w2) && s == w1 + Strip(s) + w2
  {
    var i := LeadingSpace(s);
    var j := |s| - TrailingSpace(s[i..]);
    var w1, w2 := s[..i], s[j..];
    forall k | 0 <= k < |w2|
      ensures IsSpace(w2[k])
    {
      assert w2[k] == s[i..][j - i + k];
    }
    assert Strip(s) == s[i..j];
    assert s == w1 + s[i..j] + w2;
    assert AllSpace(w1) && AllSpace(w2) && s == w1 + Strip(s) + w2;
  }

  /** `strip()` leaves a stripped string alone, so it is idempotent. */
  lemma StripIdempotent(s: string)
    ensures Strip(Strip(s)) == Strip(s)
  {
    var t := Strip(s);
    StripPadded([], t, []);
    assert [] + t + [] == t;
  }
}
