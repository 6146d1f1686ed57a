/** The start-up step of the sync script: a blob of `name=value` lines becomes
    a jar of session cookies for the nutrition-tracking site. Each line that has
    an '=' gives one cookie; its name is the text before the first '=' and its
    value all the text after it, both stripped of surrounding whitespace; every
    cookie gets the same domain and path. The jar is modelled as the sequence
    of cookies handed to it, in the order they were handed over. */
module MfpCookies {
  import opened PyStr

  const CookieDomain: string := ".myfitnesspal.com"
  const CookiePath: string := "/"

  datatype Cookie = Cookie(name: string, value: string, domain: string, path: string)

  /** The cookie one accepted line (one that contains '=') stands for: split at
      the first '=', both halves stripped, the fixed domain and path. */
  function CookieOf(line: string): (c: Cookie)
    requires '=' in line
    ensures '=' !in c.name
    ensures IsStripped(c.name) && IsStripped(c.value)
    ensures c.domain == CookieDomain && c.path == CookiePath
  {
    var (k, v) := SplitAtFirst(line, '=');
    var name := Strip(k);
    StripWithin(k, '=');
    Cookie(name, Strip(v), CookieDomain, CookiePath)
  }

  /** What one line adds to the jar: its cookie when it contains '=', else nothing. */
  function LineCookies(line: string): (cs: seq<Cookie>)
    ensures |cs| <= 1
    ensures |cs| == 1 <==> '=' in line
  {
    if '=' in line then [CookieOf(line)] else []
  }

  /** The cookies the loop hands to the jar for these lines, in order. */
  function CookiesOf(lines: seq<string>): (cs: seq<Cookie>)
    ensures |cs| <= |lines|
  {
    FlatMapLength(lines, LineCookies);
    FlatMap(lines, LineCookies)
  }

  /** The cookies parsed from the raw blob. */
  function ParseCookieBlob(raw: string): (cs: seq<Cookie>)
    ensures raw == [] ==> cs == []
  {
    CookiesOf(SplitLines(raw))
  }

  /** One more line adds its cookie at the end, or nothing when it has no '='. */
  lemma CookiesOfSnoc(a: seq<string>, line: string)
    ensures CookiesOf(a + [line]) == CookiesOf(a) + LineCookies(line)
  {
    assert (a + [line])[..|a|] == a;
  }

  /** The loop's step: the cookies of one more line of the input. */
  lemma CookiesOfPrefix(lines: seq<string>, i: nat)
    requires i < |lines|
    ensures CookiesOf(lines[..i + 1]) == CookiesOf(lines[..i]) + LineCookies(lines[i])
  {
    assert lines[..i + 1] == lines[..i] + [lines[i]];
    CookiesOfSnoc(lines[..i], lines[i]);
  }

  /** Read from the front: the first line's cookie comes before all the others. */
  lemma CookiesOfCons(line: string, rest: seq<string>)
    ensures CookiesOf([line] + rest) == LineCookies(line) + CookiesOf(rest)
  {
    FlatMapCons(line, rest, LineCookies);
  }

  /** The loop distributes over concatenated line sequences. */
  lemma CookiesOfAppend(a: seq<string>, b: seq<string>)
    ensures CookiesOf(a + b) == CookiesOf(a) + CookiesOf(b)
  {
    FlatMapAppend(a, b, LineCookies);
  }

  // The loop, read as a function of the lines: the contributions of all lines
  // but the last, then that of the last. Stated for any per-line function so
  // that these proofs do not depend on how one line is read.

  function FlatMap<S, T>(xs: seq<S>, f: S -> seq<T>): (ys: seq<T>) {
    if xs == [] then [] else FlatMap(xs[..|xs| - 1], f) + f(xs[|xs| - 1])
  }

  lemma {:induction false} FlatMapLength<S, T>(xs: seq<S>, f: S -> seq<T>)
    requires forall x :: |f(x)| <= 1
    ensures |FlatMap(xs, f)| <= |xs|
  {
    if xs != [] {
      FlatMapLength(xs[..|xs| - 1], f);
    }
  }

  lemma FlatMapCons<S, T>(x: S, rest: seq<S>, f: S -> seq<T>)
    ensures FlatMap([x] + rest, f) == f(x) + FlatMap(rest, f)
  {
    FlatMapAppend([x], rest, f);
    assert [x][..0] == [];
  }

  lemma {:induction false} FlatMapAppend<S, T>(a: seq<S>, b: seq<S>, f: S -> seq<T>)
    ensures FlatMap(a + b, f) == FlatMap(a, f) + FlatMap(b, f)
  {
    if b == [] {
      assert a + b == a;
    } else {
      var n := |b| - 1;
      assert (a + b)[..|a + b| - 1] == a + b[..n];
      assert (a + b)[|a + b| - 1] == b[n];
      FlatMapAppend(a, b[..n], f);
    }
  }

  /** A line without '=' contributes nothing, wherever it stands. */
  lemma LineWithoutEqualsSkipped(a: seq<string>, line: string, b: seq<string>)
    requires '=' !in line
    ensures CookiesOf(a + [line] + b) == CookiesOf(a) + CookiesOf(b)
  {
    CookiesOfAppend(a + [line], b);
    CookiesOfSnoc(a, line);
  }

  /** The positions of the lines that contain '=', in increasing order. */
  function AcceptedLines(lines: seq<string>): (idx: seq<nat>)
    ensures forall j :: 0 <= j < |idx| ==> idx[j] < |lines| && '=' in lines[idx[j]]
    ensures forall j, j' :: 0 <= j < j' < |idx| ==> idx[j] < idx[j']
    ensures forall i :: 0 <= i < |lines| && '=' in lines[i] ==> i in idx
  {
    if lines == [] then []
    else
      var n := |lines| - 1;
      var prev := AcceptedLines(lines[..n]);
      assert forall j :: 0 <= j < |prev| ==> lines[..n][prev[j]] == lines[prev[j]];
      prev + (if '=' in lines[n] then [n] else [])
  }

  /** Cookie j comes from the j-th accepted line: so there is exactly one cookie
      per line with '=', they come in the order of their lines, and each is what
      its own line reads as. */
  lemma {:induction false} CookiesFollowLines(lines: seq<string>)
    ensures |CookiesOf(lines)| == |AcceptedLines(lines)|
    ensures forall j :: 0 <= j < |AcceptedLines(lines)| ==>
      CookiesOf(lines)[j] == CookieOf(lines[AcceptedLines(lines)[j]])
  {
    if lines != [] {
      var n := |lines| - 1;
      var init, last := lines[..n], lines[n];
      var prev := AcceptedLines(init);
      var idx := AcceptedLines(lines);
      var cs := CookiesOf(lines);
      var before := CookiesOf(init);
      CookiesFollowLines(init);
      assert cs == before + LineCookies(last) by {
        assert lines == init + [last];
        CookiesOfSnoc(init, last);
      }
      assert idx == prev + (if '=' in last then [n] else []);
      forall j | 0 <= j < |idx|
        ensures cs[j] == CookieOf(lines[idx[j]])
      {
        if j < |prev| {
          assert cs[j] == before[j] == CookieOf(init[prev[j]]);
          assert init[prev[j]] == lines[prev[j]];
        } else {
          assert idx[j] == n && cs[j] == LineCookies(last)[0];
        }
      }
    }
  }

  /** Every cookie, whatever the input, has the fixed domain and path, a name
      without '=' and a name and value without surrounding whitespace. */
  lemma EveryCookieScoped(raw: string)
    ensures forall c :: c in ParseCookieBlob(raw) ==>
      c.domain == CookieDomain && c.path == CookiePath
      && '=' !in c.name && IsStripped(c.name) && IsStripped(c.value)
  {
    var lines := SplitLines(raw);
    CookiesFollowLines(lines);
  }

  /** The number of cookies is the number of lines that contain '='. */
  lemma CookieCount(lines: seq<string>)
    ensures |CookiesOf(lines)| == |set i | 0 <= i < |lines| && '=' in lines[i]|
  {
    var idx := AcceptedLines(lines);
    CookiesFollowLines(lines);
    assert (set i | 0 <= i < |lines| && '=' in lines[i]) == (set j | 0 <= j < |idx| :: idx[j]);
    DistinctCard(idx);
  }

  /** A strictly increasing sequence has as many distinct elements as entries. */
  lemma {:induction false} DistinctCard(idx: seq<nat>)
    requires forall j, j' :: 0 <= j < j' < |idx| ==> idx[j] < idx[j']
    ensures |set j | 0 <= j < |idx| :: idx[j]| == |idx|
  {
    if idx != [] {
      var n := |idx| - 1;
      DistinctCard(idx[..n]);
      var before := set j | 0 <= j < n :: idx[..n][j];
      assert (set j | 0 <= j < |idx| :: idx[j]) == before + {idx[n]};
      assert idx[n] !in before;
    }
  }

  /** The cookie of the line `k=v`, where `k` has no '=': name `k` and value `v`,
      each stripped; any '=' in `v` stays in the value. */
  lemma CookieOfLine(k: string, v: string)
    requires '=' !in k
    ensures '=' in k + "=" + v
    ensures CookieOf(k + "=" + v) == Cookie(Strip(k), Strip(v), CookieDomain, CookiePath)
  {
    SplitAtFirstUnique(k, v, '=');
  }

  /** Every '=' after the first one on a line is kept in the cookie's value. */
  lemma LaterEqualsKept(k: string, v: string)
    requires '=' !in k && '=' in v
    ensures '=' in k + "=" + v
    ensures '=' in CookieOf(k + "=" + v).value
  {
    CookieOfLine(k, v);
    StripKeeps(v, '=');
  }

  /** A line written by hand as `k=v`, with `k` and `v` already stripped, free of
      line breaks and `k` free of '=', parses back to the one cookie (k, v). */
  lemma SingleLineRoundTrip(k: string, v: string)
    requires '=' !in k && IsStripped(k) && IsStripped(v)
    requires NoBreaks(k) && NoBreaks(v)
    ensures ParseCookieBlob(k + "=" + v) == [Cookie(k, v, CookieDomain, CookiePath)]
  {
    var line := PairLine((k, v));
    PairLineNoBreaks((k, v));
    SplitLinesSingle(line);
    SingleCookie((k, v));
    assert CookiesOf([line]) == [CookieOf(line)] by {
      CookiesOfSnoc([], line);
      assert [] + [line] == [line];
    }
  }

  /** What a well-formed pair becomes as a line of the blob. */
  function PairLine(p: (string, string)): (line: string) {
    p.0 + "=" + p.1
  }

  predicate WellFormedPair(p: (string, string)) {
    '=' !in p.0 && IsStripped(p.0) && IsStripped(p.1) && NoBreaks(p.0) && NoBreaks(p.1)
  }

  function PairLines(pairs: seq<(string, string)>): (lines: seq<string>)
    ensures |lines| == |pairs|
    ensures forall j :: 0 <= j < |pairs| ==> lines[j] == PairLine(pairs[j])
  {
    if pairs == [] then [] else [PairLine(pairs[0])] + PairLines(pairs[1..])
  }

  /** A blob written as one `k=v` line per well-formed pair, each line ended by
      the same terminator, parses back to one cookie per pair, in order. */
  lemma BlobRoundTrip(pairs: seq<(string, string)>, t: string)
    requires forall j :: 0 <= j < |pairs| ==> WellFormedPair(pairs[j])
    requires IsTerminator(t)
    ensures var cs := ParseCookieBlob(JoinLines(PairLines(pairs), t));
      |cs| == |pairs|
      && forall j :: 0 <= j < |pairs| ==> cs[j] == Cookie(pairs[j].0, pairs[j].1, CookieDomain, CookiePath)
  {
    var lines := PairLines(pairs);
    forall j | 0 <= j < |lines|
      ensures NoBreaks(lines[j])
    {
      PairLineNoBreaks(pairs[j]);
    }
    SplitJoin(lines, t);
    CookiesOfPairLines(pairs);
  }

  lemma PairLineNoBreaks(p: (string, string))
    requires NoBreaks(p.0) && NoBreaks(p.1)
    ensures NoBreaks(PairLine(p))
  {
    var line := PairLine(p);
    assert forall i :: 0 <= i < |line| ==>
      line[i] == (if i < |p.0| then p.0[i] else if i == |p.0| then '=' else p.1[i - |p.0| - 1]);
  }

  /** The cookies the pairs stand for, with the fixed domain and path. */
  function PairCookies(pairs: seq<(string, string)>): (cs: seq<Cookie>)
    ensures |cs| == |pairs|
    ensures forall j :: 0 <= j < |pairs| ==> cs[j] == Cookie(pairs[j].0, pairs[j].1, CookieDomain, CookiePath)
  {
    if pairs == [] then []
    else [Cookie(pairs[0].0, pairs[0].1, CookieDomain, CookiePath)] + PairCookies(pairs[1..])
  }

  lemma {:induction false} CookiesOfPairLines(pairs: seq<(string, string)>)
    requires forall j :: 0 <= j < |pairs| ==> WellFormedPair(pairs[j])
    ensures CookiesOf(PairLines(pairs)) == PairCookies(pairs)
  {
    if pairs != [] {
      var p, rest := pairs[0], pairs[1..];
      CookiesOfPairLines(rest);
      assert PairLines(pairs) == [PairLine(p)] + PairLines(rest);
      CookiesOfCons(PairLine(p), PairLines(rest));
      SingleCookie(p);
    }
  }

  lemma SingleCookie(p: (string, string))
    requires WellFormedPair(p)
    ensures '=' in PairLine(p)
    ensures CookieOf(PairLine(p)) == Cookie(p.0, p.1, CookieDomain, CookiePath)
  {
    CookieOfLine(p.0, p.1);
    StripPadded([], p.0, []);
    StripPadded([], p.1, []);
    assert [] + p.0 + [] == p.0 && [] + p.1 + [] == p.1;
  }

  /** The cookie jar: the cookies set on it so far, oldest first. Whether a later
      cookie with the same name, domain and path replaces an earlier one is the
      jar's own business and is not modelled. */
  class CookieJar {
    var cookies: seq<Cookie>

    constructor ()
      ensures cookies == []
    {
      cookies := [];
    }

    method SetCookie(c: Cookie)
      modifies this
      ensures cookies == old(cookies) + [c]
    {
      cookies := cookies + [c];
    }
  }

  /** The script's loop: a fresh jar, then one cookie set per line that contains '='. */
  method LoadCookies(raw: string) returns (jar: CookieJar)
    ensures fresh(jar)
    ensures jar.cookies == ParseCookieBlob(raw)
  {
    jar := new CookieJar();
    var lines := SplitLines(raw);
    for i := 0 to |lines|
      invariant jar.cookies == CookiesOf(lines[..i])
    {
      var line := lines[i];
      CookiesOfPrefix(lines, i);
      if '=' in line {
        jar.SetCookie(CookieOf(line));
      }
    }
    assert lines[..|lines|] == lines;
  }
}
