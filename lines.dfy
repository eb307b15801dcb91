/** Line splitting as Python's `str.splitlines()` does it, the `if segment` filter the renderer
    applies to its result, and `'<br>'.join` with the split that undoes it. */
module Lines {
  import opened HtmlText

  /** The line boundaries `str.splitlines` recognises: \n, \r, \v, \f, \x1c, \x1d, \x1e, \x85,
      \u2028 and \u2029. */
  predicate IsLineBoundary(c: char) {
    var n := c as int;
    n == 0x0A || n == 0x0D || n == 0x0B || n == 0x0C || n == 0x1C || n == 0x1D || n == 0x1E
    || n == 0x85 || n == 0x2028 || n == 0x2029
  }

  predicate BreakFree(s: string) {
    forall i | 0 <= i < |s| :: !IsLineBoundary(s[i])
  }

  /** The length of the longest prefix of `s` that holds no line boundary. */
  function LineLength(s: string): (n: nat)
    ensures n <= |s|
    ensures forall i | 0 <= i < n :: !IsLineBoundary(s[i])
    ensures n < |s| ==> IsLineBoundary(s[n])
    decreases |s|
  {
    if s == "" || IsLineBoundary(s[0]) then 0 else 1 + LineLength(s[1..])
  }

  /** `s.splitlines()`: the text between line boundaries, `\r\n` counting as one boundary and a
      boundary at the very end not starting another line. */
  function SplitLines(s: string): seq<string>
    decreases |s|
  {
    if s == "" then []
    else
      var n := LineLength(s);
      if n == |s| then [s]
      else
        [s[..n]] + SplitLines(s[n + BoundaryWidth(s, n)..])
  }

  /** How many characters the boundary at `s[n]` takes: two for `\r\n`, else one. */
  function BoundaryWidth(s: string, n: nat): (w: nat)
    requires n < |s|
    ensures 1 <= w && n + w <= |s|
    ensures w == 2 ==> s[n] == '\r' && s[n + 1] == '\n'
  {
    if s[n] == '\r' && n + 1 < |s| && s[n + 1] == '\n' then 2 else 1
  }

  /** `[x for x in xs if x]`. */
  function NonEmpty(xs: seq<string>): seq<string>
    decreases |xs|
  {
    if xs == [] then []
    else if xs[0] == "" then NonEmpty(xs[1..])
    else [xs[0]] + NonEmpty(xs[1..])
  }

  /** The lines the renderer keeps of a callout body or a ritual-step description. */
  function Segments(s: string): seq<string> {
    NonEmpty(SplitLines(s))
  }

  /** Reference definition: the maximal runs of characters of `s` that are not line boundaries,
      in order. */
  function Runs(s: string): seq<string>
    decreases |s|
  {
    if s == "" then []
    else if IsLineBoundary(s[0]) then Runs(s[1..])
    else
      var n := LineLength(s);
      [s[..n]] + Runs(s[n..])
  }

  /** `s` with its line boundaries taken out. */
  function RemoveBoundaries(s: string): string
    decreases |s|
  {
    if s == "" then ""
    else if IsLineBoundary(s[0]) then RemoveBoundaries(s[1..])
    else [s[0]] + RemoveBoundaries(s[1..])
  }

  lemma {:induction false} RemoveBoundariesOfLine(s: string, n: nat)
    requires n <= |s|
    requires forall i | 0 <= i < n :: !IsLineBoundary(s[i])
    ensures RemoveBoundaries(s) == s[..n] + RemoveBoundaries(s[n..])
    decreases n
  {
    if n > 0 {
      RemoveBoundariesOfLine(s[1..], n - 1);
      assert s[1..][n - 1..] == s[n..];
      assert s[..n] == [s[0]] + s[1..][..n - 1];
    }
  }

  /** What the runs are: non-empty, free of line boundaries, and together every
      non-boundary character of `s` in order. */
  lemma {:induction false} RunsSpec(s: string)
    ensures forall i | 0 <= i < |Runs(s)| :: Runs(s)[i] != "" && BreakFree(Runs(s)[i])
    ensures Concat(Runs(s)) == RemoveBoundaries(s)
    decreases |s|
  {
    if s != "" {
      if IsLineBoundary(s[0]) {
        RunsSpec(s[1..]);
      } else {
        var n := LineLength(s);
        RunsSpec(s[n..]);
        RemoveBoundariesOfLine(s, n);
        assert s[..n][0] == s[0];
        assert Runs(s) == [s[..n]] + Runs(s[n..]);
        assert Runs(s)[1..] == Runs(s[n..]);
      }
    }
  }

  /** A run of boundaries is skipped by `Runs`. */
  lemma RunsSkip(s: string, k: nat)
    requires k <= |s|
    requires forall i | 0 <= i < k :: IsLineBoundary(s[i])
    ensures Runs(s) == Runs(s[k..])
    decreases k
  {
    if k > 0 {
      RunsSkip(s[1..], k - 1);
      assert s[1..][k - 1..] == s[k..];
    }
  }

  lemma NonEmptyCons(x: string, ys: seq<string>)
    ensures NonEmpty([x] + ys) == (if x == "" then [] else [x]) + NonEmpty(ys)
  {
    assert ([x] + ys)[0] == x && ([x] + ys)[1..] == ys;
  }

  /** Python's `[x for x in s.splitlines() if x]` is the list of maximal boundary-free runs: once
      empty lines are dropped, it does not matter that `\r\n` is one boundary or that a final
      boundary opens no line. */
  lemma {:induction false} SegmentsAreRuns(s: string)
    ensures Segments(s) == Runs(s)
    decreases |s|
  {
    if s != "" {
      var n := LineLength(s);
      var line := s[..n];
      var head := if n == 0 then [] else [line];
      if n == |s| {
        assert line == s && s[n..] == "";
        NonEmptyCons(s, []);
      } else {
        var w := BoundaryWidth(s, n);
        var rest := s[n + w..];
        SegmentsAreRuns(rest);
        NonEmptyCons(line, SplitLines(rest));
        assert Segments(s) == head + Segments(rest);
        assert s[n..][w..] == rest;
        RunsSkip(s[n..], w);
        assert Runs(s) == head + Runs(s[n..]) by {
          if n == 0 {
            assert s[n..] == s;
          }
        }
      }
    }
  }

  /** The kept lines of a text: non-empty, boundary-free, and together all of its
      non-boundary characters in order. */
  lemma SegmentsSpec(s: string)
    ensures forall i | 0 <= i < |Segments(s)| :: Segments(s)[i] != "" && BreakFree(Segments(s)[i])
    ensures Concat(Segments(s)) == RemoveBoundaries(s)
  {
    SegmentsAreRuns(s);
    RunsSpec(s);
  }

  /** `'<br>'.join(xs)`. */
  function JoinBr(xs: seq<string>): string
    decreases |xs|
  {
    if xs == [] then ""
    else if |xs| == 1 then xs[0]
    else xs[0] + "<br>" + JoinBr(xs[1..])
  }

  /** The pieces of `s` between `<br>` separators; the empty string has none. */
  function SplitBr(s: string): seq<string> {
    if s == "" then [] else SplitBrFrom("", s)
  }

  /** Splitting on `<br>` with `cur` the piece read so far. */
  function SplitBrFrom(cur: string, s: string): seq<string>
    decreases |s|
  {
    if s == "" then [cur]
    else if "<br>" <= s then [cur] + SplitBrFrom("", s[4..])
    else SplitBrFrom(cur + [s[0]], s[1..])
  }

  lemma {:induction false} SplitBrFromInert(cur: string, x: string, y: string)
    requires Inert(x)
    ensures SplitBrFrom(cur, x + y) == SplitBrFrom(cur + x, y)
    decreases |x|
  {
    if x == "" {
      assert x + y == y && cur + x == cur;
    } else {
      assert (x + y)[0] == x[0] != '<';
      assert (x + y)[1..] == x[1..] + y;
      SplitBrFromInert(cur + [x[0]], x[1..], y);
      assert cur + [x[0]] + x[1..] == cur + x;
    }
  }

  lemma {:induction false} SplitBrFromJoin(xs: seq<string>)
    requires xs != []
    requires forall i | 0 <= i < |xs| :: Inert(xs[i])
    ensures SplitBrFrom("", JoinBr(xs)) == xs
    decreases |xs|
  {
    if |xs| == 1 {
      SplitBrFromInert("", xs[0], "");
      assert xs[0] + "" == xs[0] && "" + xs[0] == xs[0];
    } else {
      var tail := JoinBr(xs[1..]);
      SplitBrFromJoin(xs[1..]);
      assert JoinBr(xs) == xs[0] + ("<br>" + tail);
      SplitBrFromInert("", xs[0], "<br>" + tail);
      assert "" + xs[0] == xs[0];
      assert ("<br>" + tail)[4..] == tail;
      assert "<br>" <= "<br>" + tail;
    }
  }

  /** Joining non-empty inert pieces with `<br>` can be undone. */
  lemma SplitBrJoinBr(xs: seq<string>)
    requires forall i | 0 <= i < |xs| :: xs[i] != "" && Inert(xs[i])
    ensures SplitBr(JoinBr(xs)) == xs
  {
    if xs != [] {
      SplitBrFromJoin(xs);
      assert |JoinBr(xs)| >= |xs[0]| > 0 by {
        if |xs| > 1 {
          assert JoinBr(xs) == xs[0] + "<br>" + JoinBr(xs[1..]);
        }
      }
    }
  }

  /** The HTML a callout body or ritual-step description becomes: its kept lines, escaped, joined
      with `<br>`. */
  function LinesHtml(s: string): string {
    JoinBr(EscapeEach(Segments(s)))
  }

  /** The lines survive rendering: splitting the HTML at `<br>` and decoding each piece gives back
      exactly the kept lines. */
  lemma LinesHtmlRoundTrip(s: string)
    ensures UnescapeEach(SplitBr(LinesHtml(s))) == Segments(s)
  {
    SegmentsSpec(s);
    var escaped := EscapeEach(Segments(s));
    SplitBrJoinBr(escaped);
    UnescapeEscapeEach(Segments(s));
  }

  lemma {:induction false} LineLengthOfLine(x: string, y: string)
    requires BreakFree(x)
    requires y == "" || IsLineBoundary(y[0])
    ensures LineLength(x + y) == |x|
    decreases |x|
  {
    if x == "" {
      assert x + y == y;
    } else {
      assert (x + y)[0] == x[0];
      assert (x + y)[1..] == x[1..] + y;
      LineLengthOfLine(x[1..], y);
    }
  }

  /** Two non-empty lines separated by a newline are kept as two lines. */
  lemma TwoLines(a: string, b: string)
    requires a != "" && b != "" && BreakFree(a) && BreakFree(b)
    ensures Segments(a + "\n" + b) == [a, b]
  {
    var s := a + "\n" + b;
    SegmentsAreRuns(s);
    LineLengthOfLine(a, "\n" + b);
    assert s == a + ("\n" + b);
    assert s[..|a|] == a && s[|a|..] == "\n" + b;
    assert Runs(s) == [a] + Runs("\n" + b);
    assert ("\n" + b)[1..] == b;
    assert Runs("\n" + b) == Runs(b);
    LineLengthOfLine(b, "");
    assert b + "" == b;
    assert b[..|b|] == b && b[|b|..] == "";
    assert Runs(b) == [b];
  }
}
