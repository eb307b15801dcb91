/** Readers that take the fragments of the special blocks apart again. They are the inverses the
    renderers are proved against: whatever a pull quote, callout or ritual step holds can be read
    back from its HTML, because every text in it is escaped before it is placed. */
module Readback {
  import opened Optional
  import opened HtmlText
  import opened Lines
  import opened Blocks

  /** Text that holds no `</`, so it cannot end the element it sits in. */
  predicate NoEndTag(s: string) {
    forall i | 0 <= i < |s| - 1 :: !(s[i] == '<' && s[i + 1] == '/')
  }

  /** Splits `s` before its first `</`; all of `s` comes first when it has none. */
  function SplitAtEndTag(s: string): (r: (string, string))
    ensures r.0 + r.1 == s
    decreases |s|
  {
    if s == "" || "</" <= s then ("", s)
    else
      var r := SplitAtEndTag(s[1..]);
      ([s[0]] + r.0, r.1)
  }

  lemma {:induction false} SplitAtEndTagOf(x: string, y: string)
    requires NoEndTag(x) && "</" <= y
    ensures SplitAtEndTag(x + y) == (x, y)
    decreases |x|
  {
    if x == "" {
      assert x + y == y;
    } else {
      var s := x + y;
      assert s[0] == x[0];
      assert |x| == 1 ==> s[1] == y[0];
      assert |x| > 1 ==> s[1] == x[1];
      assert !("</" <= s);
      assert s[1..] == x[1..] + y;
      assert NoEndTag(x[1..]) by {
        forall i | 0 <= i < |x[1..]| - 1 ensures !(x[1..][i] == '<' && x[1..][i + 1] == '/') {
          assert x[1..][i] == x[i + 1] && x[1..][i + 1] == x[i + 2];
        }
      }
      SplitAtEndTagOf(x[1..], y);
      assert [x[0]] + x[1..] == x;
    }
  }

  /** Reads one element that starts with `open` and ends at the first `</`, which must begin
      `close`: its content and what follows it. */
  function ReadElement(open: string, close: string, s: string): Option<(string, string)> {
    if !(open <= s) then None
    else
      var r := SplitAtEndTag(s[|open|..]);
      if close <= r.1 then Some((r.0, r.1[|close|..])) else None
  }

  lemma ReadElementOf(open: string, x: string, close: string, y: string)
    requires NoEndTag(x) && "</" <= close
    ensures ReadElement(open, close, open + x + close + y) == Some((x, y))
  {
    var s := open + x + close + y;
    assert s == open + (x + (close + y));
    assert open <= s;
    assert s[|open|..] == x + (close + y);
    assert "</" <= close + y;
    SplitAtEndTagOf(x, close + y);
    assert (close + y)[|close|..] == y;
  }

  /** An element that starts with `open` cannot be read from text whose first characters differ. */
  lemma ReadElementMissing(open: string, close: string, s: string, k: nat)
    requires k < |open| && k < |s| && open[k] != s[k]
    ensures ReadElement(open, close, s) == None
  {
  }

  predicate NoQuote(s: string) {
    forall i | 0 <= i < |s| :: s[i] != '"'
  }

  lemma NoQuoteCons(c: char, x: string)
    requires c != '"' && NoQuote(x)
    ensures NoQuote([c] + x)
  {
    forall i | 0 <= i < |[c] + x| ensures ([c] + x)[i] != '"' {
      if i > 0 {
        assert ([c] + x)[i] == x[i - 1];
      }
    }
  }

  /** Splits `s` before its first `"`. */
  function SplitAtQuote(s: string): (r: (string, string))
    ensures r.0 + r.1 == s
    ensures NoQuote(r.0)
    decreases |s|
  {
    if s == "" || s[0] == '"' then ("", s)
    else
      var r := SplitAtQuote(s[1..]);
      assert [s[0]] + r.0 + r.1 == s by {
        assert [s[0]] + s[1..] == s;
      }
      NoQuoteCons(s[0], r.0);
      ([s[0]] + r.0, r.1)
  }

  lemma {:induction false} SplitAtQuoteOf(x: string, y: string)
    requires NoQuote(x) && y != "" && y[0] == '"'
    ensures SplitAtQuote(x + y) == (x, y)
    decreases |x|
  {
    if x == "" {
      assert x + y == y;
    } else {
      assert (x + y)[0] == x[0];
      assert (x + y)[1..] == x[1..] + y;
      SplitAtQuoteOf(x[1..], y);
      assert [x[0]] + x[1..] == x;
    }
  }

  lemma {:induction false} JoinBrNoEndTag(xs: seq<string>)
    requires forall i | 0 <= i < |xs| :: Inert(xs[i])
    ensures NoEndTag(JoinBr(xs))
    decreases |xs|
  {
    if |xs| > 1 {
      JoinBrNoEndTag(xs[1..]);
      var x, tail := xs[0], JoinBr(xs[1..]);
      var s := x + "<br>" + tail;
      assert JoinBr(xs) == s;
      forall i | 0 <= i < |s| - 1 ensures !(s[i] == '<' && s[i + 1] == '/') {
        if i < |x| {
          assert s[i] == x[i];
        } else if i < |x| + 4 {
          assert i + 1 < |x| + 4 ==> s[i + 1] == "<br>"[i + 1 - |x|];
          assert i == |x| + 3 ==> s[i] == '>';
        } else {
          assert s[i] == tail[i - |x| - 4] && s[i + 1] == tail[i + 1 - |x| - 4];
        }
      }
    }
  }

  /** The HTML of kept lines cannot end the paragraph around it. */
  lemma LinesHtmlNoEndTag(s: string)
    ensures NoEndTag(LinesHtml(s))
  {
    JoinBrNoEndTag(EscapeEach(Segments(s)));
  }

  const PullQuoteOpen := "<blockquote class=\"pull-quote\">"
  const CalloutOpen := "<aside class=\"callout callout--"
  const CalloutTitleOpen := "<p class=\"callout__title\">"
  const RitualStepOpen := "<section class=\"ritual-step\">"

  /** What a pull quote shows: its text and, when there is one, its attribution. */
  datatype PullQuoteView = PullQuoteView(text: string, attribution: Option<string>)

  function ParsePullQuote(h: string): Option<PullQuoteView> {
    if !(PullQuoteOpen <= h) then None else ReadQuoteBody(h[|PullQuoteOpen|..])
  }

  function ReadQuoteBody(s: string): Option<PullQuoteView> {
    match ReadElement("<p>", "</p>", s)
    case None => None
    case Some(r) => ReadAttribution(Unescape(r.0), r.1)
  }

  function ReadAttribution(text: string, rest: string): Option<PullQuoteView> {
    if rest == "</blockquote>" then Some(PullQuoteView(text, None))
    else
      match ReadElement("<cite>", "</cite>", rest)
      case None => None
      case Some(r) =>
        if r.1 == "</blockquote>" then Some(PullQuoteView(text, Some(Unescape(r.0)))) else None
  }

  lemma PullQuoteShape(text: Option<string>, attribution: Option<string>)
    ensures RenderPullQuote(text, attribution)
      == PullQuoteOpen + ("<p>" + Escape(GetOr(text, "")) + "</p>" + (CiteHtml(attribution) + "</blockquote>"))
  {
    var start: string := "<blockquote class=\"pull-quote\"><p>";
    assert start == PullQuoteOpen + "<p>";
    RegroupQuote(PullQuoteOpen, "<p>", Escape(GetOr(text, "")), "</p>", CiteHtml(attribution), "</blockquote>");
  }

  lemma RegroupQuote(o: string, p: string, e: string, q: string, c: string, b: string)
    ensures (o + p) + e + q + c + b == o + (p + e + q + (c + b))
  {
  }

  lemma ReadQuoteBodyOf(text: string, rest: string)
    ensures ReadQuoteBody("<p>" + Escape(text) + "</p>" + rest) == ReadAttribution(text, rest)
  {
    ReadElementOf("<p>", Escape(text), "</p>", rest);
    UnescapeEscape(text);
  }

  lemma ReadAttributionOf(text: string, attribution: Option<string>)
    ensures ReadAttribution(text, CiteHtml(attribution) + "</blockquote>")
      == Some(PullQuoteView(text, if Truthy(attribution) then attribution else None))
  {
    var rest := CiteHtml(attribution) + "</blockquote>";
    if Truthy(attribution) {
      var a := Escape(attribution.value);
      assert rest == "<cite>" + a + "</cite>" + "</blockquote>";
      assert rest != "</blockquote>" by {
        assert rest[1] == 'c';
      }
      ReadElementOf("<cite>", a, "</cite>", "</blockquote>");
      UnescapeEscape(attribution.value);
    } else {
      assert rest == "</blockquote>";
    }
  }

  /** A pull quote shows exactly its text (empty when absent) and its attribution when truthy;
      an empty attribution is left out like a missing one. */
  lemma PullQuoteRoundTrip(text: Option<string>, attribution: Option<string>)
    ensures ParsePullQuote(RenderPullQuote(text, attribution))
      == Some(PullQuoteView(GetOr(text, ""), if Truthy(attribution) then attribution else None))
  {
    var rest := CiteHtml(attribution) + "</blockquote>";
    var body := "<p>" + Escape(GetOr(text, "")) + "</p>" + rest;
    PullQuoteShape(text, attribution);
    assert PullQuoteOpen <= PullQuoteOpen + body;
    assert (PullQuoteOpen + body)[|PullQuoteOpen|..] == body;
    ReadQuoteBodyOf(GetOr(text, ""), rest);
    ReadAttributionOf(GetOr(text, ""), attribution);
  }

  /** What a callout shows: its tone, its title when it has one, and its lines. */
  datatype CalloutView = CalloutView(tone: string, title: Option<string>, lines: seq<string>)

  /** A tone read back never holds a `"`: the class attribute ends at the first one. */
  function ParseCallout(h: string): (v: Option<CalloutView>)
    ensures v.Some? ==> NoQuote(v.value.tone)
  {
    if !(CalloutOpen <= h) then None else ReadTone(h[|CalloutOpen|..])
  }

  function ReadTone(s: string): (v: Option<CalloutView>)
    ensures v.Some? ==> NoQuote(v.value.tone)
  {
    var r := SplitAtQuote(s);
    if !("\">" <= r.1) then None else ReadCalloutTitle(r.0, r.1[2..])
  }

  function ReadCalloutTitle(tone: string, s: string): (v: Option<CalloutView>)
    ensures v.Some? ==> v.value.tone == tone
  {
    match ReadElement(CalloutTitleOpen, "</p>", s)
    case Some(r) => ReadCalloutBody(tone, Some(Unescape(r.0)), r.1)
    case None => ReadCalloutBody(tone, None, s)
  }

  function ReadCalloutBody(tone: string, title: Option<string>, s: string): (v: Option<CalloutView>)
    ensures v.Some? ==> v.value.tone == tone
  {
    match ReadElement("<p>", "</p>", s)
    case None => None
    case Some(r) =>
      if r.1 == "</aside>" then Some(CalloutView(tone, title, UnescapeEach(SplitBr(r.0)))) else None
  }

  /** The body part of a callout's fragment. */
  function CalloutBodyHtml(body: Option<string>): string {
    "<p>" + LinesHtml(OrElse(body, "")) + "</p>" + "</aside>"
  }

  lemma CalloutShape(title: Option<string>, tone: Option<string>, body: Option<string>)
    ensures RenderCallout(title, tone, body)
      == CalloutOpen + (OrElse(tone, "default") + ("\">" + (CalloutTitleHtml(title) + CalloutBodyHtml(body))))
  {
    var end: string := "</p></aside>";
    assert end == "</p>" + "</aside>";
    Regroup(CalloutOpen, OrElse(tone, "default"), "\">", CalloutTitleHtml(title), "<p>",
            LinesHtml(OrElse(body, "")), "</p>", "</aside>");
  }

  /** Regrouping of the concatenations the callout and ritual step renderers build. */
  lemma Regroup(o: string, t: string, q: string, h: string, p: string, b: string, f: string, a: string)
    ensures o + t + q + h + p + b + (f + a) == o + (t + (q + (h + (p + b + f + a))))
  {
  }

  lemma ReadToneOf(tone: string, s: string)
    requires NoQuote(tone)
    ensures ReadTone(tone + ("\">" + s)) == ReadCalloutTitle(tone, s)
  {
    SplitAtQuoteOf(tone, "\">" + s);
    assert "\">" <= "\">" + s;
    assert ("\">" + s)[2..] == s;
  }

  lemma ReadCalloutTitleOf(tone: string, title: Option<string>, body: Option<string>)
    ensures ReadCalloutTitle(tone, CalloutTitleHtml(title) + CalloutBodyHtml(body))
      == ReadCalloutBody(tone, if Truthy(title) then title else None, CalloutBodyHtml(body))
  {
    var rest := CalloutBodyHtml(body);
    if Truthy(title) {
      var e := Escape(title.value);
      ReadElementOf(CalloutTitleOpen, e, "</p>", rest);
      UnescapeEscape(title.value);
    } else {
      assert CalloutTitleHtml(title) + rest == rest;
      assert rest[2] == '>' && CalloutTitleOpen[2] == ' ';
      ReadElementMissing(CalloutTitleOpen, "</p>", rest, 2);
    }
  }

  lemma ReadCalloutBodyOf(tone: string, title: Option<string>, body: Option<string>)
    ensures ReadCalloutBody(tone, title, CalloutBodyHtml(body))
      == Some(CalloutView(tone, title, Segments(OrElse(body, ""))))
  {
    LinesHtmlNoEndTag(OrElse(body, ""));
    ReadElementOf("<p>", LinesHtml(OrElse(body, "")), "</p>", "</aside>");
    LinesHtmlRoundTrip(OrElse(body, ""));
  }

  /** A callout shows its tone (`default` when falsy), its title when truthy, and exactly the
      non-empty lines of its body, provided the tone holds no `"`. */
  lemma CalloutRoundTrip(title: Option<string>, tone: Option<string>, body: Option<string>)
    requires NoQuote(OrElse(tone, "default"))
    ensures ParseCallout(RenderCallout(title, tone, body))
      == Some(CalloutView(OrElse(tone, "default"), if Truthy(title) then title else None,
                          Segments(OrElse(body, ""))))
  {
    var toneClass := OrElse(tone, "default");
    var r2 := CalloutTitleHtml(title) + CalloutBodyHtml(body);
    var rest := toneClass + ("\">" + r2);
    CalloutShape(title, tone, body);
    assert CalloutOpen <= CalloutOpen + rest;
    assert (CalloutOpen + rest)[|CalloutOpen|..] == rest;
    ReadToneOf(toneClass, r2);
    ReadCalloutTitleOf(toneClass, title, body);
    ReadCalloutBodyOf(toneClass, if Truthy(title) then title else None, body);
  }

  /** The tone is placed in the class attribute without escaping: a `"` in it appears as it is
      and ends the attribute early, and the fragment no longer reads back with that tone. */
  lemma ToneNotEscaped(title: Option<string>, tone: string, body: Option<string>, k: nat)
    requires k < |tone| && tone[k] == '"'
    ensures RenderCallout(title, Some(tone), body)[|CalloutOpen| + k] == '"'
    ensures forall v :: ParseCallout(RenderCallout(title, Some(tone), body)) == Some(v) ==> v.tone != tone
  {
    var rest := tone + ("\">" + (CalloutTitleHtml(title) + CalloutBodyHtml(body)));
    CalloutShape(title, Some(tone), body);
    assert OrElse(Some(tone), "default") == tone;
    assert (CalloutOpen + rest)[|CalloutOpen| + k] == rest[k] == tone[k];
    assert !NoQuote(tone);
  }

  /** What a ritual step shows: its title and its lines. */
  datatype RitualStepView = RitualStepView(title: string, lines: seq<string>)

  function ParseRitualStep(h: string): Option<RitualStepView> {
    if !(RitualStepOpen <= h) then None else ReadRitualTitle(h[|RitualStepOpen|..])
  }

  function ReadRitualTitle(s: string): Option<RitualStepView> {
    match ReadElement("<h4>", "</h4>", s)
    case None => None
    case Some(r) => ReadRitualBody(Unescape(r.0), r.1)
  }

  function ReadRitualBody(title: string, s: string): Option<RitualStepView> {
    match ReadElement("<p>", "</p>", s)
    case None => None
    case Some(r) =>
      if r.1 == "</section>" then Some(RitualStepView(title, UnescapeEach(SplitBr(r.0)))) else None
  }

  /** The description part of a ritual step's fragment. */
  function RitualBodyHtml(description: Option<string>): string {
    "<p>" + LinesHtml(OrElse(description, "")) + "</p>" + "</section>"
  }

  lemma RitualStepShape(title: Option<string>, description: Option<string>)
    ensures RenderRitualStep(title, description)
      == RitualStepOpen + ("<h4>" + Escape(GetOr(title, "Step")) + "</h4>" + RitualBodyHtml(description))
  {
    var start: string := "<section class=\"ritual-step\"><h4>";
    var middle: string := "</h4><p>";
    var end: string := "</p></section>";
    assert start == RitualStepOpen + "<h4>";
    assert middle == "</h4>" + "<p>";
    assert end == "</p>" + "</section>";
    RegroupSteps(RitualStepOpen, "<h4>", Escape(GetOr(title, "Step")), "</h4>", "<p>",
                 LinesHtml(OrElse(description, "")), "</p>", "</section>");
  }

  /** Regrouping of the concatenations the ritual step renderer builds. */
  lemma RegroupSteps(o: string, h: string, t: string, c: string, p: string, b: string, f: string, a: string)
    ensures (o + h) + t + (c + p) + b + (f + a) == o + (h + t + c + (p + b + f + a))
  {
  }

  lemma ReadRitualTitleOf(title: string, description: Option<string>)
    ensures ReadRitualTitle("<h4>" + Escape(title) + "</h4>" + RitualBodyHtml(description))
      == ReadRitualBody(title, RitualBodyHtml(description))
  {
    ReadElementOf("<h4>", Escape(title), "</h4>", RitualBodyHtml(description));
    UnescapeEscape(title);
  }

  lemma ReadRitualBodyOf(title: string, description: Option<string>)
    ensures ReadRitualBody(title, RitualBodyHtml(description))
      == Some(RitualStepView(title, Segments(OrElse(description, ""))))
  {
    LinesHtmlNoEndTag(OrElse(description, ""));
    ReadElementOf("<p>", LinesHtml(OrElse(description, "")), "</p>", "</section>");
    LinesHtmlRoundTrip(OrElse(description, ""));
  }

  /** A ritual step shows its title (`Step` when absent, kept as it is when present, even empty)
      and exactly the non-empty lines of its description. */
  lemma RitualStepRoundTrip(title: Option<string>, description: Option<string>)
    ensures ParseRitualStep(RenderRitualStep(title, description))
      == Some(RitualStepView(GetOr(title, "Step"), Segments(OrElse(description, ""))))
  {
    var rest := "<h4>" + Escape(GetOr(title, "Step")) + "</h4>" + RitualBodyHtml(description);
    RitualStepShape(title, description);
    assert RitualStepOpen <= RitualStepOpen + rest;
    assert (RitualStepOpen + rest)[|RitualStepOpen|..] == rest;
    ReadRitualTitleOf(GetOr(title, "Step"), description);
    ReadRitualBodyOf(GetOr(title, "Step"), description);
  }
}
