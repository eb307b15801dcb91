/** The block renderers: the children of a text block, the text block itself, and the three
    special blocks (pull quote, callout, ritual step). */
module Blocks {
  import opened Optional
  import opened HtmlText
  import opened Lines
  import opened Marks

  /** One inline span of a text block: its `text` and its ordered `marks`. */
  datatype Span = Span(text: Option<string>, marks: Option<seq<string>>)

  /** The list container a list item needs. */
  datatype ListTag = Ul | Ol

  /** A block record, by its `_type`: `block`, `pullQuote`, `callout`, `ritualStep`, or any other. */
  datatype Block =
    | TextBlock(style: Option<string>, listItem: Option<string>, children: seq<Span>, markDefs: seq<MarkDef>)
    | PullQuote(text: Option<string>, attribution: Option<string>)
    | Callout(title: Option<string>, tone: Option<string>, body: Option<string>)
    | RitualStep(title: Option<string>, description: Option<string>)
    | Unknown

  /** One span through the mark resolver; a span without `text` has the empty text. */
  function SpanHtml(span: Span, defs: map<string, MarkDef>): string {
    MarksHtml(GetOr(span.text, ""), span.marks, defs)
  }

  /** The rendered spans concatenated in order, with no separator. */
  function SpansHtml(spans: seq<Span>, defs: map<string, MarkDef>): string
    decreases |spans|
  {
    if spans == [] then "" else SpanHtml(spans[0], defs) + SpansHtml(spans[1..], defs)
  }

  /** Spans are rendered in order: the HTML of two runs of spans is their HTML side by side. */
  lemma {:induction false} SpansHtmlAppend(a: seq<Span>, b: seq<Span>, defs: map<string, MarkDef>)
    ensures SpansHtml(a + b, defs) == SpansHtml(a, defs) + SpansHtml(b, defs)
    decreases |a|
  {
    if a == [] {
      assert a + b == b;
    } else {
      assert (a + b)[0] == a[0];
      assert (a + b)[1..] == a[1..] + b;
      SpansHtmlAppend(a[1..], b, defs);
    }
  }

  /** A span that renders to nothing: empty text and no mark that wraps. */
  predicate Blank(span: Span, defs: map<string, MarkDef>) {
    GetOr(span.text, "") == "" && AllNoOp(GetOr(span.marks, []), defs)
  }

  lemma {:induction false} SpansHtmlEmpty(spans: seq<Span>, defs: map<string, MarkDef>)
    ensures SpansHtml(spans, defs) == "" <==> forall i | 0 <= i < |spans| :: Blank(spans[i], defs)
    decreases |spans|
  {
    if spans != [] {
      SpansHtmlEmpty(spans[1..], defs);
      MarksHtmlEmpty(GetOr(spans[0].text, ""), spans[0].marks, defs);
      if forall i | 0 <= i < |spans| :: Blank(spans[i], defs) {
        forall i | 0 <= i < |spans| - 1 ensures Blank(spans[1..][i], defs) {
          assert spans[1..][i] == spans[i + 1];
        }
      }
      if Blank(spans[0], defs) && forall i | 0 <= i < |spans| - 1 :: Blank(spans[1..][i], defs) {
        forall i | 0 <= i < |spans| ensures Blank(spans[i], defs) {
          if i > 0 {
            assert spans[i] == spans[1..][i - 1];
          }
        }
      }
    }
  }

  /** `_render_block_children`: the block's spans against its own `markDefs`, or the placeholder
      `&nbsp;` when they render to nothing, so that the result is never empty. */
  function RenderBlockChildren(children: seq<Span>, markDefs: seq<MarkDef>): (r: string)
    ensures r != ""
  {
    var joined := SpansHtml(children, DefsMap(markDefs));
    if joined == "" then "&nbsp;" else joined
  }

  /** The placeholder stands in exactly for children that all render to nothing (including no
      children at all); otherwise the children's HTML is used as it is. */
  lemma ChildrenPlaceholder(children: seq<Span>, markDefs: seq<MarkDef>)
    ensures (forall i | 0 <= i < |children| :: Blank(children[i], DefsMap(markDefs)))
      ==> RenderBlockChildren(children, markDefs) == "&nbsp;"
    ensures (exists i | 0 <= i < |children| :: !Blank(children[i], DefsMap(markDefs)))
      ==> RenderBlockChildren(children, markDefs) == SpansHtml(children, DefsMap(markDefs))
  {
    SpansHtmlEmpty(children, DefsMap(markDefs));
  }

  /** The element a non-list text block becomes, from its `style` (`normal` when absent). */
  function StyleTag(style: Option<string>): (tag: string)
    ensures tag in {"p", "h2", "h3", "h4", "blockquote"}
    ensures GetOr(style, "normal") in {"h2", "h3", "h4", "blockquote"} ==> tag == style.value
    ensures GetOr(style, "normal") !in {"h2", "h3", "h4", "blockquote"} ==> tag == "p"
  {
    var tagMap := map["normal" := "p", "h2" := "h2", "h3" := "h3", "h4" := "h4", "blockquote" := "blockquote"];
    var s := GetOr(style, "normal");
    if s in tagMap then tagMap[s] else "p"
  }

  /** One element around its content. */
  function Element(name: string, inner: string): string {
    "<" + name + ">" + inner + "</" + name + ">"
  }

  /** `_render_block`: a block with a truthy `listItem` is a list item of a `ul` (for `bullet`)
      or an `ol` (anything else); any other text block is one element chosen by its style. */
  function RenderBlock(style: Option<string>, listItem: Option<string>, children: seq<Span>,
                       markDefs: seq<MarkDef>): (r: (Option<ListTag>, string))
    ensures r.0.Some? <==> Truthy(listItem)
    ensures r.0 == Some(Ul) <==> listItem == Some("bullet")
    ensures r.0.Some? ==> r.1 == Element("li", RenderBlockChildren(children, markDefs))
    ensures r.0.None? ==> r.1 == Element(StyleTag(style), RenderBlockChildren(children, markDefs))
  {
    var inner := RenderBlockChildren(children, markDefs);
    if Truthy(listItem) then
      var tag := if listItem.value == "bullet" then Ul else Ol;
      (Some(tag), "<li>" + inner + "</li>")
    else
      var tag := StyleTag(style);
      (None, "<" + tag + ">" + inner + "</" + tag + ">")
  }

  /** The `cite` of a pull quote: the escaped attribution, only when it is truthy. */
  function CiteHtml(attribution: Option<string>): string {
    if Truthy(attribution) then "<cite>" + Escape(attribution.value) + "</cite>" else ""
  }

  /** `_render_pull_quote`: the escaped text in a paragraph, then the attribution's `cite`. */
  function RenderPullQuote(text: Option<string>, attribution: Option<string>): string {
    "<blockquote class=\"pull-quote\"><p>" + Escape(GetOr(text, "")) + "</p>" + CiteHtml(attribution) + "</blockquote>"
  }

  /** The title paragraph of a callout: the escaped title, only when it is truthy. */
  function CalloutTitleHtml(title: Option<string>): string {
    if Truthy(title) then "<p class=\"callout__title\">" + Escape(title.value) + "</p>" else ""
  }

  /** `_render_callout`: the tone (`default` when falsy, not escaped) in the class, the title
      paragraph, and the kept body lines escaped and joined with `<br>` (joining no lines gives
      the empty string, which is what the source's explicit empty case returns). */
  function RenderCallout(title: Option<string>, tone: Option<string>, body: Option<string>): string {
    var toneClass := OrElse(tone, "default");
    var bodyHtml := LinesHtml(OrElse(body, ""));
    "<aside class=\"callout callout--" + toneClass + "\">" + CalloutTitleHtml(title) + "<p>" + bodyHtml + "</p></aside>"
  }

  /** `_render_ritual_step`: the escaped title (`Step` when absent; a present empty title stays
      empty) as a heading, then the kept description lines escaped and joined with `<br>`. */
  function RenderRitualStep(title: Option<string>, description: Option<string>): string {
    var heading := Escape(GetOr(title, "Step"));
    "<section class=\"ritual-step\"><h4>" + heading + "</h4><p>" + LinesHtml(OrElse(description, ""))
      + "</p></section>"
  }

  /** A callout with a plain title, a body of two plain lines and no tone: the default tone, the
      title paragraph, and the two lines joined by `<br>`. */
  lemma CalloutOfTwoLines(title: string, a: string, b: string)
    requires title != "" && Plain(title)
    requires a != "" && b != "" && BreakFree(a) && BreakFree(b) && Plain(a) && Plain(b)
    ensures RenderCallout(Some(title), None, Some(a + "\n" + b))
      == "<aside class=\"callout callout--" + "default" + "\">" + ("<p class=\"callout__title\">" + title + "</p>")
         + "<p>" + (a + "<br>" + b) + "</p></aside>"
  {
    assert LinesHtml(a + "\n" + b) == a + "<br>" + b by {
      TwoLines(a, b);
      EscapePlain(a);
      EscapePlain(b);
      var esc := EscapeEach([a, b]);
      assert esc == [a, b];
      assert esc[1..] == [b];
      assert JoinBr(esc) == a + "<br>" + JoinBr([b]);
    }
    EscapePlain(title);
  }

  /** A callout titled `Note` with body `line1\nline2` and no tone renders as
      `<aside class="callout callout--default"><p class="callout__title">Note</p><p>line1<br>line2</p></aside>`. */
  lemma CalloutExample()
    ensures RenderCallout(Some("Note"), None, Some("line1\nline2"))
      == "<aside class=\"callout callout--" + "default" + "\">" + ("<p class=\"callout__title\">" + "Note" + "</p>")
         + "<p>" + ("line1" + "<br>" + "line2") + "</p></aside>"
  {
    assert Plain("Note") && Plain("line1") && Plain("line2");
    assert BreakFree("line1") && BreakFree("line2");
    assert "line1" + "\n" + "line2" == "line1\nline2";
    CalloutOfTwoLines("Note", "line1", "line2");
  }
}
