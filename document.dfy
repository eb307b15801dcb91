/** The whole-document renderer: blocks in order, consecutive list items of the same kind grouped
    into one `ul` or `ol`, everything else emitted as it renders. */
module Document {
  import opened Optional
  import opened HtmlText
  import opened Blocks

  /** What one block contributes before list handling: nothing (a `_type` that is not handled),
      a fragment that stands on its own, or a list item of a given list. */
  datatype Rendered = Skipped | Standalone(html: string) | ListItem(tag: ListTag, html: string)

  /** One entry of the output list: a list's opening or closing tag, a list item, or the HTML of
      a block that stands on its own. */
  datatype Part = Open(tag: ListTag) | Close(tag: ListTag) | Item(html: string) | Fragment(html: string)

  function TagName(t: ListTag): string {
    match t
    case Ul => "ul"
    case Ol => "ol"
  }

  function OpenHtml(t: ListTag): string {
    "<" + TagName(t) + ">"
  }

  function CloseHtml(t: ListTag): string {
    "</" + TagName(t) + ">"
  }

  function PartHtml(p: Part): string {
    match p
    case Open(t) => OpenHtml(t)
    case Close(t) => CloseHtml(t)
    case Item(h) => h
    case Fragment(h) => h
  }

  /** The strings the parts stand for, in order. */
  function PartsHtml(ps: seq<Part>): seq<string>
    decreases |ps|
  {
    if ps == [] then [] else [PartHtml(ps[0])] + PartsHtml(ps[1..])
  }

  lemma {:induction false} PartsHtmlAppend(a: seq<Part>, b: seq<Part>)
    ensures PartsHtml(a + b) == PartsHtml(a) + PartsHtml(b)
    decreases |a|
  {
    if a == [] {
      assert a + b == b;
    } else {
      assert (a + b)[0] == a[0];
      assert (a + b)[1..] == a[1..] + b;
      PartsHtmlAppend(a[1..], b);
    }
  }

  /** The dispatch on `_type`: text blocks through `_render_block`, the three special blocks
      through their renderers (never inside a list), anything else skipped. */
  function BlockOutput(b: Block): (r: Rendered)
    ensures r.Skipped? <==> b.Unknown?
    ensures !r.Skipped? ==> r.html != ""
    ensures r.ListItem? <==> b.TextBlock? && Truthy(b.listItem)
    ensures r.ListItem? ==> (r.tag == Ul <==> b.listItem == Some("bullet"))
    ensures b.TextBlock? ==> r.html == RenderBlock(b.style, b.listItem, b.children, b.markDefs).1
    ensures b.PullQuote? ==> r == Standalone(RenderPullQuote(b.text, b.attribution))
    ensures b.Callout? ==> r == Standalone(RenderCallout(b.title, b.tone, b.body))
    ensures b.RitualStep? ==> r == Standalone(RenderRitualStep(b.title, b.description))
  {
    match b
    case TextBlock(style, listItem, children, markDefs) =>
      var out := RenderBlock(style, listItem, children, markDefs);
      if out.0.Some? then ListItem(out.0.value, out.1) else Standalone(out.1)
    case PullQuote(text, attribution) => Standalone(RenderPullQuote(text, attribution))
    case Callout(title, tone, body) => Standalone(RenderCallout(title, tone, body))
    case RitualStep(title, description) => Standalone(RenderRitualStep(title, description))
    case Unknown => Skipped
  }

  /** The outputs of the blocks, in order. */
  function Outputs(bs: seq<Block>): (rs: seq<Rendered>)
    ensures |rs| == |bs|
    decreases |bs|
  {
    if bs == [] then [] else Outputs(bs[..|bs| - 1]) + [BlockOutput(bs[|bs| - 1])]
  }

  lemma OutputsSnoc(bs: seq<Block>, i: nat)
    requires i < |bs|
    ensures Outputs(bs[..i + 1]) == Outputs(bs[..i]) + [BlockOutput(bs[i])]
  {
    assert bs[..i + 1][..i] == bs[..i];
  }

  lemma {:induction false} OutputsAppend(a: seq<Block>, b: seq<Block>)
    ensures Outputs(a + b) == Outputs(a) + Outputs(b)
    decreases |b|
  {
    if b == [] {
      assert a + b == a;
    } else {
      var init := b[..|b| - 1];
      assert (a + b)[..|a + b| - 1] == a + init;
      assert (a + b)[|a + b| - 1] == b[|b| - 1];
      OutputsAppend(a, init);
    }
  }

  /** The closing tag of the open list, if there is one. */
  function CloseOpen(cur: Option<ListTag>): seq<Part> {
    if cur.Some? then [Close(cur.value)] else []
  }

  /** One iteration of the loop: from the open list `cur`, the parts that output `r` appends and
      the list that is open afterwards. */
  function Feed(cur: Option<ListTag>, r: Rendered): (Option<ListTag>, seq<Part>) {
    match r
    case Skipped => (cur, [])
    case ListItem(t, h) =>
      if cur == Some(t) then (cur, [Item(h)]) else (Some(t), CloseOpen(cur) + [Open(t), Item(h)])
    case Standalone(h) => (None, CloseOpen(cur) + [Fragment(h)])
  }

  /** The parts the loop appends from open list `cur` over outputs `rs`, with the final close. */
  function RunFrom(cur: Option<ListTag>, rs: seq<Rendered>): seq<Part>
    decreases |rs|
  {
    if rs == [] then CloseOpen(cur)
    else
      var step := Feed(cur, rs[0]);
      step.1 + RunFrom(step.0, rs[1..])
  }

  /** The parts `portable_text_to_html` collects; an absent or empty block list gives none. */
  function DocumentParts(blocks: Option<seq<Block>>): seq<Part> {
    if blocks.None? || blocks.value == [] then [] else RunFrom(None, Outputs(blocks.value))
  }

  /** The document's HTML: the parts joined with no separator. */
  function DocumentHtml(blocks: Option<seq<Block>>): string {
    Concat(PartsHtml(DocumentParts(blocks)))
  }

  /** The strings a list item appends. */
  lemma FeedItemHtml(cur: Option<ListTag>, t: ListTag, h: string)
    ensures Feed(cur, ListItem(t, h)).0 == Some(t)
    ensures PartsHtml(Feed(cur, ListItem(t, h)).1)
      == if cur == Some(t) then [h]
         else (if cur.Some? then [CloseHtml(cur.value)] else []) + [OpenHtml(t), h]
  {
    if cur != Some(t) {
      PartsHtmlAppend(CloseOpen(cur), [Open(t), Item(h)]);
      assert [Open(t), Item(h)][1..] == [Item(h)];
    }
  }

  /** The strings a standalone fragment appends. */
  lemma FeedStandaloneHtml(cur: Option<ListTag>, h: string)
    ensures Feed(cur, Standalone(h)).0 == None
    ensures PartsHtml(Feed(cur, Standalone(h)).1)
      == (if cur.Some? then [CloseHtml(cur.value)] else []) + [h]
  {
    PartsHtmlAppend(CloseOpen(cur), [Fragment(h)]);
  }

  /** The state of the loop after it has seen outputs `rs`: the open list and the parts so far. */
  function Fold(rs: seq<Rendered>): (Option<ListTag>, seq<Part>)
    decreases |rs|
  {
    if rs == [] then (None, [])
    else
      var prev := Fold(rs[..|rs| - 1]);
      var step := Feed(prev.0, rs[|rs| - 1]);
      (step.0, prev.1 + step.1)
  }

  lemma FoldSnoc(rs: seq<Rendered>, r: Rendered)
    ensures Fold(rs + [r]) == (Feed(Fold(rs).0, r).0, Fold(rs).1 + Feed(Fold(rs).0, r).1)
  {
    assert (rs + [r])[..|rs|] == rs;
  }

  lemma RunFromCons(cur: Option<ListTag>, r: Rendered, ys: seq<Rendered>)
    ensures RunFrom(cur, [r] + ys) == Feed(cur, r).1 + RunFrom(Feed(cur, r).0, ys)
  {
    assert ([r] + ys)[0] == r && ([r] + ys)[1..] == ys;
  }

  lemma Regroup(a: seq<Part>, b: seq<Part>, c: seq<Part>)
    ensures a + (b + c) == (a + b) + c
  {
  }

  /** Running the loop over `rs` and then over `ys` gives the parts of the whole run. */
  lemma {:induction false} FoldThenRun(rs: seq<Rendered>, ys: seq<Rendered>)
    ensures RunFrom(None, rs + ys) == Fold(rs).1 + RunFrom(Fold(rs).0, ys)
    decreases |rs|
  {
    if rs == [] {
      assert rs + ys == ys;
    } else {
      var init, r := rs[..|rs| - 1], rs[|rs| - 1];
      assert init + ([r] + ys) == rs + ys;
      FoldThenRun(init, [r] + ys);
      var cur := Fold(init).0;
      RunFromCons(cur, r, ys);
      FoldSnoc(init, r);
      assert init + [r] == rs;
      Regroup(Fold(init).1, Feed(cur, r).1, RunFrom(Feed(cur, r).0, ys));
    }
  }

  /** One iteration of the loop for a list item, on the state after outputs `seen`: the strings
      appended are those the loop appends, one at a time. */
  lemma FoldItem(seen: seq<Rendered>, t: ListTag, h: string)
    ensures Fold(seen + [ListItem(t, h)]).0 == Some(t)
    ensures var cur, before := Fold(seen).0, PartsHtml(Fold(seen).1);
      PartsHtml(Fold(seen + [ListItem(t, h)]).1)
        == if cur == Some(t) then before + [h]
           else if cur.Some? then before + [CloseHtml(cur.value)] + [OpenHtml(t)] + [h]
           else before + [OpenHtml(t)] + [h]
  {
    FoldSnoc(seen, ListItem(t, h));
    FeedItemHtml(Fold(seen).0, t, h);
    PartsHtmlAppend(Fold(seen).1, Feed(Fold(seen).0, ListItem(t, h)).1);
  }

  /** One iteration of the loop for a standalone fragment, on the state after outputs `seen`. */
  lemma FoldStandalone(seen: seq<Rendered>, h: string)
    ensures Fold(seen + [Standalone(h)]).0 == None
    ensures var cur, before := Fold(seen).0, PartsHtml(Fold(seen).1);
      PartsHtml(Fold(seen + [Standalone(h)]).1)
        == if cur.Some? then before + [CloseHtml(cur.value)] + [h] else before + [h]
  {
    FoldSnoc(seen, Standalone(h));
    FeedStandaloneHtml(Fold(seen).0, h);
    PartsHtmlAppend(Fold(seen).1, Feed(Fold(seen).0, Standalone(h)).1);
  }

  lemma FoldSkipped(seen: seq<Rendered>)
    ensures Fold(seen + [Skipped]) == Fold(seen)
  {
    FoldSnoc(seen, Skipped);
    assert Fold(seen).1 + [] == Fold(seen).1;
  }

  /** The strings of the whole run are the loop's strings followed by the final close. */
  lemma FoldFinish(rs: seq<Rendered>)
    ensures var cur, before := Fold(rs).0, PartsHtml(Fold(rs).1);
      PartsHtml(RunFrom(None, rs)) == if cur.Some? then before + [CloseHtml(cur.value)] else before
  {
    FoldThenRun(rs, []);
    assert rs + [] == rs;
    PartsHtmlAppend(Fold(rs).1, CloseOpen(Fold(rs).0));
    if Fold(rs).0.None? {
      assert Fold(rs).1 + [] == Fold(rs).1;
    }
  }

  /** `portable_text_to_html`: one pass over the blocks with the open list in `currentList`.
      A list item continues the open list of its kind or closes it and opens its own; any other
      rendered block closes the open list first; a block of an unhandled `_type` is skipped. The
      list still open at the end is closed. */
  method PortableTextToHtml(blocks: Option<seq<Block>>) returns (html: string)
    ensures html == DocumentHtml(blocks)
  {
    if blocks.None? || blocks.value == [] {
      return "";
    }
    var bs := blocks.value;
    var htmlParts: seq<string> := [];
    var currentList: Option<ListTag> := None;
    ghost var seen: seq<Rendered> := [];
    for i := 0 to |bs|
      invariant seen == Outputs(bs[..i])
      invariant currentList == Fold(seen).0 && htmlParts == PartsHtml(Fold(seen).1)
    {
      var out := BlockOutput(bs[i]);
      match out {
      case ListItem(listTag, blockHtml) =>
        FoldItem(seen, listTag, blockHtml);
        if currentList != Some(listTag) {
          if currentList.Some? {
            htmlParts := htmlParts + [CloseHtml(currentList.value)];
          }
          htmlParts := htmlParts + [OpenHtml(listTag)];
          currentList := Some(listTag);
        }
        htmlParts := htmlParts + [blockHtml];
      case Standalone(blockHtml) =>
        FoldStandalone(seen, blockHtml);
        if currentList.Some? {
          htmlParts := htmlParts + [CloseHtml(currentList.value)];
          currentList := None;
        }
        htmlParts := htmlParts + [blockHtml];
      case Skipped =>
        FoldSkipped(seen);
      }
      OutputsSnoc(bs, i);
      seen := seen + [out];
    }
    assert bs[..|bs|] == bs;
    assert DocumentParts(blocks) == RunFrom(None, seen);
    FoldFinish(seen);
    if currentList.Some? {
      htmlParts := htmlParts + [CloseHtml(currentList.value)];
    }
    html := Concat(htmlParts);
  }
}
