/** What the grouping of list items guarantees, stated over the blocks' outputs: the parts are the
    outputs with each maximal run of same-kind list items wrapped in one list, the lists are well
    nested and balanced, and a list is never closed only to be reopened with the same tag. */
module Lists {
  import opened Optional
  import opened HtmlText
  import opened Marks
  import opened Blocks
  import opened Document

  /** The outputs without the skipped blocks. */
  function Kept(rs: seq<Rendered>): (ks: seq<Rendered>)
    ensures forall i | 0 <= i < |ks| :: !ks[i].Skipped?
    decreases |rs|
  {
    if rs == [] then []
    else if rs[0].Skipped? then Kept(rs[1..])
    else [rs[0]] + Kept(rs[1..])
  }

  predicate InList(r: Rendered, t: ListTag) {
    r.ListItem? && r.tag == t
  }

  /** The length of the run of list items of kind `t` at the front of `items`. */
  function RunLength(items: seq<Rendered>, t: ListTag): (n: nat)
    ensures n <= |items|
    ensures forall k | 0 <= k < n :: InList(items[k], t)
    ensures n < |items| ==> !InList(items[n], t)
    decreases |items|
  {
    if items != [] && InList(items[0], t) then 1 + RunLength(items[1..], t) else 0
  }

  /** The list items of a run, in order. */
  function ItemParts(items: seq<Rendered>): seq<Part>
    decreases |items|
  {
    if items == [] then []
    else (if items[0].Skipped? then [] else [Item(items[0].html)]) + ItemParts(items[1..])
  }

  /** Reference grouping: each standalone output as a fragment, each maximal run of list items
      of one kind as one list holding those items. */
  function Grouped(items: seq<Rendered>): seq<Part>
    decreases |items|
  {
    if items == [] then []
    else
      match items[0]
      case Skipped => Grouped(items[1..])
      case Standalone(h) => [Fragment(h)] + Grouped(items[1..])
      case ListItem(t, _) =>
        var n := RunLength(items, t);
        [Open(t)] + ItemParts(items[..n]) + [Close(t)] + Grouped(items[n..])
  }

  /** The rest of a list of kind `t` that is already open, followed by the grouping after it. */
  function InRun(t: ListTag, items: seq<Rendered>): seq<Part> {
    var n := RunLength(items, t);
    ItemParts(items[..n]) + [Close(t)] + Grouped(items[n..])
  }

  lemma KeptCons(r: Rendered, rest: seq<Rendered>)
    ensures Kept([r] + rest) == if r.Skipped? then Kept(rest) else [r] + Kept(rest)
  {
    assert ([r] + rest)[0] == r && ([r] + rest)[1..] == rest;
  }

  lemma InRunCons(t: ListTag, h: string, items: seq<Rendered>)
    ensures InRun(t, [ListItem(t, h)] + items) == [Item(h)] + InRun(t, items)
  {
    var all := [ListItem(t, h)] + items;
    assert all[1..] == items;
    var m := RunLength(items, t);
    assert RunLength(all, t) == 1 + m;
    assert all[..1 + m][0] == ListItem(t, h) && all[..1 + m][1..] == items[..m];
    assert all[1 + m..] == items[m..];
  }

  lemma InRunOther(t: ListTag, items: seq<Rendered>)
    requires items == [] || !InList(items[0], t)
    ensures InRun(t, items) == [Close(t)] + Grouped(items)
  {
    var n := RunLength(items, t);
    assert n == 0;
    assert ItemParts(items[..n]) == [] by {
      assert items[..n] == [];
    }
    assert Grouped(items[n..]) == Grouped(items) by {
      assert items[n..] == items;
    }
    assert [] + [Close(t)] == [Close(t)];
  }

  lemma GroupedStart(t: ListTag, h: string, items: seq<Rendered>)
    ensures Grouped([ListItem(t, h)] + items) == [Open(t)] + InRun(t, [ListItem(t, h)] + items)
  {
    var all := [ListItem(t, h)] + items;
    assert all[0] == ListItem(t, h);
  }

  lemma GroupedStandalone(h: string, items: seq<Rendered>)
    ensures Grouped([Standalone(h)] + items) == [Fragment(h)] + Grouped(items)
  {
    assert ([Standalone(h)] + items)[1..] == items;
  }

  /** What the reference grouping expects from the loop when `cur` is the open list. */
  function Expected(cur: Option<ListTag>, ks: seq<Rendered>): seq<Part> {
    if cur.Some? then InRun(cur.value, ks) else Grouped(ks)
  }

  lemma StepStandalone(cur: Option<ListTag>, h: string, ks: seq<Rendered>, tail: seq<Part>)
    requires tail == Grouped(ks)
    ensures CloseOpen(cur) + [Fragment(h)] + tail == Expected(cur, [Standalone(h)] + ks)
  {
    GroupedStandalone(h, ks);
    if cur.Some? {
      InRunOther(cur.value, [Standalone(h)] + ks);
    }
  }

  lemma StepItemNew(cur: Option<ListTag>, t: ListTag, h: string, ks: seq<Rendered>, tail: seq<Part>)
    requires cur != Some(t) && tail == InRun(t, ks)
    ensures CloseOpen(cur) + [Open(t), Item(h)] + tail == Expected(cur, [ListItem(t, h)] + ks)
  {
    InRunCons(t, h, ks);
    GroupedStart(t, h, ks);
    if cur.Some? {
      InRunOther(cur.value, [ListItem(t, h)] + ks);
    }
  }

  /** The loop agrees with the reference grouping: from no open list it produces the grouping
      of the kept outputs, and with list `t` open it produces the rest of that list first. */
  lemma {:induction false} RunFromGrouped(cur: Option<ListTag>, rs: seq<Rendered>)
    ensures cur.None? ==> RunFrom(cur, rs) == Grouped(Kept(rs))
    ensures cur.Some? ==> RunFrom(cur, rs) == InRun(cur.value, Kept(rs))
    decreases |rs|
  {
    if rs == [] {
      if cur.Some? {
        InRunOther(cur.value, []);
      }
    } else {
      var r, rest := rs[0], rs[1..];
      assert rs == [r] + rest;
      RunFromCons(cur, r, rest);
      KeptCons(r, rest);
      var ks := Kept(rest);
      match r {
        case Skipped =>
          RunFromGrouped(cur, rest);
        case Standalone(h) =>
          RunFromGrouped(None, rest);
          StepStandalone(cur, h, ks, RunFrom(None, rest));
        case ListItem(u, h) =>
          RunFromGrouped(Some(u), rest);
          if cur == Some(u) {
            InRunCons(u, h, ks);
          } else {
            StepItemNew(cur, u, h, ks, RunFrom(Some(u), rest));
          }
      }
    }
  }

  /** The grouping of the whole document. */
  lemma DocumentGrouped(bs: seq<Block>)
    ensures DocumentParts(Some(bs)) == Grouped(Kept(Outputs(bs)))
  {
    RunFromGrouped(None, Outputs(bs));
  }

  /** The open list after reading `ps` from open list `cur`, or `None` when `ps` opens a list
      inside a list, closes a list that is not open, or puts an item outside a list or a
      fragment inside one. */
  function Walk(cur: Option<ListTag>, ps: seq<Part>): Option<Option<ListTag>>
    decreases |ps|
  {
    if ps == [] then Some(cur)
    else
      match ps[0]
      case Open(t) => if cur.None? then Walk(Some(t), ps[1..]) else None
      case Close(t) => if cur == Some(t) then Walk(None, ps[1..]) else None
      case Item(_) => if cur.Some? then Walk(cur, ps[1..]) else None
      case Fragment(_) => if cur.None? then Walk(cur, ps[1..]) else None
  }

  /** Balanced and well nested: every list item sits inside exactly one open list, every list is
      closed with its own tag, and nothing is left open. */
  predicate WellNested(ps: seq<Part>) {
    Walk(None, ps) == Some(None)
  }

  lemma {:induction false} WalkAppend(cur: Option<ListTag>, a: seq<Part>, b: seq<Part>)
    ensures Walk(cur, a + b) == if Walk(cur, a).None? then None else Walk(Walk(cur, a).value, b)
    decreases |a|
  {
    if a == [] {
      assert a + b == b;
    } else {
      assert (a + b)[0] == a[0];
      assert (a + b)[1..] == a[1..] + b;
      match a[0]
      case Open(t) => if cur.None? { WalkAppend(Some(t), a[1..], b); }
      case Close(t) => if cur == Some(t) { WalkAppend(None, a[1..], b); }
      case Item(_) => if cur.Some? { WalkAppend(cur, a[1..], b); }
      case Fragment(_) => if cur.None? { WalkAppend(cur, a[1..], b); }
    }
  }

  lemma FeedWalk(cur: Option<ListTag>, r: Rendered)
    ensures Walk(cur, Feed(cur, r).1) == Some(Feed(cur, r).0)
  {
    match r
    case Skipped =>
    case Standalone(h) =>
      WalkAppend(cur, CloseOpen(cur), [Fragment(h)]);
    case ListItem(t, h) =>
      if cur != Some(t) {
        WalkAppend(cur, CloseOpen(cur), [Open(t), Item(h)]);
        assert Walk(cur, CloseOpen(cur)) == Some(None) by {
          if cur.Some? {
            assert [Close(cur.value)][1..] == [];
          }
        }
        assert [Item(h)][1..] == [];
        assert Walk(Some(t), [Item(h)]) == Some(Some(t));
        assert [Open(t), Item(h)][1..] == [Item(h)];
        assert Walk(None, [Open(t), Item(h)]) == Some(Some(t));
      }
  }

  /** From any open list, the loop's parts read back to no open list at the end. */
  lemma {:induction false} RunFromWalk(cur: Option<ListTag>, rs: seq<Rendered>)
    ensures Walk(cur, RunFrom(cur, rs)) == Some(None)
    decreases |rs|
  {
    if rs != [] {
      var step := Feed(cur, rs[0]);
      FeedWalk(cur, rs[0]);
      WalkAppend(cur, step.1, RunFrom(step.0, rs[1..]));
      RunFromWalk(step.0, rs[1..]);
    }
  }

  /** The document's parts are well nested and balanced. */
  lemma DocumentWellNested(blocks: Option<seq<Block>>)
    ensures WellNested(DocumentParts(blocks))
  {
    if blocks.Some? && blocks.value != [] {
      RunFromWalk(None, Outputs(blocks.value));
    }
  }

  /** No list is closed and then immediately reopened with the same tag. */
  predicate NoReopen(ps: seq<Part>) {
    forall i | 0 <= i < |ps| - 1 :: ps[i].Close? ==> ps[i + 1] != Open(ps[i].tag)
  }

  lemma NoReopenAppend(a: seq<Part>, b: seq<Part>)
    requires NoReopen(a) && NoReopen(b)
    requires a == [] || !a[|a| - 1].Close?
    ensures NoReopen(a + b)
  {
    forall i | 0 <= i < |a + b| - 1 && (a + b)[i].Close?
      ensures (a + b)[i + 1] != Open((a + b)[i].tag)
    {
      if i + 1 < |a| {
        assert (a + b)[i] == a[i] && (a + b)[i + 1] == a[i + 1];
      } else if i >= |a| {
        assert (a + b)[i] == b[i - |a|] && (a + b)[i + 1] == b[i - |a| + 1];
      }
    }
  }

  lemma FeedNoReopen(cur: Option<ListTag>, r: Rendered)
    ensures NoReopen(Feed(cur, r).1)
    ensures Feed(cur, r).1 == [] || !Feed(cur, r).1[|Feed(cur, r).1| - 1].Close?
  {
  }

  lemma {:induction false} RunFromNoReopen(cur: Option<ListTag>, rs: seq<Rendered>)
    ensures NoReopen(RunFrom(cur, rs))
    decreases |rs|
  {
    if rs != [] {
      var step := Feed(cur, rs[0]);
      FeedNoReopen(cur, rs[0]);
      RunFromNoReopen(step.0, rs[1..]);
      NoReopenAppend(step.1, RunFrom(step.0, rs[1..]));
    }
  }

  /** Consecutive list items of one kind share one list: the document never closes a list and
      reopens the same kind right after. */
  lemma DocumentNoReopen(blocks: Option<seq<Block>>)
    ensures NoReopen(DocumentParts(blocks))
  {
    if blocks.Some? && blocks.value != [] {
      RunFromNoReopen(None, Outputs(blocks.value));
    }
  }

  /** Every output that is not skipped has non-empty HTML. */
  predicate Visible(rs: seq<Rendered>) {
    forall i | 0 <= i < |rs| :: rs[i].Skipped? || rs[i].html != ""
  }

  /** Exactly the blocks of an unhandled `_type` are skipped, and no other block renders empty. */
  lemma {:induction false} OutputsVisible(bs: seq<Block>)
    ensures forall i | 0 <= i < |bs| :: Outputs(bs)[i].Skipped? <==> bs[i].Unknown?
    ensures Visible(Outputs(bs))
    decreases |bs|
  {
    if bs != [] {
      var init := bs[..|bs| - 1];
      OutputsVisible(init);
      var rs, ro, last := Outputs(bs), Outputs(init), BlockOutput(bs[|bs| - 1]);
      assert rs == ro + [last];
      forall i | 0 <= i < |bs| ensures (rs[i].Skipped? <==> bs[i].Unknown?) && (rs[i].Skipped? || rs[i].html != "") {
        if i < |init| {
          assert rs[i] == ro[i] && bs[i] == init[i];
        } else {
          assert rs[i] == last;
        }
      }
    }
  }

  /** A skipped output changes nothing the loop does: it keeps the open list and emits nothing. */
  lemma {:induction false} RunFromSkip(cur: Option<ListTag>, x: seq<Rendered>, y: seq<Rendered>)
    ensures RunFrom(cur, x + [Skipped] + y) == RunFrom(cur, x + y)
    decreases |x|
  {
    if x == [] {
      assert x + [Skipped] + y == [Skipped] + y && x + y == y;
      RunFromCons(cur, Skipped, y);
    } else {
      var step := Feed(cur, x[0]);
      assert x + [Skipped] + y == [x[0]] + (x[1..] + [Skipped] + y);
      assert x + y == [x[0]] + (x[1..] + y);
      RunFromCons(cur, x[0], x[1..] + [Skipped] + y);
      RunFromCons(cur, x[0], x[1..] + y);
      RunFromSkip(step.0, x[1..], y);
    }
  }

  /** A block of a `_type` the renderer does not handle is dropped without a trace: the document
      is the same as without it, including which list items share a list. */
  lemma UnknownTransparent(a: seq<Block>, b: seq<Block>)
    ensures DocumentParts(Some(a + [Unknown] + b)) == DocumentParts(Some(a + b))
  {
    OutputsAppend(a + [Unknown], b);
    OutputsAppend(a, [Unknown]);
    OutputsAppend(a, b);
    assert Outputs([Unknown]) == [Skipped] by {
      assert [Unknown][..0] == [];
    }
    RunFromSkip(None, Outputs(a), Outputs(b));
    if a + b == [] {
      assert Outputs(a) + Outputs(b) == [];
      assert RunFrom(None, [Skipped]) == [];
    }
  }

  lemma {:induction false} RunFromEmpty(cur: Option<ListTag>, rs: seq<Rendered>)
    ensures RunFrom(cur, rs) == [] <==> cur.None? && forall i | 0 <= i < |rs| :: rs[i].Skipped?
    decreases |rs|
  {
    if rs != [] {
      RunFromEmpty(Feed(cur, rs[0]).0, rs[1..]);
      if forall i | 0 <= i < |rs| :: rs[i].Skipped? {
        assert forall i | 0 <= i < |rs| - 1 :: rs[1..][i] == rs[i + 1];
      }
      if rs[0].Skipped? && forall i | 0 <= i < |rs| - 1 :: rs[1..][i].Skipped? {
        forall i | 0 <= i < |rs| ensures rs[i].Skipped? {
          if i > 0 { assert rs[i] == rs[1..][i - 1]; }
        }
      }
    }
  }

  lemma {:induction false} RunFromFirst(cur: Option<ListTag>, rs: seq<Rendered>)
    requires Visible(rs)
    ensures RunFrom(cur, rs) != [] ==> PartHtml(RunFrom(cur, rs)[0]) != ""
    decreases |rs|
  {
    if rs != [] {
      var step := Feed(cur, rs[0]);
      if step.1 == [] {
        assert Visible(rs[1..]) by {
          assert forall i | 0 <= i < |rs| - 1 :: rs[1..][i] == rs[i + 1];
        }
        RunFromFirst(step.0, rs[1..]);
      } else {
        assert RunFrom(cur, rs)[0] == step.1[0];
      }
    }
  }

  /** The document is the empty string exactly when there are no blocks or none of them is of a
      handled `_type`; every handled block leaves visible HTML. */
  lemma EmptyOutputIff(blocks: Option<seq<Block>>)
    ensures DocumentHtml(blocks) == ""
      <==> blocks.None? || forall i | 0 <= i < |blocks.value| :: blocks.value[i].Unknown?
  {
    if blocks.Some? && blocks.value != [] {
      var bs := blocks.value;
      var rs := Outputs(bs);
      OutputsVisible(bs);
      RunFromEmpty(None, rs);
      RunFromFirst(None, rs);
      var ps := RunFrom(None, rs);
      if ps != [] {
        assert PartsHtml(ps)[0] == PartHtml(ps[0]);
        assert |Concat(PartsHtml(ps))| >= |PartHtml(ps[0])| > 0;
      }
    }
  }

  /** Two bullet items, a numbered item and a paragraph: the bullet list is closed when the
      numbered list opens, and the numbered list is closed before the paragraph. */
  lemma SwitchingLists(a: string, b: string, c: string, p: string)
    ensures RunFrom(None, [ListItem(Ul, a), ListItem(Ul, b), ListItem(Ol, c), Standalone(p)])
      == [Open(Ul), Item(a), Item(b), Close(Ul), Open(Ol), Item(c), Close(Ol), Fragment(p)]
  {
    var rs := [ListItem(Ul, a), ListItem(Ul, b), ListItem(Ol, c), Standalone(p)];
    RunFromCons(None, rs[0], rs[1..]);
    RunFromCons(Some(Ul), rs[1], rs[2..]);
    RunFromCons(Some(Ul), rs[2], rs[3..]);
    RunFromCons(Some(Ol), rs[3], []);
    assert rs[1..] == [rs[1]] + rs[2..] && rs[2..] == [rs[2]] + rs[3..] && rs[3..] == [rs[3]] + [];
  }

  /** A bullet list item holding one unmarked span of text `a`. */
  function Bullet(a: string): Block {
    TextBlock(None, Some("bullet"), [Span(Some(a), None)], [])
  }

  lemma BulletOutput(a: string)
    requires a != "" && Plain(a)
    ensures BlockOutput(Bullet(a)) == ListItem(Ul, "<li>" + a + "</li>")
  {
    var spans := [Span(Some(a), None)];
    EscapePlain(a);
    assert spans[1..] == [];
    assert SpansHtml(spans, DefsMap([])) == a;
  }

  lemma TwoItemsHtml(x: string, y: string)
    ensures Concat(PartsHtml([Open(Ul), Item(x), Item(y), Close(Ul)])) == "<ul>" + x + y + "</ul>"
  {
    var p3, p2, p1 := [Close(Ul)], [Item(y), Close(Ul)], [Item(x), Item(y), Close(Ul)];
    var ps := [Open(Ul)] + p1;
    assert p3[1..] == [] && p2[1..] == p3 && p1[1..] == p2 && ps[1..] == p1;
    assert OpenHtml(Ul) == "<ul>" by {
      assert "<" + "ul" + ">" == "<ul>";
    }
    assert CloseHtml(Ul) == "</ul>" by {
      assert "</" + "ul" + ">" == "</ul>";
    }
    assert PartsHtml(p3) == ["</ul>"];
    assert PartsHtml(p2) == [y] + ["</ul>"];
    assert PartsHtml(p1) == [x] + [y, "</ul>"];
    assert PartsHtml(ps) == ["<ul>"] + [x, y, "</ul>"];
    var h3, h2, h1 := ["</ul>"], [y, "</ul>"], [x, y, "</ul>"];
    var hs := ["<ul>"] + h1;
    assert h3[1..] == [] && h2[1..] == h3 && h1[1..] == h2 && hs[1..] == h1;
    assert Concat(h3) == "</ul>";
    assert Concat(h2) == y + "</ul>";
    assert Concat(h1) == x + (y + "</ul>");
    assert Concat(hs) == "<ul>" + (x + (y + "</ul>"));
    assert [Open(Ul), Item(x), Item(y), Close(Ul)] == ps;
    assert ["<ul>", x, y, "</ul>"] == hs;
  }

  lemma OutputsPair(x: Block, y: Block)
    ensures Outputs([x, y]) == [BlockOutput(x), BlockOutput(y)]
  {
    assert [x, y][..1] == [x] && [x][..0] == [];
  }

  lemma TwoItemsRun(x: string, y: string)
    ensures RunFrom(None, [ListItem(Ul, x), ListItem(Ul, y)]) == [Open(Ul), Item(x), Item(y), Close(Ul)]
  {
    var rs := [ListItem(Ul, x), ListItem(Ul, y)];
    RunFromCons(None, rs[0], rs[1..]);
    RunFromCons(Some(Ul), rs[1], []);
    assert rs[1..] == [rs[1]] + [];
  }

  lemma TwoBulletsParts(a: string, b: string)
    requires a != "" && Plain(a) && b != "" && Plain(b)
    ensures DocumentParts(Some([Bullet(a)] + [Bullet(b)]))
      == [Open(Ul), Item("<li>" + a + "</li>"), Item("<li>" + b + "</li>"), Close(Ul)]
  {
    assert [Bullet(a)] + [Bullet(b)] == [Bullet(a), Bullet(b)];
    OutputsPair(Bullet(a), Bullet(b));
    BulletOutput(a);
    BulletOutput(b);
    TwoItemsRun("<li>" + a + "</li>", "<li>" + b + "</li>");
  }

  /** A bullet, a block of an unhandled `_type` and another bullet render as one list of two
      items: the unknown block does not close the list. */
  lemma BulletsAroundUnknown(a: string, b: string)
    requires a != "" && Plain(a) && b != "" && Plain(b)
    ensures DocumentHtml(Some([Bullet(a), Unknown, Bullet(b)]))
      == "<ul>" + ("<li>" + a + "</li>") + ("<li>" + b + "</li>") + "</ul>"
  {
    assert [Bullet(a), Unknown, Bullet(b)] == [Bullet(a)] + [Unknown] + [Bullet(b)];
    UnknownTransparent([Bullet(a)], [Bullet(b)]);
    TwoBulletsParts(a, b);
    TwoItemsHtml("<li>" + a + "</li>", "<li>" + b + "</li>");
  }
}
