/** The mark resolver: how the ordered marks of one span wrap its escaped text. */
module Marks {
  import opened Optional
  import opened HtmlText

  /** One entry of a block's `markDefs`: its `_key`, its `_type` and its `href`. */
  datatype MarkDef = MarkDef(key: Option<string>, markType: Option<string>, href: Option<string>)

  /** The block-scoped definitions keyed by `_key`, as the dict comprehension builds them: a later
      entry replaces an earlier one with the same key. An entry without `_key` is filed under
      `None` by the source, where no mark string can reach it; here it is left out. */
  function DefsMap(defs: seq<MarkDef>): map<string, MarkDef>
    decreases |defs|
  {
    if defs == [] then map[]
    else
      var m := DefsMap(defs[..|defs| - 1]);
      var d := defs[|defs| - 1];
      if d.key.Some? then m[d.key.value := d] else m
  }

  /** A key is defined exactly when some entry carries it, and it maps to the last such entry. */
  lemma {:induction false} DefsMapLookup(defs: seq<MarkDef>, k: string)
    ensures k in DefsMap(defs) <==> exists i | 0 <= i < |defs| :: defs[i].key == Some(k)
    ensures k in DefsMap(defs) ==>
      exists i | 0 <= i < |defs| :: defs[i].key == Some(k) && DefsMap(defs)[k] == defs[i]
        && forall j | i < j < |defs| :: defs[j].key != Some(k)
    decreases |defs|
  {
    if defs != [] {
      var init := defs[..|defs| - 1];
      var last := |defs| - 1;
      DefsMapLookup(init, k);
      if defs[last].key == Some(k) {
        assert DefsMap(defs)[k] == defs[last];
      } else {
        assert k in DefsMap(defs) <==> k in DefsMap(init);
        if exists i | 0 <= i < |defs| :: defs[i].key == Some(k) {
          var i :| 0 <= i < |defs| && defs[i].key == Some(k);
          assert init[i] == defs[i];
        }
        if k in DefsMap(init) {
          var i :| 0 <= i < |init| && init[i].key == Some(k) && DefsMap(init)[k] == init[i]
            && forall j | i < j < |init| :: init[j].key != Some(k);
          assert defs[i] == init[i];
          assert forall j | i < j < |defs| :: defs[j].key != Some(k) by {
            forall j | i < j < |defs| ensures defs[j].key != Some(k) {
              if j < last {
                assert defs[j] == init[j];
              }
            }
          }
        }
      }
    }
  }

  /** What one mark reference does: a built-in wrapper, a link, or nothing. */
  datatype MarkAction = Strong | Em | Code | Link(href: string) | NoOp

  predicate IsBuiltIn(mark: string) {
    mark == "strong" || mark == "em" || mark == "code"
  }

  /** Resolves a mark reference against the block's definitions. The built-in names win over a
      definition with the same key; a definition wraps only when its `_type` is `link`, with its
      escaped `href`, or `#` when it has none; every other reference does nothing. */
  function Resolve(mark: string, defs: map<string, MarkDef>): (a: MarkAction)
    ensures mark == "strong" <==> a == Strong
    ensures mark == "em" <==> a == Em
    ensures mark == "code" <==> a == Code
    ensures a.Link? <==> !IsBuiltIn(mark) && mark in defs && defs[mark].markType == Some("link")
    ensures a.Link? ==> a.href == Escape(GetOr(defs[mark].href, "#")) && Inert(a.href)
    ensures a == NoOp <==>
      !IsBuiltIn(mark) && (mark !in defs || defs[mark].markType != Some("link"))
  {
    if mark == "strong" then Strong
    else if mark == "em" then Em
    else if mark == "code" then Code
    else if mark in defs && defs[mark].markType == Some("link") then
      Link(Escape(GetOr(defs[mark].href, "#")))
    else NoOp
  }

  function OpenTag(a: MarkAction): string {
    match a
    case Strong => "<strong>"
    case Em => "<em>"
    case Code => "<code>"
    case Link(href) => "<a href=\"" + href + "\" target=\"_blank\" rel=\"noopener noreferrer\">"
    case NoOp => ""
  }

  function CloseTag(a: MarkAction): string {
    match a
    case Strong => "</strong>"
    case Em => "</em>"
    case Code => "</code>"
    case Link(_) => "</a>"
    case NoOp => ""
  }

  /** One step of the fold: the action's element around the text so far. */
  function Wrap(a: MarkAction, s: string): string {
    OpenTag(a) + s + CloseTag(a)
  }

  /** The fold over the marks in list order: each mark wraps what the marks before it produced. */
  function ApplyMarks(s: string, marks: seq<string>, defs: map<string, MarkDef>): string
    decreases |marks|
  {
    if marks == [] then s
    else Wrap(Resolve(marks[|marks| - 1], defs), ApplyMarks(s, marks[..|marks| - 1], defs))
  }

  /** `_render_marks(text, marks, mark_defs)`: the escaped text, wrapped by the marks in order;
      absent or empty marks leave exactly the escaped text. */
  function MarksHtml(text: string, marks: Option<seq<string>>, defs: map<string, MarkDef>): (r: string)
    ensures marks.None? || marks == Some([]) ==> r == Escape(text)
  {
    ApplyMarks(Escape(text), GetOr(marks, []), defs)
  }

  /** Extending the processed prefix by one mark wraps the text so far once more. */
  lemma ApplyMarksPrefix(s: string, ms: seq<string>, i: int, defs: map<string, MarkDef>)
    requires 0 <= i < |ms|
    ensures ApplyMarks(s, ms[..i + 1], defs) == Wrap(Resolve(ms[i], defs), ApplyMarks(s, ms[..i], defs))
  {
    assert ms[..i + 1][..i] == ms[..i];
  }

  /** `_render_marks` as the source writes it: escape, then reassign `rendered` once per mark. */
  method RenderMarks(text: string, marks: Option<seq<string>>, markDefs: map<string, MarkDef>)
    returns (rendered: string)
    ensures rendered == MarksHtml(text, marks, markDefs)
  {
    rendered := Escape(text);
    if marks.None? || marks.value == [] {
      return;
    }
    var ms := marks.value;
    for i := 0 to |ms|
      invariant rendered == ApplyMarks(Escape(text), ms[..i], markDefs)
    {
      ApplyMarksPrefix(Escape(text), ms, i, markDefs);
      var mark := ms[i];
      if mark == "strong" {
        rendered := "<strong>" + rendered + "</strong>";
      } else if mark == "em" {
        rendered := "<em>" + rendered + "</em>";
      } else if mark == "code" {
        rendered := "<code>" + rendered + "</code>";
      } else if mark in markDefs {
        var definition := markDefs[mark];
        if definition.markType == Some("link") {
          var href := Escape(GetOr(definition.href, "#"));
          rendered := "<a href=\"" + href + "\" target=\"_blank\" rel=\"noopener noreferrer\">"
            + rendered + "</a>";
        }
      }
    }
    assert ms[..|ms|] == ms;
  }

  /** Marks wrap in list order: the last mark is outermost. */
  lemma MarkLast(s: string, m: string, ms: seq<string>, defs: map<string, MarkDef>)
    ensures ApplyMarks(s, ms + [m], defs) == Wrap(Resolve(m, defs), ApplyMarks(s, ms, defs))
  {
    assert (ms + [m])[..|ms|] == ms;
  }

  /** A mark that resolves to nothing (an unknown key, or a definition that is not a link)
      leaves the text built so far unchanged. */
  lemma NoOpMark(s: string, m: string, ms: seq<string>, defs: map<string, MarkDef>)
    requires !IsBuiltIn(m) && (m !in defs || defs[m].markType != Some("link"))
    ensures ApplyMarks(s, ms + [m], defs) == ApplyMarks(s, ms, defs)
  {
    MarkLast(s, m, ms, defs);
    assert "" + ApplyMarks(s, ms, defs) + "" == ApplyMarks(s, ms, defs);
  }

  /** Marks wrap in list order: the first mark is innermost. */
  lemma {:induction false} MarkFirst(s: string, m: string, ms: seq<string>, defs: map<string, MarkDef>)
    ensures ApplyMarks(s, [m] + ms, defs) == ApplyMarks(Wrap(Resolve(m, defs), s), ms, defs)
    decreases |ms|
  {
    var l := [m] + ms;
    if ms == [] {
      assert l[..0] == [];
    } else {
      var init := ms[..|ms| - 1];
      assert l[..|l| - 1] == [m] + init;
      assert l[|l| - 1] == ms[|ms| - 1];
      MarkFirst(s, m, init, defs);
    }
  }

  /** The opening tags of `marks`, outermost first. */
  function Openers(marks: seq<string>, defs: map<string, MarkDef>): string
    decreases |marks|
  {
    if marks == [] then ""
    else OpenTag(Resolve(marks[|marks| - 1], defs)) + Openers(marks[..|marks| - 1], defs)
  }

  /** The closing tags of `marks`, innermost first. */
  function Closers(marks: seq<string>, defs: map<string, MarkDef>): string
    decreases |marks|
  {
    if marks == [] then ""
    else Closers(marks[..|marks| - 1], defs) + CloseTag(Resolve(marks[|marks| - 1], defs))
  }

  lemma Regroup(o: string, x: string, s: string, y: string, c: string)
    ensures o + (x + s + y) + c == (o + x) + s + (y + c)
  {
  }

  /** The wrapped text is the opening tags in reverse mark order, the text, then the closing tags
      in mark order: the elements nest properly around the text. */
  lemma {:induction false} ApplyMarksNesting(s: string, marks: seq<string>, defs: map<string, MarkDef>)
    ensures ApplyMarks(s, marks, defs) == Openers(marks, defs) + s + Closers(marks, defs)
    decreases |marks|
  {
    if marks != [] {
      var init := marks[..|marks| - 1];
      var a := Resolve(marks[|marks| - 1], defs);
      ApplyMarksNesting(s, init, defs);
      Regroup(OpenTag(a), Openers(init, defs), s, Closers(init, defs), CloseTag(a));
    }
  }

  /** Every mark of the list resolves to nothing. */
  predicate AllNoOp(marks: seq<string>, defs: map<string, MarkDef>) {
    forall i | 0 <= i < |marks| :: Resolve(marks[i], defs) == NoOp
  }

  lemma {:induction false} OpenersEmpty(marks: seq<string>, defs: map<string, MarkDef>)
    ensures Openers(marks, defs) == "" <==> AllNoOp(marks, defs)
    ensures Closers(marks, defs) == "" <==> AllNoOp(marks, defs)
    decreases |marks|
  {
    if marks != [] {
      var init := marks[..|marks| - 1];
      OpenersEmpty(init, defs);
      var a := Resolve(marks[|marks| - 1], defs);
      assert OpenTag(a) == "" <==> a == NoOp;
      assert CloseTag(a) == "" <==> a == NoOp;
      assert AllNoOp(marks, defs) <==> a == NoOp && AllNoOp(init, defs) by {
        if a == NoOp && AllNoOp(init, defs) {
          forall i | 0 <= i < |marks| ensures Resolve(marks[i], defs) == NoOp {
            if i < |marks| - 1 {
              assert marks[i] == init[i];
            }
          }
        }
        if AllNoOp(marks, defs) {
          forall i | 0 <= i < |init| ensures Resolve(init[i], defs) == NoOp {
            assert init[i] == marks[i];
          }
        }
      }
    }
  }

  /** A span renders to nothing exactly when its text is empty and none of its marks wraps. */
  lemma MarksHtmlEmpty(text: string, marks: Option<seq<string>>, defs: map<string, MarkDef>)
    ensures MarksHtml(text, marks, defs) == "" <==> text == "" && AllNoOp(GetOr(marks, []), defs)
  {
    var ms := GetOr(marks, []);
    ApplyMarksNesting(Escape(text), ms, defs);
    OpenersEmpty(ms, defs);
  }

  /** `_render_marks("hi", ["strong", "em"], {})` is `<em><strong>hi</strong></em>`. */
  lemma StrongThenEm()
    ensures MarksHtml("hi", Some(["strong", "em"]), map[]) == "<em><strong>hi</strong></em>"
  {
    assert Plain("hi");
    EscapePlain("hi");
    StrongThenEmWrap(Escape("hi"));
  }

  lemma StrongThenEmWrap(e: string)
    ensures ApplyMarks(e, ["strong", "em"], map[]) == "<em><strong>" + e + "</strong></em>"
  {
    var none: map<string, MarkDef> := map[];
    assert ["strong", "em"] == ["strong"] + ["em"];
    assert ["strong"] == [] + ["strong"];
    MarkLast(e, "em", ["strong"], none);
    MarkLast(e, "strong", [], none);
    assert Resolve("strong", none) == Strong && Resolve("em", none) == Em;
    var open: string, close: string := "<em><strong>", "</strong></em>";
    assert open == "<em>" + "<strong>" && close == "</strong>" + "</em>";
    Regroup("<em>", "<strong>", e, "</strong>", "</em>");
  }

  /** A link definition wraps the text in an anchor that opens a new browsing context, with the
      escaped `href`, or `#` when the definition has none. */
  lemma LinkMark(text: string, key: string, href: Option<string>)
    requires !IsBuiltIn(key)
    ensures MarksHtml(text, Some([key]), DefsMap([MarkDef(Some(key), Some("link"), href)]))
      == "<a href=\"" + Escape(GetOr(href, "#")) + "\" target=\"_blank\" rel=\"noopener noreferrer\">"
         + Escape(text) + "</a>"
  {
    var defs := [MarkDef(Some(key), Some("link"), href)];
    assert defs[..0] == [];
    var m := DefsMap(defs);
    assert m == map[key := defs[0]] by {
      assert defs[|defs| - 1] == defs[0];
      assert DefsMap(defs[..0]) == map[];
    }
    assert [key][..0] == [];
    var a := Resolve(key, m);
    assert a == Link(Escape(GetOr(href, "#")));
    var e := Escape(text);
    assert GetOr(Some([key]), []) == [key];
    assert ApplyMarks(e, [key], m) == Wrap(Resolve([key][0], m), ApplyMarks(e, [], m));
  }
}
