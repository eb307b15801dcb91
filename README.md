# Portable Text to HTML renderer

A model of the renderer in `app/services/sanity.py` (lines 11-124) that turns a headless CMS's
Portable Text block list into one HTML fragment string, with proofs of what that fragment holds.

The model has eight modules:

- `Optional` covers optional record fields and the two ways the renderer reads them: `.get(k, d)` and `.get(k) or d`, under Python truthiness.
- `HtmlText` models `html.escape(s, quote=True)` character by character. Its inverse decodes the five references that escaping produces. It also defines `''.join`.
- `Lines` models `str.splitlines()` exactly: every Python line boundary, with `\r\n` counted as one. It covers the `if segment` filter and `'<br>'.join`, with the split that undoes the join.
- `Marks` is the mark resolver.
  - It builds the block-scoped `markDefs` map and resolves each mark reference.
  - The fold over the marks is a specification function.
  - `_render_marks` itself is a method with the source's loop, proved equal to that function.
- `Blocks` holds the span and block records and the pure block renderers.
  - The block renderers are `_render_block_children`, `_render_block`, `_render_pull_quote`, `_render_callout` and `_render_ritual_step`.
- `Readback` holds parsers that take each special block's fragment apart again. They are the inverses the renderers are proved against.
- `Document` and `Lists` cover the document driver.
  - `PortableTextToHtml` is the source's loop. It appends to `html_parts` and carries `current_list`.
  - It is proved equal to a specification function over a token list:
    - list open;
    - list close;
    - list item;
    - standalone fragment.
  - That function is proved equal to an independent reference grouping: each maximal run of same-kind list items goes in one container. A second fact is proved about it: the tokens are balanced and never nest.

## Model

| member | source | states |
|---|---|---|
| HtmlText.Escape | app/services/sanity.py:12 | The escaped text holds no `<`, `>`, `"` or `'`, and is empty exactly when the input is empty |
| HtmlText.UnescapeEscape | app/services/sanity.py:12 | Escaping loses nothing: decoding the escaped text gives back the original text |
| HtmlText.EscapePlain | app/services/sanity.py:12 | Text without `&<>"'` is left unchanged by escaping |
| Marks.DefsMapLookup | app/services/sanity.py:32 | A key is in the `markDefs` map exactly when some entry carries it, and it maps to the last entry carrying it |
| Marks.Resolve | app/services/sanity.py:17-27 | `strong`/`em`/`code` win over any definition. A definition wraps only when its `_type` is `link`, with the escaped `href` (or `#`). Every other reference does nothing. |
| Marks.MarksHtml | app/services/sanity.py:12-14 | With marks absent or empty, the result is exactly the escaped text |
| Marks.RenderMarks | app/services/sanity.py:11-28 | The loop that reassigns `rendered` once per mark computes the mark fold over the escaped text |
| Marks.DefsMap | app/services/sanity.py:32 | No contract of its own; `Marks.DefsMapLookup` states it |
| Marks.ApplyMarks | app/services/sanity.py:16-27 | No contract of its own; `Marks.RenderMarks` ties it to the loop, and `Marks.MarkFirst`, `Marks.NoOpMark` and `Marks.ApplyMarksNesting` state it |
| Marks.MarkLast | app/services/sanity.py:16-27 | Appending a mark wraps the previous result once more. This is the defining step of `ApplyMarks`; with `Marks.RenderMarks` it says that the mark at the end of the list ends up outermost |
| Marks.MarkFirst | app/services/sanity.py:16-27 | The first mark is innermost: it wraps the escaped text before any later mark |
| Marks.NoOpMark | app/services/sanity.py:23-25 | A mark that is neither built in nor a link definition leaves the accumulated string unchanged |
| Marks.ApplyMarksNesting | app/services/sanity.py:16-28 | The result is the opening tags in reverse mark order, the text, then the closing tags in mark order, so the elements nest |
| Marks.MarksHtmlEmpty | app/services/sanity.py:11-28 | A span renders to the empty string exactly when its text is empty and none of its marks wraps |
| Marks.StrongThenEm | app/services/sanity.py:16-20 | `["strong","em"]` on `hi` gives `<em><strong>hi</strong></em>` |
| Marks.LinkMark | app/services/sanity.py:23-27 | A link mark wraps in `<a href="H" target="_blank" rel="noopener noreferrer">` with `H` the escaped `href`, or `#` when absent |
| Lines.SplitLines | app/services/sanity.py:69 | No contract of its own; `Lines.SegmentsAreRuns`, `Lines.SegmentsSpec` and `Lines.TwoLines` state it, with the empty lines dropped |
| Lines.JoinBr | app/services/sanity.py:70 | No contract of its own; `Lines.SplitBrJoinBr` and `Lines.LinesHtmlRoundTrip` state it |
| Lines.LineLength | app/services/sanity.py:69 | The first line ends at the first line boundary, or at the end of the text |
| Lines.SegmentsAreRuns | app/services/sanity.py:69 | `splitlines()` with empty segments dropped is the list of maximal runs of non-boundary characters |
| Lines.SegmentsSpec | app/services/sanity.py:69 | Every kept line is non-empty and boundary-free, and together they are the text with its boundaries removed |
| Lines.TwoLines | app/services/sanity.py:69 | Two non-empty lines joined by `\n` split back into exactly those two lines |
| Lines.SplitBrJoinBr | app/services/sanity.py:70 | Splitting a `<br>` join of non-empty escaped pieces at `<br>` gives back the pieces |
| Lines.LinesHtmlRoundTrip | app/services/sanity.py:69-70 | Splitting the body HTML at `<br>` and decoding each piece gives back exactly the kept lines |
| Blocks.SpansHtml | app/services/sanity.py:34-35 | No contract of its own; `Blocks.SpansHtmlAppend` and `Blocks.SpansHtmlEmpty` state it |
| Blocks.SpansHtmlAppend | app/services/sanity.py:34-35 | Spans render in order with no separator: the HTML of two runs of spans is their HTML side by side |
| Blocks.SpansHtmlEmpty | app/services/sanity.py:34-35 | The spans render to nothing exactly when every span is blank (empty text and no wrapping mark) |
| Blocks.RenderBlockChildren | app/services/sanity.py:31-35 | The children's HTML is never empty |
| Blocks.ChildrenPlaceholder | app/services/sanity.py:33-35 | `&nbsp;` appears exactly when all spans are blank (including no spans at all). Otherwise the spans' HTML is used unchanged. |
| Blocks.StyleTag | app/services/sanity.py:48-55 | The tag is one of `p`, `h2`, `h3`, `h4`, `blockquote`: the style itself for the four mapped names and `p` otherwise (`normal` when absent) |
| Blocks.RenderBlock | app/services/sanity.py:38-56 | A list tag exactly for a truthy `listItem`: `ul` exactly for `bullet`, with fragment `<li>children</li>`. Otherwise no tag, and the children in the style's element. |
| Blocks.CiteHtml | app/services/sanity.py:61-62 | No contract of its own; `Readback.PullQuoteRoundTrip` states it (the attribution appears exactly when truthy) |
| Blocks.RenderPullQuote | app/services/sanity.py:59-63 | No contract of its own; `Readback.PullQuoteRoundTrip` states it |
| Blocks.CalloutTitleHtml | app/services/sanity.py:71 | No contract of its own; `Readback.CalloutRoundTrip` states it (the title appears exactly when truthy) |
| Blocks.RenderCallout | app/services/sanity.py:66-72 | No contract of its own; `Readback.CalloutRoundTrip`, `Readback.ToneNotEscaped` and `Blocks.CalloutExample` state it |
| Blocks.RenderRitualStep | app/services/sanity.py:75-79 | No contract of its own; `Readback.RitualStepRoundTrip` states it |
| Blocks.CalloutOfTwoLines | app/services/sanity.py:66-72 | A callout with a plain title, two plain lines and no tone has the default tone, the title paragraph and the lines joined by `<br>` |
| Blocks.CalloutExample | app/services/sanity.py:66-72 | Title `Note`, body `line1\nline2` and no tone give `<aside class="callout callout--default"><p class="callout__title">Note</p><p>line1<br>line2</p></aside>` |
| Readback.PullQuoteRoundTrip | app/services/sanity.py:59-63 | Parsing a pull quote's fragment gives back its text (empty when absent), and its attribution exactly when truthy |
| Readback.CalloutRoundTrip | app/services/sanity.py:66-72 | For a tone without `"`, parsing a callout's fragment gives back the tone (`default` when falsy), the title exactly when truthy, and exactly the non-empty body lines |
| Readback.ToneNotEscaped | app/services/sanity.py:68-72 | The tone is placed unescaped: a `"` in the tone appears as a raw `"` in the class attribute, and the tone cannot be read back |
| Readback.RitualStepRoundTrip | app/services/sanity.py:75-79 | Parsing a ritual step's fragment gives back its title (`Step` when absent) and exactly the non-empty description lines |
| Document.BlockOutput | app/services/sanity.py:89-119 | Exactly the blocks of an unhandled `_type` are skipped, and every other block yields a non-empty fragment. A list item arises exactly from a text block with a truthy `listItem`, and it goes in `ul` exactly for `bullet`. A text block carries `_render_block`'s fragment, and each special block is a standalone fragment holding its renderer's HTML. |
| Document.Feed | app/services/sanity.py:92-119 | No contract of its own; `Document.FoldItem`, `Document.FoldStandalone` and `Document.FoldSkipped` state each branch, and `Lists.RunFromGrouped` states the whole run |
| Document.RunFrom | app/services/sanity.py:89-122 | No contract of its own; `Document.FoldThenRun`, `Lists.RunFromGrouped`, `Lists.DocumentWellNested` and `Lists.DocumentNoReopen` state it |
| Document.PortableTextToHtml | app/services/sanity.py:82-124 | The loop over the blocks, with its `current_list` state, produces the HTML of the document's token list (empty for an absent or empty list) |
| Document.FoldThenRun | app/services/sanity.py:89-122 | Running the loop over a prefix and then over the rest from the state the prefix left gives the tokens of the whole run |
| Document.OutputsAppend | app/services/sanity.py:89-119 | Each block's output depends only on that block: the outputs of two block lists side by side are their outputs side by side |
| Lists.RunFromGrouped | app/services/sanity.py:89-122 | From no open list, the loop produces the reference grouping of the rendered outputs. With a list open, it finishes that list's run first. |
| Lists.DocumentGrouped | app/services/sanity.py:82-124 | The document's tokens are the reference grouping: standalone fragments in order, and each maximal run of same-kind list items in one container |
| Lists.DocumentWellNested | app/services/sanity.py:86-122 | Every list opened is closed with its own tag, lists never nest, every item sits inside an open list, and every fragment sits outside one |
| Lists.DocumentNoReopen | app/services/sanity.py:93-98 | A list is never closed only to reopen with the same tag, so adjacent same-kind items share one container |
| Lists.OutputsVisible | app/services/sanity.py:89-119 | A block is skipped exactly when its `_type` is unhandled, and no other block renders empty |
| Lists.UnknownTransparent | app/services/sanity.py:89-119 | Inserting a block of an unhandled `_type` anywhere changes nothing: it emits nothing and does not close an open list |
| Lists.EmptyOutputIff | app/services/sanity.py:82-124 | The document renders `''` exactly when the block list is absent or every block has an unhandled `_type` |
| Lists.BulletsAroundUnknown | app/services/sanity.py:89-124 | A bullet, a block of an unhandled `_type` and another bullet give `<ul><li>a</li><li>b</li></ul>`: the unknown block does not close the list |
| Lists.SwitchingLists | app/services/sanity.py:92-103 | Two bullet items, a numbered item and a paragraph: `ul` closes before `ol` opens, and `ol` closes before the paragraph |

## Left out

- `fetch_entries` and `fetch_entry_by_slug` (the rest of `app/services/sanity.py`) are left out. They are asynchronous HTTP calls to the CMS and reshape its JSON, which is network I/O. The renderer is modelled as receiving an already decoded block list.
- Absent fields are modelled; explicit `null` values are modelled only where the code treats `null` like absence: through `or`, truthiness, `block.get('children') or []`, and `style` (a `null` style also ends at `p`). A `null` span text, ritual-step title, pull-quote text, `href` or `markDefs` makes the Python code raise, and these payloads are not modelled.
- Field values of non-string types are not modelled. For example, a non-string `listItem` or `_type` is outside the model.
- A `markDefs` entry without `_key` is left out of the definitions map. The source files it under the key `None`, where no mark string can reach it, so it has no effect either way.
- `href` values get no URL-scheme allow-listing. The model does what the code does: it only escapes them.
- The callout tone is not escaped: line 68 places it in the class attribute as it is, while every other attribute value (the link `href`) is escaped. `Readback.ToneNotEscaped` shows that a `"` in the tone breaks out of the attribute, so `Readback.CalloutRoundTrip` requires a tone without `"`.
- `&nbsp;` replaces the children only when every span has empty text and no wrapping mark: `strong` on empty text still renders `<strong></strong>` (line 35). `Blocks.ChildrenPlaceholder` states this.
- Lists.DocumentWellNested: the balance and nesting facts are stated over the token list whose HTML the loop joins, not over the characters of the final string.
- Document.PortableTextToHtml: the loop dispatches on the block's rendered output (skipped, standalone fragment, or list item). The source uses four `_type` branches; the three special-block branches do exactly what the standalone text-block branch does.
