# Math, icons and chrome rewrites of the tavianator.com site build

This project models the two pieces of the site build that rewrite content, and proves properties of that model.

**The mdbook preprocessor** (`preproc/src/main.rs`) runs over every chapter. It feeds the chapter's Markdown parser events to a three-state transducer (`Default`, `Math`, `SkipToEnd`), which emits a rewritten event stream:
- an autolink to `fa:NAME` becomes the icon markup `<i class="fa fa-NAME" aria-hidden="true"></i>`, and the rest of the link is swallowed;
- inline code `$...$` becomes inline KaTeX output;
- a fenced code block with language `math` has its text gathered, then rendered once in display mode when the block ends;
- every other event passes through unchanged.

**The page post-processor** (`postproc.mjs`) runs over every generated HTML page:
- it takes a snapshot of all `code` elements;
- for each element in the snapshot:
  - with class `language-math`, its parent `pre` is replaced by a `p` holding display-mode math;
  - otherwise, with `/^\$.*\$$/` text, the element itself is replaced by a `span` holding inline math;
- it removes the first `.nav-chapters.next` and the first `.nav-chapters.previous`;
- it sets the placeholder of `input#searchbar`;
- it writes the page back.

Dafny modules:
- `Wrappers`: the `Option` and `Result` types.
- `Events`: the parser events the transducer sees.
- `Preproc`:
  - the step function `Step` and the fold `Run`, which specify the transducer;
  - the `Transducer` class, whose `Push` method is proved against `Step`.
- `Book`:
  - `VisitBookItem`, a loop of `Push` calls proved against `Run`;
  - the renderer test.
- `Dom`:
  - a document tree whose nodes are addressed by child-index paths;
  - `replaceChild` and `remove` on that tree;
  - document order and `querySelector`.
- `PostProc`:
  - the snapshot and the classification;
  - the snapshot walk, specified by `Walked`, with the invariant it keeps;
  - the `Page` class, whose methods are proved against those functions;
  - the loop over the site's files.

The math renderers are parameters.
- `Events.Renderer` stands for the `katex` command-line process. It maps LaTeX and a display flag to the trimmed HTML.
- `PostProc.PageRenderer` stands for `katex.renderToString` followed by the `innerHTML` parse. It maps LaTeX and a display flag to the nodes that end up inside the new `p` or `span`.

Some modelling choices:
- **Panic on a lone `$`.** A code span of the single character `$` starts and ends with `$`. The source then slices `code[1..0]`, which panics. The model keeps this as an outcome rather than excluding it:
  - `Step` returns `Panicked`;
  - `Push` reports it;
  - `VisitBookItem` returns `None`.
- **TypeError in the page loop.** A rewrite whose `parentNode` is `null` throws a TypeError, which ends the whole run. `RenderMath` and `ProcessSite` report this as a `Fault`. It happens in two cases:
  - a `pre` that an earlier rewrite already took out of its parent;
  - a `language-math` code element that is a direct child of the document node, whose `pre` is then the document itself. An inline `$...$` code element in that place has the document as its parent, and its replacement succeeds.
- **No fault on inline math.** An inline rewrite never throws (`InlineNeverFaults`). `CodeStep` still has a fault guard on that branch, so both kinds of math read the same.

## Model

| member | source | states |
|---|---|---|
| Preproc.Transducer.constructor | preproc/src/main.rs:57-64 | a new transducer has no output, is in `Default` and has an empty math buffer |
| Preproc.Transducer.Push | preproc/src/main.rs:66-124 | one push does exactly what `Step` says to the state and the math buffer, and appends at most the one emitted event to `content`; on the slice panic nothing changes |
| Preproc.Step | preproc/src/main.rs:66-124 | a push panics exactly when a lone `$` code span arrives in `Default`; the invariant "buffer empty outside `Math`" is kept; `Math` is entered only from `Math` or by a `math` fence |
| Preproc.DefaultStep | preproc/src/main.rs:68-92 | the transition table's `Default` row; in `Default`: an `fa:` autolink emits the icon for the destination minus `fa:` and moves to `SkipToEnd`; other links pass through; `$x$` emits `katex(x, false)` and keeps the state; a `math` fence emits nothing and moves to `Math`; other fences and every other event pass through |
| Preproc.MathStep | preproc/src/main.rs:94-110 | in `Math`: text is appended to the buffer and nothing is emitted; `End` emits one display rendering of the buffer, clears it and returns to `Default`; anything else is dropped |
| Preproc.SkipToEndStep | preproc/src/main.rs:112-120 | in `SkipToEnd` nothing is emitted, not even the `End`; only an `End` returns to `Default` |
| Preproc.Run | preproc/src/main.rs:141-143 | feeding a sequence emits at most one event per input event and keeps the buffer invariant |
| Preproc.RunAppend | preproc/src/main.rs:141-143 | feeding `a + b` is feeding `a`, then `b` from where `a` left off, with the outputs concatenated; a panic in `a` is final |
| Preproc.PassThrough | preproc/src/main.rs:68-123 | a sequence with no `fa:` autolink, no `$` code span and no `math` fence is emitted unchanged and leaves the state in `Default` |
| Preproc.SkipBody | preproc/src/main.rs:112-119 | in `SkipToEnd`, events without an `End` emit nothing and leave the state alone |
| Preproc.MathBody | preproc/src/main.rs:94-108 | in `Math`, events without an `End` emit nothing and append their texts to the buffer, in order |
| Preproc.FaAutolink | preproc/src/main.rs:70-119 | a whole `fa:NAME` autolink, from its start to its `End`, becomes exactly one icon event, whatever it contains, and the state returns to `Default` |
| Preproc.MathBlock | preproc/src/main.rs:84-105 | a whole `math` block becomes exactly one display-mode rendering of all its text, and the transducer is back in its initial configuration |
| Book.VisitBookItem | preproc/src/main.rs:136-147 | a chapter gets as content what a fresh transducer emits for its events in order, with the name and sub-items untouched; a panic yields `None`; other items are returned unchanged |
| Book.PanicIsFinal | preproc/src/main.rs:141-143 | once a push has panicked, no later event changes the outcome |
| Book.OnlyHtmlSupported | preproc/src/main.rs:161-163 | exactly the renderer named `html` is supported |
| Dom.Descendants | postproc.mjs:13 | every listed path leads to a node below the document root |
| Dom.DescendantsComplete | postproc.mjs:13 | every node below the root is listed |
| Dom.DescendantsAncestorsFirst | postproc.mjs:13 | document order lists every node before all of its descendants |
| Dom.DescendantsInTreeOrder | postproc.mjs:13 | document order is tree order: of two listed nodes, the earlier is an ancestor of the later, or leaves their common ancestor through an earlier child; so each node is listed once |
| Dom.FirstMatch | postproc.mjs:27-37 | the result is the first position, from the start index on, whose node matches the selector; no earlier position matches; `None` means none matches |
| Dom.QuerySelector | postproc.mjs:27-37 | the result is a matching node below the root that no node before it in document order matches; `None` means no node matches |
| Dom.ReplaceAtHere | postproc.mjs:19-23 | after `replaceChild`, the old node's position holds the new node |
| Dom.ReplaceAtFrame | postproc.mjs:19-23 | `replaceChild` keeps every path that is not inside the replaced node, and a node neither above nor inside it is unchanged |
| Dom.ReplaceAtSpine | postproc.mjs:19-23 | `replaceChild` keeps every node above the replaced one: same tag, id, classes and attributes, same number of children |
| Dom.RemoveAtParent | postproc.mjs:29-34 | `remove` takes exactly the one node out of its parent's child list, keeping the other children in order |
| Dom.RemoveAtFrame | postproc.mjs:29-34 | `remove` leaves every node neither above nor inside the parent unchanged |
| Dom.RemoveAtSpine | postproc.mjs:29-34 | `remove` keeps the parent and every node above it: same tag, id, classes and attributes; only the parent has one child fewer |
| PostProc.InlineMathIsPattern | postproc.mjs:20 | the inline test holds exactly for `$`, any text without a JavaScript line terminator, `$` |
| PostProc.InlineSource | postproc.mjs:22 | `slice(1, -1)` gives the text between the two dollars, and that text has no line terminator |
| PostProc.Classify | postproc.mjs:15-20 | the `language-math` class means display math whatever the text; inline math needs the class absent and the inline test passed; otherwise the element is left alone |
| PostProc.CodeSnapshot | postproc.mjs:13 | each entry is a `code` element of the page, with the path, classes and text it has before the loop |
| PostProc.CodesAmongAncestorsFirst | postproc.mjs:13 | the snapshot keeps document order: no `code` element comes after a `code` element nested inside it |
| PostProc.SnapshotComplete | postproc.mjs:13 | every `code` element of the page is in the snapshot |
| PostProc.SnapshotInTreeOrder | postproc.mjs:13 | the snapshot lists `code` elements in tree order, so each is visited exactly once |
| PostProc.LiveCodeIsSnapshot | postproc.mjs:13-23 | at its turn, a `code` element still in the document is the very node the snapshot recorded, so its live classes and text are the snapshot's |
| PostProc.WalkedKeepsInv | postproc.mjs:14-25 | during the loop, every node neither above nor inside a replaced node is still at its original place and unchanged; the detached set is exactly the rewrite targets so far |
| PostProc.DisplayTurn | postproc.mjs:15-19 | a `language-math` element whose `pre` is still in place has that `pre` replaced, at the same position, by a `p` holding the display rendering of its text |
| PostProc.NotEarlierTarget | postproc.mjs:13-23 | in a list of `code` elements that names each once and ancestors first, no earlier turn replaces the element of a later turn |
| PostProc.InlineNeverFaults | postproc.mjs:20-23 | an inline turn never throws: the element always has a parent, and no earlier turn has taken that element itself out |
| PostProc.InlineTurn | postproc.mjs:20-23 | a `$...$` element without the class, still in place, is replaced at its own position by a `span` holding the inline rendering of the text without its dollars |
| PostProc.PlainWalk | postproc.mjs:14-25 | turns on elements that pass neither test change nothing |
| PostProc.NoMathNoChange | postproc.mjs:13-25 | a page with no math `code` element is left exactly as it was |
| PostProc.MathRenderedFrame | postproc.mjs:13-25 | after the loop, every node neither above nor inside a rewrite target is unchanged, including `code` elements that pass neither test |
| PostProc.FaultIsFinal | postproc.mjs:19-23 | once a turn throws, later turns cannot change the outcome |
| PostProc.Page.constructor | postproc.mjs:10-11 | a page starts with the parsed document |
| PostProc.Page.RenderMath | postproc.mjs:13-25 | the in-place loop over the snapshot leaves the document that `MathRendered` specifies, or reports the fault the walk first hits |
| PostProc.RemovesFirstOnly | postproc.mjs:27-35 | removing by selector takes the first match out of its parent, whose other children stay in order; the parent and every node above it keep their own fields, and only the parent loses a child; every node neither above nor inside the parent is unchanged; without a match the page is unchanged |
| PostProc.Page.RemoveFirst | postproc.mjs:27-35 | the document afterwards is the old one without the first node the selector picks |
| PostProc.PlaceholderOnly | postproc.mjs:37-40 | the `input#searchbar` gets exactly the placeholder `Search this site ...` and keeps everything else, children included; every node above it keeps its own fields and number of children; every node neither above nor inside it is unchanged; without one the page is unchanged |
| PostProc.Page.SetSearchPlaceholder | postproc.mjs:37-40 | the document afterwards is the old one with the search bar's placeholder set |
| PostProc.RewritePage | postproc.mjs:13-40 | the page ends as specified: math rendered, then next removed, then previous removed, then the placeholder set; a fault comes out of the math loop with the in-memory rewrites cut short |
| PostProc.ProcessSite | postproc.mjs:8-43 | the written files are a prefix of the site, in order, each written once with its fully rewritten document; without a fault every file is written; a fault stops the run at exactly the first page whose rewrite faults |

## Left out

- The `katex` subprocess (preproc/src/main.rs:17-37) is the parameter `Events.Renderer`. Process spawning, piping, output trimming and their `expect` failures are process I/O.
- `katex.renderToString` and the `innerHTML` parse (postproc.mjs:17, 22) are the parameter `PostProc.PageRenderer`. A render that throws is not modelled.
- Markdown parsing (`new_cmark_parser`, preproc/src/main.rs:141) and Markdown serialisation (`cmark` with its resumable `cstate`, line 123) are foreign libraries.
  - A chapter's content is its event sequence.
  - Serialising an event is modelled as appending it to `content`.
- Within `Book`, `SiteProc::run` and `name` (preproc/src/main.rs:151-159) are left out. `run` applies `visit_book_item` to every item through mdbook's `for_each_mut`, and mdbook is not part of this model.
- `main`, `handle_preprocessing` and `handle_supports` (preproc/src/main.rs:166-213) are left out: command-line parsing, JSON on standard input and output, and the exit code.
- `glob`, `JSDOM.fromFile`, `dom.serialize` and `fs.promises.writeFile` are file I/O, and the `async` callback is plumbing.
  - `ProcessSite` receives the parsed pages.
  - A written file is modelled as its document.
- `katex.js` and `src/tavianator.js` run in the browser with the same classification rule. They are not part of this model.
- The `class` attribute is modelled as its token list. `classList.contains` is membership in that list.
- A selector is modelled only in the two forms the post-processor uses: a list of classes, and tag plus id.
- Strings are sequences of code points. JavaScript's UTF-16 code units, and Rust's byte offsets, coincide with them for the `$` tests and the one-character slices modelled here.
- `PostProc.LiveCodeIsSnapshot` covers only `code` elements still attached to the document. Elements inside a subtree an earlier turn took out also keep their classes and text, because later turns only change that subtree above them. The model assumes this for them rather than proving it.
- The model does not track the detached subtrees' own contents. A replacement inside an already detached subtree changes nothing visible, so the model only records that the node left its parent.
- `Book.OnlyHtmlSupported` restates the source's single string comparison; `supports_renderer` has nothing beyond it to promise.
