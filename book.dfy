/**
 * The preprocessor's view of an mdbook book (preproc/src/main.rs, `SiteProc`).
 * A chapter's Markdown content is modelled by its parser event sequence; the
 * rewritten content is the event sequence the transducer emits.
 */
module Book {
  import opened Wrappers
  import opened Events
  import opened Preproc

  datatype BookItem =
    | Chapter(name: string, content: seq<Event>, subItems: seq<BookItem>)
    | Separator
    | PartTitle(title: string)

  /** Rewrite one book item: a chapter's content is replaced by what a fresh
      transducer emits for its events; other items are left alone. `None`
      means the preprocessor panicked part-way through the chapter. */
  method VisitBookItem(item: BookItem, katex: Renderer) returns (r: Option<BookItem>)
    ensures !item.Chapter? ==> r == Some(item)
    ensures item.Chapter? ==>
      match Run(Initial, item.content, katex)
      case Panic => r == None
      case Done(_, out) => r == Some(item.(content := out))
  {
    if !item.Chapter? {
      return Some(item);
    }
    var transducer := new Transducer();
    var events := item.content;
    for i := 0 to |events|
      invariant Run(Initial, events[..i], katex) == Done(transducer.Current(), transducer.content)
    {
      var panicked := transducer.Push(events[i], katex);
      RunPrefix(events, i, katex);
      if panicked {
        PanicEndsRun(events, i + 1, katex);
        return None;
      }
    }
    assert events[..|events|] == events;
    r := Some(item.(content := transducer.content));
  }

  /** Feeding one more event of `es`. */
  lemma RunPrefix(es: seq<Event>, i: nat, katex: Renderer)
    requires i < |es|
    ensures Run(Initial, es[..i + 1], katex) == Then(Run(Initial, es[..i], katex), es[i], katex)
  {
    assert es[..i + 1] == es[..i] + [es[i]];
    RunSnoc(Initial, es[..i], es[i], katex);
  }

  /** A panic on a prefix of `es` is the outcome of the whole of `es`. */
  lemma PanicEndsRun(es: seq<Event>, i: nat, katex: Renderer)
    requires i <= |es| && Run(Initial, es[..i], katex) == Panic
    ensures Run(Initial, es, katex) == Panic
  {
    PanicIsFinal(es[..i], es[i..], katex);
    assert es[..i] + es[i..] == es;
  }

  /** Once a push panics, no later event can undo it. */
  lemma PanicIsFinal(a: seq<Event>, b: seq<Event>, katex: Renderer)
    requires Run(Initial, a, katex) == Panic
    ensures Run(Initial, a + b, katex) == Panic
  {
    RunAppend(Initial, a, b, katex);
  }

  /** The preprocessor only runs for the HTML renderer. */
  function SupportsRenderer(renderer: string): bool {
    renderer == "html"
  }

  /** The comparison is exact: no other renderer name, differing only in case
      or by surrounding text, is accepted. */
  lemma OnlyHtmlSupported(renderer: string)
    ensures SupportsRenderer(renderer) <==> renderer == "html"
  {
  }
}
