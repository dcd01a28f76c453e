/**
 * The mdbook preprocessor's Markdown-to-Markdown transducer
 * (preproc/src/main.rs). A three-state machine that consumes parser
 * events one at a time and appends rewritten events to its output:
 *   - an autolink to `fa:NAME` becomes an icon `<i>` and the rest of the
 *     link is swallowed;
 *   - inline code `$...$` becomes inline math;
 *   - a fenced block with language `math` is gathered and rendered once,
 *     in display mode, when the block ends;
 *   - everything else passes through unchanged.
 */
module Preproc {
  import opened Wrappers
  import opened Events

  datatype State = Default | Math | SkipToEnd

  /** The part of the transducer that decides its future: the machine state
      and the math buffer. */
  datatype Config = Config(state: State, math: string)

  const Initial := Config(Default, "")

  /** The math buffer only holds text while a math block is open. */
  predicate Inv(c: Config) {
    c.state != Math ==> c.math == ""
  }

  const FaPrefix := "fa:"

  /** The icon markup that replaces an autolink to `fa:NAME`. */
  function IconHtml(name: string): string {
    "<i class=\"fa fa-" + name + "\" aria-hidden=\"true\"></i>"
  }

  predicate IsFaAutolink(e: Event) {
    e.Start? && e.tag.Link? && e.tag.linkType == Autolink && FaPrefix <= e.tag.dest
  }

  /** Inline code that starts and ends with `$`; a lone `$` qualifies too. */
  predicate IsDollarCode(e: Event) {
    e.Code? && |e.code| > 0 && e.code[0] == '$' && e.code[|e.code| - 1] == '$'
  }

  predicate IsMathFence(e: Event) {
    e == Start(CodeBlock(Fenced("math")))
  }

  /** An event that `Default` does not rewrite and that does not leave `Default`. */
  predicate Inert(e: Event) {
    !IsFaAutolink(e) && !IsDollarCode(e) && !IsMathFence(e)
  }

  /** The outcome of one push: a new configuration and at most one emitted
      event, or a panic (slicing a one-character code span `$`). */
  datatype StepResult = Stepped(next: Config, emitted: Option<Event>) | Panicked

  /** One push of `e` in configuration `c`. */
  function Step(c: Config, e: Event, katex: Renderer): (r: StepResult)
    ensures r.Panicked? <==> c.state == Default && e == Code("$")
    ensures r.Stepped? && Inv(c) ==> Inv(r.next)
    ensures r.Stepped? && r.next.state == Math ==> c.state == Math || IsMathFence(e)
  {
    match c.state
    case Default =>
      if IsFaAutolink(e) then
        Stepped(Config(SkipToEnd, c.math), Some(Html(IconHtml(e.tag.dest[|FaPrefix|..]))))
      else if IsDollarCode(e) then
        if |e.code| < 2 then Panicked
        else Stepped(c, Some(Html(katex(e.code[1..|e.code| - 1], false))))
      else if IsMathFence(e) then
        Stepped(Config(Math, c.math), None)
      else
        Stepped(c, Some(e))
    case Math =>
      if e.Text? then Stepped(Config(Math, c.math + e.text), None)
      else if e.End? then Stepped(Config(Default, ""), Some(Html(katex(c.math, true))))
      else Stepped(c, None)
    case SkipToEnd =>
      Stepped(Config(if e.End? then Default else SkipToEnd, c.math), None)
  }

  /** The result of feeding a whole event sequence. */
  datatype RunResult = Done(config: Config, out: seq<Event>) | Panic

  /** Feeding `es` in order, starting from `c`: the configuration reached and
      everything emitted, or `Panic` if some push panicked. */
  function Run(c: Config, es: seq<Event>, katex: Renderer): (r: RunResult)
    ensures r.Done? ==> |r.out| <= |es|
    ensures r.Done? && Inv(c) ==> Inv(r.config)
    decreases |es|
  {
    if es == [] then Done(c, [])
    else
      match Run(c, es[..|es| - 1], katex)
      case Panic => Panic
      case Done(mid, out) =>
        match Step(mid, es[|es| - 1], katex)
        case Panicked => Panic
        case Stepped(next, em) => Done(next, out + Emitted(em))
  }

  /** Feeding one more event after a prefix. */
  function Then(r: RunResult, e: Event, katex: Renderer): RunResult {
    match r
    case Panic => Panic
    case Done(c, out) =>
      match Step(c, e, katex)
      case Panicked => Panic
      case Stepped(next, em) => Done(next, out + Emitted(em))
  }

  /** Feeding a second sequence after the first. */
  function Chain(r: RunResult, es: seq<Event>, katex: Renderer): RunResult {
    match r
    case Panic => Panic
    case Done(c, out) =>
      match Run(c, es, katex)
      case Panic => Panic
      case Done(c', out') => Done(c', out + out')
  }

  /** The text a math block gathers: the `Text` events' contents, in order. */
  function MathText(es: seq<Event>): string
    decreases |es|
  {
    if es == [] then ""
    else MathText(es[..|es| - 1]) + (if es[|es| - 1].Text? then es[|es| - 1].text else "")
  }

  predicate NoEnd(es: seq<Event>) {
    forall i :: 0 <= i < |es| ==> !es[i].End?
  }

  /** The transducer's transition table, `Default` row: what one push does,
      case by case, in the form the multi-step lemmas below use. */
  lemma DefaultStep(c: Config, e: Event, katex: Renderer)
    requires c.state == Default
    ensures IsFaAutolink(e) ==>
      Step(c, e, katex) == Stepped(Config(SkipToEnd, c.math), Some(Html(IconHtml(e.tag.dest[3..]))))
    ensures e.Start? && e.tag.Link? && !IsFaAutolink(e) ==> Step(c, e, katex) == Stepped(c, Some(e))
    ensures forall x :: e == Code("$" + x + "$") ==>
      Step(c, e, katex) == Stepped(c, Some(Html(katex(x, false))))
    ensures e == Start(CodeBlock(Fenced("math"))) ==> Step(c, e, katex) == Stepped(Config(Math, c.math), None)
    ensures forall lang :: lang != "math" && e == Start(CodeBlock(Fenced(lang))) ==>
      Step(c, e, katex) == Stepped(c, Some(e))
    ensures Inert(e) ==> Step(c, e, katex) == Stepped(c, Some(e))
  {
    if e.Code? && |e.code| >= 2 && e.code[0] == '$' && e.code[|e.code| - 1] == '$' {
      var x := e.code[1..|e.code| - 1];
      assert e.code == "$" + x + "$";
      forall y | e == Code("$" + y + "$") ensures y == x {
        assert y == ("$" + y + "$")[1..|y| + 1];
      }
    }
  }

  /** The transition table, `Math` row. */
  lemma MathStep(c: Config, e: Event, katex: Renderer)
    requires c.state == Math
    ensures e.Text? ==> Step(c, e, katex) == Stepped(Config(Math, c.math + e.text), None)
    ensures e.End? ==> Step(c, e, katex) == Stepped(Config(Default, ""), Some(Html(katex(c.math, true))))
    ensures !e.Text? && !e.End? ==> Step(c, e, katex) == Stepped(c, None)
  {
  }

  /** The transition table, `SkipToEnd` row: while skipping the rest of an
      icon link nothing is emitted, not even the `End`, which alone returns
      to `Default`. */
  lemma SkipToEndStep(c: Config, e: Event, katex: Renderer)
    requires c.state == SkipToEnd
    ensures Step(c, e, katex) == Stepped(Config(if e.End? then Default else SkipToEnd, c.math), None)
  {
  }

  /** Feeding `es` then `e` is feeding `es + [e]`. */
  lemma RunSnoc(c: Config, es: seq<Event>, e: Event, katex: Renderer)
    ensures Run(c, es + [e], katex) == Then(Run(c, es, katex), e, katex)
  {
    assert (es + [e])[..|es|] == es;
  }

  /** Feeding a concatenation is feeding its parts one after the other. */
  lemma {:induction false} RunAppend(c: Config, a: seq<Event>, b: seq<Event>, katex: Renderer)
    ensures Run(c, a + b, katex) == Chain(Run(c, a, katex), b, katex)
    decreases |b|
  {
    if b == [] {
      assert a + b == a;
      match Run(c, a, katex)
      case Panic =>
      case Done(mid, out) => assert out + [] == out;
    } else {
      var b', e := b[..|b| - 1], b[|b| - 1];
      assert a + b == (a + b') + [e];
      assert b == b' + [e];
      RunSnoc(c, a + b', e, katex);
      RunAppend(c, a, b', katex);
      match Run(c, a, katex)
      case Panic =>
      case Done(mid, out) =>
        RunSnoc(mid, b', e, katex);
        match Run(mid, b', katex)
        case Panic =>
        case Done(c2, out2) =>
          match Step(c2, e, katex)
          case Panicked =>
          case Stepped(c3, em) =>
            ConcatAssoc(out, out2, Emitted(em));
    }
  }

  /** Outside the three rewrites, `Default` is the identity on the event stream. */
  lemma {:induction false} PassThrough(m: string, es: seq<Event>, katex: Renderer)
    requires forall i :: 0 <= i < |es| ==> Inert(es[i])
    ensures Run(Config(Default, m), es, katex) == Done(Config(Default, m), es)
    decreases |es|
  {
    if es != [] {
      var es', e := es[..|es| - 1], es[|es| - 1];
      PassThrough(m, es', katex);
      DefaultStep(Config(Default, m), e, katex);
      assert es' + [e] == es;
    }
  }

  /** The rest of an icon link, up to its `End`, emits nothing. */
  lemma {:induction false} SkipBody(m: string, body: seq<Event>, katex: Renderer)
    requires NoEnd(body)
    ensures Run(Config(SkipToEnd, m), body, katex) == Done(Config(SkipToEnd, m), [])
    decreases |body|
  {
    if body != [] {
      SkipBody(m, body[..|body| - 1], katex);
    }
  }

  /** Inside a math block the text is gathered in order and nothing is emitted. */
  lemma {:induction false} MathBody(m: string, body: seq<Event>, katex: Renderer)
    requires NoEnd(body)
    ensures Run(Config(Math, m), body, katex) == Done(Config(Math, m + MathText(body)), [])
    decreases |body|
  {
    if body == [] {
      assert m + "" == m;
    } else {
      var body', e := body[..|body| - 1], body[|body| - 1];
      assert NoEnd(body') by {
        assert forall i :: 0 <= i < |body'| ==> body'[i] == body[i];
      }
      MathBody(m, body', katex);
      MathTextStep(m, body', e, katex);
    }
  }

  /** One more non-`End` event inside a math block. */
  lemma MathTextStep(m: string, body': seq<Event>, e: Event, katex: Renderer)
    requires !e.End?
    requires Run(Config(Math, m), body', katex) == Done(Config(Math, m + MathText(body')), [])
    ensures Run(Config(Math, m), body' + [e], katex) == Done(Config(Math, m + MathText(body' + [e])), [])
  {
    var body := body' + [e];
    var text := if e.Text? then e.text else "";
    var mid := Config(Math, m + MathText(body'));
    assert body[..|body| - 1] == body' && body[|body| - 1] == e;
    assert MathText(body) == MathText(body') + text;
    ConcatAssoc(m, MathText(body'), text);
    MathStep(mid, e, katex);
    assert Step(mid, e, katex) == Stepped(Config(Math, m + MathText(body)), None);
    RunSnoc(Config(Math, m), body', e, katex);
  }

  /** A whole `<fa:NAME>` autolink becomes exactly one icon. */
  lemma FaAutolink(m: string, name: string, title: string, body: seq<Event>, close: Event, katex: Renderer)
    requires NoEnd(body) && close.End?
    ensures Run(Config(Default, m), [Start(Link(Autolink, FaPrefix + name, title))] + body + [close], katex)
         == Done(Config(Default, m), [Html(IconHtml(name))])
  {
    var open := Start(Link(Autolink, FaPrefix + name, title));
    assert (FaPrefix + name)[3..] == name;
    assert Run(Config(Default, m), [open], katex) == Done(Config(SkipToEnd, m), [Html(IconHtml(name))]) by {
      assert [open][..0] == [];
    }
    RunAppend(Config(Default, m), [open], body, katex);
    SkipBody(m, body, katex);
    RunSnoc(Config(Default, m), [open] + body, close, katex);
  }

  /** A whole math block becomes exactly one display-mode rendering of its text. */
  lemma MathBlock(body: seq<Event>, close: Event, katex: Renderer)
    requires NoEnd(body) && close.End?
    ensures Run(Initial, [Start(CodeBlock(Fenced("math")))] + body + [close], katex)
         == Done(Initial, [Html(katex(MathText(body), true))])
  {
    var open := Start(CodeBlock(Fenced("math")));
    MathOpened(body, katex);
    RunSnoc(Initial, [open] + body, close, katex);
    MathStep(Config(Math, MathText(body)), close, katex);
  }

  /** The fence and the body of a math block emit nothing and leave the
      whole text in the buffer. */
  lemma MathOpened(body: seq<Event>, katex: Renderer)
    requires NoEnd(body)
    ensures Run(Initial, [Start(CodeBlock(Fenced("math")))] + body, katex) == Done(Config(Math, MathText(body)), [])
  {
    var open := Start(CodeBlock(Fenced("math")));
    assert Run(Initial, [open], katex) == Done(Config(Math, ""), []) by {
      assert [open][..0] == [];
    }
    RunAppend(Initial, [open], body, katex);
    MathBody("", body, katex);
    assert "" + MathText(body) == MathText(body);
  }

  /** The transducer object: its output so far, its state and its math
      buffer. The serialiser's own state is not modelled; emitting an event
      appends it to `content`. */
  class Transducer {
    var content: seq<Event>
    var state: State
    var math: string

    /** A new transducer has no output, is in `Default` and has no math. */
    constructor ()
      ensures content == [] && state == Default && math == ""
    {
      content := [];
      state := Default;
      math := "";
    }

    function Current(): Config
      reads this
    {
      Config(state, math)
    }

    /** Feed one event; `panicked` reports the slice panic, in which case the
        object is left as it was. */
    method Push(event: Event, katex: Renderer) returns (panicked: bool)
      modifies this
      ensures panicked <==> Step(old(Current()), event, katex).Panicked?
      ensures panicked ==> content == old(content) && Current() == old(Current())
      ensures !panicked ==>
        var r := Step(old(Current()), event, katex);
        Current() == r.next && content == old(content) + Emitted(r.emitted)
    {
      panicked := false;
      var ev := event;
      match state {
        case Default =>
          if event.Start? && event.tag.Link? && event.tag.linkType == Autolink {
            if FaPrefix <= event.tag.dest {
              ev := Html(IconHtml(event.tag.dest[|FaPrefix|..]));
              state := SkipToEnd;
            }
          } else if event.Code? {
            var code := event.code;
            if |code| > 0 && code[0] == '$' && code[|code| - 1] == '$' {
              if |code| < 2 {
                // `&code[1..0]`: the slice panics
                panicked := true;
                return;
              }
              ev := Html(katex(code[1..|code| - 1], false));
            }
          } else if event.Start? && event.tag.CodeBlock? && event.tag.kind.Fenced? {
            if event.tag.kind.lang == "math" {
              state := Math;
              return;
            }
          }
        case Math =>
          if event.Text? {
            math := math + event.text;
            return;
          } else if event.End? {
            ev := Html(katex(math, true));
            state := Default;
            math := "";
          } else {
            return;
          }
        case SkipToEnd =>
          if event.End? {
            state := Default;
          }
          return;
      }
      content := content + [ev];
    }
  }
}
