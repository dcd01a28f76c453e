/**
 * The page post-processor (postproc.mjs): for every generated HTML page,
 * typeset the math left in `<code>` elements, drop the next/previous
 * navigation and relabel the search bar, then write the page back.
 */
module PostProc {
  import opened Wrappers
  import opened Dom

  /** The external math renderer followed by `innerHTML`: LaTeX source and
      display mode to the nodes parsed out of the rendered markup. */
  type PageRenderer = (string, bool) -> seq<Node>

  const MathClass := "language-math"

  /** The characters JavaScript's `.` refuses to match. */
  predicate IsLineTerminator(c: char) {
    c == '\n' || c == '\r' || c == '\U{2028}' || c == '\U{2029}'
  }

  predicate NoLineTerminator(s: string) {
    forall i :: 0 <= i < |s| ==> !IsLineTerminator(s[i])
  }

  /** The test `/^\$.*\$$/`: at least two characters, a `$` at each end and
      no line terminator in between. */
  predicate IsInlineMath(text: string) {
    |text| >= 2 && text[0] == '$' && text[|text| - 1] == '$' &&
    forall i :: 1 <= i < |text| - 1 ==> !IsLineTerminator(text[i])
  }

  /** The inline test is exactly the regular expression's language:
      a `$`, any line of text, a `$`. */
  lemma InlineMathIsPattern(text: string)
    ensures IsInlineMath(text) <==> exists m :: text == "$" + m + "$" && NoLineTerminator(m)
  {
    if IsInlineMath(text) {
      var m := text[1..|text| - 1];
      assert text == "$" + m + "$";
      assert forall i :: 0 <= i < |m| ==> m[i] == text[i + 1];
    }
    if exists m :: text == "$" + m + "$" && NoLineTerminator(m) {
      var m :| text == "$" + m + "$" && NoLineTerminator(m);
      assert forall i :: 1 <= i < |text| - 1 ==> text[i] == m[i - 1];
    }
  }

  /** The inner text an inline rendering receives (`slice(1, -1)`). */
  function InlineSource(text: string): (inner: string)
    requires IsInlineMath(text)
    ensures "$" + inner + "$" == text && NoLineTerminator(inner)
  {
    var inner := text[1..|text| - 1];
    assert forall i :: 0 <= i < |inner| ==> inner[i] == text[i + 1];
    inner
  }

  datatype Kind = Display | Inline | Plain

  /** How a `<code>` element is treated; the class test comes first. */
  function Classify(classes: seq<string>, text: string): (k: Kind)
    ensures k == Display <==> MathClass in classes
    ensures k == Inline <==> MathClass !in classes && IsInlineMath(text)
  {
    if MathClass in classes then Display
    else if IsInlineMath(text) then Inline
    else Plain
  }

  /** What the loop remembers of one `<code>` element of the snapshot: where
      it was, its classes and its text. */
  datatype CodeRef = CodeRef(path: Path, classes: seq<string>, text: string)

  predicate IsCode(n: Node) {
    n.Element? && n.tag == "code"
  }

  /** What the snapshot records of the node at `p`. */
  function RefAt(doc: Node, p: Path): CodeRef
    requires ValidPath(doc, p)
  {
    var n := At(doc, p);
    CodeRef(p, if n.Element? then n.classes else [], TextContent(n))
  }

  /** The `code` elements among `ps`, in the same order. */
  function CodesAmong(doc: Node, ps: seq<Path>): (cs: seq<CodeRef>)
    requires forall k :: 0 <= k < |ps| ==> ValidPath(doc, ps[k]) && ps[k] != []
    ensures |cs| <= |ps|
    ensures forall k :: 0 <= k < |cs| ==>
      cs[k].path != [] && ValidPath(doc, cs[k].path) && IsCode(At(doc, cs[k].path)) && cs[k] == RefAt(doc, cs[k].path)
    ensures forall k :: 0 <= k < |ps| && IsCode(At(doc, ps[k])) ==> RefAt(doc, ps[k]) in cs
  {
    if ps == [] then []
    else
      var rest := CodesAmong(doc, ps[1..]);
      assert forall k :: 1 <= k < |ps| ==> ps[k] == ps[1..][k - 1];
      if IsCode(At(doc, ps[0])) then [RefAt(doc, ps[0])] + rest else rest
  }

  /** `[...document.getElementsByTagName("code")]`: a snapshot of every
      `code` element, in document order, taken before anything changes. */
  function CodeSnapshot(doc: Node): (cs: seq<CodeRef>)
    ensures forall k :: 0 <= k < |cs| ==>
      cs[k].path != [] && ValidPath(doc, cs[k].path) && IsCode(At(doc, cs[k].path)) && cs[k] == RefAt(doc, cs[k].path)
    ensures forall p :: p in Descendants(doc) && IsCode(At(doc, p)) ==> RefAt(doc, p) in cs
  {
    CodesAmong(doc, Descendants(doc))
  }

  /** The snapshot misses no `code` element of the page. */
  lemma SnapshotComplete(doc: Node, p: Path)
    requires ValidPath(doc, p) && p != [] && IsCode(At(doc, p))
    ensures RefAt(doc, p) in CodeSnapshot(doc)
  {
    DescendantsComplete(doc, p);
  }

  /** `x.parentNode.replaceChild` with `x.parentNode` null: a TypeError that
      ends the run. */
  datatype Fault = NoParent(path: Path)

  /** The state of the loop over the snapshot: the live document and the
      paths of the snapshot's nodes that a `replaceChild` took out of their
      parent (their subtrees are no longer part of the document). */
  datatype Walk = Walk(doc: Node, detached: set<Path>)

  /** The node first found at `p` is still part of the document. */
  predicate Attached(detached: set<Path>, p: Path) {
    forall d :: d in detached ==> !(d <= p)
  }

  /** Replace the node at `p` by `m` if it is still part of the document, and
      record that it has been taken out of its parent. */
  function ReplaceNode(w: Walk, p: Path, m: Node): Walk {
    Walk(if Attached(w.detached, p) && ValidPath(w.doc, p) then ReplaceAt(w.doc, p, m) else w.doc,
         w.detached + {p})
  }

  /** One turn of the loop over the snapshot. */
  function CodeStep(w: Walk, c: CodeRef, render: PageRenderer): Result<Walk, Fault> {
    match Classify(c.classes, c.text)
    case Plain => Ok(w)
    case Display =>
      // the `pre` around the code is replaced by a `p`
      if |c.path| < 2 || Parent(c.path) in w.detached then Err(NoParent(c.path))
      else Ok(ReplaceNode(w, Parent(c.path), NewElement("p", render(c.text, true))))
    case Inline =>
      // the code itself is replaced by a `span`; on the snapshot this guard
      // never fires (InlineNeverFaults)
      if c.path == [] || c.path in w.detached then Err(NoParent(c.path))
      else Ok(ReplaceNode(w, c.path, NewElement("span", render(InlineSource(c.text), false))))
  }

  /** The loop over the first elements of a snapshot. */
  function Walked(w: Walk, cs: seq<CodeRef>, render: PageRenderer): Result<Walk, Fault>
    decreases |cs|
  {
    if cs == [] then Ok(w)
    else
      match Walked(w, cs[..|cs| - 1], render)
      case Err(e) => Err(e)
      case Ok(w') => CodeStep(w', cs[|cs| - 1], render)
  }

  /** The document after the math loop (postproc.mjs lines 13-25). */
  function MathRendered(doc: Node, render: PageRenderer): Result<Node, Fault> {
    match Walked(Walk(doc, {}), CodeSnapshot(doc), render)
    case Err(e) => Err(e)
    case Ok(w) => Ok(w.doc)
  }

  /** The node a turn of the loop replaces, if any: the parent of a display
      code, an inline code itself. */
  function Target(c: CodeRef): Option<Path> {
    match Classify(c.classes, c.text)
    case Plain => None
    case Display => if |c.path| < 2 then None else Some(Parent(c.path))
    case Inline => if c.path == [] then None else Some(c.path)
  }

  /** The targets of the first `|cs|` turns. */
  function Targets(cs: seq<CodeRef>): set<Path>
    decreases |cs|
  {
    if cs == [] then {}
    else
      Targets(cs[..|cs| - 1]) +
      match Target(cs[|cs| - 1])
      case None => {}
      case Some(t) => {t}
  }

  /** What the loop keeps true of the live document `w.doc`, compared with
      the original `orig`: a node still attached is still reachable by its
      path, and one that is neither inside nor above a replaced node is
      exactly as it was. */
  ghost predicate WalkInv(orig: Node, w: Walk) {
    (forall q :: ValidPath(orig, q) && Attached(w.detached, q) ==> ValidPath(w.doc, q)) &&
    (forall q :: ValidPath(orig, q) && Attached(w.detached, q) && (forall d :: d in w.detached ==> !(q <= d)) ==>
       ValidPath(w.doc, q) && At(w.doc, q) == At(orig, q))
  }

  lemma ReplaceNodeKeepsInv(orig: Node, w: Walk, r: Path, m: Node)
    requires WalkInv(orig, w)
    ensures WalkInv(orig, ReplaceNode(w, r, m))
  {
    var w' := ReplaceNode(w, r, m);
    forall q | ValidPath(orig, q) && Attached(w'.detached, q)
      ensures ValidPath(w'.doc, q)
      ensures (forall d :: d in w'.detached ==> !(q <= d)) ==> At(w'.doc, q) == At(orig, q)
    {
      assert r in w'.detached;
      assert Attached(w.detached, q);
      if Attached(w.detached, r) && ValidPath(w.doc, r) {
        ReplaceAtFrame(w.doc, r, m, q);
      }
    }
  }

  lemma CodeStepKeepsInv(orig: Node, w: Walk, c: CodeRef, render: PageRenderer)
    requires WalkInv(orig, w) && CodeStep(w, c, render).Ok?
    ensures WalkInv(orig, CodeStep(w, c, render).value)
    ensures CodeStep(w, c, render).value.detached ==
      w.detached + match Target(c) case None => {} case Some(t) => {t}
  {
    match Classify(c.classes, c.text)
    case Plain =>
    case Display => ReplaceNodeKeepsInv(orig, w, Parent(c.path), NewElement("p", render(c.text, true)));
    case Inline => ReplaceNodeKeepsInv(orig, w, c.path, NewElement("span", render(InlineSource(c.text), false)));
  }

  /** The loop keeps its invariant, and what it detaches is exactly the
      targets of the turns taken. */
  lemma {:induction false} WalkedKeepsInv(orig: Node, w: Walk, cs: seq<CodeRef>, render: PageRenderer)
    requires WalkInv(orig, w) && Walked(w, cs, render).Ok?
    ensures WalkInv(orig, Walked(w, cs, render).value)
    ensures Walked(w, cs, render).value.detached == w.detached + Targets(cs)
    decreases |cs|
  {
    if cs != [] {
      WalkedKeepsInv(orig, w, cs[..|cs| - 1], render);
      CodeStepKeepsInv(orig, Walked(w, cs[..|cs| - 1], render).value, cs[|cs| - 1], render);
    }
  }

  /** A page without math is left exactly as it was. */
  lemma {:induction false} PlainWalk(w: Walk, cs: seq<CodeRef>, render: PageRenderer)
    requires forall k :: 0 <= k < |cs| ==> Classify(cs[k].classes, cs[k].text) == Plain
    ensures Walked(w, cs, render) == Ok(w)
    decreases |cs|
  {
    if cs != [] {
      PlainWalk(w, cs[..|cs| - 1], render);
    }
  }

  lemma NoMathNoChange(doc: Node, render: PageRenderer)
    requires forall k :: 0 <= k < |CodeSnapshot(doc)| ==>
      Classify(CodeSnapshot(doc)[k].classes, CodeSnapshot(doc)[k].text) == Plain
    ensures MathRendered(doc, render) == Ok(doc)
  {
    PlainWalk(Walk(doc, {}), CodeSnapshot(doc), render);
  }

  /** Nothing outside the replaced nodes changes: a node neither inside nor
      above any target keeps its place and its contents. In particular a
      code element matching neither test is left alone unless it sits inside
      a replaced node. */
  lemma MathRenderedFrame(doc: Node, render: PageRenderer, q: Path)
    requires MathRendered(doc, render).Ok? && ValidPath(doc, q)
    requires forall t :: t in Targets(CodeSnapshot(doc)) ==> !(t <= q) && !(q <= t)
    ensures ValidPath(MathRendered(doc, render).value, q)
    ensures At(MathRendered(doc, render).value, q) == At(doc, q)
  {
    WalkedKeepsInv(doc, Walk(doc, {}), CodeSnapshot(doc), render);
  }

  /** The walk state right after turn `k`. */
  lemma WalkedSnoc(w: Walk, cs: seq<CodeRef>, k: nat, render: PageRenderer)
    requires k < |cs|
    ensures Walked(w, cs[..k + 1], render) ==
      match Walked(w, cs[..k], render)
      case Err(e) => Err(e)
      case Ok(w') => CodeStep(w', cs[k], render)
  {
    assert cs[..k + 1][..k] == cs[..k];
  }

  /** A fault ends the loop: later turns cannot undo it. */
  lemma {:induction false} FaultIsFinal(w: Walk, cs: seq<CodeRef>, k: nat, render: PageRenderer)
    requires k <= |cs| && Walked(w, cs[..k], render).Err?
    ensures Walked(w, cs, render) == Walked(w, cs[..k], render)
    decreases |cs| - k
  {
    if k < |cs| {
      WalkedSnoc(w, cs, k, render);
      FaultIsFinal(w, cs, k + 1, render);
    } else {
      assert cs[..k] == cs;
    }
  }

  /** Every snapshot entry comes from `ps`. */
  lemma {:induction false} CodesAmongFrom(doc: Node, ps: seq<Path>)
    requires forall k :: 0 <= k < |ps| ==> ValidPath(doc, ps[k]) && ps[k] != []
    ensures forall k :: 0 <= k < |CodesAmong(doc, ps)| ==> CodesAmong(doc, ps)[k].path in ps
    decreases |ps|
  {
    if ps != [] {
      CodesAmongFrom(doc, ps[1..]);
    }
  }

  /** Filtering keeps document order. */
  lemma {:induction false} CodesAmongAncestorsFirst(doc: Node, ps: seq<Path>)
    requires forall k :: 0 <= k < |ps| ==> ValidPath(doc, ps[k]) && ps[k] != []
    requires AncestorsFirst(ps)
    ensures forall a, b :: 0 <= a < b < |CodesAmong(doc, ps)| ==>
      !(CodesAmong(doc, ps)[b].path < CodesAmong(doc, ps)[a].path)
    decreases |ps|
  {
    if ps != [] {
      var rest := CodesAmong(doc, ps[1..]);
      assert AncestorsFirst(ps[1..]) by {
        assert forall a :: 0 <= a < |ps[1..]| ==> ps[1..][a] == ps[a + 1];
      }
      CodesAmongAncestorsFirst(doc, ps[1..]);
      if IsCode(At(doc, ps[0])) {
        FirstBeforeRest(doc, ps);
        var cs := [RefAt(doc, ps[0])] + rest;
        assert CodesAmong(doc, ps) == cs;
        forall a, b | 0 <= a < b < |cs|
          ensures !(cs[b].path < cs[a].path)
        {
          assert cs[b] == rest[b - 1];
          if a > 0 {
            assert cs[a] == rest[a - 1];
          }
        }
      } else {
        assert CodesAmong(doc, ps) == rest;
      }
    }
  }

  /** The first path of `ps` is no descendant of any later snapshot entry. */
  lemma FirstBeforeRest(doc: Node, ps: seq<Path>)
    requires ps != [] && forall k :: 0 <= k < |ps| ==> ValidPath(doc, ps[k]) && ps[k] != []
    requires AncestorsFirst(ps)
    ensures forall k :: 0 <= k < |CodesAmong(doc, ps[1..])| ==> !(CodesAmong(doc, ps[1..])[k].path < ps[0])
  {
    var rest := CodesAmong(doc, ps[1..]);
    CodesAmongFrom(doc, ps[1..]);
    forall k | 0 <= k < |rest|
      ensures !(rest[k].path < ps[0])
    {
      var j :| 0 <= j < |ps[1..]| && ps[1..][j] == rest[k].path;
      assert ps[j + 1] == rest[k].path;
    }
  }

  /** Filtering keeps tree order. */
  lemma {:induction false} CodesAmongInTreeOrder(doc: Node, ps: seq<Path>)
    requires forall k :: 0 <= k < |ps| ==> ValidPath(doc, ps[k]) && ps[k] != []
    requires forall a, b :: 0 <= a < b < |ps| ==> PathBefore(ps[a], ps[b])
    ensures forall a, b :: 0 <= a < b < |CodesAmong(doc, ps)| ==>
      PathBefore(CodesAmong(doc, ps)[a].path, CodesAmong(doc, ps)[b].path)
    decreases |ps|
  {
    if ps != [] {
      var rest := CodesAmong(doc, ps[1..]);
      assert forall a, b :: 0 <= a < b < |ps[1..]| ==> PathBefore(ps[1..][a], ps[1..][b]) by {
        assert forall a :: 0 <= a < |ps[1..]| ==> ps[1..][a] == ps[a + 1];
      }
      CodesAmongInTreeOrder(doc, ps[1..]);
      if IsCode(At(doc, ps[0])) {
        FirstPrecedesRest(doc, ps);
        var cs := [RefAt(doc, ps[0])] + rest;
        assert CodesAmong(doc, ps) == cs;
        forall a, b | 0 <= a < b < |cs|
          ensures PathBefore(cs[a].path, cs[b].path)
        {
          assert cs[b] == rest[b - 1];
          if a > 0 {
            assert cs[a] == rest[a - 1];
          }
        }
      } else {
        assert CodesAmong(doc, ps) == rest;
      }
    }
  }

  /** The first path of `ps` precedes every later snapshot entry. */
  lemma FirstPrecedesRest(doc: Node, ps: seq<Path>)
    requires ps != [] && forall k :: 0 <= k < |ps| ==> ValidPath(doc, ps[k]) && ps[k] != []
    requires forall a, b :: 0 <= a < b < |ps| ==> PathBefore(ps[a], ps[b])
    ensures forall k :: 0 <= k < |CodesAmong(doc, ps[1..])| ==> PathBefore(ps[0], CodesAmong(doc, ps[1..])[k].path)
  {
    var rest := CodesAmong(doc, ps[1..]);
    CodesAmongFrom(doc, ps[1..]);
    forall k | 0 <= k < |rest|
      ensures PathBefore(ps[0], rest[k].path)
    {
      var j :| 0 <= j < |ps[1..]| && ps[1..][j] == rest[k].path;
      assert ps[j + 1] == rest[k].path;
    }
  }

  /** The snapshot is in tree order, so no `code` element is visited twice. */
  lemma SnapshotInTreeOrder(doc: Node)
    ensures forall a, b :: 0 <= a < b < |CodeSnapshot(doc)| ==>
      PathBefore(CodeSnapshot(doc)[a].path, CodeSnapshot(doc)[b].path)
    ensures forall a, b :: 0 <= a < b < |CodeSnapshot(doc)| ==>
      CodeSnapshot(doc)[a].path != CodeSnapshot(doc)[b].path
  {
    var cs := CodeSnapshot(doc);
    DescendantsInTreeOrder(doc);
    CodesAmongInTreeOrder(doc, Descendants(doc));
    forall a, b | 0 <= a < b < |cs|
      ensures cs[a].path != cs[b].path
    {
      PathBeforeIrreflexive(cs[a].path);
    }
  }

  /** A code element still in the document at its turn is the very node the
      snapshot recorded: its classes and text read live are the snapshot's. */
  lemma LiveCodeIsSnapshot(doc: Node, render: PageRenderer, k: nat)
    requires k < |CodeSnapshot(doc)| && Walked(Walk(doc, {}), CodeSnapshot(doc)[..k], render).Ok?
    requires Attached(Walked(Walk(doc, {}), CodeSnapshot(doc)[..k], render).value.detached, CodeSnapshot(doc)[k].path)
    ensures var w, c := Walked(Walk(doc, {}), CodeSnapshot(doc)[..k], render).value, CodeSnapshot(doc)[k];
      ValidPath(w.doc, c.path) && At(w.doc, c.path) == At(doc, c.path) && c == RefAt(w.doc, c.path)
  {
    var cs := CodeSnapshot(doc);
    var c := cs[k];
    var w := Walked(Walk(doc, {}), cs[..k], render).value;
    WalkedKeepsInv(doc, Walk(doc, {}), cs[..k], render);
    DescendantsAncestorsFirst(doc);
    CodesAmongAncestorsFirst(doc, Descendants(doc));
    forall d | d in w.detached
      ensures !(c.path <= d)
    {
      EarlierTargetNotBelow(cs, k, d);
    }
  }

  /** In document order, no earlier turn targets a node inside a later
      code element. */
  lemma EarlierTargetNotBelow(cs: seq<CodeRef>, k: nat, d: Path)
    requires k < |cs| && forall a, b :: 0 <= a < b < |cs| ==> !(cs[b].path < cs[a].path)
    requires d in Targets(cs[..k])
    ensures !(cs[k].path < d)
  {
    TargetOfEarlier(cs[..k], d);
    var j :| 0 <= j < k && Target(cs[..k][j]) == Some(d) && d <= cs[..k][j].path;
    assert cs[..k][j] == cs[j];
    assert !(cs[k].path < cs[j].path);
  }

  /** Every target comes from some turn, and lies on the path to that turn's
      code element. */
  lemma {:induction false} TargetOfEarlier(cs: seq<CodeRef>, t: Path)
    requires t in Targets(cs)
    ensures exists j :: 0 <= j < |cs| && Target(cs[j]) == Some(t) && t <= cs[j].path
    decreases |cs|
  {
    var last := cs[|cs| - 1];
    if t in Targets(cs[..|cs| - 1]) {
      TargetOfEarlier(cs[..|cs| - 1], t);
      var j :| 0 <= j < |cs| - 1 && Target(cs[..|cs| - 1][j]) == Some(t) && t <= cs[..|cs| - 1][j].path;
      assert cs[..|cs| - 1][j] == cs[j];
    } else {
      assert Target(last) == Some(t);
      assert Parent(last.path) <= last.path;
    }
  }

  /** A path that no turn targets is not among the targets. */
  lemma {:induction false} NoTurnTargets(cs: seq<CodeRef>, t: Path)
    requires forall j :: 0 <= j < |cs| ==> Target(cs[j]) != Some(t)
    ensures t !in Targets(cs)
    decreases |cs|
  {
    if cs != [] {
      assert forall j :: 0 <= j < |cs| - 1 ==> cs[..|cs| - 1][j] == cs[j];
      NoTurnTargets(cs[..|cs| - 1], t);
    }
  }

  /** In a sequence listing each element once and ancestors first, no
      earlier turn targets the element of turn `k` itself. */
  lemma NotEarlierTarget(cs: seq<CodeRef>, k: nat)
    requires k < |cs| && forall a, b :: 0 <= a < b < |cs| ==> !(cs[b].path < cs[a].path)
    requires forall a, b :: 0 <= a < b < |cs| ==> cs[a].path != cs[b].path
    ensures cs[k].path !in Targets(cs[..k])
  {
    forall j | 0 <= j < k
      ensures Target(cs[..k][j]) != Some(cs[k].path)
    {
      assert cs[..k][j] == cs[j];
      if |cs[j].path| >= 2 {
        assert Parent(cs[j].path) <= cs[j].path;
      }
    }
    NoTurnTargets(cs[..k], cs[k].path);
  }

  /** An inline turn never faults: a snapshot entry has a parent, and no
      earlier turn can have taken the same `code` element out, since the
      snapshot lists each element once and ancestors first. */
  lemma InlineNeverFaults(doc: Node, render: PageRenderer, k: nat)
    requires k < |CodeSnapshot(doc)| && Walked(Walk(doc, {}), CodeSnapshot(doc)[..k], render).Ok?
    requires Classify(CodeSnapshot(doc)[k].classes, CodeSnapshot(doc)[k].text) == Inline
    ensures Walked(Walk(doc, {}), CodeSnapshot(doc)[..k + 1], render).Ok?
  {
    var cs := CodeSnapshot(doc);
    WalkedKeepsInv(doc, Walk(doc, {}), cs[..k], render);
    WalkedSnoc(Walk(doc, {}), cs, k, render);
    SnapshotInTreeOrder(doc);
    DescendantsAncestorsFirst(doc);
    CodesAmongAncestorsFirst(doc, Descendants(doc));
    NotEarlierTarget(cs, k);
  }

  /** A `language-math` code element whose `pre` was not already taken out
      has that `pre` replaced, in place, by a `p` holding the display-mode
      rendering of its text. */
  lemma DisplayTurn(doc: Node, render: PageRenderer, k: nat)
    requires k < |CodeSnapshot(doc)| && Walked(Walk(doc, {}), CodeSnapshot(doc)[..k], render).Ok?
    requires var c := CodeSnapshot(doc)[k];
      MathClass in c.classes && |c.path| >= 2 &&
      forall t :: t in Targets(CodeSnapshot(doc)[..k]) ==> !(t <= Parent(c.path))
    ensures var c := CodeSnapshot(doc)[k];
      var r := Walked(Walk(doc, {}), CodeSnapshot(doc)[..k + 1], render);
      r.Ok? && ValidPath(r.value.doc, Parent(c.path)) &&
      At(r.value.doc, Parent(c.path)) == NewElement("p", render(c.text, true))
  {
    var cs := CodeSnapshot(doc);
    var c := cs[k];
    var w := Walked(Walk(doc, {}), cs[..k], render).value;
    WalkedKeepsInv(doc, Walk(doc, {}), cs[..k], render);
    WalkedSnoc(Walk(doc, {}), cs, k, render);
    ParentValid(doc, c.path);
    assert Attached(w.detached, Parent(c.path));
    ReplaceAtHere(w.doc, Parent(c.path), NewElement("p", render(c.text, true)));
  }

  /** A `$...$` code element without the math class is itself replaced, in
      place, by a `span` holding the inline rendering of its text without
      the two dollars. */
  lemma InlineTurn(doc: Node, render: PageRenderer, k: nat)
    requires k < |CodeSnapshot(doc)| && Walked(Walk(doc, {}), CodeSnapshot(doc)[..k], render).Ok?
    requires var c := CodeSnapshot(doc)[k];
      MathClass !in c.classes && IsInlineMath(c.text) &&
      forall t :: t in Targets(CodeSnapshot(doc)[..k]) ==> !(t <= c.path)
    ensures var c := CodeSnapshot(doc)[k];
      var r := Walked(Walk(doc, {}), CodeSnapshot(doc)[..k + 1], render);
      r.Ok? && ValidPath(r.value.doc, c.path) &&
      At(r.value.doc, c.path) == NewElement("span", render(c.text[1..|c.text| - 1], false))
  {
    var cs := CodeSnapshot(doc);
    var c := cs[k];
    var w := Walked(Walk(doc, {}), cs[..k], render).value;
    WalkedKeepsInv(doc, Walk(doc, {}), cs[..k], render);
    WalkedSnoc(Walk(doc, {}), cs, k, render);
    assert Attached(w.detached, c.path);
    ReplaceAtHere(w.doc, c.path, NewElement("span", render(InlineSource(c.text), false)));
  }

  const NavNext := HasClasses(["nav-chapters", "next"])
  const NavPrevious := HasClasses(["nav-chapters", "previous"])
  const SearchBar := TagWithId("input", "searchbar")
  const SearchPlaceholder := "Search this site ..."

  /** The document without the first node `s` selects, if there is one. */
  function WithoutFirst(doc: Node, s: Selector): Node {
    match QuerySelector(doc, s)
    case None => doc
    case Some(p) => RemoveAt(doc, p)
  }

  /** `n` with its `placeholder` attribute set. */
  function WithPlaceholderAttr(n: Node): Node {
    if n.Element? then n.(attrs := n.attrs["placeholder" := SearchPlaceholder]) else n
  }

  /** The document with the search bar's placeholder set, if it has one. */
  function WithPlaceholder(doc: Node): Node {
    match QuerySelector(doc, SearchBar)
    case None => doc
    case Some(p) => ReplaceAt(doc, p, WithPlaceholderAttr(At(doc, p)))
  }

  /** Everything done to one page before it is written. */
  function Rewritten(doc: Node, render: PageRenderer): Result<Node, Fault> {
    match MathRendered(doc, render)
    case Err(e) => Err(e)
    case Ok(d) => Ok(WithPlaceholder(WithoutFirst(WithoutFirst(d, NavNext), NavPrevious)))
  }

  /** Removing the first node `s` selects takes exactly that node out of its
      parent and nothing else: the parent keeps its other children in order,
      the nodes above it keep their own fields and child counts, and every
      node neither above nor inside the parent is unchanged. With no such
      node the page is unchanged. */
  lemma RemovesFirstOnly(doc: Node, s: Selector, q: Path)
    requires ValidPath(doc, q)
    ensures QuerySelector(doc, s).None? ==> WithoutFirst(doc, s) == doc
    ensures QuerySelector(doc, s).Some? ==>
      var p := QuerySelector(doc, s).value;
      Matches(At(doc, p), s) && ValidPath(doc, Parent(p)) && ValidPath(WithoutFirst(doc, s), Parent(p)) &&
      (var i, kids := p[|p| - 1], Kids(At(doc, Parent(p)));
       i < |kids| && Kids(At(WithoutFirst(doc, s), Parent(p))) == kids[..i] + kids[i + 1..]) &&
      (q <= Parent(p) ==>
        ValidPath(WithoutFirst(doc, s), q) && Shallow(At(WithoutFirst(doc, s), q)) == Shallow(At(doc, q)) &&
        |Kids(At(WithoutFirst(doc, s), q))| == |Kids(At(doc, q))| - (if q == Parent(p) then 1 else 0)) &&
      (!(Parent(p) <= q) && !(q <= Parent(p)) ==>
        ValidPath(WithoutFirst(doc, s), q) && At(WithoutFirst(doc, s), q) == At(doc, q))
  {
    match QuerySelector(doc, s)
    case None =>
    case Some(p) =>
      RemoveAtParent(doc, p);
      if q <= Parent(p) {
        RemoveAtSpine(doc, p, q);
      } else if !(Parent(p) <= q) {
        RemoveAtFrame(doc, p, q);
      }
  }

  /** The search bar, when there is one, gets exactly the new placeholder and
      nothing else changes: it keeps its children, the nodes above it keep
      their own fields and child counts, and every node neither above nor
      inside it is unchanged. Without one the page is unchanged. */
  lemma PlaceholderOnly(doc: Node, q: Path)
    requires ValidPath(doc, q)
    ensures QuerySelector(doc, SearchBar).None? ==> WithPlaceholder(doc) == doc
    ensures QuerySelector(doc, SearchBar).Some? ==>
      var p := QuerySelector(doc, SearchBar).value;
      var n := At(doc, p);
      n.Element? && n.tag == "input" && n.id == "searchbar" &&
      ValidPath(WithPlaceholder(doc), p) &&
      At(WithPlaceholder(doc), p) == n.(attrs := n.attrs["placeholder" := SearchPlaceholder]) &&
      (q < p ==>
        ValidPath(WithPlaceholder(doc), q) && Shallow(At(WithPlaceholder(doc), q)) == Shallow(At(doc, q)) &&
        |Kids(At(WithPlaceholder(doc), q))| == |Kids(At(doc, q))|) &&
      (!(p <= q) && !(q <= p) ==> ValidPath(WithPlaceholder(doc), q) && At(WithPlaceholder(doc), q) == At(doc, q))
  {
    match QuerySelector(doc, SearchBar)
    case None =>
    case Some(p) =>
      ReplaceAtHere(doc, p, WithPlaceholderAttr(At(doc, p)));
      if q < p {
        ReplaceAtSpine(doc, p, WithPlaceholderAttr(At(doc, p)), q);
      } else if !(p <= q) {
        ReplaceAtFrame(doc, p, WithPlaceholderAttr(At(doc, p)), q);
      }
  }

  /** One page being rewritten in memory (the `JSDOM` document). */
  class Page {
    var doc: Node

    constructor (doc: Node)
      ensures this.doc == doc
    {
      this.doc := doc;
    }

    /** The loop over the `code` snapshot (postproc.mjs lines 13-25). On a
        fault the page is left half-rewritten, as the thrown TypeError
        leaves it. */
    method RenderMath(render: PageRenderer) returns (fault: Option<Fault>)
      modifies this
      ensures match MathRendered(old(doc), render)
        case Err(e) => fault == Some(e)
        case Ok(d) => fault == None && doc == d
    {
      ghost var orig := doc;
      var codes := CodeSnapshot(doc);
      var detached: set<Path> := {};
      for i := 0 to |codes|
        invariant Walked(Walk(orig, {}), codes[..i], render) == Ok(Walk(doc, detached))
      {
        var code := codes[i];
        WalkedSnoc(Walk(orig, {}), codes, i, render);
        ghost var before := Walk(doc, detached);
        match Classify(code.classes, code.text) {
          case Display =>
            if |code.path| < 2 || Parent(code.path) in detached {
              FaultIsFinal(Walk(orig, {}), codes, i + 1, render);
              return Some(NoParent(code.path));
            }
            var pre := Parent(code.path);
            var p := NewElement("p", render(code.text, true));
            if Attached(detached, pre) && ValidPath(doc, pre) {
              doc := ReplaceAt(doc, pre, p);
            }
            detached := detached + {pre};
            assert CodeStep(before, code, render) == Ok(Walk(doc, detached));
          case Inline =>
            if code.path == [] || code.path in detached {
              FaultIsFinal(Walk(orig, {}), codes, i + 1, render);
              return Some(NoParent(code.path));
            }
            var span := NewElement("span", render(code.text[1..|code.text| - 1], false));
            if Attached(detached, code.path) && ValidPath(doc, code.path) {
              doc := ReplaceAt(doc, code.path, span);
            }
            detached := detached + {code.path};
            assert CodeStep(before, code, render) == Ok(Walk(doc, detached));
          case Plain =>
            assert CodeStep(before, code, render) == Ok(Walk(doc, detached));
        }
      }
      assert codes[..|codes|] == codes;
      return None;
    }

    /** `document.querySelector(s)?.remove()`. */
    method RemoveFirst(s: Selector)
      modifies this
      ensures doc == WithoutFirst(old(doc), s)
    {
      var found := QuerySelector(doc, s);
      if found.Some? {
        doc := RemoveAt(doc, found.value);
      }
    }

    /** Set the search bar's placeholder when the page has a search bar. */
    method SetSearchPlaceholder()
      modifies this
      ensures doc == WithPlaceholder(old(doc))
    {
      var found := QuerySelector(doc, SearchBar);
      if found.Some? {
        var bar := At(doc, found.value);
        doc := ReplaceAt(doc, found.value, WithPlaceholderAttr(bar));
      }
    }
  }

  /** Everything the post-processor does to one page in memory. */
  method RewritePage(page: Page, render: PageRenderer) returns (fault: Option<Fault>)
    modifies page
    ensures fault.None? ==> Rewritten(old(page.doc), render) == Ok(page.doc)
    ensures fault.Some? ==> Rewritten(old(page.doc), render) == Err(fault.value)
  {
    fault := page.RenderMath(render);
    if fault.Some? {
      return;
    }
    page.RemoveFirst(NavNext);
    page.RemoveFirst(NavPrevious);
    page.SetSearchPlaceholder();
  }

  /** An HTML file of the generated site: its name and its parsed document. */
  datatype File = File(name: string, doc: Node)

  /** The outer loop over the site's files: each page is rewritten in memory
      and then written once, so the files written are a prefix of the site,
      in order, each with its fully rewritten document; the run stops exactly
      at the first page that faults. */
  method ProcessSite(files: seq<File>, render: PageRenderer) returns (written: seq<File>, fault: Option<Fault>)
    ensures |written| <= |files|
    ensures forall k :: 0 <= k < |written| ==>
      written[k].name == files[k].name && Rewritten(files[k].doc, render) == Ok(written[k].doc)
    ensures fault.None? ==> |written| == |files|
    ensures fault.Some? ==> |written| < |files| && Rewritten(files[|written|].doc, render) == Err(fault.value)
  {
    written := [];
    for i := 0 to |files|
      invariant |written| == i
      invariant forall k :: 0 <= k < i ==>
        written[k].name == files[k].name && Rewritten(files[k].doc, render) == Ok(written[k].doc)
    {
      var page := new Page(files[i].doc);
      var f := RewritePage(page, render);
      if f.Some? {
        return written, f;
      }
      written := written + [File(files[i].name, page.doc)];
    }
    fault := None;
  }
}
