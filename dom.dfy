/**
 * A small abstract HTML document, enough to state what the page
 * post-processor (postproc.mjs) does to it. A document is its root node
 * (the Document, modelled as an element) and a node is addressed by its
 * path: the sequence of child indices leading to it from the root.
 */
module Dom {
  import opened Wrappers

  type Path = seq<nat>

  datatype Node =
    | Element(tag: string, id: string, classes: seq<string>, attrs: map<string, string>, children: seq<Node>)
    | Text(data: string)
    | Comment(data: string)

  function Kids(n: Node): seq<Node> {
    if n.Element? then n.children else []
  }

  /** A new element with no id, no classes and no attributes. */
  function NewElement(tag: string, children: seq<Node>): Node {
    Element(tag, "", [], map[], children)
  }

  /** `p` leads from `n` to a node (the empty path leads to `n` itself). */
  predicate ValidPath(n: Node, p: Path)
    decreases p
  {
    p == [] || (p[0] < |Kids(n)| && ValidPath(Kids(n)[p[0]], p[1..]))
  }

  function At(n: Node, p: Path): Node
    requires ValidPath(n, p)
    decreases p
  {
    if p == [] then n else At(Kids(n)[p[0]], p[1..])
  }

  /** `n` with the node at `p` replaced by `m` (DOM `replaceChild`). */
  function ReplaceAt(n: Node, p: Path, m: Node): (r: Node)
    requires ValidPath(n, p)
    ensures p != [] ==> r.Element? && |r.children| == |Kids(n)|
    decreases p
  {
    if p == [] then m
    else n.(children := n.children[p[0] := ReplaceAt(n.children[p[0]], p[1..], m)])
  }

  /** `n` with the node at `p` taken out of its parent (DOM `remove`). */
  function RemoveAt(n: Node, p: Path): (r: Node)
    requires ValidPath(n, p) && p != []
    ensures r.Element? && |r.children| == |Kids(n)| - (if |p| == 1 then 1 else 0)
    decreases p
  {
    if |p| == 1 then n.(children := n.children[..p[0]] + n.children[p[0] + 1..])
    else n.(children := n.children[p[0] := RemoveAt(n.children[p[0]], p[1..])])
  }

  /** After a replacement, the path leads to the new node. */
  lemma {:induction false} ReplaceAtHere(n: Node, p: Path, m: Node)
    requires ValidPath(n, p)
    ensures ValidPath(ReplaceAt(n, p, m), p) && At(ReplaceAt(n, p, m), p) == m
    decreases p
  {
    if p != [] {
      ReplaceAtHere(n.children[p[0]], p[1..], m);
    }
  }

  /** A replacement at `p` disturbs nothing but the subtree at `p`: every
      other path still exists, and one that is neither above nor below `p`
      still leads to the same node. */
  lemma {:induction false} ReplaceAtFrame(n: Node, p: Path, m: Node, q: Path)
    requires ValidPath(n, p) && ValidPath(n, q)
    requires !(p < q)
    ensures ValidPath(ReplaceAt(n, p, m), q)
    ensures !(q <= p) ==> At(ReplaceAt(n, p, m), q) == At(n, q)
    decreases p
  {
    if p != [] && q != [] && p[0] == q[0] {
      assert q[1..] <= p[1..] ==> q <= p by {
        assert p == [p[0]] + p[1..] && q == [q[0]] + q[1..];
      }
      ReplaceAtFrame(n.children[p[0]], p[1..], m, q[1..]);
    }
  }

  /** A node's own fields: tag, id, classes, attributes or text, without
      its children. */
  function Shallow(n: Node): Node {
    if n.Element? then n.(children := []) else n
  }

  /** A replacement at `p` keeps every node above `p` as it was, apart
      from the one child on the way down. */
  lemma {:induction false} ReplaceAtSpine(n: Node, p: Path, m: Node, q: Path)
    requires ValidPath(n, p) && q < p
    ensures ValidPath(n, q) && ValidPath(ReplaceAt(n, p, m), q)
    ensures Shallow(At(ReplaceAt(n, p, m), q)) == Shallow(At(n, q))
    ensures |Kids(At(ReplaceAt(n, p, m), q))| == |Kids(At(n, q))|
    decreases p
  {
    if q != [] {
      assert q[1..] < p[1..];
      ReplaceAtSpine(n.children[p[0]], p[1..], m, q[1..]);
    }
  }

  /** A removal at `p` keeps every node down to the parent as it was, apart
      from the one child on the way down; only the parent loses a child. */
  lemma {:induction false} RemoveAtSpine(n: Node, p: Path, q: Path)
    requires ValidPath(n, p) && p != [] && q <= Parent(p)
    ensures ValidPath(n, q) && ValidPath(RemoveAt(n, p), q)
    ensures Shallow(At(RemoveAt(n, p), q)) == Shallow(At(n, q))
    ensures |Kids(At(RemoveAt(n, p), q))| == |Kids(At(n, q))| - (if q == Parent(p) then 1 else 0)
    decreases p
  {
    if q != [] {
      assert Parent(p) == [p[0]] + Parent(p[1..]);
      assert q[1..] <= Parent(p[1..]);
      assert (q[1..] == Parent(p[1..])) == (q == Parent(p));
      RemoveAtSpine(n.children[p[0]], p[1..], q[1..]);
    }
  }

  /** The path to the parent of the node at `p`, and its index there. */
  function Parent(p: Path): Path
    requires p != []
  {
    p[..|p| - 1]
  }

  lemma {:induction false} ParentValid(n: Node, p: Path)
    requires ValidPath(n, p) && p != []
    ensures ValidPath(n, Parent(p)) && p[|p| - 1] < |Kids(At(n, Parent(p)))|
    ensures At(n, p) == Kids(At(n, Parent(p)))[p[|p| - 1]]
    decreases p
  {
    if |p| > 1 {
      ParentValid(n.children[p[0]], p[1..]);
      assert Parent(p)[1..] == Parent(p[1..]);
      assert p[1..][|p[1..]| - 1] == p[|p| - 1];
    }
  }

  /** `remove` takes exactly one node out of its parent's children. */
  lemma {:induction false} RemoveAtParent(n: Node, p: Path)
    requires ValidPath(n, p) && p != []
    ensures ValidPath(n, Parent(p)) && ValidPath(RemoveAt(n, p), Parent(p))
    ensures var i, kids := p[|p| - 1], Kids(At(n, Parent(p)));
      i < |kids| && Kids(At(RemoveAt(n, p), Parent(p))) == kids[..i] + kids[i + 1..]
    decreases p
  {
    ParentValid(n, p);
    if |p| > 1 {
      RemoveAtParent(n.children[p[0]], p[1..]);
      assert Parent(p)[0] == p[0] && Parent(p)[1..] == Parent(p[1..]);
      assert p[1..][|p[1..]| - 1] == p[|p| - 1];
    }
  }

  /** `remove` changes nothing outside the removed node's parent. */
  lemma {:induction false} RemoveAtFrame(n: Node, p: Path, q: Path)
    requires ValidPath(n, p) && p != [] && ValidPath(n, q)
    requires !(Parent(p) <= q) && !(q <= Parent(p))
    ensures ValidPath(RemoveAt(n, p), q) && At(RemoveAt(n, p), q) == At(n, q)
    decreases p
  {
    if q[0] == p[0] {
      assert Parent(p) == [p[0]] + Parent(p[1..]) && q == [q[0]] + q[1..];
      RemoveAtFrame(n.children[p[0]], p[1..], q[1..]);
    }
  }

  /** The DOM `textContent` of a node: its text descendants, in order. */
  function TextContent(n: Node): string
    decreases n, 1
  {
    match n
    case Text(d) => d
    case Comment(_) => ""
    case Element(_, _, _, _, _) => ChildrenText(n, 0)
  }

  function ChildrenText(n: Node, i: nat): string
    decreases n, 0, |Kids(n)| - i
  {
    if i >= |Kids(n)| then "" else TextContent(Kids(n)[i]) + ChildrenText(n, i + 1)
  }

  function Under(i: nat, ps: seq<Path>): (r: seq<Path>)
    ensures |r| == |ps|
    ensures forall k :: 0 <= k < |ps| ==> r[k] == [i] + ps[k]
  {
    seq(|ps|, k requires 0 <= k < |ps| => [i] + ps[k])
  }

  /** The paths of the descendants of `n` inside its children `i`, `i + 1`,
      ..., in document (pre-)order. */
  function ChildPaths(n: Node, i: nat): seq<Path>
    decreases n, |Kids(n)| - i
  {
    if i >= |Kids(n)| then []
    else [[i]] + Under(i, ChildPaths(Kids(n)[i], 0)) + ChildPaths(n, i + 1)
  }

  /** Every descendant of `n`, in document order. */
  function Descendants(n: Node): (ps: seq<Path>)
    ensures forall k :: 0 <= k < |ps| ==> ValidPath(n, ps[k]) && ps[k] != []
  {
    ChildPathsValid(n, 0);
    ChildPaths(n, 0)
  }

  /** Every listed descendant path exists and is not the root itself. */
  lemma {:induction false} ChildPathsValid(n: Node, i: nat)
    ensures forall k :: 0 <= k < |ChildPaths(n, i)| ==>
      ValidPath(n, ChildPaths(n, i)[k]) && ChildPaths(n, i)[k] != [] && ChildPaths(n, i)[k][0] >= i
    decreases n, |Kids(n)| - i
  {
    if i < |Kids(n)| {
      var c := Kids(n)[i];
      var inner := ChildPaths(c, 0);
      ChildPathsValid(c, 0);
      ChildPathsValid(n, i + 1);
      var all := ChildPaths(n, i);
      assert all == [[i]] + Under(i, inner) + ChildPaths(n, i + 1);
      forall k | 0 <= k < |all|
        ensures ValidPath(n, all[k]) && all[k] != [] && all[k][0] >= i
      {
        if k == 0 {
          assert all[k] == [i];
          assert all[k][1..] == [];
        } else if k < 1 + |inner| {
          assert all[k] == [i] + inner[k - 1];
          assert all[k][1..] == inner[k - 1];
        } else {
          assert all[k] == ChildPaths(n, i + 1)[k - 1 - |inner|];
        }
      }
    }
  }

  /** Every node below child `i`, `i + 1`, ... is listed. */
  lemma {:induction false} ChildPathsComplete(n: Node, i: nat, p: Path)
    requires ValidPath(n, p) && p != [] && p[0] >= i
    ensures p in ChildPaths(n, i)
    decreases n, |Kids(n)| - i
  {
    assert p[0] < |Kids(n)| && ValidPath(Kids(n)[p[0]], p[1..]);
    if p[0] > i {
      ChildPathsComplete(n, i + 1, p);
      InLaterChild(n, i, p);
    } else if |p| == 1 {
      InThisChild(n, i, p);
    } else {
      ChildPathsComplete(Kids(n)[i], 0, p[1..]);
      InThisChild(n, i, p);
    }
  }

  lemma InLaterChild(n: Node, i: nat, p: Path)
    requires i < |Kids(n)| && p in ChildPaths(n, i + 1)
    ensures p in ChildPaths(n, i)
  {
    ChildPathsSplit(n, i);
    var k :| 0 <= k < |ChildPaths(n, i + 1)| && ChildPaths(n, i + 1)[k] == p;
    assert ChildPaths(n, i)[1 + |ChildPaths(Kids(n)[i], 0)| + k] == ChildPaths(n, i + 1)[k];
  }

  lemma InThisChild(n: Node, i: nat, p: Path)
    requires i < |Kids(n)| && p != [] && p[0] == i
    requires |p| > 1 ==> p[1..] in ChildPaths(Kids(n)[i], 0)
    ensures p in ChildPaths(n, i)
  {
    var all := ChildPaths(n, i);
    var inner := ChildPaths(Kids(n)[i], 0);
    assert all == [[i]] + Under(i, inner) + ChildPaths(n, i + 1);
    if |p| == 1 {
      assert p == [i];
      assert all[0] == p;
    } else {
      var k :| 0 <= k < |inner| && inner[k] == p[1..];
      assert Under(i, inner)[k] == [i] + p[1..] == p;
      assert all[1 + k] == Under(i, inner)[k];
    }
  }

  /** Where the three parts of `ChildPaths(n, i)` sit. */
  lemma ChildPathsSplit(n: Node, i: nat)
    requires i < |Kids(n)|
    ensures var inner, rest := ChildPaths(Kids(n)[i], 0), ChildPaths(n, i + 1);
      |ChildPaths(n, i)| == 1 + |inner| + |rest| && ChildPaths(n, i)[0] == [i] &&
      (forall j :: 1 <= j <= |inner| ==> ChildPaths(n, i)[j] == [i] + inner[j - 1]) &&
      (forall j :: 1 + |inner| <= j < |ChildPaths(n, i)| ==> ChildPaths(n, i)[j] == rest[j - 1 - |inner|])
  {
    var inner, rest := ChildPaths(Kids(n)[i], 0), ChildPaths(n, i + 1);
    var head := [[i]] + Under(i, inner);
    assert ChildPaths(n, i) == head + rest;
    assert forall j :: 1 <= j <= |inner| ==> head[j] == [i] + inner[j - 1];
  }

  /** `Descendants` lists every node of the document except its root. */
  lemma DescendantsComplete(n: Node, p: Path)
    requires ValidPath(n, p) && p != []
    ensures p in Descendants(n)
  {
    ChildPathsComplete(n, 0, p);
  }

  /** No path in `ps` is listed after one of its descendants. */
  predicate AncestorsFirst(ps: seq<Path>) {
    forall a, b :: 0 <= a < b < |ps| ==> !(ps[b] < ps[a])
  }

  /** A common first step does not change which path is a proper prefix. */
  lemma PrefixUnder(i: nat, x: Path, y: Path)
    requires [i] + y < [i] + x
    ensures y < x
  {
    assert y == ([i] + y)[1..] && x == ([i] + x)[1..];
  }

  /** Document order lists every node before its descendants. */
  lemma {:induction false} ChildPathsAncestorsFirst(n: Node, i: nat)
    ensures AncestorsFirst(ChildPaths(n, i))
    decreases n, |Kids(n)| - i
  {
    if i < |Kids(n)| {
      var inner := ChildPaths(Kids(n)[i], 0);
      var rest := ChildPaths(n, i + 1);
      var all := ChildPaths(n, i);
      ChildPathsAncestorsFirst(Kids(n)[i], 0);
      ChildPathsAncestorsFirst(n, i + 1);
      ChildPathsValid(n, i + 1);
      ChildPathsSplit(n, i);
      forall a, b | 0 <= a < b < |all|
        ensures !(all[b] < all[a])
      {
        if a == 0 {
          assert all[b] != [];
        } else if b <= |inner| {
          if all[b] < all[a] {
            PrefixUnder(i, inner[a - 1], inner[b - 1]);
          }
        } else if a <= |inner| {
          assert all[a][0] == i;
          assert all[b] == rest[b - 1 - |inner|];
        } else {
          assert all[a] == rest[a - 1 - |inner|];
        }
      }
    }
  }

  lemma DescendantsAncestorsFirst(n: Node)
    ensures AncestorsFirst(Descendants(n))
  {
    ChildPathsAncestorsFirst(n, 0);
  }

  /** `x` comes before `y` in tree order: `x` is a proper prefix of `y`, or
      at the first step where they part `x` takes the earlier child. */
  predicate PathBefore(x: Path, y: Path)
    decreases |x|
  {
    if x == [] then y != []
    else y != [] && (x[0] < y[0] || (x[0] == y[0] && PathBefore(x[1..], y[1..])))
  }

  lemma {:induction false} PathBeforeIrreflexive(x: Path)
    ensures !PathBefore(x, x)
    decreases |x|
  {
    if x != [] {
      PathBeforeIrreflexive(x[1..]);
    }
  }

  /** A common first step keeps tree order. */
  lemma PathBeforeUnder(i: nat, x: Path, y: Path)
    requires PathBefore(x, y)
    ensures PathBefore([i] + x, [i] + y)
  {
    assert ([i] + x)[1..] == x && ([i] + y)[1..] == y;
  }

  /** Document order is tree order: earlier siblings' subtrees first, each
      node before its descendants. */
  lemma {:induction false} ChildPathsInTreeOrder(n: Node, i: nat)
    ensures forall a, b :: 0 <= a < b < |ChildPaths(n, i)| ==> PathBefore(ChildPaths(n, i)[a], ChildPaths(n, i)[b])
    decreases n, |Kids(n)| - i
  {
    if i < |Kids(n)| {
      var inner := ChildPaths(Kids(n)[i], 0);
      var rest := ChildPaths(n, i + 1);
      var all := ChildPaths(n, i);
      ChildPathsInTreeOrder(Kids(n)[i], 0);
      ChildPathsInTreeOrder(n, i + 1);
      ChildPathsValid(Kids(n)[i], 0);
      ChildPathsValid(n, i + 1);
      ChildPathsSplit(n, i);
      forall a, b | 0 <= a < b < |all|
        ensures PathBefore(all[a], all[b])
      {
        if a == 0 {
          if b <= |inner| {
            assert inner[b - 1] != [];
            PathBeforeUnder(i, [], inner[b - 1]);
            assert [i] + [] == [i];
          } else {
            assert all[b] == rest[b - 1 - |inner|];
          }
        } else if b <= |inner| {
          PathBeforeUnder(i, inner[a - 1], inner[b - 1]);
        } else if a <= |inner| {
          assert all[a][0] == i;
          assert all[b] == rest[b - 1 - |inner|];
        } else {
          assert all[a] == rest[a - 1 - |inner|];
        }
      }
    }
  }

  /** `Descendants` is in tree order, so it lists each node once. */
  lemma DescendantsInTreeOrder(n: Node)
    ensures forall a, b :: 0 <= a < b < |Descendants(n)| ==> PathBefore(Descendants(n)[a], Descendants(n)[b])
    ensures forall a, b :: 0 <= a < b < |Descendants(n)| ==> Descendants(n)[a] != Descendants(n)[b]
  {
    ChildPathsInTreeOrder(n, 0);
    forall a, b | 0 <= a < b < |Descendants(n)|
      ensures Descendants(n)[a] != Descendants(n)[b]
    {
      PathBeforeIrreflexive(Descendants(n)[a]);
    }
  }

  /** What a CSS selector of the page post-processor picks out. */
  datatype Selector =
    | HasClasses(names: seq<string>)   // `.a.b`
    | TagWithId(tag: string, id: string)   // `t#i`

  predicate Matches(n: Node, s: Selector) {
    n.Element? &&
    match s
    case HasClasses(names) => forall k :: 0 <= k < |names| ==> names[k] in n.classes
    case TagWithId(tag, id) => n.tag == tag && n.id == id
  }

  /** The first position in `ps`, from `from` on, that names a node of
      `doc` matching `s`. */
  function FirstMatch(doc: Node, ps: seq<Path>, s: Selector, from: nat): (r: Option<nat>)
    ensures r.Some? ==>
      from <= r.value < |ps| && ValidPath(doc, ps[r.value]) && Matches(At(doc, ps[r.value]), s)
    ensures forall j :: from <= j < |ps| && (r.None? || j < r.value) ==>
      !(ValidPath(doc, ps[j]) && Matches(At(doc, ps[j]), s))
    decreases |ps| - from
  {
    if from >= |ps| then None
    else if ValidPath(doc, ps[from]) && Matches(At(doc, ps[from]), s) then Some(from)
    else FirstMatch(doc, ps, s, from + 1)
  }

  /** `document.querySelector(s)`: the first matching descendant in document order. */
  function QuerySelector(doc: Node, s: Selector): (r: Option<Path>)
    ensures r.Some? ==> ValidPath(doc, r.value) && r.value != [] && Matches(At(doc, r.value), s)
    ensures r.Some? ==> exists k :: 0 <= k < |Descendants(doc)| && Descendants(doc)[k] == r.value &&
                                  (forall j :: 0 <= j < k ==> !Matches(At(doc, Descendants(doc)[j]), s))
    ensures r.None? ==> forall j :: 0 <= j < |Descendants(doc)| ==> !Matches(At(doc, Descendants(doc)[j]), s)
  {
    match FirstMatch(doc, Descendants(doc), s, 0)
    case None => None
    case Some(k) => Some(Descendants(doc)[k])
  }
}
