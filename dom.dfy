/** The part of the DOM (WHATWG DOM Standard) that the core reads and changes:
    an ordered tree of element and text nodes, positions in it, the
    `textContent` getter (section 4.4), element-sibling navigation, tree-order
    queries (`querySelectorAll`, `getElementsByTagName`) and `remove()`.

    A document is itself a `Node`: its children are the document's children
    (the `html` element), and every query enumerates descendants only, so
    the tag given to the document node plays no part. Elements are
    identified by their position (a `Path`), not by object identity. */
module Dom {
  import opened Wrappers
  import Seqs

  datatype Node = Element(tag: string, children: seq<Node>) | Text(text: string)

  /** A position in a tree: the child index taken at each level, from the root down. */
  type Path = seq<nat>

  /** `Node.textContent` of an element: the concatenated data of all its
      descendant text nodes, in tree order. */
  function TextContent(n: Node): (r: string)
    ensures n.Element? ==> (r == "" <==> forall j :: 0 <= j < |n.children| ==> TextContent(n.children[j]) == "")
    decreases n, 1
  {
    match n
    case Text(t) => t
    case Element(_, cs) => TextContentFrom(n, 0)
  }

  /** The text of the children of `n` from index `i` on. */
  function TextContentFrom(n: Node, i: nat): (r: string)
    requires n.Element? && i <= |n.children|
    ensures r == "" <==> forall j :: i <= j < |n.children| ==> TextContent(n.children[j]) == ""
    decreases n, 0, |n.children| - i
  {
    if i == |n.children| then "" else TextContent(n.children[i]) + TextContentFrom(n, i + 1)
  }

  predicate ValidPath(n: Node, p: Path)
    decreases p
  {
    p == [] || (n.Element? && p[0] < |n.children| && ValidPath(n.children[p[0]], p[1..]))
  }

  function NodeAt(n: Node, p: Path): Node
    requires ValidPath(n, p)
    decreases p
  {
    if p == [] then n else NodeAt(n.children[p[0]], p[1..])
  }

  function Parent(p: Path): Path
    requires p != []
  {
    p[..|p| - 1]
  }

  function Last(p: Path): nat
    requires p != []
  {
    p[|p| - 1]
  }

  /** The child list that holds the node at `p` (its parent's children):
      the node sits in it at index `Last(p)`. */
  function SiblingsAt(n: Node, p: Path): (s: seq<Node>)
    requires ValidPath(n, p) && p != []
    ensures Last(p) < |s| && s[Last(p)] == NodeAt(n, p)
    decreases p
  {
    if |p| == 1 then n.children else SiblingsAt(n.children[p[0]], p[1..])
  }

  /** `previousElementSibling` of the node at index `i` of a child list:
      the nearest element before it, skipping text nodes. */
  function PreviousElementSibling(s: seq<Node>, i: nat): (r: Option<nat>)
    requires i < |s|
    ensures r.Some? ==> r.value < i && s[r.value].Element?
    ensures r.Some? ==> forall j :: r.value < j < i ==> s[j].Text?
    ensures r.None? ==> forall j :: 0 <= j < i ==> s[j].Text?
    decreases i
  {
    if i == 0 then None
    else if s[i - 1].Element? then Some(i - 1)
    else PreviousElementSibling(s, i - 1)
  }

  /** `nextElementSibling` of the node at index `i` of a child list:
      the nearest element after it, skipping text nodes. */
  function NextElementSibling(s: seq<Node>, i: nat): (r: Option<nat>)
    requires i < |s|
    ensures r.Some? ==> i < r.value < |s| && s[r.value].Element?
    ensures r.Some? ==> forall j :: i < j < r.value ==> s[j].Text?
    ensures r.None? ==> forall j :: i < j < |s| ==> s[j].Text?
    decreases |s| - i
  {
    if i + 1 == |s| then None
    else if s[i + 1].Element? then Some(i + 1)
    else NextElementSibling(s, i + 1)
  }

  /** The paths of every element of `ps`, seen from one level up through child `i`. */
  function Under(i: nat, ps: seq<Path>): (r: seq<Path>)
    ensures |r| == |ps| && forall k :: 0 <= k < |r| ==> r[k] == [i] + ps[k]
  {
    seq(|ps|, k requires 0 <= k < |ps| => [i] + ps[k])
  }

  /** The elements of the tree rooted at `n`, itself first, in tree order (preorder). */
  function ElementPaths(n: Node): (r: seq<Path>)
    ensures forall k :: 0 <= k < |r| ==> ValidPath(n, r[k]) && NodeAt(n, r[k]).Element?
    decreases n, 1
  {
    if n.Text? then [] else [[]] + ChildElementPaths(n, 0)
  }

  /** The elements below the children of `n` from index `i` on, in tree order. */
  function ChildElementPaths(n: Node, i: nat): (r: seq<Path>)
    requires n.Element? && i <= |n.children|
    ensures forall k :: 0 <= k < |r| ==> r[k] != [] && ValidPath(n, r[k]) && NodeAt(n, r[k]).Element?
    ensures forall k :: 0 <= k < |r| ==> i <= r[k][0]
    decreases n, 0, |n.children| - i
  {
    if i == |n.children| then []
    else
      var here := Under(i, ElementPaths(n.children[i]));
      assert forall k :: 0 <= k < |here| ==> here[k][0] == i && here[k][1..] == ElementPaths(n.children[i])[k];
      here + ChildElementPaths(n, i + 1)
  }

  /** The descendant elements of `n` in tree order: what `querySelectorAll`
      and `getElementsByTagName` enumerate before applying their selector. */
  function DescendantPaths(n: Node): (r: seq<Path>)
    ensures forall k :: 0 <= k < |r| ==> r[k] != [] && ValidPath(n, r[k]) && NodeAt(n, r[k]).Element?
  {
    if n.Text? then [] else ChildElementPaths(n, 0)
  }

  predicate HasTag(n: Node, p: Path, tag: string)
  {
    ValidPath(n, p) && NodeAt(n, p).Element? && NodeAt(n, p).tag == tag
  }

  /** Tree order (preorder) on positions: an ancestor comes before its
      descendants, and of two positions that part at some level, the one
      under the earlier child comes first. */
  predicate Before(a: Path, b: Path)
    decreases |a|
  {
    b != [] && (a == [] || a[0] < b[0] || (a[0] == b[0] && Before(a[1..], b[1..])))
  }

  /** Positions listed in strict tree order. */
  predicate InTreeOrder(r: seq<Path>)
  {
    forall a, b :: 0 <= a < b < |r| ==> Before(r[a], r[b])
  }

  /** No position comes before itself, and of two positions at most one
      comes before the other. */
  lemma {:induction false} BeforeAsymmetric(a: Path, b: Path)
    ensures Before(a, b) ==> !Before(b, a)
    ensures !Before(a, a)
    decreases |a|
  {
    if a != [] && b != [] && a[0] == b[0] {
      BeforeAsymmetric(a[1..], b[1..]);
    }
    if a != [] {
      BeforeAsymmetric(a[1..], a[1..]);
    }
  }

  /** In a list in strict tree order, a position that comes before another
      is listed before it. */
  lemma TreeOrderFollowsPositions(r: seq<Path>)
    requires InTreeOrder(r)
    ensures forall a, b :: 0 <= a < |r| && 0 <= b < |r| && Before(r[a], r[b]) ==> a < b
  {
    forall a, b | 0 <= a < |r| && 0 <= b < |r| && Before(r[a], r[b])
      ensures a < b
    {
      BeforeAsymmetric(r[a], r[b]);
    }
  }

  /** Every element of the tree rooted at `n` is listed by `ElementPaths`. */
  lemma {:induction false} ElementPathsComplete(n: Node, p: Path)
    requires ValidPath(n, p) && NodeAt(n, p).Element?
    ensures p in ElementPaths(n)
    decreases n, 1
  {
    if p != [] {
      ChildElementPathsComplete(n, 0, p);
    }
  }

  /** Every element below a child of `n` at index `i` or later is listed by
      `ChildElementPaths(n, i)`. */
  lemma {:induction false} ChildElementPathsComplete(n: Node, i: nat, p: Path)
    requires n.Element? && i <= |n.children|
    requires p != [] && i <= p[0] && ValidPath(n, p) && NodeAt(n, p).Element?
    ensures p in ChildElementPaths(n, i)
    decreases n, 0, |n.children| - i
  {
    var c := n.children[i];
    if p[0] == i {
      ElementPathsComplete(c, p[1..]);
      var ps := ElementPaths(c);
      var k :| 0 <= k < |ps| && ps[k] == p[1..];
      assert Under(i, ps)[k] == p;
    } else {
      ChildElementPathsComplete(n, i + 1, p);
    }
  }

  /** `ElementPaths` lists the elements in strict tree order. */
  lemma {:induction false} ElementPathsInTreeOrder(n: Node)
    ensures InTreeOrder(ElementPaths(n))
    decreases n, 1
  {
    if n.Element? {
      var r, rest := ElementPaths(n), ChildElementPaths(n, 0);
      ChildElementPathsInTreeOrder(n, 0);
      forall a, b | 0 <= a < b < |r|
        ensures Before(r[a], r[b])
      {
        assert r[b] == rest[b - 1];
        if a > 0 {
          assert r[a] == rest[a - 1];
        }
      }
    }
  }

  /** `ChildElementPaths` lists its elements in strict tree order. */
  lemma {:induction false} ChildElementPathsInTreeOrder(n: Node, i: nat)
    requires n.Element? && i <= |n.children|
    ensures InTreeOrder(ChildElementPaths(n, i))
    decreases n, 0, |n.children| - i
  {
    if i < |n.children| {
      var ps := ElementPaths(n.children[i]);
      var here, rest := Under(i, ps), ChildElementPaths(n, i + 1);
      ElementPathsInTreeOrder(n.children[i]);
      ChildElementPathsInTreeOrder(n, i + 1);
      var r := here + rest;
      assert r == ChildElementPaths(n, i);
      forall a, b | 0 <= a < b < |r|
        ensures Before(r[a], r[b])
      {
        if b < |here| {
          assert r[a] == [i] + ps[a] && r[b] == [i] + ps[b];
          assert r[a][1..] == ps[a] && r[b][1..] == ps[b];
          assert Before(ps[a], ps[b]);
        } else if a < |here| {
          assert r[a] == [i] + ps[a];
          assert r[b] == rest[b - |here|];
          assert r[b] != [] && r[a][0] < r[b][0];
        } else {
          assert r[a] == rest[a - |here|] && r[b] == rest[b - |here|];
        }
      }
    }
  }

  /** The descendant elements of `n`, exactly: each element position other
      than `n` itself is listed, nothing else is, and the list is in strict
      tree order, so no position is listed twice. */
  lemma DescendantPathsExact(n: Node)
    ensures forall p :: p in DescendantPaths(n) <==> p != [] && ValidPath(n, p) && NodeAt(n, p).Element?
    ensures InTreeOrder(DescendantPaths(n))
    ensures var r := DescendantPaths(n); forall a, b :: 0 <= a < b < |r| ==> r[a] != r[b]
  {
    if n.Element? {
      forall p | p != [] && ValidPath(n, p) && NodeAt(n, p).Element?
        ensures p in DescendantPaths(n)
      {
        ChildElementPathsComplete(n, 0, p);
      }
      ChildElementPathsInTreeOrder(n, 0);
    }
    var r := DescendantPaths(n);
    forall a, b | 0 <= a < b < |r|
      ensures Before(r[a], r[b]) && r[a] != r[b]
    {
      assert Before(r[a], r[b]);
      BeforeAsymmetric(r[a], r[b]);
    }
  }

  /** `querySelectorAll(tag)` / `getElementsByTagName(tag)` for a plain tag
      name: the descendant elements with that tag, in tree order. */
  function ElementsByTag(n: Node, tag: string): (r: seq<Path>)
    ensures forall k :: 0 <= k < |r| ==> r[k] != [] && HasTag(n, r[k], tag)
  {
    Seqs.Filter(TagTest(n, tag), DescendantPaths(n))
  }

  /** `ElementsByTag` lists every descendant element with that tag and
      nothing else, once each, in strict tree order. */
  lemma ElementsByTagExact(n: Node, tag: string)
    ensures forall p :: p in ElementsByTag(n, tag) <==> p != [] && HasTag(n, p, tag)
    ensures InTreeOrder(ElementsByTag(n, tag))
    ensures var r := ElementsByTag(n, tag); forall a, b :: 0 <= a < b < |r| ==> r[a] != r[b]
  {
    ElementsByTagComplete(n, tag);
    ElementsByTagInOrder(n, tag);
  }

  /** Every descendant element with the tag is listed. */
  lemma ElementsByTagComplete(n: Node, tag: string)
    ensures forall p :: p != [] && HasTag(n, p, tag) ==> p in ElementsByTag(n, tag)
  {
    var d := DescendantPaths(n);
    DescendantPathsExact(n);
    forall p | p != [] && HasTag(n, p, tag)
      ensures p in ElementsByTag(n, tag)
    {
      var k :| 0 <= k < |d| && d[k] == p;
      assert TagTest(n, tag)(d[k]);
    }
  }

  /** The listed elements are in strict tree order, so none is listed twice. */
  lemma ElementsByTagInOrder(n: Node, tag: string)
    ensures InTreeOrder(ElementsByTag(n, tag))
    ensures var r := ElementsByTag(n, tag); forall a, b :: 0 <= a < b < |r| ==> r[a] != r[b]
  {
    var r := ElementsByTag(n, tag);
    DescendantPathsExact(n);
    var lt := (x, y) => Before(x, y);
    assert Seqs.Pairwise(lt, DescendantPaths(n));
    Seqs.FilterKeepsPairwise(TagTest(n, tag), DescendantPaths(n), lt);
    assert Seqs.Pairwise(lt, r);
    forall a, b | 0 <= a < b < |r|
      ensures Before(r[a], r[b]) && r[a] != r[b]
    {
      assert lt(r[a], r[b]);
      BeforeAsymmetric(r[a], r[b]);
    }
  }

  /** The tag test on any position of `n`. */
  function TagTest(n: Node, tag: string): (Path -> bool)
  {
    p => HasTag(n, p, tag)
  }

  /** `ChildNode.remove()` on the node at `p`: its parent loses that child. */
  function RemoveAt(n: Node, p: Path): (r: Node)
    requires ValidPath(n, p) && p != []
    ensures r.Element? && r.tag == n.tag
    ensures |r.children| == if |p| == 1 then |n.children| - 1 else |n.children|
    decreases p
  {
    var i, cs := p[0], n.children;
    if |p| == 1 then Element(n.tag, cs[..i] + cs[i + 1..])
    else Element(n.tag, cs[i := RemoveAt(cs[i], p[1..])])
  }

  predicate IsPrefix(a: Path, b: Path)
  {
    |a| <= |b| && b[..|a|] == a
  }

  /** After `remove()` the parent of the removed node is still in place,
      keeps its tag and has the same children minus exactly that one. */
  lemma {:induction false} RemoveAtParent(n: Node, p: Path)
    requires ValidPath(n, p) && p != []
    ensures ValidPath(n, Parent(p)) && ValidPath(RemoveAt(n, p), Parent(p))
    ensures NodeAt(n, Parent(p)).Element?
    ensures
      var s, i := SiblingsAt(n, p), Last(p);
      NodeAt(RemoveAt(n, p), Parent(p)) == Element(NodeAt(n, Parent(p)).tag, s[..i] + s[i + 1..])
    decreases p
  {
    if |p| > 1 {
      var c, q := n.children[p[0]], p[1..];
      RemoveAtParent(c, q);
      assert Parent(p) == [p[0]] + Parent(q);
      assert Parent(p)[0] == p[0] && Parent(p)[1..] == Parent(q);
      assert Last(p) == Last(q);
    }
  }

  /** After `remove()` every ancestor of the removed node's parent is still
      in place with its tag and its number of children. */
  lemma {:induction false} RemoveAtAncestors(n: Node, p: Path, a: Path)
    requires ValidPath(n, p) && p != []
    requires IsPrefix(a, Parent(p)) && |a| < |Parent(p)|
    ensures ValidPath(n, a) && ValidPath(RemoveAt(n, p), a)
    ensures NodeAt(n, a).Element? && NodeAt(RemoveAt(n, p), a).Element?
    ensures NodeAt(RemoveAt(n, p), a).tag == NodeAt(n, a).tag
    ensures |NodeAt(RemoveAt(n, p), a).children| == |NodeAt(n, a).children|
    decreases p
  {
    if a != [] {
      var q := p[1..];
      assert Parent(p) == [p[0]] + Parent(q);
      assert a[0] == p[0] && IsPrefix(a[1..], Parent(q));
      RemoveAtAncestors(n.children[p[0]], q, a[1..]);
    }
  }

  /** After `remove()` every node whose position neither lies on the way to
      the removed node's parent nor inside the parent is unchanged. */
  lemma {:induction false} RemoveAtElsewhere(n: Node, p: Path, q: Path)
    requires ValidPath(n, p) && p != [] && ValidPath(n, q)
    requires !IsPrefix(q, Parent(p)) && !IsPrefix(Parent(p), q)
    ensures ValidPath(RemoveAt(n, p), q) && NodeAt(RemoveAt(n, p), q) == NodeAt(n, q)
    decreases p
  {
    assert q != [] && |p| > 1;
    if q[0] == p[0] {
      var p', q' := p[1..], q[1..];
      assert Parent(p) == [p[0]] + Parent(p');
      assert Parent(p)[1..] == Parent(p');
      RemoveAtElsewhere(n.children[p[0]], p', q');
    }
  }

  /** `after` is `before` with the node at `p` detached and nothing else
      changed: the parent is still in place with its tag and loses exactly
      that child, every ancestor of the parent keeps its tag and its number
      of children, and every node neither on the way to the parent nor
      inside it is unchanged. */
  ghost predicate DetachesOnly(before: Node, after: Node, p: Path)
    requires ValidPath(before, p) && p != []
  {
    var s, i := SiblingsAt(before, p), Last(p);
    ValidPath(before, Parent(p)) && ValidPath(after, Parent(p)) &&
    NodeAt(before, Parent(p)).Element? &&
    NodeAt(after, Parent(p)) == Element(NodeAt(before, Parent(p)).tag, s[..i] + s[i + 1..]) &&
    (forall a :: IsPrefix(a, Parent(p)) && |a| < |Parent(p)| ==>
      ValidPath(before, a) && ValidPath(after, a) &&
      NodeAt(before, a).Element? && NodeAt(after, a).Element? &&
      NodeAt(after, a).tag == NodeAt(before, a).tag &&
      |NodeAt(after, a).children| == |NodeAt(before, a).children|) &&
    (forall q :: ValidPath(before, q) && !IsPrefix(q, Parent(p)) && !IsPrefix(Parent(p), q) ==>
      ValidPath(after, q) && NodeAt(after, q) == NodeAt(before, q))
  }

  /** `remove()` detaches the node at `p` and changes nothing else. */
  lemma RemoveAtDetachesOnly(n: Node, p: Path)
    requires ValidPath(n, p) && p != []
    ensures DetachesOnly(n, RemoveAt(n, p), p)
  {
    RemoveAtParent(n, p);
    forall a | IsPrefix(a, Parent(p)) && |a| < |Parent(p)|
      ensures ValidPath(n, a) && ValidPath(RemoveAt(n, p), a)
      ensures NodeAt(n, a).Element? && NodeAt(RemoveAt(n, p), a).Element?
      ensures NodeAt(RemoveAt(n, p), a).tag == NodeAt(n, a).tag
      ensures |NodeAt(RemoveAt(n, p), a).children| == |NodeAt(n, a).children|
    {
      RemoveAtAncestors(n, p, a);
    }
    forall q | ValidPath(n, q) && !IsPrefix(q, Parent(p)) && !IsPrefix(Parent(p), q)
      ensures ValidPath(RemoveAt(n, p), q) && NodeAt(RemoveAt(n, p), q) == NodeAt(n, q)
    {
      RemoveAtElsewhere(n, p, q);
    }
  }
}
