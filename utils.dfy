/** The sibling-content scanners and the matcher query of src/dom-utils/utils.ts.

    A scanner is given the child list that holds the start element and the
    start element's index in it, or `None` for a `null` start. It returns the
    index of the sibling it finds, or `None` for `null`. */
module DomUtils {
  import opened Wrappers
  import opened Dom
  import Seqs

  /** `findPriorSiblingWithContent`: the nearest earlier element sibling whose
      `textContent` is not the empty string. Emptiness is the only test, so
      text that is only whitespace counts as content; text siblings are
      stepped over by `previousElementSibling` and never looked at. */
  function FindPriorSiblingWithContent(siblings: seq<Node>, element: Option<nat>): (r: Option<nat>)
    requires element.Some? ==> element.value < |siblings|
    ensures element.None? ==> r.None?
    ensures r.Some? ==> element.Some? && r.value < element.value
    ensures r.Some? ==> siblings[r.value].Element? && TextContent(siblings[r.value]) != ""
    ensures r.Some? ==> forall j :: r.value < j < element.value && siblings[j].Element? ==> TextContent(siblings[j]) == ""
    ensures element.Some? && r.None? ==>
      forall j :: 0 <= j < element.value && siblings[j].Element? ==> TextContent(siblings[j]) == ""
    decreases if element.Some? then element.value + 1 else 0
  {
    if element.None? then None
    else
      var prev := PreviousElementSibling(siblings, element.value);
      if prev.Some? && TextContent(siblings[prev.value]) != "" then prev
      else FindPriorSiblingWithContent(siblings, prev)
  }

  /** `findNextSiblingWithContent`: the nearest later element sibling whose
      `textContent` is not the empty string; the mirror image of the above. */
  function FindNextSiblingWithContent(siblings: seq<Node>, element: Option<nat>): (r: Option<nat>)
    requires element.Some? ==> element.value < |siblings|
    ensures element.None? ==> r.None?
    ensures r.Some? ==> element.Some? && element.value < r.value < |siblings|
    ensures r.Some? ==> siblings[r.value].Element? && TextContent(siblings[r.value]) != ""
    ensures r.Some? ==> forall j :: element.value < j < r.value && siblings[j].Element? ==> TextContent(siblings[j]) == ""
    ensures element.Some? && r.None? ==>
      forall j :: element.value < j < |siblings| && siblings[j].Element? ==> TextContent(siblings[j]) == ""
    decreases if element.Some? then |siblings| - element.value else 0
  {
    if element.None? then None
    else
      var next := NextElementSibling(siblings, element.value);
      if next.Some? && TextContent(siblings[next.value]) != "" then next
      else FindNextSiblingWithContent(siblings, next)
  }

  /** Two child lists with the same elements at the same positions; their
      text nodes may say anything. */
  predicate SameElements(s: seq<Node>, t: seq<Node>)
  {
    |s| == |t| &&
    forall j :: 0 <= j < |s| ==> s[j].Element? == t[j].Element? && (s[j].Element? ==> s[j] == t[j])
  }

  /** The prior scan never examines text siblings: changing them changes nothing. */
  lemma {:induction false} PriorIgnoresTextSiblings(s: seq<Node>, t: seq<Node>, element: Option<nat>)
    requires SameElements(s, t)
    requires element.Some? ==> element.value < |s|
    ensures FindPriorSiblingWithContent(s, element) == FindPriorSiblingWithContent(t, element)
    decreases if element.Some? then element.value + 1 else 0
  {
    if element.Some? {
      var ps, pt := PreviousElementSibling(s, element.value), PreviousElementSibling(t, element.value);
      assert ps == pt;
      PriorIgnoresTextSiblings(s, t, ps);
    }
  }

  /** The next scan never examines text siblings either. */
  lemma {:induction false} NextIgnoresTextSiblings(s: seq<Node>, t: seq<Node>, element: Option<nat>)
    requires SameElements(s, t)
    requires element.Some? ==> element.value < |s|
    ensures FindNextSiblingWithContent(s, element) == FindNextSiblingWithContent(t, element)
    decreases if element.Some? then |s| - element.value else 0
  {
    if element.Some? {
      var ns, nt := NextElementSibling(s, element.value), NextElementSibling(t, element.value);
      assert ns == nt;
      NextIgnoresTextSiblings(s, t, ns);
    }
  }

  /** A paragraph holding a single space is content for both scanners. */
  lemma WhitespaceIsContent(siblings: seq<Node>, i: nat)
    requires 0 < i && i + 1 < |siblings|
    requires siblings[i - 1] == Element("p", [Text(" ")]) && siblings[i + 1] == Element("p", [Text(" ")])
    ensures FindPriorSiblingWithContent(siblings, Some(i)) == Some(i - 1)
    ensures FindNextSiblingWithContent(siblings, Some(i)) == Some(i + 1)
  {
    assert TextContent(Element("p", [Text(" ")])) == " " by {
      var n := Element("p", [Text(" ")]);
      assert TextContentFrom(n, 1) == "";
      assert TextContentFrom(n, 0) == " ";
    }
  }

  /** `findElementsWithMatcher`: the elements `querySelectorAll(selector)`
      returns (the descendants of the document the selector matches, in tree
      order), filtered by `matcher`. The selector and the matcher are given as
      tests on positions of this document, so a matcher may look at anything
      in the document around the element it is given. */
  function FindElementsWithMatcher(dom: Node, selector: Path -> bool, matcher: Path -> bool): (r: seq<Path>)
    ensures forall k :: 0 <= k < |r| ==> r[k] in DescendantPaths(dom) && selector(r[k]) && matcher(r[k])
    ensures forall k :: 0 <= k < |DescendantPaths(dom)| ==>
      var p := DescendantPaths(dom)[k];
      selector(p) && matcher(p) ==> p in r
  {
    var elements := Seqs.Filter(selector, DescendantPaths(dom));
    Seqs.Filter(matcher, elements)
  }

  /** The result of `findElementsWithMatcher` is exactly the descendant
      elements that both the selector and the matcher accept, each once, in
      document (tree) order. A list in strict tree order is fixed by its
      members, so this pins the result down completely. */
  lemma FindElementsWithMatcherExact(dom: Node, selector: Path -> bool, matcher: Path -> bool)
    ensures var r := FindElementsWithMatcher(dom, selector, matcher);
      forall p :: p in r <==> p != [] && ValidPath(dom, p) && NodeAt(dom, p).Element? && selector(p) && matcher(p)
    ensures InTreeOrder(FindElementsWithMatcher(dom, selector, matcher))
    ensures var r := FindElementsWithMatcher(dom, selector, matcher);
      forall a, b :: 0 <= a < b < |r| ==> r[a] != r[b]
  {
    var d := DescendantPaths(dom);
    var elements := Seqs.Filter(selector, d);
    var r := FindElementsWithMatcher(dom, selector, matcher);
    assert r == Seqs.Filter(matcher, elements);
    DescendantPathsExact(dom);
    forall p | p != [] && ValidPath(dom, p) && NodeAt(dom, p).Element? && selector(p) && matcher(p)
      ensures p in r
    {
      var k :| 0 <= k < |d| && d[k] == p;
    }
    var lt := (x, y) => Before(x, y);
    assert Seqs.Pairwise(lt, d);
    Seqs.FilterKeepsPairwise(selector, d, lt);
    Seqs.FilterKeepsPairwise(matcher, elements, lt);
    assert Seqs.Pairwise(lt, r);
    forall a, b | 0 <= a < b < |r|
      ensures Before(r[a], r[b]) && r[a] != r[b]
    {
      assert lt(r[a], r[b]);
      BeforeAsymmetric(r[a], r[b]);
    }
  }
}
