/**
 * The parsed page, as far as the monitor looks at it. The HTML parser and its
 * CSS-selector and string-search engines are not modelled; what they answer
 * is part of the document value, as total functions over element indices:
 *
 * - `elements` is the element table. Index `Root` is the document itself; every
 *   element knows its parent (the document has none) and the first `<a>`
 *   among its descendants, if any.
 * - `getText(e)` is the visible text of element `e` and all its descendants.
 * - `select(e, q)` is the list of elements under `e` matched by CSS selector `q`.
 * - `findStrings(e, p)` is the list of text nodes under `e` that pattern `p` matches.
 * - `firstStringParent(e, p)` is the parent element of the first text node under
 *   `e` that `p` matches, if there is one.
 */
module Dom {
  import opened Wrappers

  /** The first `<a>` below an element: its `href` attribute and its visible text. */
  datatype Anchor = Anchor(href: string, text: string)

  datatype Element = Element(parent: Option<nat>, firstAnchor: Option<Anchor>)

  /** A text node: its content and the element that directly contains it. */
  datatype TextNode = TextNode(text: string, container: nat)

  datatype Document = Document(
    elements: seq<Element>,
    getText: nat -> string,
    select: (nat, string) -> seq<nat>,
    findStrings: (nat, string) -> seq<TextNode>,
    firstStringParent: (nat, string) -> Option<nat>)

  const Root: nat := 0

  /**
   * Parents come before their children in the table (document order), so every
   * upward walk reaches an element without a parent.
   */
  predicate ParentsPrecede(elements: seq<Element>) {
    forall i :: 0 <= i < |elements| && elements[i].parent.Some? ==> elements[i].parent.value < i
  }

  /** A document whose queries only ever answer with elements of its own table. */
  ghost predicate Valid(d: Document) {
    && 0 < |d.elements|
    && ParentsPrecede(d.elements)
    && (forall e, q, k :: 0 <= k < |d.select(e, q)| ==> d.select(e, q)[k] < |d.elements|)
    && (forall e, p, k :: 0 <= k < |d.findStrings(e, p)| ==> d.findStrings(e, p)[k].container < |d.elements|)
    && (forall e, p :: d.firstStringParent(e, p).Some? ==> d.firstStringParent(e, p).value < |d.elements|)
  }

  /** The element `e` followed by its ancestors, up to the one without a parent. */
  function Chain(elements: seq<Element>, e: nat): (c: seq<nat>)
    requires ParentsPrecede(elements) && e < |elements|
    ensures 0 < |c| && c[0] == e
    ensures forall k :: 0 <= k < |c| ==> c[k] < |elements|
    ensures forall k :: 0 <= k < |c| - 1 ==> elements[c[k]].parent == Some(c[k + 1])
    ensures elements[c[|c| - 1]].parent.None?
    decreases e
  {
    match elements[e].parent
    case None => [e]
    case Some(p) => [e] + Chain(elements, p)
  }

  /**
   * The link that the upward walk from `e` finds: the first `<a>` below `e` if
   * there is one, otherwise the one found from `e`'s parent, and none once an
   * element without a parent has been tried.
   */
  function NearestAnchor(elements: seq<Element>, e: nat): Option<Anchor>
    requires ParentsPrecede(elements) && e < |elements|
    decreases e
  {
    match elements[e].firstAnchor
    case Some(a) => Some(a)
    case None =>
      match elements[e].parent
      case None => None
      case Some(p) => NearestAnchor(elements, p)
  }

  /** No element on the path `c` has a link below it. */
  predicate NoAnchorOn(elements: seq<Element>, c: seq<nat>) {
    forall k :: 0 <= k < |c| ==> c[k] < |elements| && elements[c[k]].firstAnchor.None?
  }

  /** The walk finds nothing exactly when no level of the chain, up to the top, has a link. */
  lemma {:induction false} NearestAnchorNoneOnChain(elements: seq<Element>, e: nat)
    requires ParentsPrecede(elements) && e < |elements|
    ensures NearestAnchor(elements, e).None? <==> NoAnchorOn(elements, Chain(elements, e))
    decreases e
  {
    var c := Chain(elements, e);
    if NearestAnchor(elements, e).Some? {
      NearestAnchorFirstOnChain(elements, e);
      var k :| 0 <= k < |c| && elements[c[k]].firstAnchor == NearestAnchor(elements, e);
    } else if elements[e].parent.Some? {
      var p := elements[e].parent.value;
      NearestAnchorNoneOnChain(elements, p);
      var c' := Chain(elements, p);
      assert c == [e] + c';
      assert NoAnchorOn(elements, c');
      forall k | 0 < k < |c|
        ensures elements[c[k]].firstAnchor.None?
      {
        assert c[k] == c'[k - 1];
      }
    }
  }

  /**
   * When the walk finds a link, it is the link of the first level of the chain
   * that has one: every level below it has none.
   */
  lemma {:induction false} NearestAnchorFirstOnChain(elements: seq<Element>, e: nat)
    requires ParentsPrecede(elements) && e < |elements|
    requires NearestAnchor(elements, e).Some?
    ensures exists k ::
              && 0 <= k < |Chain(elements, e)|
              && elements[Chain(elements, e)[k]].firstAnchor == NearestAnchor(elements, e)
              && forall j :: 0 <= j < k ==> elements[Chain(elements, e)[j]].firstAnchor.None?
    decreases e
  {
    var c := Chain(elements, e);
    if elements[e].firstAnchor.Some? {
      assert elements[c[0]].firstAnchor == NearestAnchor(elements, e);
    } else {
      var p := elements[e].parent.value;
      NearestAnchorFirstOnChain(elements, p);
      var c' := Chain(elements, p);
      assert c == [e] + c';
      var k :| 0 <= k < |c'| && elements[c'[k]].firstAnchor == NearestAnchor(elements, p) &&
               forall j :: 0 <= j < k ==> elements[c'[j]].firstAnchor.None?;
      assert elements[c[k + 1]].firstAnchor == NearestAnchor(elements, e);
      forall j | 0 <= j < k + 1
        ensures elements[c[j]].firstAnchor.None?
      {
        if j > 0 {
          assert c[j] == c'[j - 1];
        }
      }
    }
  }
}
