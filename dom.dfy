/** The part of the DOM the XPath engine reads from an element. */
module Dom {
  import opened Wrappers
  import opened Text

  /** One entry of `element.attributes`. */
  datatype Attribute = Attribute(name: string, value: string)

  /** An element as the engine sees it. The same-tag siblings are summarised
      by `position` (`siblings.indexOf(element) + 1`) and `sameTagCount`
      (`siblings.length`), where the siblings are the children of the parent
      whose `tagName` equals this one's. `className` is `None` when the
      property is not a string (as for SVG elements). */
  datatype Element = Element(
    tagName: string,
    id: string,
    className: Option<string>,
    attributes: seq<Attribute>,
    textContent: string,
    position: nat,
    sameTagCount: nat,
    parent: Option<Element>)

  /** The document element: the walk up the parents stops at it. */
  predicate IsHtml(e: Element) {
    Lower(e.tagName) == "html"
  }

  /** An element inside the document: following `parentNode` reaches the
      `html` element, and each element on the way is one of its parent's
      same-tag children. */
  predicate Attached(e: Element)
    decreases e
  {
    IsHtml(e) || (e.parent.Some? && 1 <= e.position <= e.sameTagCount && Attached(e.parent.value))
  }
}
