/** Smooth scrolling for same-page anchor links: a click on an a[href^="#"]
    link is taken over only when the fragment names an element of the page. */
module Anchors {
  import opened Wrappers

  /** An element of the document, in document order: its id and its offsetTop. */
  datatype Element = Element(id: string, offsetTop: int)

  /** What a click on the anchor does: either nothing (the browser's default
      navigation proceeds, preventDefault is not called), or preventDefault
      followed by window.scrollTo({top, behavior: 'smooth'}). */
  datatype ClickEffect = Default | SmoothScroll(top: int)

  /** Room left above the target for the fixed navbar. */
  const NavbarHeight: int := 80

  /** The document's lookup of the id selector: the first element in document order
      whose id is `id`, as an index, or None. */
  function FindById(doc: seq<Element>, id: string): (r: Option<nat>)
    ensures r.Some? ==> r.value < |doc| && doc[r.value].id == id
    ensures r.Some? ==> forall j :: 0 <= j < r.value ==> doc[j].id != id
    ensures r.None? <==> forall j :: 0 <= j < |doc| ==> doc[j].id != id
  {
    if doc == [] then None
    else if doc[0].id == id then Some(0)
    else match FindById(doc[1..], id)
      case None =>
        assert forall j :: 1 <= j < |doc| ==> doc[j] == doc[1..][j - 1];
        None
      case Some(k) =>
        assert forall j :: 1 <= j <= k + 1 ==> doc[j] == doc[1..][j - 1];
        Some(k + 1)
  }

  /** The click handler of an anchor whose href starts with '#'. It acts iff the
      href is longer than "#" and an element has the fragment as its id; it then
      scrolls to that (first such) element's offsetTop less the navbar height. */
  function AnchorClick(href: string, doc: seq<Element>): (e: ClickEffect)
    requires |href| >= 1 && href[0] == '#'
    ensures e.SmoothScroll? <==>
      |href| > 1 && exists j :: 0 <= j < |doc| && doc[j].id == href[1..]
    ensures e.SmoothScroll? ==>
      exists j :: 0 <= j < |doc| && doc[j].id == href[1..] && e.top == doc[j].offsetTop - NavbarHeight
                  && forall i :: 0 <= i < j ==> doc[i].id != href[1..]
  {
    if href != "#" && |href| > 1 then
      match FindById(doc, href[1..])
      case None => Default
      case Some(j) => SmoothScroll(doc[j].offsetTop - NavbarHeight)
    else Default
  }

  /** A bare "#" is never intercepted, whatever the page holds; "#section-2"
      on a page with such a section scrolls to 80 px above it. */
  lemma BareHashIsIgnored(doc: seq<Element>)
    ensures AnchorClick("#", doc) == Default
    ensures AnchorClick("#section-2", [Element("intro", 0), Element("section-2", 640)])
            == SmoothScroll(560)
  {
  }
}
