/** The navbar scroll effect: on every scroll event the navbar's box shadow is
    chosen from the page's current vertical offset. */
module Navbar {

  /** The two inline box-shadow values the handler writes. */
  const RaisedShadow: string := "0 4px 20px rgba(30, 58, 95, 0.1)"
  const RestingShadow: string := "0 1px 3px rgba(0, 0, 0, 0.08)"

  /** Strictly more than this many pixels scrolled raises the navbar. */
  const Threshold: real := 50.0

  /** The shadow for a scroll offset (window.pageYOffset, a double). */
  function ShadowFor(offset: real): (r: string)
    ensures r == RaisedShadow <==> offset > Threshold
    ensures r == RestingShadow <==> offset <= Threshold
  {
    if offset > Threshold then RaisedShadow else RestingShadow
  }

  /** The boundary is strict: 50 px keeps the resting shadow, anything above
      it, 50.5 and 51 included, raises the navbar; and raising is monotone in
      the offset. */
  lemma ShadowThreshold(a: real, b: real)
    requires a <= b
    ensures ShadowFor(50.0) == RestingShadow && RestingShadow != RaisedShadow
    ensures ShadowFor(50.5) == RaisedShadow && ShadowFor(51.0) == RaisedShadow
    ensures ShadowFor(a) == RaisedShadow ==> ShadowFor(b) == RaisedShadow
  {
  }

  /** The scroll handler's state: the navbar element, if the page has one
      (document.querySelector('.navbar') may be null), its inline box shadow,
      and the last offset seen. */
  class ScrollFeedback {
    const hasNavbar: bool
    var boxShadow: string
    var lastScroll: real

    /** Page load: the navbar keeps its markup shadow and lastScroll is 0. */
    constructor (hasNavbar: bool, markupShadow: string)
      ensures this.hasNavbar == hasNavbar
      ensures boxShadow == markupShadow && lastScroll == 0.0
    {
      this.hasNavbar := hasNavbar;
      boxShadow := markupShadow;
      lastScroll := 0.0;
    }

    /** One scroll event at offset `current`. With a navbar the shadow becomes
        a function of `current` alone (lastScroll is written, never read).
        Without one, `navbar.style` throws a TypeError before anything is
        written, reported here as `threw`. */
    method OnScroll(current: real) returns (threw: bool)
      modifies this
      ensures threw <==> !hasNavbar
      ensures hasNavbar ==> boxShadow == ShadowFor(current) && lastScroll == current
      ensures !hasNavbar ==> boxShadow == old(boxShadow) && lastScroll == old(lastScroll)
    {
      if !hasNavbar {
        return true;
      }
      if current > Threshold {
        boxShadow := RaisedShadow;
      } else {
        boxShadow := RestingShadow;
      }
      lastScroll := current;
      threw := false;
    }
  }
}
