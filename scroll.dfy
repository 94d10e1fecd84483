/** The two scroll-driven controls: the back-to-top button and the header
    shadow, as functions of the vertical scroll offset. */
module Scroll {

  const BackToTopThreshold: real := 400.0
  const ShadowThreshold: real := 10.0

  const RaisedShadow: string := "0 4px 20px rgba(0,0,0,.12)"
  const RestingShadow: string := "0 2px 8px rgba(0,0,0,.08)"

  /** Whether the back-to-top button is shown: it is un-hidden, and on the
      next animation frame gets `is-visible`, exactly past the threshold. */
  function BackToTopShown(scrollY: real): (shown: bool)
    ensures shown <==> scrollY > 400.0
    ensures shown ==> HeaderShadow(scrollY) == RaisedShadow
  {
    scrollY > BackToTopThreshold
  }

  /** The header's `box-shadow` for a scroll offset. */
  function HeaderShadow(scrollY: real): (shadow: string)
    ensures shadow == RaisedShadow || shadow == RestingShadow
    ensures shadow == RaisedShadow <==> scrollY > ShadowThreshold
  {
    if scrollY > ShadowThreshold then RaisedShadow else RestingShadow
  }

  /** Scrolling further down never hides the button or lowers the shadow, and
      whenever the button shows the header has its raised shadow. */
  lemma ScrollControlsMonotone(y1: real, y2: real)
    requires y1 <= y2
    ensures BackToTopShown(y1) ==> BackToTopShown(y2)
    ensures HeaderShadow(y1) == RaisedShadow ==> HeaderShadow(y2) == RaisedShadow
    ensures BackToTopShown(y1) ==> HeaderShadow(y1) == RaisedShadow
  {
  }

  /** Both thresholds are strict, and between them lies a band where the
      header is raised but the button stays hidden. */
  lemma ThresholdBoundaries(y: real)
    ensures !BackToTopShown(400.0) && HeaderShadow(10.0) == RestingShadow
    ensures 10.0 < y <= 400.0 ==> !BackToTopShown(y) && HeaderShadow(y) == RaisedShadow
  {
  }
}
