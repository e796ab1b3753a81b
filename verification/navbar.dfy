/**
 The scroll handler that sets the navigation bar's shadow: a stronger shadow
 once the page has scrolled more than 50 pixels, the light one otherwise.
 The shadow depends on the current position only.
 */
module Navbar {

  const StrongShadow := "0 5px 20px rgba(0, 0, 0, 0.1)"
  const LightShadow := "0 2px 10px rgba(0, 0, 0, 0.05)"

  /** Scroll offset (window.scrollY, a double) beyond which the strong shadow applies. */
  const Threshold: real := 50.0

  /** The box-shadow for a scroll offset: strong strictly above 50, light at 50 and below. */
  function Shadow(scrollY: real): (shadow: string)
    ensures shadow == StrongShadow <==> scrollY > 50.0
    ensures shadow == LightShadow <==> scrollY <= 50.0
  {
    if scrollY > Threshold then StrongShadow else LightShadow
  }

  /** Scrolling further down never weakens the shadow; scrolling back up never strengthens it. */
  lemma ShadowMonotone(y1: real, y2: real)
    requires y1 <= y2
    ensures Shadow(y1) == StrongShadow ==> Shadow(y2) == StrongShadow
    ensures Shadow(y2) == LightShadow ==> Shadow(y1) == LightShadow
  {
  }
}
