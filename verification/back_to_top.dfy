/** The back-to-top button of the storefront script: created once without `is-visible`, and on
    every scroll event given `is-visible` iff the page is scrolled more than 300 pixels.
    Clicking it asks the browser to scroll smoothly to offset 0. Offsets are real numbers, as
    `scrollY` may be fractional. */
module BackToTop {

  const Threshold: real := 300.0

  /** The class the listener sets for offset `scrollY`. */
  predicate VisibleAt(scrollY: real)
  {
    scrollY > Threshold
  }

  /** One scroll event: the old visibility is overwritten by the test against 300 pixels. */
  function OnScroll(visible: bool, scrollY: real): (r: bool)
    ensures r <==> scrollY > 300.0
  {
    VisibleAt(scrollY)
  }

  function Run(visible: bool, ys: seq<real>): bool
    decreases |ys|
  {
    if ys == [] then visible else Run(OnScroll(visible, ys[0]), ys[1..])
  }

  /** After any non-empty sequence of scroll events the button is visible iff the last offset
      is past 300, whatever came before; with no event yet it keeps its initial state. */
  lemma {:induction false} RunIsLastOffset(visible: bool, ys: seq<real>)
    ensures ys == [] ==> Run(visible, ys) == visible
    ensures ys != [] ==> (Run(visible, ys) <==> ys[|ys| - 1] > Threshold)
    decreases |ys|
  {
    if |ys| > 1 {
      RunIsLastOffset(OnScroll(visible, ys[0]), ys[1..]);
      assert ys[1..][|ys[1..]| - 1] == ys[|ys| - 1];
    }
  }

  /** A click scrolls to the top; once the smooth scroll has delivered its last event, at
      offset 0, the button is hidden again, whatever offsets it passed through. */
  lemma {:induction false} ClickHidesButton(visible: bool, passing: seq<real>)
    ensures !Run(visible, passing + [0.0])
  {
    RunIsLastOffset(visible, passing + [0.0]);
  }
}
