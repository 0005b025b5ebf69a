/** The sticky header of the storefront script: on every scroll event the `.site-header`
    gets `is-sticky` once the page is scrolled past the header's own height, and `is-hidden`
    while, past that point, the page scrolls down. The header height is read once at setup
    and is a parameter here. `offsetHeight` is a whole number of pixels, while `scrollY` may
    be fractional, so offsets are real numbers. */
module StickyHeader {

  /** The listener's closure state and the two classes it toggles. */
  datatype Header = Header(lastScroll: real, sticky: bool, hidden: bool)

  /** At setup: no scroll seen yet (`lastScroll = 0`) and neither class on the header. */
  const Initial: Header := Header(0.0, false, false)

  /** The invariant the classes keep: a hidden header is always a sticky one. */
  predicate Consistent(h: Header)
  {
    h.hidden ==> h.sticky
  }

  /** One scroll event at offset `y`. */
  function OnScroll(h: Header, height: int, y: real): (r: Header)
    ensures r.lastScroll == y
    ensures y <= height as real ==> !r.sticky && !r.hidden
    ensures y > height as real ==> r.sticky && (r.hidden <==> y > h.lastScroll)
    ensures Consistent(r)
  {
    var sticky := y > height as real;
    Header(y, sticky, sticky && y > h.lastScroll)
  }

  /** A sequence of scroll events, in order: without an event nothing changes, and after the
      last one the listener remembers that event's offset. */
  function Run(h: Header, height: int, ys: seq<real>): (r: Header)
    ensures ys == [] ==> r == h
    ensures ys != [] ==> r.lastScroll == ys[|ys| - 1]
    decreases |ys|
  {
    if ys == [] then h
    else
      assert |ys| > 1 ==> ys[1..][|ys[1..]| - 1] == ys[|ys| - 1];
      Run(OnScroll(h, height, ys[0]), height, ys[1..])
  }

  /** The invariant holds after any sequence of scroll events from a consistent state. */
  lemma {:induction false} RunKeepsConsistent(h: Header, height: int, ys: seq<real>)
    requires Consistent(h)
    ensures Consistent(Run(h, height, ys))
    decreases |ys|
  {
    if ys != [] {
      RunKeepsConsistent(OnScroll(h, height, ys[0]), height, ys[1..]);
    }
  }

  /** The classes after a sequence of scroll events depend only on its last two offsets (the
      remembered offset standing in for a missing first one): the header is sticky iff the
      last offset is past the header, hidden iff besides it went down on the last event. */
  lemma {:induction false} RunDependsOnLastTwo(h: Header, height: int, ys: seq<real>)
    requires ys != []
    ensures var prev := if |ys| == 1 then h.lastScroll else ys[|ys| - 2];
      var last := ys[|ys| - 1];
      var r := Run(h, height, ys);
      && r.lastScroll == last
      && (r.sticky <==> last > height as real)
      && (r.hidden <==> last > height as real && last > prev)
    decreases |ys|
  {
    if |ys| > 1 {
      var tail := ys[1..];
      RunDependsOnLastTwo(OnScroll(h, height, ys[0]), height, tail);
      assert tail[|tail| - 1] == ys[|ys| - 1];
      if |tail| > 1 {
        assert tail[|tail| - 2] == ys[|ys| - 2];
      } else {
        assert ys[|ys| - 2] == ys[0];
      }
    }
  }

  /** Scenario with a 100-pixel header: scrolling from 0 down to 250 makes the header sticky
      and hidden, scrolling back up to 150 shows it again, and 50.5 clears both classes. */
  lemma ScrollScenario()
    ensures Run(Initial, 100, [250.0]) == Header(250.0, true, true)
    ensures Run(Initial, 100, [250.0, 150.0]) == Header(150.0, true, false)
    ensures Run(Initial, 100, [250.0, 150.0, 50.5]) == Header(50.5, false, false)
  {
  }
}
