/**
  The smart navbar: on every scroll event the bar hides while the page
  moves down past the first 100 pixels, shows again otherwise, and is
  solid below the first 50 pixels and transparent at the top.
*/
module Navbar {

  const HIDE_AFTER: real := 100.0
  const SOLID_AFTER: real := 50.0

  /** The remembered position and the bar's three classes. */
  datatype NavbarState = NavbarState(lastScrollY: real, hidden: bool, solid: bool, transparent: bool)

  /** The effect of one scroll event that finds the page at `currentScrollY`. */
  function Scrolled(s: NavbarState, currentScrollY: real): (t: NavbarState)
    ensures t.lastScrollY == currentScrollY
    ensures t.hidden <==> currentScrollY > s.lastScrollY && currentScrollY > HIDE_AFTER
    ensures t.solid <==> currentScrollY > SOLID_AFTER
    ensures t.solid != t.transparent
    ensures t.hidden ==> t.solid
  {
    var scrollingDown := currentScrollY > s.lastScrollY && currentScrollY > HIDE_AFTER;
    var solid := currentScrollY > SOLID_AFTER;
    NavbarState(currentScrollY, scrollingDown, solid, !solid)
  }

  /** The state after a series of scroll events, in order. */
  function AfterScrolls(s: NavbarState, positions: seq<real>): NavbarState
    decreases |positions|
  {
    if positions == [] then s else AfterScrolls(Scrolled(s, positions[0]), positions[1..])
  }

  /**
    After any non-empty series of scroll events, the bar depends only on
    the last position and the one before it: the handler remembers nothing
    else, and whatever classes the page started with are gone.
  */
  lemma {:induction false} OnlyLastTwoPositionsMatter(s: NavbarState, positions: seq<real>)
    requires |positions| >= 1
    decreases |positions|
    ensures var n := |positions|;
            var current := positions[n - 1];
            var previous := if n == 1 then s.lastScrollY else positions[n - 2];
            var t := AfterScrolls(s, positions);
            && t.lastScrollY == current
            && (t.hidden <==> current > previous && current > HIDE_AFTER)
            && (t.solid <==> current > SOLID_AFTER)
            && t.transparent == !t.solid
  {
    var next := Scrolled(s, positions[0]);
    if |positions| > 1 {
      OnlyLastTwoPositionsMatter(next, positions[1..]);
      assert positions[1..][|positions| - 2] == positions[|positions| - 1];
      if |positions| > 2 {
        assert positions[1..][|positions| - 3] == positions[|positions| - 2];
      }
    }
  }

  /** The navbar element's classes and the handler's `lastScrollY`. */
  class SmartNavbar {
    var lastScrollY: real
    var hidden: bool
    var solid: bool
    var transparent: bool

    function State(): NavbarState
      reads this
    {
      NavbarState(lastScrollY, hidden, solid, transparent)
    }

    /** Script load: the position at that time and the classes the markup gives the bar. */
    constructor (scrollY: real, markup: NavbarState)
      ensures State() == markup.(lastScrollY := scrollY)
    {
      lastScrollY := scrollY;
      hidden, solid, transparent := markup.hidden, markup.solid, markup.transparent;
    }

    /** The `scroll` listener. */
    method OnScroll(currentScrollY: real)
      modifies this
      ensures State() == Scrolled(old(State()), currentScrollY)
    {
      if currentScrollY > lastScrollY && currentScrollY > HIDE_AFTER {
        hidden := true;
      } else {
        hidden := false;
      }
      if currentScrollY > SOLID_AFTER {
        solid := true;
        transparent := false;
      } else {
        solid := false;
        transparent := true;
      }
      lastScrollY := currentScrollY;
    }
  }
}
