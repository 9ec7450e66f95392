/**
 The navigation bar's two flags: `isScrolled`, recomputed on every scroll
 event and choosing the opaque style, and `isMobileMenuOpen`, flipped by the
 menu button and cleared by a click on any link of the mobile panel.
 */
module Navbar {

  /** The scroll offset, in pixels, beyond which the bar turns opaque. */
  const ScrollThreshold: real := 50.0

  datatype NavState = NavState(isScrolled: bool, isMobileMenuOpen: bool)

  /** The state on mount; it is not recomputed until the first scroll event. */
  const Initial: NavState := NavState(false, false)

  /** A scroll event with the page's `window.scrollY`, a press of the menu button,
      or a click on one of the mobile panel's links (the desktop links have no handler). */
  datatype NavEvent = Scroll(scrollY: real) | MenuButton | MobileLink

  /** `handleScroll`: the flag is recomputed from the offset alone. */
  function OnScroll(s: NavState, scrollY: real): (r: NavState)
    ensures r.isScrolled <==> scrollY > ScrollThreshold
    ensures r.isMobileMenuOpen == s.isMobileMenuOpen
  {
    s.(isScrolled := scrollY > ScrollThreshold)
  }

  /** `setIsMobileMenuOpen(!isMobileMenuOpen)`. */
  function OnMenuButton(s: NavState): (r: NavState)
    ensures r.isMobileMenuOpen != s.isMobileMenuOpen
    ensures r.isScrolled == s.isScrolled
  {
    s.(isMobileMenuOpen := !s.isMobileMenuOpen)
  }

  /** `setIsMobileMenuOpen(false)`. */
  function OnMobileLink(s: NavState): (r: NavState)
    ensures !r.isMobileMenuOpen
    ensures r.isScrolled == s.isScrolled
  {
    s.(isMobileMenuOpen := false)
  }

  function Step(s: NavState, e: NavEvent): NavState {
    match e
    case Scroll(y) => OnScroll(s, y)
    case MenuButton => OnMenuButton(s)
    case MobileLink => OnMobileLink(s)
  }

  /** The state after `events`, oldest first. */
  function Run(s: NavState, events: seq<NavEvent>): NavState
    decreases |events|
  {
    if events == [] then s else Step(Run(s, events[..|events| - 1]), events[|events| - 1])
  }

  /** Pressing the menu button twice changes nothing. */
  lemma MenuButtonTwice(s: NavState)
    ensures OnMenuButton(OnMenuButton(s)) == s
  {
  }

  /** Opening the menu and then following a link leaves it closed, whatever came before. */
  lemma LinkAfterOpenCloses(s: NavState, events: seq<NavEvent>)
    ensures !Run(s, events + [MenuButton, MobileLink]).isMobileMenuOpen
    ensures Run(s, events + [MenuButton, MobileLink]).isScrolled == Run(s, events).isScrolled
  {
    var es := events + [MenuButton, MobileLink];
    assert es[..|es| - 1] == events + [MenuButton];
    assert es[..|es| - 1][..|es| - 2] == events;
  }

  /** The number of menu-button presses since the last link click (or since mount). */
  function PressesSinceLastLink(events: seq<NavEvent>): nat
    decreases |events|
  {
    if events == [] then 0
    else
      var last := events[|events| - 1];
      var before := PressesSinceLastLink(events[..|events| - 1]);
      if last.MobileLink? then 0 else if last.MenuButton? then before + 1 else before
  }

  /** From mount, the menu is open exactly when an odd number of button presses
      followed the last link click; scroll events do not affect it. */
  lemma {:induction false} MenuOpenParity(events: seq<NavEvent>)
    ensures Run(Initial, events).isMobileMenuOpen <==> PressesSinceLastLink(events) % 2 == 1
    decreases |events|
  {
    if events != [] {
      MenuOpenParity(events[..|events| - 1]);
    }
  }

  /** `events[i]` is the latest scroll event and reported an offset above 50. */
  ghost predicate LatestScrollAbove(events: seq<NavEvent>, i: int) {
    && 0 <= i < |events|
    && events[i].Scroll? && events[i].scrollY > ScrollThreshold
    && forall j :: i < j < |events| ==> !events[j].Scroll?
  }

  /** From mount, the bar is in its scrolled style exactly when the latest scroll
      event reported an offset above 50; with no scroll event yet it is not. */
  lemma {:induction false} ScrolledIffLastScrollPast(events: seq<NavEvent>)
    ensures Run(Initial, events).isScrolled <==> exists i :: LatestScrollAbove(events, i)
    decreases |events|
  {
    if events != [] {
      var n := |events| - 1;
      var init := events[..n];
      ScrolledIffLastScrollPast(init);
      if events[n].Scroll? {
        if events[n].scrollY > ScrollThreshold {
          assert LatestScrollAbove(events, n);
        }
      } else {
        if exists i :: LatestScrollAbove(init, i) {
          var i :| LatestScrollAbove(init, i);
          forall j | i < j < |events|
            ensures !events[j].Scroll?
          {
            if j < n {
              assert events[j] == init[j];
            }
          }
          assert LatestScrollAbove(events, i);
        }
        if exists i :: LatestScrollAbove(events, i) {
          var i :| LatestScrollAbove(events, i);
          forall j | i < j < |init|
            ensures !init[j].Scroll?
          {
            assert init[j] == events[j];
          }
          assert LatestScrollAbove(init, i);
        }
      }
    }
  }

  /** One scroll event per offset in `ys`. */
  function Scrolls(ys: seq<real>): (r: seq<NavEvent>)
    ensures |r| == |ys|
    ensures forall i :: 0 <= i < |ys| ==> r[i] == Scroll(ys[i])
  {
    seq(|ys|, i requires 0 <= i < |ys| => Scroll(ys[i]))
  }

  /** Whether the bar is in its scrolled style after the `i`-th offset of `ys`. */
  function ScrolledAfter(ys: seq<real>, i: nat): bool
    requires i < |ys|
  {
    Run(Initial, Scrolls(ys[..i + 1])).isScrolled
  }

  /** After a run of scroll events the style depends on the latest offset only. */
  lemma ScrolledAfterIsLatest(ys: seq<real>, i: nat)
    requires i < |ys|
    ensures ScrolledAfter(ys, i) <==> ys[i] > ScrollThreshold
  {
  }

  /** Scrolling steadily down (offsets never decreasing) from at most 50 to above 50
      switches the style exactly once, at the first offset above 50, and never back. */
  lemma ScrollingDownFlipsOnce(ys: seq<real>)
    requires forall i, j :: 0 <= i <= j < |ys| ==> ys[i] <= ys[j]
    requires |ys| >= 1 && ys[0] <= ScrollThreshold < ys[|ys| - 1]
    ensures forall i, j :: 0 <= i <= j < |ys| && ScrolledAfter(ys, i) ==> ScrolledAfter(ys, j)
    ensures exists k :: 0 < k < |ys| && !ScrolledAfter(ys, k - 1) && ScrolledAfter(ys, k)
    ensures forall k1, k2 ::
              (&& 0 < k1 < |ys| && 0 < k2 < |ys|
               && !ScrolledAfter(ys, k1 - 1) && ScrolledAfter(ys, k1)
               && !ScrolledAfter(ys, k2 - 1) && ScrolledAfter(ys, k2)) ==> k1 == k2
  {
    forall i, j | 0 <= i <= j < |ys| && ScrolledAfter(ys, i)
      ensures ScrolledAfter(ys, j)
    {
      ScrolledAfterIsLatest(ys, i);
      ScrolledAfterIsLatest(ys, j);
    }
    var k := FirstAbove(ys);
    ScrolledAfterIsLatest(ys, k - 1);
    ScrolledAfterIsLatest(ys, k);
    forall k1, k2 |
      && 0 < k1 < |ys| && 0 < k2 < |ys|
      && !ScrolledAfter(ys, k1 - 1) && ScrolledAfter(ys, k1)
      && !ScrolledAfter(ys, k2 - 1) && ScrolledAfter(ys, k2)
      ensures k1 == k2
    {
      ScrolledAfterIsLatest(ys, k1 - 1);
      ScrolledAfterIsLatest(ys, k1);
      ScrolledAfterIsLatest(ys, k2 - 1);
      ScrolledAfterIsLatest(ys, k2);
    }
  }

  /** The index of the first offset above the threshold. */
  function FirstAbove(ys: seq<real>): (k: nat)
    requires |ys| >= 1 && ys[0] <= ScrollThreshold < ys[|ys| - 1]
    ensures 0 < k < |ys| && ys[k - 1] <= ScrollThreshold < ys[k]
    decreases |ys|
  {
    if ys[|ys| - 2] <= ScrollThreshold then |ys| - 1 else FirstAbove(ys[..|ys| - 1])
  }
}
