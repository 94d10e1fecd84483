/** The mobile navigation: the toggle button's `aria-expanded` and the
    navigation's `is-open` class, and the four listeners that change them. */
module Nav {

  /** `expanded`: the button's `aria-expanded` reads `"true"`; `open`: the nav
      carries `is-open`. */
  datatype NavState = NavState(expanded: bool, open: bool)

  const Closed: NavState := NavState(false, false)

  /** The two flags tell the same story. */
  predicate Consistent(s: NavState) {
    s.expanded == s.open
  }

  /** A click on the toggle: both flags get the negation of `aria-expanded`. */
  function Toggled(s: NavState): (r: NavState)
    ensures Consistent(r) && r.open == !s.expanded
  {
    NavState(!s.expanded, !s.expanded)
  }

  /** A click anywhere on the document: closes only when it lands outside the
      header and the nav is open. */
  function AfterDocumentClick(s: NavState, insideHeader: bool): (r: NavState)
    ensures r == s || r == Closed
    ensures insideHeader ==> r == s
  {
    if !insideHeader && s.open then Closed else s
  }

  /** A key press: closes only on Escape while the nav is open. */
  function AfterKeyDown(s: NavState, key: string): (r: NavState)
    ensures r == s || r == Closed
    ensures key != "Escape" ==> r == s
  {
    if key == "Escape" && s.open then Closed else s
  }

  /** A toggle click always leaves the flags consistent; from a consistent
      state it flips both, and two clicks return to the start. */
  lemma ToggleFlipsBoth(s: NavState)
    ensures Consistent(Toggled(s))
    ensures Toggled(s).open == !s.expanded
    ensures Consistent(s) ==> Toggled(s).open == !s.open && Toggled(Toggled(s)) == s
  {
  }

  /** The closing events keep consistent flags consistent; each either closes
      an open nav or changes nothing, and closing is idempotent. */
  lemma ClosingEvents(s: NavState, insideHeader: bool, key: string)
    requires Consistent(s)
    ensures Consistent(AfterDocumentClick(s, insideHeader)) && Consistent(AfterKeyDown(s, key))
    ensures s.open ==> !insideHeader ==> AfterDocumentClick(s, insideHeader) == Closed
    ensures s.open ==> AfterKeyDown(s, "Escape") == Closed
    ensures AfterKeyDown(AfterKeyDown(s, key), key) == AfterKeyDown(s, key)
    ensures !s.open ==> AfterDocumentClick(s, insideHeader) == s && AfterKeyDown(s, key) == s
  {
  }

  /** A toggle click bubbles up to the document listener. With the button
      inside the header, that second listener leaves the toggled state alone;
      with a button outside it, one click could never leave the nav open. */
  lemma ToggleClickBubbles(s: NavState)
    ensures AfterDocumentClick(Toggled(s), true) == Toggled(s)
    ensures AfterDocumentClick(Toggled(s), false) == Closed
  {
  }

  /** The toggle button and the navigation, both present on the page. */
  class NavMenu {
    var expanded: bool
    var open: bool

    function State(): NavState
      reads this
    {
      NavState(expanded, open)
    }

    constructor (expanded: bool, open: bool)
      ensures State() == NavState(expanded, open)
    {
      this.expanded := expanded;
      this.open := open;
    }

    /** Listener on the toggle button. */
    method ToggleClick()
      modifies this
      ensures State() == Toggled(old(State()))
    {
      var isOpen := expanded;
      expanded := !isOpen;
      open := !isOpen;
    }

    /** Listener on every nav link. */
    method LinkClick()
      modifies this
      ensures State() == Closed
    {
      expanded := false;
      open := false;
    }

    /** Listener on the document for clicks. */
    method DocumentClick(insideHeader: bool)
      modifies this
      ensures State() == AfterDocumentClick(old(State()), insideHeader)
    {
      if !insideHeader && open {
        expanded := false;
        open := false;
      }
    }

    /** Listener on the document for key presses (moving focus back to the
        toggle is not modelled). */
    method KeyDown(key: string)
      modifies this
      ensures State() == AfterKeyDown(old(State()), key)
    {
      if key == "Escape" && open {
        expanded := false;
        open := false;
      }
    }
  }
}
