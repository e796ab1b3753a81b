/**
 The mobile menu: the hamburger button and the navigation list each carry an
 `active` class. Clicking the hamburger toggles both; clicking a link in the
 list, or pressing Escape anywhere in the document, removes both.
 */
module MobileMenu {

  datatype Menu = Menu(hamburger: bool, navLinks: bool)

  datatype Event =
    | HamburgerClick
    | LinkClick
    | KeyDown(key: string)

  const Closed := Menu(false, false)

  /** The two elements agree on whether the menu is open. */
  predicate Synced(m: Menu) {
    m.hamburger == m.navLinks
  }

  /** The events whose handlers remove `active` from both elements. */
  predicate Closes(e: Event) {
    e.LinkClick? || (e.KeyDown? && e.key == "Escape")
  }

  /**
   One event: the hamburger's click handler, a navigation link's click
   handler, or the document's keydown handler. Toggling flips each element's
   class on its own; any key other than Escape is ignored.
   */
  function Step(m: Menu, e: Event): (m': Menu)
    ensures e.HamburgerClick? ==> m'.hamburger == !m.hamburger && m'.navLinks == !m.navLinks
    ensures Closes(e) ==> m' == Closed
    ensures !e.HamburgerClick? && !Closes(e) ==> m' == m
  {
    match e
    case HamburgerClick => Menu(!m.hamburger, !m.navLinks)
    case LinkClick => Closed
    case KeyDown(key) => if key == "Escape" then Closed else m
  }

  /** Events dispatched one after another. */
  function Run(m: Menu, events: seq<Event>): Menu
    decreases |events|
  {
    if events == [] then m else Run(Step(m, events[0]), events[1..])
  }

  /** Every event keeps the two elements in agreement once they agree. */
  lemma StepKeepsSynced(m: Menu, e: Event)
    requires Synced(m)
    ensures Synced(Step(m, e))
  {
  }

  /** Toggling twice restores the state. */
  lemma ToggleTwice(m: Menu)
    ensures Step(Step(m, HamburgerClick), HamburgerClick) == m
  {
  }

  /** Closing is idempotent: a second link click or Escape changes nothing. */
  lemma CloseIdempotent(m: Menu, e: Event)
    requires Closes(e)
    ensures Step(Step(m, e), e) == Step(m, e)
  {
  }

  lemma {:induction false} RunKeepsSynced(m: Menu, events: seq<Event>)
    requires Synced(m)
    ensures Synced(Run(m, events))
    decreases |events|
  {
    if events != [] {
      StepKeepsSynced(m, events[0]);
      RunKeepsSynced(Step(m, events[0]), events[1..]);
    }
  }

  lemma {:induction false} RunSnoc(m: Menu, events: seq<Event>, e: Event)
    ensures Run(m, events + [e]) == Step(Run(m, events), e)
    decreases |events|
  {
    if events == [] {
      assert [] + [e] == [e];
      assert Run(Step(m, e), []) == Step(m, e);
    } else {
      assert (events + [e])[0] == events[0];
      assert (events + [e])[1..] == events[1..] + [e];
      RunSnoc(Step(m, events[0]), events[1..], e);
    }
  }

  /** Number of hamburger clicks among `events`. */
  function Toggles(events: seq<Event>): nat {
    if events == [] then 0
    else Toggles(events[..|events| - 1]) + (if events[|events| - 1].HamburgerClick? then 1 else 0)
  }

  /** Position of the last link click or Escape, or -1 when there is none. */
  function LastClose(events: seq<Event>): (k: int)
    ensures -1 <= k < |events|
  {
    if events == [] then -1
    else if Closes(events[|events| - 1]) then |events| - 1
    else LastClose(events[..|events| - 1])
  }

  predicate Odd(n: nat) {
    n % 2 == 1
  }

  /**
   Whether an element that started `open` is active after `events`, read off
   the event history instead of replaying it: after the last close, it is
   active iff the hamburger was clicked an odd number of times since; with no
   close at all, the starting state is flipped by every click.
   */
  function ActiveAfter(open: bool, events: seq<Event>): bool {
    var k := LastClose(events);
    if k == -1 then open != Odd(Toggles(events)) else Odd(Toggles(events[k + 1..]))
  }

  lemma TogglesSnoc(front: seq<Event>, e: Event)
    ensures Toggles(front + [e]) == Toggles(front) + (if e.HamburgerClick? then 1 else 0)
  {
    var events := front + [e];
    assert events[..|events| - 1] == front;
  }

  lemma LastCloseSnoc(front: seq<Event>, e: Event)
    ensures LastClose(front + [e]) == if Closes(e) then |front| else LastClose(front)
  {
    var events := front + [e];
    assert events[..|events| - 1] == front;
  }

  /** How one more event changes the predicted state: a click flips it, a close clears it, anything else keeps it. */
  lemma ActiveAfterSnoc(open: bool, front: seq<Event>, e: Event)
    ensures ActiveAfter(open, front + [e]) ==
              if e.HamburgerClick? then !ActiveAfter(open, front)
              else if Closes(e) then false
              else ActiveAfter(open, front)
  {
    LastCloseSnoc(front, e);
    if Closes(e) {
      SnocClose(open, front, e);
    } else if LastClose(front) == -1 {
      TogglesSnoc(front, e);
    } else {
      SnocAfterClose(open, front, e);
    }
  }

  lemma SnocClose(open: bool, front: seq<Event>, e: Event)
    requires Closes(e) && LastClose(front + [e]) == |front|
    ensures !ActiveAfter(open, front + [e])
  {
    assert (front + [e])[|front| + 1..] == [];
  }

  lemma SnocAfterClose(open: bool, front: seq<Event>, e: Event)
    requires !Closes(e) && LastClose(front) != -1 && LastClose(front + [e]) == LastClose(front)
    ensures ActiveAfter(open, front + [e]) == if e.HamburgerClick? then !ActiveAfter(open, front) else ActiveAfter(open, front)
  {
    var k := LastClose(front);
    assert (front + [e])[k + 1..] == front[k + 1..] + [e];
    TogglesSnoc(front[k + 1..], e);
  }

  /** Replaying the events gives, for each element, the state the history predicts. */
  lemma {:induction false} RunMatchesHistory(m: Menu, events: seq<Event>)
    ensures Run(m, events).hamburger == ActiveAfter(m.hamburger, events)
    ensures Run(m, events).navLinks == ActiveAfter(m.navLinks, events)
    decreases |events|
  {
    if events == [] {
      assert LastClose(events) == -1 && Toggles(events) == 0;
    } else {
      var n := |events| - 1;
      var front, e := events[..n], events[n];
      assert events == front + [e];
      RunMatchesHistory(m, front);
      RunSnoc(m, front, e);
      ActiveAfterSnoc(m.hamburger, front, e);
      ActiveAfterSnoc(m.navLinks, front, e);
    }
  }
}
