/** The navbar scroll effect (app.js, initNavbar): on every scroll event the
    navbar carries class `scrolled` exactly when the page is scrolled more than
    50 pixels. */
module NavbarScroll {
  /** The scroll offset, in CSS pixels, above which the navbar is `scrolled`. */
  const Threshold: real := 50.0

  const Scrolled: string := "scrolled"

  /** The class list after the scroll handler has run with offset `scrollY`. */
  function AfterScroll(classes: set<string>, scrollY: real): (r: set<string>)
    ensures Scrolled in r <==> scrollY > Threshold
  {
    if scrollY > Threshold then classes + {Scrolled} else classes - {Scrolled}
  }

  /** The navbar has `scrolled` iff `scrollY > 50`, whatever it had before, and
      no other class is touched. */
  lemma AfterScrollIff(classes: set<string>, scrollY: real)
    ensures Scrolled in AfterScroll(classes, scrollY) <==> scrollY > Threshold
    ensures AfterScroll(classes, scrollY) - {Scrolled} == classes - {Scrolled}
  {
  }

  /** Only the latest offset matters: a second event overrides the first, and
      repeating an event with the same offset changes nothing. */
  lemma AfterScrollLastWins(classes: set<string>, y1: real, y2: real)
    ensures AfterScroll(AfterScroll(classes, y1), y2) == AfterScroll(classes, y2)
    ensures AfterScroll(AfterScroll(classes, y1), y1) == AfterScroll(classes, y1)
  {
  }

  /** The `#navbar` element, whose class list the scroll handler edits in place. */
  class Navbar {
    var classList: set<string>

    constructor (classes: set<string>)
      ensures classList == classes
    {
      classList := classes;
    }

    /** The `scroll` listener: add `scrolled` past the threshold, remove it otherwise. */
    method OnScroll(scrollY: real)
      modifies this
      ensures classList == AfterScroll(old(classList), scrollY)
      ensures Scrolled in classList <==> scrollY > Threshold
    {
      if scrollY > Threshold {
        classList := classList + {Scrolled};
      } else {
        classList := classList - {Scrolled};
      }
    }
  }
}
