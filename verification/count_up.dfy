/** The count-up animation of the hero statistics (app.js, initCounters): each
    frame shows the eased fraction of the target, and once the duration has
    elapsed the text is set to exactly the target and no further frame is
    requested. Time is in whole milliseconds; the ease curve is taken over the
    reals. */
module CountUp {
  /** `duration`, in milliseconds. */
  const Duration: int := 1800

  /** `Math.min((now - start) / duration, 1)`. */
  function Progress(start: int, now: int): (p: real)
    ensures p <= 1.0
    ensures p == 1.0 <==> now - start >= Duration
    ensures start <= now ==> 0.0 <= p
  {
    var raw := (now - start) as real / Duration as real;
    if raw < 1.0 then raw else 1.0
  }

  function Square(x: real): (r: real)
    ensures r >= 0.0
  {
    x * x
  }

  /** The ease-out quartic `1 - (1 - p)^4`. */
  function Ease(p: real): (e: real)
    ensures e <= 1.0
  {
    1.0 - Square(Square(1.0 - p))
  }

  /** `Math.floor(ease * target)`: the number shown for an eased fraction. */
  function Shown(ease: real, target: int): (n: int)
  {
    (ease * target as real).Floor
  }

  /** The text of the counter after the frame at time `now`. */
  function Display(start: int, now: int, target: int): (n: int)
  {
    var p := Progress(start, now);
    if p < 1.0 then Shown(Ease(p), target) else target
  }

  lemma SquareMonotone(x: real, y: real)
    requires 0.0 <= x <= y
    ensures 0.0 <= Square(x) <= Square(y)
  {
  }

  /** The curve starts at 0 and ends at 1. */
  lemma EaseEnds()
    ensures Ease(0.0) == 0.0 && Ease(1.0) == 1.0
  {
    assert Square(1.0) == 1.0;
    assert Square(0.0) == 0.0;
  }

  /** The curve stays within [0, 1] and never decreases. */
  lemma EaseMonotone(p: real, q: real)
    requires 0.0 <= p <= q <= 1.0
    ensures 0.0 <= Ease(p) <= Ease(q) <= 1.0
  {
    var x, y := 1.0 - q, 1.0 - p;
    SquareMonotone(x, y);
    SquareMonotone(y, 1.0);
    var sx, sy := Square(x), Square(y);
    SquareMonotone(sx, sy);
    SquareMonotone(sy, 1.0);
    assert Ease(p) == 1.0 - Square(sy);
    assert Ease(q) == 1.0 - Square(sx);
  }

  /** Progress never decreases as time goes on. */
  lemma ProgressMonotone(start: int, t1: int, t2: int)
    requires t1 <= t2
    ensures Progress(start, t1) <= Progress(start, t2)
  {
  }

  /** A larger eased fraction never shows a smaller number, and the number lies
      between 0 and the target. */
  lemma ShownMonotone(e1: real, e2: real, target: int)
    requires 0.0 <= e1 <= e2 <= 1.0 && target >= 0
    ensures 0 <= Shown(e1, target) <= Shown(e2, target) <= target
  {
  }

  /** For a negative target a larger eased fraction never shows a larger number,
      and the number lies between the target and 0. */
  lemma ShownMonotoneNegative(e1: real, e2: real, target: int)
    requires 0.0 <= e1 <= e2 <= 1.0 && target < 0
    ensures target <= Shown(e2, target) <= Shown(e1, target) <= 0
  {
  }

  /** From the start time on, the counter shows a number between 0 and the
      target that never goes down from one frame to a later one. */
  lemma DisplayMonotone(start: int, t1: int, t2: int, target: int)
    requires start <= t1 <= t2 && target >= 0
    ensures 0 <= Display(start, t1, target) <= Display(start, t2, target) <= target
  {
    var p1, p2 := Progress(start, t1), Progress(start, t2);
    ProgressMonotone(start, t1, t2);
    if p2 < 1.0 {
      EaseMonotone(p1, p2);
      ShownMonotone(Ease(p1), Ease(p2), target);
    } else if p1 < 1.0 {
      EaseMonotone(p1, 1.0);
      ShownMonotone(Ease(p1), 1.0, target);
    }
  }

  /** For a negative target the counter counts down: from the start time on it
      shows a number between the target and 0 that never goes up. */
  lemma DisplayCountsDown(start: int, t1: int, t2: int, target: int)
    requires start <= t1 <= t2 && target < 0
    ensures target <= Display(start, t2, target) <= Display(start, t1, target) <= 0
  {
    var p1, p2 := Progress(start, t1), Progress(start, t2);
    ProgressMonotone(start, t1, t2);
    if p2 < 1.0 {
      EaseMonotone(p1, p2);
      ShownMonotoneNegative(Ease(p1), Ease(p2), target);
    } else if p1 < 1.0 {
      EaseMonotone(p1, 1.0);
      ShownMonotoneNegative(Ease(p1), 1.0, target);
    }
  }

  /** At the start time nothing has elapsed and the counter shows 0. */
  lemma DisplayAtStart(start: int, target: int)
    ensures Display(start, start, target) == 0
  {
  }

  /** From the end of the duration on, the counter shows exactly the target. */
  lemma DisplayAtEnd(start: int, now: int, target: int)
    requires now - start >= Duration
    ensures Display(start, now, target) == target
  {
  }

  /** Snapping to the target agrees with the curve: at full progress the curve
      itself already gives the target. */
  lemma SnapAgreesWithCurve(target: int)
    ensures Shown(Ease(1.0), target) == target
  {
  }

  /** One `[data-target]` element being counted up. */
  class Counter {
    const target: int
    const start: int
    var text: int
    var frameRequested: bool

    /** The observer callback: records the start time and requests the first frame. */
    constructor (target: int, start: int, text: int)
      ensures this.target == target && this.start == start && this.text == text
      ensures frameRequested
    {
      this.target := target;
      this.start := start;
      this.text := text;
      frameRequested := true;
    }

    /** `update(now)`: show the eased value; request another frame while progress
        is below 1, otherwise show exactly the target and stop. */
    method Update(now: int)
      modifies this
      ensures text == Display(start, now, target)
      ensures frameRequested <==> now - start < Duration
      ensures !frameRequested ==> text == target
    {
      var progress := Progress(start, now);
      var ease := Ease(progress);
      text := Shown(ease, target);
      if progress < 1.0 {
        frameRequested := true;
      } else {
        text := target;
        frameRequested := false;
      }
    }
  }
}
