/** The scroll-reveal observer (app.js, initScrollReveal): when a `[data-reveal]`
    element intersects the viewport it gets a staggered transition delay, class
    `revealed` and filled skill bars, and is unobserved so that this happens at
    most once. */
module ScrollReveal {
  import opened Wrappers

  /** `revealDelays`, in seconds. */
  const RevealDelays: seq<real> := [0.0, 0.1, 0.2, 0.3, 0.4, 0.5]

  /** Division of a non-negative number, and of its negation truncated toward zero. */
  lemma TruncatedDivision(m: int, n: int)
    requires m >= 0 && n > 0
    ensures 0 <= m % n < n
    ensures m == (m / n) * n + m % n
    ensures -m == (-(m / n)) * n + -(m % n)
    ensures m < n ==> m % n == m
  {
    var q, rem := m / n, m % n;
    assert m == q * n + rem;
    assert (-q) * n == -(q * n);
    if m < n {
      assert q == 0;
    }
  }

  /** JavaScript's `%` on integers: the remainder takes the sign of the dividend. */
  function JsRem(a: int, n: int): (r: int)
    requires n > 0
    ensures a >= 0 ==> 0 <= r < n
    ensures a < 0 ==> -n < r <= 0
    ensures -n < a < n ==> r == a
    ensures a == (if a >= 0 then a / n else -((-a) / n)) * n + r
  {
    if a >= 0 then
      TruncatedDivision(a, n);
      a % n
    else
      TruncatedDivision(-a, n);
      -((-a) % n)
  }

  /** `Array.prototype.indexOf`: the first position of `x` in `s`, or -1. */
  function IndexOf(s: seq<nat>, x: nat): (r: int)
    ensures -1 <= r < |s|
    ensures r == -1 <==> x !in s
    ensures r >= 0 ==> s[r] == x && x !in s[..r]
  {
    if s == [] then -1
    else if s[0] == x then 0
    else
      var k := IndexOf(s[1..], x);
      assert k >= 0 ==> s[..k + 1] == [s[0]] + s[1..][..k];
      if k == -1 then -1 else k + 1
  }

  /** `revealDelays[idx % revealDelays.length]`; `None` is JavaScript's `undefined`
      for an index outside the table. */
  function StaggerDelay(idx: int): (d: Option<real>)
    ensures idx >= 0 ==> d == Some((idx % 6) as real / 10.0)
    ensures idx >= 0 ==> 0.0 <= d.value <= 0.5
    ensures idx == -1 ==> d == None
  {
    var j := JsRem(idx, |RevealDelays|);
    if 0 <= j < |RevealDelays| then Some(RevealDelays[j]) else None
  }

  /** A `[data-reveal]` element: the identities of the `[data-reveal]` elements
      under its parent, in document order; whether it has class `revealed`; its
      `style.transitionDelay`; and whether its `.skill-fill` bars have been given
      their `data-width`. */
  datatype RevealElement = RevealElement(
    siblings: seq<nat>, revealed: bool, transitionDelay: Option<real>, barsFilled: bool)

  /** An IntersectionObserver entry: the element (its position in the page's
      list of `[data-reveal]` elements) and whether it intersects. */
  datatype Entry = Entry(target: nat, isIntersecting: bool)

  /** What the callback does to element `id`. */
  function Reveal(e: RevealElement, id: nat): (r: RevealElement)
    ensures r.revealed && r.barsFilled && r.siblings == e.siblings
  {
    e.(transitionDelay := StaggerDelay(IndexOf(e.siblings, id)), revealed := true, barsFilled := true)
  }

  /** An element that is among its own siblings gets a delay from the table,
      the one at its sibling position modulo 6. */
  lemma RevealDelayInTable(e: RevealElement, id: nat)
    requires id in e.siblings
    ensures Reveal(e, id).transitionDelay.Some?
    ensures Reveal(e, id).transitionDelay.value in RevealDelays
    ensures Reveal(e, id).transitionDelay.value == RevealDelays[IndexOf(e.siblings, id) % 6]
  {
  }

  /** Revealing an element a second time changes nothing. */
  lemma RevealIdempotent(e: RevealElement, id: nat)
    ensures Reveal(Reveal(e, id), id) == Reveal(e, id)
  {
  }

  /** The elements that some entry of a batch reports as intersecting. */
  function Hits(entries: seq<Entry>): (r: set<nat>)
  {
    set i | 0 <= i < |entries| && entries[i].isIntersecting :: entries[i].target
  }

  /** The elements after a batch that hit `hits`. */
  function RevealAll(es: seq<RevealElement>, hits: set<nat>): (r: seq<RevealElement>)
    ensures |r| == |es|
  {
    seq(|es|, i requires 0 <= i < |es| => if i in hits then Reveal(es[i], i) else es[i])
  }

  /** One shot: once an element has been revealed, a later batch that reports it
      again leaves it as it is, and elements no batch hit are untouched. */
  lemma RevealAllOneShot(es: seq<RevealElement>, first: set<nat>, later: set<nat>)
    ensures |RevealAll(es, first)| == |es|
    ensures forall i :: 0 <= i < |es| && i in first ==>
      RevealAll(RevealAll(es, first), later)[i] == RevealAll(es, first)[i]
    ensures forall i :: 0 <= i < |es| && i !in first ==> RevealAll(es, first)[i] == es[i]
  {
  }

  /** The observer created by initScrollReveal, with the elements it watches. */
  class RevealObserver {
    const elements: array<RevealElement>
    var observed: set<nat>

    /** Every element is among its own siblings (it is a `[data-reveal]` descendant
        of its parent), only elements of the page are observed, and an element no
        longer observed has been revealed, so revealing it again changes nothing. */
    ghost predicate Valid()
      reads this, elements
    {
      (forall i :: 0 <= i < elements.Length ==> i in elements[i].siblings) &&
      (forall i :: i in observed ==> i < elements.Length) &&
      (forall i :: 0 <= i < elements.Length && i !in observed ==>
         elements[i].revealed && Reveal(elements[i], i) == elements[i])
    }

    /** `elements.forEach((el) => observer.observe(el))`. */
    constructor (els: array<RevealElement>)
      requires forall i :: 0 <= i < els.Length ==> i in els[i].siblings
      ensures Valid()
      ensures elements == els
      ensures forall i: nat :: i in observed <==> i < els.Length
    {
      var watched: set<nat> := {};
      for i := 0 to els.Length
        invariant forall j: nat :: j in watched <==> j < i
      {
        watched := watched + {i};
      }
      elements := els;
      observed := watched;
    }

    /** The observer callback for one batch of entries: each intersecting element
        is revealed and unobserved; non-intersecting entries do nothing. */
    method OnIntersection(entries: seq<Entry>)
      requires Valid()
      requires forall i :: 0 <= i < |entries| ==> entries[i].target < elements.Length
      modifies this, elements
      ensures Valid()
      ensures observed == old(observed) - Hits(entries)
      ensures elements[..] == RevealAll(old(elements[..]), Hits(entries))
    {
      for k := 0 to |entries|
        invariant Valid()
        invariant observed == old(observed) - Hits(entries[..k])
        invariant forall i :: 0 <= i < elements.Length ==>
          elements[i] == if i in Hits(entries[..k]) then Reveal(old(elements[i]), i) else old(elements[i])
      {
        assert entries[..k + 1] == entries[..k] + [entries[k]];
        var entry := entries[k];
        if entry.isIntersecting {
          var el := entry.target;
          var idx := IndexOf(elements[el].siblings, el);
          var delay := StaggerDelay(idx);
          RevealIdempotent(elements[el], el);
          RevealIdempotent(old(elements[el]), el);
          elements[el] := elements[el].(transitionDelay := delay, revealed := true, barsFilled := true);
          observed := observed - {el};
          assert Hits(entries[..k + 1]) == Hits(entries[..k]) + {el};
        } else {
          assert Hits(entries[..k + 1]) == Hits(entries[..k]);
        }
      }
      assert entries[..|entries|] == entries;
    }
  }
}
