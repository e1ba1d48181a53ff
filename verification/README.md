# Portfolio page: verified model of its discrete UI rules

The portfolio's `app.js` is mostly browser glue around a 3D background. Between
the rendering code it holds five small decision rules, and this project models
each one in Dafny and proves what it promises:

- **Project filter** (`ProjectFilter`, `project_filter.dfy`). Clicking a
  `.filter-btn` clears `active` on every button and sets it on the clicked one.
  Each `.project-card` is then hidden, or shown and given the `fade-up`
  animation, by comparing its `data-category` with the button's `data-filter`.
  The value `all` shows every card. Buttons and cards are arrays of records, and
  the click is a method whose two loops update them in place.
- **Active nav link** (`NavLinks`, `nav_links.dfy`). The page name is the last
  `/`-separated piece of the pathname (`split('/').pop()`), or `index.html` when
  that piece is empty. Every `.nav-link` has `active` toggled to whether its
  `href` equals that name.
- **Navbar scroll effect** (`NavbarScroll`, `navbar_scroll.dfy`). On each scroll
  event the navbar's class list gains `scrolled` when `scrollY > 50` and loses it
  otherwise.
- **Scroll reveal** (`ScrollReveal`, `scroll_reveal.dfy`). When an observed
  `[data-reveal]` element intersects, it gets a stagger delay. The delay is
  `revealDelays[idx % 6]`, where `idx` is the element's position among the
  `[data-reveal]` elements under its parent. The element also gets class
  `revealed` and its skill bars are filled. Then it is unobserved. The observer
  is a class holding the elements and the set still observed.
- **Count-up counter** (`CountUp`, `count_up.dfy`). Each frame computes
  progress `min((now - start) / 1800, 1)` and shows
  `floor((1 - (1 - progress)^4) * target)`. While progress is below 1 it
  requests another frame. Otherwise it shows exactly `target` and stops.

Some behaviour of JavaScript is written out explicitly:

- An attribute that is absent is `Option.None`. `undefined === undefined` is
  true, so a filter button without `data-filter` shows the cards that have no
  `data-category`.
- `%` truncates toward zero (`JsRem`).
- `indexOf` returns -1 for a missing element.
- A table index outside the array reads as `undefined` (`None`).

Scroll offsets are `real`. Times are whole milliseconds. The ease curve is
computed exactly over the reals.

The callback keeps no pending/fired flag of its own: it reveals every
intersecting entry and calls `unobserve`. The model follows the code. It proves
that revealing twice is the same as revealing once, so an entry for an element
that was already revealed changes nothing. The observer's invariant records that
every element it no longer observes has been revealed.

## Model

| member | source | states |
|---|---|---|
| `ProjectFilter.Shows` | app.js:390 | a card is shown iff the filter is `all` or equals the card's category; its meaning is stated by `ApplyToCard` and `FilterHidesExactly` |
| `ProjectFilter.Activate` | app.js:385-386 | the buttons after a click keep their number; `ClickLeavesOneActive` and `ActivateKeepsFilters` state which one is active |
| `ProjectFilter.FilterCards` | app.js:389-397 | the cards after the filter keep their number; `FilterHidesExactly`, `FilterAllShowsEverything` and `VisibleCount` state which are hidden |
| `ProjectFilter.ApplyToCard` | app.js:389-396 | a card keeps its category; it is hidden iff the filter does not show its category; a shown card gets the fade-up animation and a hidden one keeps its old animation |
| `ProjectFilter.ClickLeavesOneActive` | app.js:385-386 | after clicking button k, button k is active, no other button is, and exactly one button is active |
| `ProjectFilter.ActivateKeepsFilters` | app.js:385-386 | a click changes only the `active` flags; every button keeps its `data-filter` |
| `ProjectFilter.FilterHidesExactly` | app.js:388-396 | a card is hidden iff the filter is not `all` and the card's category differs from it; categories never change; hidden cards keep their animation |
| `ProjectFilter.FilterAllShowsEverything` | app.js:390 | under the filter `all` no card is hidden |
| `ProjectFilter.ClickTwiceIsClickOnce` | app.js:384-397 | clicking the same button again leaves buttons and cards as one click did |
| `ProjectFilter.VisibleCount` | app.js:389-396 | the number of visible cards equals the number of cards in the chosen category, or all cards under `all` |
| `ProjectFilter.Click` | app.js:384-397 | the click handler leaves the buttons as `Activate` and the cards as `FilterCards` of their old contents under the clicked button's filter |
| `NavLinks.Split` | app.js:253 | `split('/')` yields at least one piece; no piece holds a `/`; there is exactly one piece iff the pathname has no `/` |
| `NavLinks.JoinSplit` | app.js:253 | joining the pieces with `/` gives back the pathname, so the split loses nothing |
| `NavLinks.PageNameIsAfterLastSlash` | app.js:253 | the popped piece is a suffix of the pathname, holds no `/`, and is either the whole pathname or preceded by a `/` (the text after the last `/`) |
| `NavLinks.PageName` | app.js:253 | the popped piece holds no `/`; `PageNameIsAfterLastSlash` states that it is the text after the last `/` |
| `NavLinks.CurrentPage` | app.js:253-254 | the current page name is never empty and never holds a `/` |
| `NavLinks.CurrentPageOfPath` | app.js:253-254 | an empty pathname or one ending in `/` gives `index.html`; any other gives its non-empty last segment |
| `NavLinks.MarkActive` | app.js:255-258 | the links after the update keep their number; `MarkActiveIff` states which are active |
| `NavLinks.MarkActiveIff` | app.js:255-258 | every link is updated: it is active iff its `href` equals the page name, and its `href` is unchanged |
| `NavLinks.MarkActiveIdempotent` | app.js:255-258 | running the update again for the same page changes nothing |
| `NavLinks.UpdateActiveNavLink` | app.js:252-259 | the loop leaves the links as `MarkActive` of their old contents for the current page of the pathname |
| `NavbarScroll.AfterScroll` | app.js:233-237 | after a scroll event the class list has `scrolled` iff `scrollY > 50`; `AfterScrollIff` adds that no other class changes |
| `NavbarScroll.Navbar.constructor` | app.js:228 | the navbar starts with the class list its markup gives it |
| `NavbarScroll.AfterScrollIff` | app.js:232-238 | after a scroll event the navbar has `scrolled` iff `scrollY > 50`; no other class changes |
| `NavbarScroll.AfterScrollLastWins` | app.js:232-238 | only the latest offset matters; repeating an event with the same offset changes nothing |
| `NavbarScroll.Navbar.OnScroll` | app.js:232-238 | the handler leaves the class list as `AfterScroll` of the old one, which has `scrolled` iff `scrollY > 50` |
| `ScrollReveal.JsRem` | app.js:293 | JavaScript's remainder: the dividend is the truncated quotient times n plus the remainder, which is in [0, n) for a non-negative dividend and in (-n, 0] for a negative one |
| `ScrollReveal.IndexOf` | app.js:291-292 | `indexOf` is -1 iff the element is absent; otherwise it is the first position holding the element |
| `ScrollReveal.StaggerDelay` | app.js:284-293 | for a non-negative index the delay is `(idx mod 6) / 10` seconds, between 0 and 0.5; for index -1 it is `undefined` |
| `ScrollReveal.Reveal` | app.js:289-298 | a revealed element has `revealed` and filled bars, and keeps its sibling list |
| `ScrollReveal.RevealDelayInTable` | app.js:291-293 | an element among its own siblings gets a delay that is in the table, namely the entry at its sibling position mod 6 |
| `ScrollReveal.RevealIdempotent` | app.js:288-299 | revealing an element a second time changes nothing |
| `ScrollReveal.RevealAll` | app.js:287-301 | the elements after a batch keep their number; `RevealAllOneShot` states which change and that a later batch leaves revealed ones alone |
| `ScrollReveal.RevealAllOneShot` | app.js:286-301 | elements a batch hit are left unchanged by any later batch; elements it did not hit are untouched |
| `ScrollReveal.RevealObserver.constructor` | app.js:304 | the observer starts out observing every `[data-reveal]` element |
| `ScrollReveal.RevealObserver.OnIntersection` | app.js:286-301 | each intersecting element is revealed and unobserved, other elements and entries change nothing, and the invariant is kept: every element no longer observed is revealed and a fixed point of revealing (one shot) |
| `CountUp.Progress` | app.js:335 | progress is at most 1, is exactly 1 iff the duration has elapsed, and is non-negative from the start time on |
| `CountUp.Ease` | app.js:336 | the ease-out quartic never exceeds 1; `EaseEnds` and `EaseMonotone` state its ends and its shape on [0, 1] |
| `CountUp.EaseEnds` | app.js:336 | the ease-out curve is 0 at progress 0 and 1 at progress 1 |
| `CountUp.EaseMonotone` | app.js:336 | on [0, 1] the ease-out curve stays within [0, 1] and never decreases |
| `CountUp.Shown` | app.js:337 | `Math.floor(ease * target)`; `ShownMonotone` and `ShownMonotoneNegative` state its bounds and direction |
| `CountUp.Display` | app.js:334-339 | the text after a frame; `DisplayMonotone`, `DisplayCountsDown`, `DisplayAtStart` and `DisplayAtEnd` state its behaviour |
| `CountUp.ProgressMonotone` | app.js:335 | progress never decreases as the frame time grows |
| `CountUp.ShownMonotoneNegative` | app.js:337 | for a negative target, the floored value lies in [target, 0] and never increases as the ease grows |
| `CountUp.ShownMonotone` | app.js:337 | for a non-negative target, the floored value lies in [0, target] and never decreases as the ease grows |
| `CountUp.DisplayCountsDown` | app.js:330-340 | for a negative target (`parseInt` accepts one), from the start time on the shown number stays in [target, 0] and never goes up from one frame to a later one |
| `CountUp.DisplayMonotone` | app.js:334-340 | for a non-negative target, from the start time on the shown number stays in [0, target] and never goes down from one frame to a later one |
| `CountUp.DisplayAtStart` | app.js:334-340 | at the start time the counter shows 0 |
| `CountUp.DisplayAtEnd` | app.js:335-339 | once the duration has elapsed the counter shows exactly the target |
| `CountUp.SnapAgreesWithCurve` | app.js:337-339 | snapping to the target agrees with the curve at progress 1 |
| `CountUp.Counter.constructor` | app.js:330-332 | starting a counter records its target and start time and requests a frame |
| `CountUp.Counter.Update` | app.js:334-340 | a frame shows `Display` for its time and requests another frame iff the duration has not elapsed; once it stops, the text is exactly the target |

## Left out

- The Three.js background and about-section scenes (app.js:15-164, 423-497) are not modelled. They are rendering-library calls driven by `Math.random` and trigonometry.
- The exponential smoothing of the camera, pointer and cursor trail (app.js:132-133, 149-150, 186-187) is not modelled. It is floating-point interpolation driven by animation frames.
- The tilt-card, hero-parallax and scroll-parallax transforms (app.js:265-277, 352-418) are not modelled. They are float arithmetic formatted into CSS strings.
- The contact form (app.js:502-552) is not modelled. It is a network request with timers.
- Cursor hover styling, smooth anchor scrolling and the page-load fade (app.js:169-222, 557-580) are not modelled. They are DOM side effects with no decision in them.
- The mobile menu toggle (app.js:243-249) is not modelled. It only toggles a class.
- The separate skill-bar observer (app.js:307-317) is not modelled. The reveal callback's bar filling is modelled as one flag per element, not bar by bar.
- The counter observer's dispatch (app.js:326-333, 341-346) is not modelled. That covers skipping entries that do not intersect and calling `unobserve`. Starting a counter is the `Counter` constructor.
- The browser's scheduling is not modelled. That covers IntersectionObserver delivery and `requestAnimationFrame` timing. The model covers what each callback does once it is called.
- The observer's visibility threshold and root margin are not modelled.
- Floating-point rounding is not modelled. Progress and the ease curve are exact over the reals. A `data-target` that `parseInt` reads as `NaN` is not modelled: targets are integers.
- Strings are not converted. `textContent` is the shown integer, and `transitionDelay` is the delay in seconds, not the CSS string `"0.1s"`.
- CountUp.DisplayMonotone: the bounds and monotonicity (and those of CountUp.DisplayCountsDown for negative targets) are stated only for frames whose timestamp is not earlier than the start time. The source does not guarantee that a frame's timestamp is not earlier than `performance.now()` at the start.
- ScrollReveal.StaggerDelay: for negative indices it states only the case -1, the one `indexOf` can produce.
