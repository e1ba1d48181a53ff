/** The project filter: clicking a `.filter-btn` makes that button the only
    active one and hides every `.project-card` whose category it does not
    select (app.js, initProjectFilter). */
module ProjectFilter {
  import opened Wrappers

  /** A `.filter-btn`: its `data-filter` attribute and whether it has class `active`. */
  datatype FilterButton = FilterButton(filter: Option<string>, active: bool)

  /** A `.project-card`: its `data-category` attribute, whether it has class
      `hidden`, and its inline `style.animation`. */
  datatype ProjectCard = ProjectCard(category: Option<string>, hidden: bool, animation: string)

  /** The filter value that selects every card. */
  const All: string := "all"

  /** The animation restarted on every card that is shown. */
  const FadeUp: string := "fade-up 0.4s cubic-bezier(0.4, 0, 0.2, 1) forwards"

  /** Whether a card of `category` is shown under `filter`. Both are attributes
      that may be missing; JavaScript's `===` makes two missing ones equal. */
  predicate Shows(filter: Option<string>, category: Option<string>)
  {
    filter == Some(All) || category == filter
  }

  /** One card after the filter has been applied to it. */
  function ApplyToCard(c: ProjectCard, filter: Option<string>): (r: ProjectCard)
    ensures r.category == c.category
    ensures r.hidden != Shows(filter, c.category)
    ensures r.animation == if Shows(filter, c.category) then FadeUp else c.animation
  {
    if Shows(filter, c.category) then c.(hidden := false, animation := FadeUp)
    else c.(hidden := true)
  }

  /** The buttons after button `k` was clicked. */
  function Activate(bs: seq<FilterButton>, k: int): (r: seq<FilterButton>)
    ensures |r| == |bs|
  {
    seq(|bs|, i requires 0 <= i < |bs| => bs[i].(active := i == k))
  }

  /** The cards after the filter has been applied to each of them. */
  function FilterCards(cs: seq<ProjectCard>, filter: Option<string>): (r: seq<ProjectCard>)
    ensures |r| == |cs|
  {
    seq(|cs|, i requires 0 <= i < |cs| => ApplyToCard(cs[i], filter))
  }

  /** The number of buttons that carry `active`. */
  function CountActive(bs: seq<FilterButton>): (n: nat)
    ensures n <= |bs|
  {
    if bs == [] then 0
    else CountActive(bs[..|bs| - 1]) + (if bs[|bs| - 1].active then 1 else 0)
  }

  /** Counting the active buttons of a row in which exactly position `k` is active. */
  lemma {:induction false} CountOnlyAt(bs: seq<FilterButton>, k: int)
    requires forall i :: 0 <= i < |bs| ==> bs[i].active == (i == k)
    ensures CountActive(bs) == if 0 <= k < |bs| then 1 else 0
  {
    if bs != [] {
      CountOnlyAt(bs[..|bs| - 1], k);
    }
  }

  /** After a click exactly one filter button is active, and it is the clicked one. */
  lemma ClickLeavesOneActive(bs: seq<FilterButton>, k: nat)
    requires k < |bs|
    ensures Activate(bs, k)[k].active
    ensures CountActive(Activate(bs, k)) == 1
    ensures forall i :: 0 <= i < |bs| && i != k ==> !Activate(bs, k)[i].active
  {
    CountOnlyAt(Activate(bs, k), k);
  }

  /** Clicking only moves the `active` class: every button keeps its filter. */
  lemma ActivateKeepsFilters(bs: seq<FilterButton>, k: int)
    ensures |Activate(bs, k)| == |bs|
    ensures forall i :: 0 <= i < |bs| ==> Activate(bs, k)[i].filter == bs[i].filter
  {
  }

  /** A card ends up hidden exactly when the filter is not `all` and its category
      differs from the filter; its category never changes and a hidden card keeps
      its animation. */
  lemma FilterHidesExactly(cs: seq<ProjectCard>, filter: Option<string>)
    ensures |FilterCards(cs, filter)| == |cs|
    ensures forall i :: 0 <= i < |cs| ==>
      (FilterCards(cs, filter)[i].hidden <==> filter != Some(All) && cs[i].category != filter)
    ensures forall i :: 0 <= i < |cs| ==>
      FilterCards(cs, filter)[i].category == cs[i].category
    ensures forall i :: 0 <= i < |cs| && FilterCards(cs, filter)[i].hidden ==>
      FilterCards(cs, filter)[i].animation == cs[i].animation
  {
  }

  /** The filter `all` shows every card. */
  lemma FilterAllShowsEverything(cs: seq<ProjectCard>)
    ensures forall i :: 0 <= i < |cs| ==> !FilterCards(cs, Some(All))[i].hidden
  {
  }

  /** Clicking the same button twice leaves the page as one click did. */
  lemma ClickTwiceIsClickOnce(bs: seq<FilterButton>, cs: seq<ProjectCard>, k: nat)
    requires k < |bs|
    ensures Activate(Activate(bs, k), k) == Activate(bs, k)
    ensures FilterCards(FilterCards(cs, bs[k].filter), Activate(bs, k)[k].filter)
         == FilterCards(cs, bs[k].filter)
  {
  }

  /** The number of cards left visible. */
  function CountShown(cs: seq<ProjectCard>): (n: nat)
    ensures n <= |cs|
  {
    if cs == [] then 0
    else CountShown(cs[..|cs| - 1]) + (if cs[|cs| - 1].hidden then 0 else 1)
  }

  /** The number of cards whose category is `category`. */
  function CountCategory(cs: seq<ProjectCard>, category: Option<string>): (n: nat)
    ensures n <= |cs|
  {
    if cs == [] then 0
    else CountCategory(cs[..|cs| - 1], category) + (if cs[|cs| - 1].category == category then 1 else 0)
  }

  /** Under a filter other than `all`, exactly as many cards stay visible as
      there are cards of that category; under `all`, all of them. */
  lemma {:induction false} VisibleCount(cs: seq<ProjectCard>, filter: Option<string>)
    ensures CountShown(FilterCards(cs, filter))
         == if filter == Some(All) then |cs| else CountCategory(cs, filter)
  {
    if cs != [] {
      var n := |cs| - 1;
      assert FilterCards(cs, filter)[..n] == FilterCards(cs[..n], filter);
      VisibleCount(cs[..n], filter);
    }
  }

  /** The click handler of filter button `k`: clear `active` on every button,
      set it on the clicked one, then mark each card hidden or shown. */
  method Click(buttons: array<FilterButton>, cards: array<ProjectCard>, k: nat)
    requires k < buttons.Length
    modifies buttons, cards
    ensures buttons[..] == Activate(old(buttons[..]), k)
    ensures cards[..] == FilterCards(old(cards[..]), old(buttons[k].filter))
  {
    for i := 0 to buttons.Length
      invariant forall j :: 0 <= j < i ==> buttons[j] == old(buttons[j]).(active := false)
      invariant forall j :: i <= j < buttons.Length ==> buttons[j] == old(buttons[j])
      invariant cards[..] == old(cards[..])
    {
      buttons[i] := buttons[i].(active := false);
    }
    buttons[k] := buttons[k].(active := true);

    assert buttons[..] == Activate(old(buttons[..]), k);
    var filter := buttons[k].filter;
    for i := 0 to cards.Length
      invariant forall j :: 0 <= j < i ==> cards[j] == ApplyToCard(old(cards[j]), filter)
      invariant forall j :: i <= j < cards.Length ==> cards[j] == old(cards[j])
      invariant buttons[..] == Activate(old(buttons[..]), k)
    {
      if Shows(filter, cards[i].category) {
        cards[i] := cards[i].(hidden := false, animation := FadeUp);
      } else {
        cards[i] := cards[i].(hidden := true);
      }
    }
  }
}
