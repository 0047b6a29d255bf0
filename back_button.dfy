/** The floating back button's scroll-driven visibility
    (components/BackButton.tsx): shown near the top of the page and while
    scrolling up, hidden while scrolling down. */
module BackButton {

  /** Below this scroll offset the button is always shown. */
  const TopZone := 10

  /** The visibility `handleScroll` sets for an event at `currentScrollY`
      when the previous event was at `lastScrollY`. */
  function NextVisible(lastScrollY: int, currentScrollY: int): bool {
    if currentScrollY < TopZone then true
    else if currentScrollY > lastScrollY then false
    else true
  }

  /** The button is hidden exactly when the page is past the top zone and
      the new offset is below the previous one on the page (scrolling down). */
  lemma HiddenIffScrollingDown(lastScrollY: int, currentScrollY: int)
    ensures !NextVisible(lastScrollY, currentScrollY)
      <==> TopZone <= currentScrollY && lastScrollY < currentScrollY
  {
  }

  /** The offset of the event before the last one in `events`, or the
      initial `lastScrollY` of 0 when there was none. */
  function PreviousOffset(events: seq<int>): int
    requires events != []
  {
    if |events| == 1 then 0 else events[|events| - 2]
  }

  /** Visibility after a run of scroll events, starting from the initial state. */
  function VisibleAfter(events: seq<int>): bool {
    if events == [] then true
    else NextVisible(PreviousOffset(events), events[|events| - 1])
  }

  /** `lastScrollY` after a run of scroll events, starting from the initial state. */
  function LastOffset(events: seq<int>): int {
    if events == [] then 0 else events[|events| - 1]
  }

  /** The button state as a React component instance keeps it. `history` is
      the (ghost) list of scroll offsets seen so far. */
  class ButtonState {
    var visible: bool
    var lastScrollY: int
    ghost var history: seq<int>

    /** The state is what the events seen so far determine. */
    ghost predicate Valid()
      reads this
    {
      visible == VisibleAfter(history) && lastScrollY == LastOffset(history)
    }

    /** `useState(true)` and `useState(0)` */
    constructor()
      ensures Valid() && history == []
      ensures visible && lastScrollY == 0
    {
      visible := true;
      lastScrollY := 0;
      history := [];
    }

    /** `handleScroll` for a scroll event at offset `currentScrollY`. */
    method HandleScroll(currentScrollY: int)
      requires Valid()
      modifies this
      ensures Valid() && history == old(history) + [currentScrollY]
      ensures visible == NextVisible(old(lastScrollY), currentScrollY)
      ensures lastScrollY == currentScrollY
    {
      if currentScrollY < TopZone {
        visible := true;
      } else if currentScrollY > lastScrollY {
        visible := false;
      } else {
        visible := true;
      }
      lastScrollY := currentScrollY;
      history := history + [currentScrollY];
    }
  }

  /** Only the last two offsets matter: whatever came before them, the state
      after a run of events ending in `p, q` is the state after `p, q` alone. */
  lemma {:induction false} OnlyLastTwoMatter(earlier: seq<int>, p: int, q: int)
    ensures VisibleAfter(earlier + [p, q]) == VisibleAfter([p, q])
    ensures LastOffset(earlier + [p, q]) == q
  {
    assert (earlier + [p, q])[|earlier| + 1] == q;
    assert (earlier + [p, q])[|earlier|] == p;
  }

  /** Reaching the top zone always shows the button, whatever happened before. */
  lemma TopZoneShows(events: seq<int>, y: int)
    requires y < TopZone
    ensures VisibleAfter(events + [y])
  {
    assert (events + [y])[|events|] == y;
  }

  /** Two events moving down past the top zone hide the button, and a third
      event that is not further down shows it again. */
  lemma DownThenUp(events: seq<int>, p: int, q: int, r: int)
    requires TopZone <= p < q && r <= q
    ensures !VisibleAfter(events + [p, q])
    ensures VisibleAfter(events + [p, q] + [r])
  {
    OnlyLastTwoMatter(events, p, q);
    assert events + [p, q] + [r] == (events + [p]) + [q, r];
    OnlyLastTwoMatter(events + [p], q, r);
  }
}
