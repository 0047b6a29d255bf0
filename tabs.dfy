/** The three-tab navigation of the etymology card
    (components/UnifiedEtymologyCard.tsx): which source is shown, and the
    direction of the slide animation, driven by tab clicks and swipes. */
module Tabs {
  import opened Wrappers

  /** `SourceType` */
  datatype Source = Nisanyan | Aksozluk | Etimolojitr

  /** `sourceOrder`: the tabs from left to right. */
  const SourceOrder: seq<Source> := [Aksozluk, Etimolojitr, Nisanyan]

  /** `sourceOrder.indexOf(source)`; every source is in the order exactly once. */
  function IndexOf(source: Source): (i: nat)
    ensures i < |SourceOrder| && SourceOrder[i] == source
    ensures forall j :: 0 <= j < |SourceOrder| && SourceOrder[j] == source ==> j == i
  {
    match source
    case Aksozluk => 0
    case Etimolojitr => 1
    case Nisanyan => 2
  }

  /** What a handler does besides updating the state: open the source's own
      page in a new window, trigger the haptic/sound feedback, or nothing. */
  datatype Effect = OpenSourcePage(source: Source) | Feedback | NoEffect

  /** The direction `handleTabClick` sets when moving from `active` to `target`. */
  function ClickDirection(active: Source, target: Source): (d: int)
    ensures d == 1 <==> IndexOf(target) > IndexOf(active)
    ensures d == -1 <==> IndexOf(target) <= IndexOf(active)
  {
    if IndexOf(target) > IndexOf(active) then 1 else -1
  }

  /** The tab a swipe moves to, with the direction it sets, or `None` when the
      swipe changes nothing. A swipe to the left (`swipeX == -1`) moves to the
      next tab, one to the right (`swipeX == 1`) to the previous one. */
  function SwipeTarget(active: Source, swipeX: int): (r: Option<(Source, int)>)
    ensures r.Some? ==> IndexOf(r.value.0) == IndexOf(active) + r.value.1
    ensures r.Some? ==> r.value.1 == -swipeX && (swipeX == 1 || swipeX == -1)
    ensures r.None? <==>
      || (swipeX != 1 && swipeX != -1)
      || (swipeX == -1 && IndexOf(active) == |SourceOrder| - 1)
      || (swipeX == 1 && IndexOf(active) == 0)
  {
    var currentIndex := IndexOf(active);
    if swipeX == -1 then
      if currentIndex < |SourceOrder| - 1 then Some((SourceOrder[currentIndex + 1], 1)) else None
    else if swipeX == 1 then
      if currentIndex > 0 then Some((SourceOrder[currentIndex - 1], -1)) else None
    else None
  }

  /** The tab state of one card. */
  class TabBar {
    var activeTab: Source
    var direction: int

    /** `useState("aksozluk")` and `useState(0)` */
    constructor()
      ensures activeTab == Aksozluk && direction == 0
    {
      activeTab := Aksozluk;
      direction := 0;
    }

    /** `handleTabClick(source)`: clicking the active tab opens its source page
        and changes nothing; clicking another tab switches to it. */
    method HandleTabClick(source: Source) returns (effect: Effect)
      modifies this
      ensures old(activeTab) == source ==>
        effect == OpenSourcePage(source) && activeTab == old(activeTab) && direction == old(direction)
      ensures old(activeTab) != source ==>
        effect == Feedback && activeTab == source && direction == ClickDirection(old(activeTab), source)
    {
      if activeTab == source {
        effect := OpenSourcePage(source);
      } else {
        var newIndex := IndexOf(source);
        var oldIndex := IndexOf(activeTab);
        direction := if newIndex > oldIndex then 1 else -1;
        effect := Feedback;
        activeTab := source;
      }
    }

    /** The swipe handler, given the horizontal swipe direction the gesture
        library reports (-1, 0 or 1). */
    method HandleSwipe(swipeX: int) returns (effect: Effect)
      modifies this
      ensures SwipeTarget(old(activeTab), swipeX).None? ==>
        effect == NoEffect && activeTab == old(activeTab) && direction == old(direction)
      ensures SwipeTarget(old(activeTab), swipeX).Some? ==>
        effect == Feedback && (activeTab, direction) == SwipeTarget(old(activeTab), swipeX).value
    {
      var currentIndex := IndexOf(activeTab);
      effect := NoEffect;
      if swipeX == -1 {
        if currentIndex < |SourceOrder| - 1 {
          var nextSource := SourceOrder[currentIndex + 1];
          direction := 1;
          effect := Feedback;
          activeTab := nextSource;
        }
      } else if swipeX == 1 {
        if currentIndex > 0 {
          var prevSource := SourceOrder[currentIndex - 1];
          direction := -1;
          effect := Feedback;
          activeTab := prevSource;
        }
      }
    }
  }

  /** A swipe animates the same way as clicking the tab it lands on. */
  lemma SwipeLikeClick(active: Source, swipeX: int)
    requires SwipeTarget(active, swipeX).Some?
    ensures var (target, direction) := SwipeTarget(active, swipeX).value;
      target != active && direction == ClickDirection(active, target)
  {
  }

  /** A swipe left followed by a swipe right returns to the starting tab,
      and so does a swipe right followed by a swipe left. */
  lemma SwipeRoundTrip(active: Source, swipeX: int)
    requires SwipeTarget(active, swipeX).Some?
    ensures SwipeTarget(SwipeTarget(active, swipeX).value.0, -swipeX).Some?
    ensures SwipeTarget(SwipeTarget(active, swipeX).value.0, -swipeX).value.0 == active
  {
  }
}
