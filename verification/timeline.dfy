/** The work timeline: each `.timeline-item` carries an `is-open` class, and a
    click on a card toggles it on the card's enclosing timeline item. */
module Timeline {
  import opened Optional

  /** The click handler of a card whose closest `.timeline-item` ancestor is
      `enclosing` (an index into `open`), or None when the card has none. */
  function OnCardClick(open: seq<bool>, enclosing: Option<nat>): (r: seq<bool>)
    requires enclosing.Some? ==> enclosing.value < |open|
    ensures |r| == |open|
    ensures enclosing.None? ==> r == open
    ensures enclosing.Some? ==> r[enclosing.value] == !open[enclosing.value]
    ensures forall i :: 0 <= i < |open| && enclosing != Some(i) ==> r[i] == open[i]
  {
    match enclosing
    case None => open
    case Some(k) => open[k := !open[k]]
  }

  /** Clicking the same card twice leaves every item as it was. */
  lemma ClickTwice(open: seq<bool>, enclosing: Option<nat>)
    requires enclosing.Some? ==> enclosing.value < |open|
    ensures OnCardClick(OnCardClick(open, enclosing), enclosing) == open
  {
  }

  /** Clicks on cards of different items commute. */
  lemma ClicksCommute(open: seq<bool>, a: nat, b: nat)
    requires a < |open| && b < |open|
    ensures OnCardClick(OnCardClick(open, Some(a)), Some(b))
         == OnCardClick(OnCardClick(open, Some(b)), Some(a))
  {
  }
}
