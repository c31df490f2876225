/**
 * Which day card is open (`activeDay`, null for the grid) and how the card
 * buttons and the "back" button change it.
 */
module CardState {
  import opened Options
  import opened DayTable

  /** A card can be opened once the unlocked count reaches its index. */
  predicate IsUnlocked(unlocked: int, d: Day) {
    unlocked >= d.index
  }

  /** Clicking a card: a locked card leaves the state alone, an unlocked one opens. */
  function Click(unlocked: int, active: Option<int>, d: Day): (r: Option<int>)
    ensures !IsUnlocked(unlocked, d) ==> r == active
    ensures IsUnlocked(unlocked, d) ==> r == Some(d.index)
    ensures r != active ==> r.Some? && r.value <= unlocked
  {
    if !IsUnlocked(unlocked, d) then active else Some(d.index)
  }

  /** "Back to collection": always returns to the grid. */
  function Back(active: Option<int>): (r: Option<int>)
    ensures r.None?
  {
    None
  }

  /** The record shown for the active index (`activeDay ? DAYS[activeDay - 1] : null`). */
  function ActiveRecord(active: Option<int>): (r: Option<Day>)
    ensures r.Some? <==> active.Some? && 1 <= active.value <= |Days|
    ensures r.Some? ==> r.value in Days && r.value.index == active.value
  {
    match active
    case None => None
    case Some(k) => if k == 0 then None else GetDay(k)
  }

  /** The cards that can be opened are exactly the first `unlocked` ones. */
  lemma UnlockedCardsArePrefix(unlocked: int, i: int)
    requires 0 <= i < |Days|
    ensures IsUnlocked(unlocked, Days[i]) <==> i < unlocked
  {
    DaysIndices();
  }

  /** The user's actions: pressing the card at a table position, or "back". */
  datatype Event = Press(position: int) | PressBack

  /** The state the page can be in: the grid, or an unlocked table card. */
  predicate Reachable(unlocked: int, active: Option<int>) {
    active.None? || (1 <= active.value <= unlocked && active.value <= |Days|)
  }

  /** One event applied to the state; it never leaves the reachable states. */
  function Step(unlocked: int, active: Option<int>, e: Event): (r: Option<int>)
    requires e.Press? ==> 0 <= e.position < |Days|
    ensures e.PressBack? ==> r.None?
    ensures e.Press? && r != active ==> r == Some(e.position + 1) && e.position < unlocked
    ensures Reachable(unlocked, active) ==> Reachable(unlocked, r)
  {
    DaysIndices();
    match e
    case Press(p) => Click(unlocked, active, Days[p])
    case PressBack => Back(active)
  }

  predicate ValidEvents(events: seq<Event>) {
    forall i :: 0 <= i < |events| ==> (events[i].Press? ==> 0 <= events[i].position < |Days|)
  }

  /** A sequence of events applied in order; one that ends with "back" ends on the grid. */
  function Run(unlocked: int, active: Option<int>, events: seq<Event>): (r: Option<int>)
    requires ValidEvents(events)
    ensures |events| > 0 && events[|events| - 1].PressBack? ==> r.None?
    decreases |events|
  {
    if |events| == 0 then active
    else Run(unlocked, Step(unlocked, active, events[0]), events[1..])
  }

  /**
   * From the grid, no sequence of presses opens a locked card, and the open
   * card (if any) is always one the table holds.
   */
  lemma {:induction false} RunStaysReachable(unlocked: int, active: Option<int>, events: seq<Event>)
    requires ValidEvents(events)
    requires Reachable(unlocked, active)
    ensures Reachable(unlocked, Run(unlocked, active, events))
    ensures Run(unlocked, active, events).Some? ==> ActiveRecord(Run(unlocked, active, events)).Some?
    decreases |events|
  {
    if |events| > 0 {
      DaysIndices();
      var next := Step(unlocked, active, events[0]);
      assert Reachable(unlocked, next);
      assert ValidEvents(events[1..]) by {
        forall i | 0 <= i < |events[1..]| ensures events[1..][i] == events[i + 1] {
        }
      }
      RunStaysReachable(unlocked, next, events[1..]);
    }
  }

  /** With nothing unlocked, the page never leaves the grid. */
  lemma NothingOpensBeforeTheWeek(events: seq<Event>)
    requires ValidEvents(events)
    ensures Run(0, None, events).None?
  {
    RunStaysReachable(0, None, events);
  }
}
