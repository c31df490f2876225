/**
 * How many of the seven day cards are unlocked on a given date
 * (`getUnlockedCount`), and how that count relates to the dates in the table.
 */
module Unlock {
  import opened Dates
  import opened QueryString
  import opened DayTable

  /** The raw substring the override looks for in the search string. */
  const UnlockOverride: string := "unlock=true"

  const AllUnlocked: int := 7

  /** What `getUnlockedCount` subtracts from the day of month, so that Feb 7 gives 1. */
  const DayOffset: int := FirstDay - 1

  /** The first day on which `day - DayOffset` reaches the whole week: Feb 13. */
  const FullDay: int := DayOffset + AllUnlocked

  function Min(a: int, b: int): int { if a <= b then a else b }
  function Max(a: int, b: int): int { if a >= b then a else b }

  /**
   * `getUnlockedCount`: the whole week when the search string contains
   * `unlock=true`; otherwise today's local midnight is compared with Feb 7
   * and Feb 14 of the same year (month index 1, zero-based): 0 before Feb 7,
   * 7 from Feb 14 on, and `day - 6` (clamped to 0..7) in between.
   */
  function UnlockedCount(today: Date, search: string): (r: int)
    ensures 0 <= r <= AllUnlocked
    ensures Contains(search, UnlockOverride) ==> r == AllUnlocked
    ensures !Contains(search, UnlockOverride) ==>
      && (r == 0 <==> MonthDayBefore(today.month0, today.day, February0, FirstDay))
      && (r == AllUnlocked <==> !MonthDayBefore(today.month0, today.day, February0, FullDay))
      && (0 < r < AllUnlocked ==> today.month0 == February0 && r == today.day - DayOffset)
  {
    if Contains(search, UnlockOverride) then
      AllUnlocked
    else
      var y := today.year;
      var start := Date(y, February0, FirstDay);
      var end := Date(y, February0, LastDay);
      var t := Date(y, today.month0, today.day);
      if Before(t, start) then 0
      else if !Before(t, end) then AllUnlocked
      else Min(AllUnlocked, Max(0, t.day - DayOffset))
  }

  /** The count depends on month and day only: the year cancels out. */
  lemma UnlockedIgnoresYear(a: Date, b: Date, search: string)
    requires a.month0 == b.month0 && a.day == b.day
    ensures UnlockedCount(a, search) == UnlockedCount(b, search)
  {
  }

  /** Boundary values around the week (no override in the query). */
  lemma UnlockedBoundaries(y: int, search: string)
    requires !Contains(search, UnlockOverride)
    ensures UnlockedCount(Date(y, 0, 31), search) == 0
    ensures UnlockedCount(Date(y, 1, 6), search) == 0
    ensures UnlockedCount(Date(y, 1, 7), search) == 1
    ensures UnlockedCount(Date(y, 1, 13), search) == 7
    ensures UnlockedCount(Date(y, 1, 14), search) == 7
    ensures UnlockedCount(Date(y, 1, 15), search) == 7
    ensures UnlockedCount(Date(y, 2, 1), search) == 7
  {
  }

  /** Later in the same year never unlocks fewer cards. */
  lemma UnlockedMonotone(a: Date, b: Date, search: string)
    requires !MonthDayBefore(b.month0, b.day, a.month0, a.day)
    ensures UnlockedCount(a, search) <= UnlockedCount(b, search)
  {
  }

  /** The override is a substring test, so it also fires inside other parameters. */
  lemma OverrideIsSubstring(today: Date, front: string, back: string)
    ensures UnlockedCount(today, front + UnlockOverride + back) == AllUnlocked
  {
    ContainsPrefix(UnlockOverride, back);
    ContainsAfter(front, UnlockOverride + back, UnlockOverride);
    assert front + UnlockOverride + back == front + (UnlockOverride + back);
  }

  /**
   * The substring test sees the raw text, not decoded values: an
   * `unlock` value sent percent-encoded never triggers the override, even
   * when it encodes "true". The count is then the one of a bare URL.
   */
  lemma EncodedUnlockIgnored(today: Date, value: string)
    requires Bytes(value)
    ensures UnlockedCount(today, "?unlock=" + PercentEncode(value)) == UnlockedCount(today, "")
  {
    var search := "?unlock=" + PercentEncode(value);
    assert UnlockOverride[7] == 't';
    assert 't' !in "?unlock=";
    if Contains(search, UnlockOverride) {
      ContainsChars(search, UnlockOverride, 7);
    }
  }

  // ---------------------------------------------------------------------------
  // Agreement with the dates in the table
  // ---------------------------------------------------------------------------

  /** Does record `d` fall on or before `today` (month and day only)? */
  predicate DatedBy(d: Day, today: Date) {
    !MonthDayBefore(today.month0, today.day, d.date.month - 1, d.date.day)
  }

  /** How many records of `ds` are dated on or before `today`. */
  function CountDatedBy(ds: seq<Day>, today: Date): (n: nat)
    ensures n <= |ds|
  {
    if |ds| == 0 then 0
    else (if DatedBy(ds[0], today) then 1 else 0) + CountDatedBy(ds[1..], today)
  }

  /** Records dated by `today` form a prefix of the table when dates increase. */
  lemma {:induction false} CountDatedByPrefix(ds: seq<Day>, today: Date, k: nat)
    requires k <= |ds|
    requires forall i :: 0 <= i < k ==> DatedBy(ds[i], today)
    requires forall i :: k <= i < |ds| ==> !DatedBy(ds[i], today)
    ensures CountDatedBy(ds, today) == k
  {
    if |ds| > 0 {
      if k == 0 {
        CountDatedByPrefix(ds[1..], today, 0);
      } else {
        CountDatedByPrefix(ds[1..], today, k - 1);
      }
    }
  }

  /** The number of table records whose date has come, by the table's own dates. */
  lemma DatedCount(today: Date)
    ensures MonthDayBefore(today.month0, today.day, February0, FirstDay) ==> CountDatedBy(Days, today) == 0
    ensures today.month0 == February0 && FirstDay <= today.day < LastDay ==>
      CountDatedBy(Days, today) == Min(AllUnlocked - 1, today.day - DayOffset)
    ensures !MonthDayBefore(today.month0, today.day, February0, LastDay) ==> CountDatedBy(Days, today) == AllUnlocked
  {
    DaysIndices();
    DaysDates();
    var k := if MonthDayBefore(today.month0, today.day, February0, FirstDay) then 0
             else if !MonthDayBefore(today.month0, today.day, February0, LastDay) then AllUnlocked
             else Min(AllUnlocked - 1, today.day - DayOffset);
    CountDatedByPrefix(Days, today, k);
  }

  /**
   * Without the override, the unlocked count is the number of records whose
   * date has come, on every day except Feb 13: the table has no Feb 13
   * record, yet the `day - 6` step already unlocks day 7 (Feb 14) then.
   */
  lemma UnlockedMatchesTable(today: Date, search: string)
    requires !Contains(search, UnlockOverride)
    ensures !(today.month0 == February0 && today.day == FullDay) ==>
      UnlockedCount(today, search) == CountDatedBy(Days, today)
    ensures today.month0 == February0 && today.day == FullDay ==>
      UnlockedCount(today, search) == AllUnlocked && CountDatedBy(Days, today) == AllUnlocked - 1
  {
    DatedCount(today);
  }

  /** Every card is already open on its own calendar date (any year, any query). */
  lemma OwnDateUnlocks(y: int, search: string, i: int)
    requires 0 <= i < |Days|
    ensures UnlockedCount(Date(y, Days[i].date.month - 1, Days[i].date.day), search) >= Days[i].index
  {
    DaysIndices();
    DaysDates();
  }
}
