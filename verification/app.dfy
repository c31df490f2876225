/**
 * The top-level choice the app makes once: the static gate view when access
 * is denied, the page router otherwise.
 */
module App {
  import opened Dates
  import opened QueryString
  import opened DateAccess
  import opened Unlock

  datatype View = GateView | RouterView

  /** `!userHasAccess ? <AccessGate /> : <Router />`. */
  function ChooseView(today: Date, search: string): (v: View)
    ensures v == GateView <==>
      !(today.month0 == February0 && FirstDay <= today.day <= LastDay) && !FirstValueIs(Parse(search), "admin", "true")
  {
    if !HasAccess(today, search) then GateView else RouterView
  }

  /** Outside Feb 7-14 and without the admin override, the gate is shown. */
  lemma GateOutsideWindow(today: Date, search: string)
    requires !IsWithinValentineWeek(today) && !HasAdminOverride(search)
    ensures ChooseView(today, search) == GateView
  {
  }

  /** Whenever the window lets the page through, at least the first card is unlocked. */
  lemma WindowUnlocksSomething(today: Date, search: string)
    requires IsWithinValentineWeek(today)
    ensures ChooseView(today, search) == RouterView
    ensures 1 <= UnlockedCount(today, search)
  {
  }

  /**
   * The two overrides are independent: a query with `admin=true` but no
   * `unlock=true` opens the app before the week without unlocking any card.
   */
  lemma AdminDoesNotUnlock(today: Date, search: string)
    requires HasAdminOverride(search) && !Contains(search, UnlockOverride)
    requires MonthDayBefore(today.month0, today.day, February0, FirstDay)
    ensures ChooseView(today, search) == RouterView
    ensures UnlockedCount(today, search) == 0
  {
  }

  /**
   * The reverse: outside the window `unlock=true` makes no difference to the
   * gate, which only the admin override opens, while it unlocks every card.
   */
  lemma UnlockDoesNotOpen(today: Date, search: string)
    requires !IsWithinValentineWeek(today)
    ensures ChooseView(today, search) == GateView <==> !HasAdminOverride(search)
    ensures Contains(search, UnlockOverride) ==> UnlockedCount(today, search) == AllUnlocked
  {
  }

  /**
   * The two overrides read the query differently. `admin=%74rue` (an escaped
   * "t") opens the app, since `URLSearchParams` decodes it to "true".
   */
  lemma EscapedAdminOpens(today: Date)
    ensures ChooseView(today, "?admin=" + Escape('t') + "rue") == RouterView
  {
    EscapedTrueDecodes();
    Regroup("?admin=", Escape('t'), "rue");
    AdminOverrideSingle(Escape('t') + "rue");
  }

  /** `%74rue` decodes to "true". */
  lemma EscapedTrueDecodes()
    ensures Decode(Escape('t') + "rue") == "true"
  {
    var v := Escape('t') + "rue";
    assert PlusToSpace(v) == v;
    var e := Escape('t');
    assert e == ['%', e[1], e[2]];
    PercentEscape('t', e[1], e[2], "rue");
  }

  /**
   * `unlock=%74rue` unlocks nothing the date does not, since the substring
   * test looks at the raw text.
   */
  lemma EscapedUnlockIgnored(today: Date)
    ensures UnlockedCount(today, "?unlock=" + Escape('t') + "rue") == UnlockedCount(today, "")
  {
    var v := Escape('t') + "rue";
    assert 't' !in Escape('t') by {
      assert Escape('t') == [Escape('t')[0], Escape('t')[1], Escape('t')[2]];
    }
    assert 't' !in v;
    Regroup("?unlock=", Escape('t'), "rue");
    var search := "?unlock=" + v;
    assert 't' !in "?unlock=";
    assert 't' !in search;
    if Contains(search, UnlockOverride) {
      assert UnlockOverride[7] == 't';
      ContainsChars(search, UnlockOverride, 7);
    }
  }
}
