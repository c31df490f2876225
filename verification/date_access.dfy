/**
 * The whole-app gate: the page is reachable during February 7-14 (local
 * date, both ends included) or when the query string carries `admin=true`.
 * The clock and `window.location.search` are parameters.
 */
module DateAccess {
  import opened Options
  import opened Dates
  import opened QueryString

  /** `isWithinValentineWeek`: the one-based month is 2 and the day lies in 7..14. */
  function IsWithinValentineWeek(today: Date): (r: bool)
    ensures r <==> today.month0 == February0 && FirstDay <= today.day <= LastDay
  {
    var month := today.Month();
    var isFebruary := month == 2;
    var isInRange := today.day >= FirstDay && today.day <= LastDay;
    isFebruary && isInRange
  }

  /** The window as an interval of the (month, day) order: from Feb 7 to Feb 14, both included. */
  lemma WithinIsInterval(today: Date)
    ensures IsWithinValentineWeek(today)
        <==> !MonthDayBefore(today.month0, today.day, February0, FirstDay)
             && !MonthDayBefore(February0, LastDay, today.month0, today.day)
  {
  }

  /** The year plays no part. */
  lemma WithinIgnoresYear(a: Date, b: Date)
    requires a.month0 == b.month0 && a.day == b.day
    ensures IsWithinValentineWeek(a) == IsWithinValentineWeek(b)
  {
  }

  /** Only the zero-based month index 1 can pass, because the month is shifted by one first. */
  lemma OnlyFebruaryIndexPasses(today: Date)
    requires IsWithinValentineWeek(today)
    ensures today.month0 == 1 && today.Month() == 2
  {
  }

  /** The boundary days: Feb 7 and Feb 14 are inside, Feb 6 and Feb 15 outside. */
  lemma WindowBoundaries(y: int)
    ensures IsWithinValentineWeek(Date(y, 1, 7)) && IsWithinValentineWeek(Date(y, 1, 14))
    ensures !IsWithinValentineWeek(Date(y, 1, 6)) && !IsWithinValentineWeek(Date(y, 1, 15))
    ensures forall m, d :: m != 1 ==> !IsWithinValentineWeek(Date(y, m, d))
  {
  }

  /** `hasAdminOverride`: the first `admin` parameter's decoded value is exactly "true". */
  function HasAdminOverride(search: string): (r: bool)
    ensures r <==> FirstValueIs(Parse(search), "admin", "true")
  {
    var got := Get(Parse(search), "admin");
    assert got.Some? && FirstValueIs(Parse(search), "admin", "true") ==> got.value == "true" by {
      if got.Some? && FirstValueIs(Parse(search), "admin", "true") {
        FirstValueUnique(Parse(search), "admin", got.value, "true");
      }
    }
    got == Some("true")
  }

  /** With a single `admin` parameter, only a value that decodes to exactly "true" turns the override on. */
  lemma AdminOverrideSingle(value: string)
    requires '&' !in value
    ensures HasAdminOverride("?admin=" + value) <==> Decode(value) == "true"
  {
    assert "?admin=" + value == "?" + "admin" + "=" + value;
    ParseSingle("admin", value);
    assert Get([Param("admin", Decode(value))], "admin") == Some(Decode(value));
  }

  /**
   * A single parameter, whatever its spelling, gives the override exactly
   * when its name decodes to `admin` and its value decodes to `true`.
   */
  lemma AdminOverrideNamed(name: string, value: string)
    requires '&' !in name && '=' !in name && '&' !in value
    ensures HasAdminOverride("?" + name + "=" + value) <==> Decode(name) == "admin" && Decode(value) == "true"
  {
    var piece := name + "=" + value;
    assert '&' !in piece;
    SplitNoSeparator(piece, '&');
    ParamOfEntry(name, value);
    assert piece != "";
    assert ParseBody(piece) == [Param(Decode(name), Decode(value))];
    Regroup("?" + name, "=", value);
    Regroup("?", name, "=" + value);
    Regroup(name, "=", value);
    ParseQuestion(piece);
    assert Get([Param(Decode(name), Decode(value))], "admin")
        == if Decode(name) == "admin" then Some(Decode(value)) else None;
  }

  /**
   * Names are decoded too, with either case of hexadecimal digits: a
   * parameter spelled `ad%6din` is the `admin` parameter.
   */
  lemma EscapedNameOverrides(value: string)
    requires '&' !in value
    ensures HasAdminOverride("?" + "ad%6din" + "=" + value) <==> Decode(value) == "true"
  {
    assert '&' !in "ad%6din" && '=' !in "ad%6din";
    AdminOverrideNamed("ad%6din", value);
    DecodeLowerCaseEscape();
  }

  /**
   * Percent-encoding does not hide the admin override: any one-byte value,
   * sent fully escaped, overrides exactly when it is "true".
   */
  lemma AdminOverrideEncoded(value: string)
    requires Bytes(value)
    ensures HasAdminOverride("?admin=" + PercentEncode(value)) <==> value == "true"
  {
    AdminOverrideSingle(PercentEncode(value));
    DecodeEncoded(value);
  }

  /** An empty query (or a bare '?') has no `admin` parameter at all. */
  lemma AdminOverrideAbsent()
    ensures !HasAdminOverride("") && !HasAdminOverride("?")
  {
    assert Split("", '&') == [""];
  }

  /** Only the first `admin` parameter is read: a later "true" cannot undo an earlier value. */
  lemma AdminFirstOccurrenceWins(first: string, rest: string)
    requires '&' !in first
    ensures HasAdminOverride("?admin=" + first + "&" + rest) <==> Decode(first) == "true"
  {
    var s := "?admin=" + first + "&" + rest;
    assert s == "?" + "admin" + "=" + first + "&" + rest;
    ParseLeading("admin", first, rest);
    var ps := [Param("admin", Decode(first))] + Parse("?" + rest);
    assert ps[0] == Param("admin", Decode(first));
    assert Get(Parse(s), "admin") == Some(Decode(first));
  }

  /** `hasAccess`: inside the window, or overridden. */
  function HasAccess(today: Date, search: string): (r: bool)
    ensures HasAdminOverride(search) ==> r
    ensures IsWithinValentineWeek(today) ==> r
    ensures r ==> IsWithinValentineWeek(today) || HasAdminOverride(search)
  {
    IsWithinValentineWeek(today) || HasAdminOverride(search)
  }

  /** With the override every date is let in; without it, exactly the window is. */
  lemma AccessCases(today: Date, search: string)
    ensures HasAdminOverride(search) ==> forall d :: HasAccess(d, search)
    ensures !HasAdminOverride(search) ==> (HasAccess(today, search) <==> today.month0 == February0 && FirstDay <= today.day <= LastDay)
  {
  }
}
