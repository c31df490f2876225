# Valentine week: date gate and unlock engine

A model of the calendar logic of a small date-gated greeting page. The page
shows one card per day of "Valentine week"; everything else in it is
presentation. The model covers:

- the **access gate** (`client/src/lib/dateAccess.ts`). The app is visible
  when the local date lies in February 7–14, both ends included, or when the
  query's first `admin` parameter is exactly `true`. `App.tsx` then shows
  either the static gate view or the router.
- the **unlock engine** (`getUnlockedCount` in
  `client/src/pages/valentine-week.tsx`). It maps today's date to how many of
  the seven cards are open:
  - 7 whenever the raw search string contains `unlock=true`;
  - otherwise 0 before Feb 7, `day - 6` from Feb 7 to Feb 13, and 7 from Feb 14 on.
- the **day table** `DAYS`: seven records with indices 1..7, their dates,
  titles, message variants, themes and visual tags, with their
  well-formedness proved. It also covers the lookup `DAYS[activeDay - 1]`.
- the **card state** `activeDay`. Clicking a locked card does nothing,
  clicking an unlocked card opens it, and "back" returns to the grid.

Dates are `Dates.Date(year, month0, day)` with the zero-based month that
`getMonth()` returns. `isWithinValentineWeek` shifts that month to one-based
before comparing with 2. `getUnlockedCount` keeps it zero-based and compares
with `new Date(y, 1, 7)`. The JavaScript comparison of two local midnights is
modelled as lexicographic order on (year, month, day). Because `getUnlockedCount`
builds all three dates with the same year, only (month, day) matters there
(`Unlock.UnlockedIgnoresYear`).

The search string is read in two different ways, and the model keeps them apart:

- `unlock=true` is a plain substring test (`QueryString.Contains`). So
  `?nounlock=true` also unlocks everything, and `?unlock=%74rue` does not
  (`App.EscapedUnlockIgnored`).
- `admin` goes through `URLSearchParams`, modelled after the WHATWG
  application/x-www-form-urlencoded parser. It drops a leading `?`, splits on
  `&`, skips empty pieces and splits each piece at its first `=`. It then
  turns `+` into a space and percent-decodes. `get` returns the first pair
  with the given name. Escapes may use either case of hexadecimal digits.
  So `?admin=%74rue` counts as `admin=true` (`App.EscapedAdminOpens`), and
  so does `?ad%6din=true` (`DateAccess.EscapedNameOverrides`).

The table has no Feb 13 record: day 6 is Feb 12 and day 7 is Feb 14. The
`day - 6` step nevertheless gives 7 on Feb 13, so Valentine's Day opens one
day before its own date. `Unlock.UnlockedMatchesTable` proves that the count
equals the number of records whose date has come on every date except Feb 13.
On Feb 13 the count is 7 while only 6 records are due.

All operations are pure functions of their parameters. Evaluating them twice
on the same inputs gives the same result. The clock and the URL are parameters.

## Model

| member | source | states |
|---|---|---|
| `DateAccess.IsWithinValentineWeek` | client/src/lib/dateAccess.ts:9-19 | true exactly when the ZERO-based month index is 1 and 7 <= day <= 14, because the month is shifted to one-based before it is compared with 2 |
| `DateAccess.WithinIsInterval` | client/src/lib/dateAccess.ts:14-18 | the window is the closed interval from Feb 7 to Feb 14 in (month, day) order |
| `DateAccess.WithinIgnoresYear` | client/src/lib/dateAccess.ts:10-18 | two dates with the same month and day get the same answer, whatever their years |
| `DateAccess.OnlyFebruaryIndexPasses` | client/src/lib/dateAccess.ts:11-15 | a date that passes has zero-based month 1, which is one-based month 2 |
| `DateAccess.WindowBoundaries` | client/src/lib/dateAccess.ts:15-16 | Feb 7 and Feb 14 are inside; Feb 6, Feb 15 and every date of another month are outside |
| `DateAccess.HasAdminOverride` | client/src/lib/dateAccess.ts:25-28 | true exactly when the first parsed pair named `admin` has the value `true` |
| `DateAccess.AdminOverrideSingle` | client/src/lib/dateAccess.ts:26-27 | for `?admin=v` with no `&` in `v`, the override is on exactly when `v` DECODES to `true`; so `?admin=TRUE` and `?admin=1` give no override, and `?admin=%74rue` does |
| `DateAccess.AdminOverrideNamed` | client/src/lib/dateAccess.ts:26-27 | a single parameter, however its name is spelled, gives the override exactly when its name decodes to `admin` and its value to `true` |
| `DateAccess.EscapedNameOverrides` | client/src/lib/dateAccess.ts:26-27 | a parameter spelled `ad%6din` is the `admin` parameter: its value decides the override as if it were spelled `admin` |
| `DateAccess.AdminOverrideEncoded` | client/src/lib/dateAccess.ts:26-27 | a one-byte value sent with every character percent-escaped gives the override exactly when it is `true`: escaping never hides nor fakes it |
| `DateAccess.AdminOverrideAbsent` | client/src/lib/dateAccess.ts:26-27 | an empty query or a bare `?` holds no `admin` parameter, so there is no override |
| `DateAccess.AdminFirstOccurrenceWins` | client/src/lib/dateAccess.ts:26-27 | with a leading `admin=v`, whatever follows after `&` cannot change the answer, which is whether `v` decodes to `true`: only the first `admin` counts |
| `DateAccess.HasAccess` | client/src/lib/dateAccess.ts:36-38 | access is granted when the date is in the window or the override is on, and only then |
| `DateAccess.AccessCases` | client/src/lib/dateAccess.ts:36-38 | with the override every date has access; without it exactly Feb 7-14 does |
| `App.ChooseView` | client/src/App.tsx:22-29 | the gate view is chosen exactly when the date is outside Feb 7-14 and there is no `admin=true` |
| `App.GateOutsideWindow` | client/src/App.tsx:29 | outside the window and without the override the gate view is shown |
| `App.WindowUnlocksSomething` | client/src/pages/valentine-week.tsx:282-291 | any date the window lets through shows the router and at least one unlocked card |
| `App.AdminDoesNotUnlock` | client/src/pages/valentine-week.tsx:278-287 | before Feb 7, `admin=true` without `unlock=true` opens the app but unlocks no card: the two overrides are independent |
| `App.UnlockDoesNotOpen` | client/src/App.tsx:22-29 | outside the window the gate is shown exactly when `admin=true` is absent, whatever `unlock=true` does, and `unlock=true` still unlocks all seven cards |
| `App.EscapedAdminOpens` | client/src/lib/dateAccess.ts:26-27 | `?admin=%74rue` opens the app on every date, because the parser decodes the value to `true` |
| `App.EscapedUnlockIgnored` | client/src/pages/valentine-week.tsx:278 | `?unlock=%74rue` unlocks no more cards than a bare URL, because the substring test sees the raw text |
| `QueryString.Contains` | client/src/pages/valentine-week.tsx:278 | `includes` holds exactly when some contiguous slice of the string equals the pattern |
| `QueryString.ContainsChars` | client/src/pages/valentine-week.tsx:278 | every character of a pattern that `includes` finds occurs in the text |
| `QueryString.SplitJoin` | client/src/lib/dateAccess.ts:26 | splitting the query on `&` and joining the pieces back gives the original string |
| `QueryString.Split` | client/src/lib/dateAccess.ts:26 | a query always splits into at least one piece; `SplitJoin`, `SplitPiecesFree` and `SplitUnfold` pin down which pieces |
| `QueryString.SplitPiecesFree` | client/src/lib/dateAccess.ts:26 | no piece produced by the split contains `&` |
| `QueryString.SplitUnfold` | client/src/lib/dateAccess.ts:26 | a query with an `&` splits into the text before the first `&`, then the pieces of the text after it |
| `QueryString.SplitLeading` | client/src/lib/dateAccess.ts:26 | a first piece without `&` is split off whole, ahead of the pieces of the rest |
| `QueryString.SplitNoSeparator` | client/src/lib/dateAccess.ts:26 | a query without `&` is a single piece |
| `QueryString.PlusToSpace` | client/src/lib/dateAccess.ts:26 | every `+` becomes a space, every other character is kept, and the length is unchanged |
| `QueryString.PercentDecode` | client/src/lib/dateAccess.ts:26 | decoding never lengthens the text, and text without `%` is unchanged; `PercentEscape` (escapes with digits of either case), `PercentMalformedKept` and `PercentDecodePlainFront` state what each part becomes |
| `QueryString.PercentEscape` | client/src/lib/dateAccess.ts:26 | `%XY` with two hexadecimal digits, upper- or lower-case, decodes to the one character with code 0xXY, and decoding goes on after it |
| `QueryString.HexValueUpper` | client/src/lib/dateAccess.ts:26 | a hexadecimal digit has the same value in lower and upper case |
| `QueryString.PercentDecodePlainFront` | client/src/lib/dateAccess.ts:26 | text without `%` passes through decoding unchanged, ahead of the decoding of what follows |
| `QueryString.DecodeLowerCaseEscape` | client/src/lib/dateAccess.ts:26 | the name `ad%6din`, with a lower-case escape, decodes to `admin` |
| `QueryString.PercentMalformedKept` | client/src/lib/dateAccess.ts:26 | a `%` not followed by two hexadecimal digits is kept as it is |
| `QueryString.PercentEncodeRoundTrip` | client/src/lib/dateAccess.ts:26 | percent-decoding undoes percent-encoding of any one-byte text |
| `QueryString.DecodeEncoded` | client/src/lib/dateAccess.ts:26 | a fully escaped one-byte value reaches the program as the text it encodes |
| `QueryString.Decode` | client/src/lib/dateAccess.ts:26 | no contract of its own (`+` to space, then percent-decoding); `DecodePlain` and `DecodeEncoded` state what it gives |
| `QueryString.DecodePlain` | client/src/lib/dateAccess.ts:26 | a name or value without `&`, `+` or `%` decodes to itself |
| `QueryString.IndexOf` | client/src/lib/dateAccess.ts:26 | finds the first occurrence of the character, or the length when it is absent |
| `QueryString.IndexOfUnique` | client/src/lib/dateAccess.ts:26 | any position that holds the character with none before it (or the length, when the character is absent) is the one found |
| `QueryString.IndexOfAppend` | client/src/lib/dateAccess.ts:26 | in a concatenation the first character is found in the left part when it occurs there, otherwise in the right part, offset by the left length |
| `QueryString.ParsePiecesAppend` | client/src/lib/dateAccess.ts:26 | parsing two lists of pieces one after the other gives the two pair lists in order |
| `QueryString.ParsePieces` | client/src/lib/dateAccess.ts:26 | one pair per non-empty piece: the pair count is the piece count less the empty pieces |
| `QueryString.ParseParam` | client/src/lib/dateAccess.ts:26 | no contract of its own; `ParamOfEntry` states that `name=value` gives the decoded name and value |
| `QueryString.ParamOfEntry` | client/src/lib/dateAccess.ts:26 | a piece `name=value` whose name has no `=` gives the pair of the decoded name and the decoded value |
| `QueryString.Parse` | client/src/lib/dateAccess.ts:26 | no contract of its own; `ParseQuestion`, `ParseSingle` and `ParseLeading` state what `new URLSearchParams(search)` yields |
| `QueryString.ParseQuestion` | client/src/lib/dateAccess.ts:26 | a leading `?` is dropped before the query is parsed |
| `QueryString.ParseBody` | client/src/lib/dateAccess.ts:26 | no contract of its own (split on `&`, then parse the pieces); `ParseBodySingle` and `ParseBodyLeading` state what it yields |
| `QueryString.EntryParts` | client/src/lib/dateAccess.ts:26 | a piece `name=value` whose name has no `=` is cut at the `=` after the name, into that name and that value |
| `QueryString.ParseBodySingle` | client/src/lib/dateAccess.ts:26 | a body `name=value` with a plain name and no `&` in the value parses to exactly the pair of that name and the decoded value |
| `QueryString.ParseBodyLeading` | client/src/lib/dateAccess.ts:26 | a body whose first piece has no `&` parses to that piece's pairs, then the pairs of the rest |
| `QueryString.ParseSingle` | client/src/lib/dateAccess.ts:26 | `?name=value` with a plain name and no `&` in the value parses to exactly the pair of that name and the decoded value |
| `QueryString.ParseLeading` | client/src/lib/dateAccess.ts:26 | a leading pair (plain name, no `&` in the value) comes first, decoded, ahead of the pairs of the rest of the query |
| `QueryString.Get` | client/src/lib/dateAccess.ts:27 | null exactly when no pair has the name; otherwise the value of the FIRST pair with that name |
| `QueryString.FirstValueUnique` | client/src/lib/dateAccess.ts:27 | the first pair with a given name carries only one value |
| `QueryString.GetAppend` | client/src/lib/dateAccess.ts:27 | a match in the front part of the list wins over any match behind it |
| `Dates.BeforeSameYear` | client/src/pages/valentine-week.tsx:282-288 | within one year, comparing local midnights is (month, day) order |
| `Dates.Before` | client/src/pages/valentine-week.tsx:287-288 | no contract of its own (lexicographic order on year, month, day); `BeforeSameYear` and `BeforeStrictTotal` state its properties |
| `Dates.BeforeStrictTotal` | client/src/pages/valentine-week.tsx:287-288 | the date comparison is irreflexive, asymmetric, transitive and total on distinct dates |
| `Unlock.UnlockedCount` | client/src/pages/valentine-week.tsx:277-292 | the result is in 0..7 and is 7 under `unlock=true`; otherwise it is 0 exactly before Feb 7, 7 exactly from Feb 13 on, and `day - 6` in between |
| `Unlock.UnlockedIgnoresYear` | client/src/pages/valentine-week.tsx:281-285 | the year cancels: the same month and day give the same count in every year |
| `Unlock.UnlockedBoundaries` | client/src/pages/valentine-week.tsx:287-291 | Jan 31 and Feb 6 give 0, Feb 7 gives 1, and Feb 13, Feb 14, Feb 15 and Mar 1 give 7 |
| `Unlock.UnlockedMonotone` | client/src/pages/valentine-week.tsx:287-291 | a later (month, day) never unlocks fewer cards |
| `Unlock.OverrideIsSubstring` | client/src/pages/valentine-week.tsx:278-279 | `unlock=true` anywhere in the search string, even inside another parameter, unlocks all seven |
| `Unlock.EncodedUnlockIgnored` | client/src/pages/valentine-week.tsx:278-279 | a fully escaped `unlock` value, even one encoding `true`, never triggers the override: the count is that of a bare URL |
| `Unlock.DatedCount` | client/src/pages/valentine-week.tsx:28-275 | by the table's own dates, no record is due before Feb 7, `min(6, day - 6)` are due on Feb 7-13, and all 7 from Feb 14 |
| `Unlock.CountDatedByPrefix` | client/src/pages/valentine-week.tsx:28-275 | when the due records form a prefix of length k, k records are due |
| `Unlock.UnlockedMatchesTable` | client/src/pages/valentine-week.tsx:277-292 | without the override the count equals the number of due records on every date except Feb 13, where it is 7 against 6 |
| `Unlock.OwnDateUnlocks` | client/src/pages/valentine-week.tsx:531 | on each record's own date, in any year, its card is already unlocked |
| `DayTable.DaysIndices` | client/src/pages/valentine-week.tsx:28-275 | the table has seven records and position i holds index i + 1 |
| `DayTable.DaysDates` | client/src/pages/valentine-week.tsx:28-275 | the records are dated Feb 7 to Feb 12 and then Feb 14 |
| `DayTable.DaysMessages` | client/src/pages/valentine-week.tsx:28-275 | every record has exactly three message variants and every variant has lines |
| `DayTable.DaysWellFormed` | client/src/pages/valentine-week.tsx:15-275 | seven records indexed 1..7, all in February, dates strictly increasing, messages non-empty |
| `DayTable.GetDay` | client/src/pages/valentine-week.tsx:464 | a record is found exactly for indices 1..7, and the record found carries the index asked for |
| `DayTable.ChosenMessage` | client/src/pages/valentine-week.tsx:466-469 | the shown variant is one of the day's variants, and it has lines when the day's messages are non-empty |
| `CardState.Click` | client/src/pages/valentine-week.tsx:538-541 | a locked card leaves `activeDay` unchanged; an unlocked card sets it to that card's index; any change opens an unlocked index |
| `CardState.Back` | client/src/pages/valentine-week.tsx:590 | "back" always returns to the grid (null) |
| `CardState.IsUnlocked` | client/src/pages/valentine-week.tsx:531 | no contract of its own (`unlocked >= d.index`); `UnlockedCardsArePrefix` states which cards it admits |
| `CardState.Step` | client/src/pages/valentine-week.tsx:538-541 | "back" gives the grid; a press that changes the state opens the pressed card, which is unlocked; a reachable state stays reachable |
| `CardState.Run` | client/src/pages/valentine-week.tsx:538-541 | a sequence of events that ends with "back" ends on the grid |
| `CardState.ActiveRecord` | client/src/pages/valentine-week.tsx:464 | a record is shown exactly for an active index in 1..7, and it is the table record with that index |
| `CardState.UnlockedCardsArePrefix` | client/src/pages/valentine-week.tsx:531 | the openable cards are exactly the first `unlocked` cards of the table |
| `CardState.RunStaysReachable` | client/src/pages/valentine-week.tsx:462-464 | after any sequence of presses, the open card (if any) is unlocked and is a table record |
| `CardState.NothingOpensBeforeTheWeek` | client/src/pages/valentine-week.tsx:538-541 | with nothing unlocked, no sequence of presses leaves the grid |

## Left out

- The host clock and `window.location.search` are parameters: the date is passed as (year, zero-based month, day) and the search string as text. Time zones, daylight saving and `Date` normalisation of out-of-range fields are not modelled. So are two-digit years, which `new Date(y, m, d)` maps to 19yy; in `getUnlockedCount` every date carries the same year, so this cancels.
- The `typeof window !== "undefined"` guard in `getUnlockedCount`: the model assumes the browser, where it always holds.
- `QueryString.PercentDecode`: `%XY` becomes the character with code 0xXY. This is exact for ASCII results. For bytes of 0x80 and above the real parser UTF-8-decodes the byte sequence, which the model does not do. A UTF-8 decode never turns such bytes into ASCII letters, so whether a value equals `true` is unaffected.
- The unlocked count is computed once when the page mounts (`useMemo`); the model computes it for one given date and does not model the page staying open across midnight.
- `CardState.Step`: the card buttons exist only in the grid view and "back" only in the card view. The model applies both handlers in any state, and presses carry a table position because buttons are generated from the table.
- The random choice of message variant (`Math.random`) is an input `pick` in `[0, |messages|)`.
- `isBeforeWeek` (valentine-week.tsx:473) is computed but not used by the logic shown, so it is not modelled.
- Rendering, JSX, animation, Tailwind classes, `useThemeVars` (a DOM style mutation), `FloatingThings`, `DayVisual`, `RoseDayVisuals`, the rose and hero components, and the routing inside the router (`/` versus not-found): presentation only, with no stated behaviour.
