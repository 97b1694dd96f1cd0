# TriStreak streak engine in Dafny

A model of the daily streak tracker "TriStreak". The app keeps one record per
life-pillar category: development, nutrition and physical. Each record holds a
current streak, a best streak, the last day it was marked done, and the list of
days it was marked done.

Three transitions change the records:

- loading from storage zeroes every broken streak;
- marking a category done adds one day at most once per calendar day, unless
  a manual reset clears the last day in between, after which the day is
  counted and appended again;
- a manual reset clears a category's current streak and last day.

The header shows the sum of the current streaks; it only reads the records.

A streak's status is read off its last day. A streak marked today is done.
One marked yesterday is on its grace day. Any other streak, or one never
marked, is broken.

The store dialog decides whether a streak freeze is running and whether the
balance covers one. It also decides what the freeze item shows, and prints
the expiry day as `DD/MM/YYYY`.

Days are civil dates (`Calendar.Date`). The source builds day strings as
`${year}-${MM}-${DD}` with a zero-padded month and day. For four-digit years
that is the `full-date` form of section 5.6 of RFC 3339, and
`DayString.Format` models it. The clock is never read. `today` is a parameter
of every operation that needs it, and yesterday is `Calendar.PrevDay(today)`.

Files: `calendar.dfy` (dates and the day before), `daystring.dfy` (decimal
printing, `padStart`, the day string and its inverse), `utils.dfy` (utils.ts),
`types.dfy` (types.ts), `app.dfy` (App.tsx: pure transitions plus the
`Tracker` class whose handlers replace the record list) and `store_modal.dfy`
(components/StoreModal.tsx). `options.dfy` holds the `Option` type.

Facts about the program that shape the model:

- The load pass consults no freeze and touches no master streak (App.tsx:49-55).
- There are three categories (App.tsx:8-33). StreakCard.tsx:52 names a
  `HYGIENE` category that types.ts does not declare.
- Master streaks, coin minting and freeze purchase are implemented in none of
  App.tsx, utils.ts or StoreModal.tsx. StoreModal only receives an
  `onBuyFreeze` callback (StoreModal.tsx:9).
- StreakCard declares an `onReset` prop (StreakCard.tsx:9) and App passes
  `handleReset` to it (App.tsx:148), but StreakCard never takes it out of its
  props (StreakCard.tsx:14-19). No shown component calls `handleReset`; the
  model still treats reset as a transition, as App.tsx defines it.
- `calculateStreakStatus` also treats an empty string as absent, because
  `!lastDate` is true for `""` (utils.ts:19). The model keeps that branch.

## Model

| member | source | states |
|---|---|---|
| Calendar.PrevDay | utils.ts:9-11 | the day before a valid day is a valid day, and strictly earlier |
| Calendar.PrevDayIsImmediatePredecessor | utils.ts:9-11 | no valid day lies strictly between `PrevDay(d)` and `d`, so `setDate(getDate() - 1)` is the civil day before, across month and year ends |
| Calendar.PrevNextInverse | utils.ts:9-11 | stepping back one day and then forward one day, in either order, returns the starting day |
| Calendar.PrevDayRollovers | utils.ts:9-11 | month end, leap February (2024, 2000), non-leap February (2023, 2100) and New Year rollovers of the day before |
| Calendar.BeforeIsStrictTotalOrder | components/StoreModal.tsx:21 | the chronological day order used by `>=` on expiry days is irreflexive, asymmetric, transitive and total |
| DayString.NatToString | utils.ts:4-5 | `String(n)` is a non-empty digit string, one character exactly for n < 10, with no leading zero |
| DayString.PadStart | utils.ts:4-5 | `padStart` leaves a long enough string alone, and otherwise puts exactly the missing number of fill characters in front |
| DayString.TwoDigitsFacts | utils.ts:4-5 | for values up to 99 the padded field is exactly two digits and reads back as the value |
| DayString.IntToString | utils.ts:6 | `String(year)` is non-empty and starts with a minus sign exactly for negative years |
| DayString.Format | utils.ts:6 | the day string `${year}-${month}-${day}` has at least 7 characters; `ParseFormatRoundTrip` and `FormatInjective` state that it determines the day |
| DayString.NatToStringRoundTrip | utils.ts:2-5 | reading `String(n)` back as decimal digits gives `n` |
| DayString.ParseFormatRoundTrip | utils.ts:1-6 | parsing the day string of a valid day gives that day back |
| DayString.FormatInjective | utils.ts:1-16 | two valid days have the same day string exactly when they are the same day |
| DayString.FormatIsFullDate | utils.ts:1-6 | for a four-digit year the day string is `YYYY-MM-DD`, with the month 01-12. The day is at most the month's length. Each field reads back as the day's own value |
| DayString.FormatExample | utils.ts:1-6 | 2024-01-09 and 2024-01-10 print with zero-padded month and day |
| Utils.TodayString | utils.ts:1-6 | today's string parses back to today |
| Utils.YesterdayString | utils.ts:9-16 | yesterday's string parses back to the day before today and never equals today's string |
| Utils.CalculateStreakStatus | utils.ts:18-34 | never both done-today and broken. Done-today exactly when the last day is today's string. Not broken exactly when the last day is today's or yesterday's string |
| Utils.NullIsBroken | utils.ts:19 | a record never marked is `{false, true}` |
| Utils.TodayIsCompleted | utils.ts:24-26 | a record marked today is `{true, false}` |
| Utils.YesterdayIsGrace | utils.ts:28-30 | a record marked yesterday is `{false, false}`: the grace day does not break the streak |
| Utils.OlderIsBroken | utils.ts:32-33 | a record last marked two or more days ago is `{false, true}` |
| Utils.StatusByDay | utils.ts:18-34 | for a last day on or before today: done-today exactly when it is today, broken exactly when it is before yesterday |
| Types.Label | types.ts:1-5 | each category's enum string reads back, through `CategoryOf`, as that category, so the three strings are distinct |
| App.InitialData | App.tsx:8-33 | three records, one per category in order, all unique ids, all with zero streaks, no last day and empty history |
| App.ReconcileAll | App.tsx:49-55 | same length and order. A streak survives exactly when it was marked today or yesterday and is zeroed otherwise. No other field of any record changes |
| App.ReconcileIdempotent | App.tsx:49-55 | reconciling twice with the same today equals reconciling once |
| App.ReconcileNeverIncreasesTotal | App.tsx:49-55 | reconciling never raises the header total |
| App.ReconcilePreservesInvariants | App.tsx:49-55 | reconciling keeps ids unique and every best streak at least the current one |
| App.ReconcileEstablishesNoStreakWithoutDate | App.tsx:49-55 | whatever was stored, after the load pass no record without a last day has a current streak, since a null date classifies as broken (utils.ts:19) |
| App.LoadScenario | App.tsx:49-55 | loading on 2024-01-10 a streak of 5 last marked 2024-01-01 zeroes it and keeps the date, best streak and history |
| App.CompleteAll | App.tsx:65-82 | same length and order. Other ids and records already marked that day are unchanged. The matching record gains exactly one day whatever the gap, takes best = max(old best, new current) and that day as last day, and has the day appended to its history |
| App.CompleteIdempotent | App.tsx:70 | completing twice on one day equals completing once |
| App.CompletePreservesInvariants | App.tsx:68-82 | completion keeps ids unique and every best streak at least the current one |
| App.CompleteKeepsNoStreakWithoutDate | App.tsx:72-78 | a completion keeps "no streak without a last day": a completed record always gets a day |
| App.TotalAfterComplete | App.tsx:68-82 | with unique ids, completing a known category raises the total by one, or by nothing if it was already marked that day |
| App.CompleteScenario | App.tsx:72-78 | a streak of 5 marked 2024-01-09 and completed on 2024-01-10 becomes 6 with best 6, last day 2024-01-10 and that day appended |
| App.ResetReopensDay | App.tsx:65-97 | after a reset, completing a record on a day it was already marked counts that day again: current streak 1, last day set, and the day appended to the history once more |
| App.ResetThenCompleteScenario | App.tsx:65-97 | completing, resetting and completing again on 2024-01-10 gives streak 1 with `2024-01-10` twice in the history |
| App.LoadThenComplete | App.tsx:49-55 | loading and then completing gives the old streak if marked today, the old streak + 1 if marked yesterday, and 1 otherwise |
| App.ResetAll | App.tsx:88-94 | same length and order. Only records with the id change, and they get current streak 0 and no last day. Id, category, best streak and history are kept |
| App.ResetIdempotent | App.tsx:88-94 | resetting twice equals resetting once |
| App.ResetNeverIncreasesTotal | App.tsx:88-94 | a reset never raises the header total |
| App.ResetPreservesInvariants | App.tsx:88-94 | a reset keeps ids unique and every best streak at least the current one |
| App.ResetKeepsNoStreakWithoutDate | App.tsx:91 | a reset keeps "no streak without a last day": it clears both together |
| App.Total | App.tsx:104 | the `reduce` sum of current streaks is at least every single current streak |
| App.TotalOfZeros | App.tsx:104 | the sum of current streaks is 0 when every current streak is 0 |
| App.TotalInitialIsZero | App.tsx:8-33 | the header total of the initial records is 0 |
| App.TotalMonotone | App.tsx:104 | raising no current streak raises no part of the sum, so the total cannot grow |
| App.Tracker.constructor | App.tsx:36 | the list starts as the initial records, and the header total is then 0 |
| App.Tracker.Load | App.tsx:42-62 | with stored records the list becomes their reconciliation: every surviving streak was marked today or yesterday, and no record without a last day keeps a streak. With nothing usable stored the list is kept |
| App.Tracker.HandleComplete | App.tsx:65-86 | the list becomes its completion with today's string, keeping unique ids, best >= current and no streak without a last day |
| App.Tracker.HandleReset | App.tsx:88-97 | the list becomes its reset for the id, keeping unique ids, best >= current and no streak without a last day |
| App.Tracker.TotalStreak | App.tsx:104 | the header number is at least each category's current streak |
| StoreModal.IsFreezeActive | components/StoreModal.tsx:20-22 | with no expiry there is no freeze; with an expiry day the freeze is active exactly when today is that day or earlier |
| StoreModal.CanAfford | components/StoreModal.tsx:24 | the balance covers the freeze exactly when paying its price of 2 leaves a non-negative balance |
| StoreModal.FreezeEndsAfterExpiryDay | components/StoreModal.tsx:20-22 | the expiry day itself is covered, the day after is not, and no expiry means no freeze |
| StoreModal.FreezeLapseIsPermanent | components/StoreModal.tsx:21 | a freeze inactive on a day is inactive on every later day |
| StoreModal.Split | components/StoreModal.tsx:73 | `split` yields at least one piece and no piece contains the separator |
| StoreModal.SplitJoinRoundTrip | components/StoreModal.tsx:73 | joining the pieces of a split with the same separator gives the string back |
| StoreModal.Join | components/StoreModal.tsx:73 | `join` brings in no character other than the pieces' own and the separator; `SplitJoinRoundTrip` states it undoes `split` |
| StoreModal.ExpiryDisplay | components/StoreModal.tsx:73 | the split/reverse/join text contains no '-', and a string without '-' shows unchanged |
| StoreModal.Reverse | components/StoreModal.tsx:73 | `reverse` keeps the length and puts element i at position n-1-i |
| StoreModal.DisplayOfFields | components/StoreModal.tsx:73 | three dash-free fields joined by '-' come back in reverse order joined by '/' |
| StoreModal.ExpiryDisplayOfDay | components/StoreModal.tsx:73 | for years from 0 on, the expiry text of a day is `DD/MM/<year>` |
| StoreModal.RenderFreezeItem | components/StoreModal.tsx:63-100 | the buy button shows exactly when there is no expiry or it is before today. It is disabled exactly when `CanAfford` fails, that is when coins are below the price of 2. Otherwise the shield is lit, the "Ativo" badge shows, and the expiry text is `DD/MM/<year>` |

## Left out

- Storage: `localStorage` reads and writes and `JSON.parse` are I/O. `Tracker.Load` takes what was read as an optional record list. `None` stands for an absent key, an empty value, a failed parse, or JSON that parses but is not a list of records (such as `null`, `{}` or `[null]`, where `parsed.map` or a field read throws and the catch at App.tsx:59 keeps the list). Records that parse with missing or wrongly typed fields cannot be represented at all.
- The clock: `new Date()` is replaced by the `today` parameter, one civil date for every caller. The store dialog and StreakCard.tsx take the UTC date through `toISOString`, while utils.ts takes the local date. The model does not capture that difference.
- Date parsing: `new Date(wallet.freezeExpiresAt)` is modelled as comparing day values. The wallet's expiry is an optional `Calendar.Date`, not a string, so malformed expiry strings are not modelled.
- The `Wallet` type is not declared in types.ts. The model keeps only the two fields the dialog reads, `coins` and `freezeExpiresAt`.
- JavaScript numbers: streak counts are unbounded naturals. Precision loss past 2^53 and negative or fractional counts read from storage are not modelled.
- JavaScript's date range (about ±273,790 years) is not modelled. Years are unbounded integers.
- StoreModal.ExpiryDisplayOfDay: the `DD/MM/<year>` form is proved only for years from 0 on. For negative years `split('-')` also cuts at the sign. The general split/reverse/join is still modelled for every string.
- DayString.FormatIsFullDate: proved only for four-digit years. `String(year)` is not padded, so other years do not give a 10-character string. `DayString.ParseFormatRoundTrip` covers every year.
- React plumbing, rendering, the motivation dialog, the chart, the colour tables and the progress-bar width (float arithmetic) are presentation only.
- The network client for motivational text is an external asynchronous service.
- `handleComplete` and `handleReset` also write storage after replacing the list. Only the replacement is modelled.
