# Portfolio page view counter and engagement tracker, in Dafny

A model of the state-machine logic in the portfolio page's `script.js`:

- **View counter** (`initViewCounter`). It reads the durable count `pageViews`; an absent, empty or
  non-numeric count reads as 0. Only when the session flag `sessionViewed` is unset does it count
  the visit. It stores the incremented count, sets the flag and stores a `visitData` record holding
  the new count, the time and the first 50 characters of the user agent. In every case it hands
  the count to the display animation. A missing `view-count` element makes it a no-op. A missing
  Storage API shows 0. A storage call that throws shows 1, and whatever was written before the
  throw stays written.
- **Counter animation** (`animateCounter`). This is the sequence of integers the element shows.
  Each timer tick adds `max(1, ceil(n / 30))`, and the tick that reaches `n` shows `n` and clears
  the timer. A value below 1 is shown at once.
- **Engagement tracker** (`trackPageEngagement`). A class holds the three closure variables
  `startTime`, `maxScroll` and `isActive`, with one method per event. A scroll deepens `maxScroll`
  while the tab is active. A visibility change sets `isActive`. Unload builds and stores the
  `lastVisitMetrics` record, with the time rounded to whole seconds and `maxScroll` capped at 100.
- **Reset** (`resetViewCounter`). It removes `pageViews`, `visitData` and `lastVisitMetrics` from
  the durable store and `sessionViewed` from the session store, then shows 0.
- **Stats report** (`showPageStats`). These are the four values it prints, each a value or the
  "not available" placeholder.

The durable store and the session store are each a `map<string, Entry>`. An `Entry` is an
already-decoded stored string: a numeral, some other text, a visit record or a metrics record.
The `view-count` element is a log of every value written to its text. The model treats the
animation timer as running to completion, so a load appends the whole tick sequence.

`Page` (storage.dfy) holds the two maps and the element. `InitViewCounter` and
`ResetViewCounter` (view_counter.dfy) change a `Page` in place. Each is proved equal to a pure
specification, `Load` or `Reset`, and the lemmas about those functions state the counter's
promises across calls. `Tracker` (engagement.dfy) is specified the same way by `Step`, and its
lemmas are stated over `Replay`, a sequence of events. `Animate` (animation.dfy) is the tick loop,
proved to produce `Frames(n)`.

Inputs from the browser become parameters:
- the clock (milliseconds for the tracker, an opaque ISO-8601 text for records);
- the user agent and the page URL;
- the rounded scroll percentage: an integer, NaN or an infinity;
- whether the Storage API exists;
- which storage call throws, if any.

Four behaviours of the code worth noting:
- For a final value below 1 the element shows that value, not "0". A stored negative count
  therefore shows as it is.
- A missing `view-count` element leaves the element and both stores untouched. The code does not
  display "0" in that case.
- `maxScroll` is only capped above (`Math.min(maxScroll, 100)`). The lower bound 0 is proved to
  hold because the variable starts at 0 and `Math.max` never lowers it.
- "At most once per session" holds only when writing the session flag does not throw. If that
  write throws, the count is already stored but the flag is not, and the next reload counts again
  (`FlagWriteFaultCountsAgain`).

## Model

| member | source | states |
|---|---|---|
| `Animation.Increment` | script.js:108 | the per-tick increment is at least 1 and is the least r with n <= 30 r, i.e. ceil(n / 30) |
| `Animation.Ticks` | script.js:112-119 | the ticks after a shown value below n are at least one and the last one shows exactly n |
| `Animation.Frames` | script.js:101-119 | the element's values for n always end on n, and for n < 1 are n alone |
| `Animation.TicksShape` | script.js:112-119 | from a shown value cur below n, the ticks climb strictly, stay in (cur, n], end on n, the i-th is min(cur + (i+1)·inc, n), and their number k satisfies (k-1)·inc < n - cur <= k·inc |
| `Animation.TicksFromZero` | script.js:108-119 | counting up from 0 by any step that reaches n within 30 steps, the ticks number at most 30, climb strictly within [1, n], the i-th is min((i+1)·step, n), and the last is n |
| `Animation.FramesShape` | script.js:101-119 | for n >= 1 the shown values strictly increase, lie in [1, n], end on exactly n, the i-th is min((i+1)·increment, n), and there are at most 30 of them, so `clearInterval` is reached |
| `Animation.FramesBelowOne` | script.js:102-105 | for n < 1 the value is shown at once, with no ticks |
| `Animation.FramesEndOnValue` | script.js:101-119 | whatever n, the last value shown is n |
| `Animation.Animate` | script.js:101-120 | the tick loop terminates and returns exactly the specified sequence `Frames(n)`, which ends on n; for n >= 1 it is strictly increasing and at most 30 long |
| `ViewCounter.StoredCount` | script.js:70-76 | the count read is the numeral's value when `pageViews` holds a numeral and 0 when it is absent, empty or malformed |
| `ViewCounter.FlagSet` | script.js:78-80 | the session counts as viewed exactly when `sessionViewed` is present and not the empty text, so the "true" a load writes counts, an empty value reads as unset and any other non-empty text reads as set |
| `ViewCounter.Load` | script.js:53-99 | a load only appends to the element, adds no durable key but `pageViews` and `visitData` and no session key but `sessionViewed` (that every other key keeps its value is `LoadWritesOnlyItsKeys`), changes neither store once the flag is set, and changes the durable store only with the element present, the Storage API present and the flag unset |
| `ViewCounter.Reset` | script.js:177-194 | a working reset leaves none of `pageViews`, `visitData`, `lastVisitMetrics`, `sessionViewed` behind, so the flag is unset; it only removes keys, every key it keeps has its old value, and a throwing store changes nothing (that it removes no other key is `ResetRemovesExactlyFourKeys`) |
| `ViewCounter.Snippet` | script.js:88 | the stored user agent is a prefix of the real one with at most 50 characters: all of it when it is short enough, exactly 50 otherwise |
| `ViewCounter.InitViewCounter` | script.js:53-99 | the in-place load leaves the page in the state `Load` prescribes for its stores, element and environment |
| `ViewCounter.ResetViewCounter` | script.js:177-194 | the in-place reset leaves the page in the state `Reset` prescribes |
| `ViewCounter.FirstLoadInSession` | script.js:78-93 | with the flag unset, a load stores count + 1, sets the flag, stores a `visitData` with that count and a user agent of at most 50 characters, changes no other durable key, and ends the element on the new count |
| `ViewCounter.LoadInCountedSession` | script.js:78-93 | with the flag set, a load writes nothing to either store and the element ends on the stored count |
| `ViewCounter.FreshStoreCountsOne` | script.js:70-82 | an absent or malformed count reads as 0, so the first counting load stores 1 and shows 1 |
| `ViewCounter.MissingElementTouchesNothing` | script.js:54-59 | without the element a load reads and writes nothing |
| `ViewCounter.NoStorageShowsZero` | script.js:63-67 | without the Storage API the element shows 0 and nothing is written |
| `ViewCounter.FaultShowsOne` | script.js:61-98 | a throwing storage call leaves the element on 1; at most the incremented count and the flag were written before it, and never the visit record |
| `ViewCounter.LoadCountStep` | script.js:72-82 | a load keeps the stored count or adds exactly one |
| `ViewCounter.LoadWritesOnlyItsKeys` | script.js:78-90 | every durable key other than `pageViews` and `visitData`, and every session key other than `sessionViewed`, keeps its value across a load |
| `ViewCounter.AtMostOncePerSession` | script.js:78-91 | over any run of loads in one session (no flag write throwing) the count rises at most once, and only together with the flag; once the flag is set the durable store never changes |
| `ViewCounter.FlagWriteFaultCountsAgain` | script.js:81-83 | when writing the flag throws, the next load of the same session counts again: two loads add two |
| `ViewCounter.ReloadIsIdempotent` | script.js:78-93 | after a clean load, a reload in the same session changes neither store and shows the same count, which is the stored one |
| `ViewCounter.FreshBrowserScenario` | script.js:53-99 | fresh browser: first load stores and shows 1 and sets the flag, reload keeps 1, a new session stores and shows 2 |
| `ViewCounter.NewSessionCountsAgain` | script.js:78-93 | in a new session (empty session store) a clean load stores and shows the stored count plus one |
| `ViewCounter.ResetRemovesExactlyFourKeys` | script.js:179-188 | reset removes exactly the three durable keys and the session flag, keeps every other key with its value, and shows 0 when the element exists |
| `ViewCounter.ResetThenLoadCountsOne` | script.js:179-182 | after a reset the next clean load stores 1 and shows 1 |
| `Engagement.Start` | script.js:123-125 | the tracker starts at the load time with `maxScroll` 0 and the tab active |
| `Engagement.Step` | script.js:127-138 | an event never changes `startTime` and never lowers `maxScroll` (nor takes it below 0); a scroll keeps `isActive`, sets `maxScroll` to `Deepen` of the old depth and the reading (`Math.max(maxScroll, scrollPercent || 0)`) while active and changes nothing while inactive; a visibility change sets `isActive` to "not hidden" and keeps `maxScroll` |
| `Engagement.Metrics` | script.js:142-149 | the record's time is the elapsed time in nearest whole seconds, its scroll is `CappedScroll(maxScroll)` (`Math.min(maxScroll, 100)`), so at most 100 and at least 0 when `maxScroll` is, and timestamp and URL are the given ones |
| `Engagement.Deepen` | script.js:133 | the new `maxScroll` is the larger of the old one and the reading: never lower than before, at least an integer reading, NaN counts as 0, +Infinity sticks, -Infinity changes nothing |
| `Engagement.CappedScroll` | script.js:146 | the stored scroll is at most 100, equals `maxScroll` when that is at most 100, is 100 for larger or infinite depth, and is at least 0 when `maxScroll` is |
| `Engagement.RoundedSeconds` | script.js:142 | the time spent is the elapsed milliseconds rounded to the nearest second, halves up |
| `Engagement.ReplayDeepens` | script.js:124-138 | over any events `maxScroll` never decreases, stays >= 0, and is at least every integer reading taken while the tab was active |
| `Engagement.UnloadScrollInRange` | script.js:140-149 | whatever happened since load, the stored `maxScroll` (the tracker's maximum capped at 100, by `Metrics`) lies in [0, 100] (values above 100 and Infinity included) and the time spent is the rounded elapsed seconds |
| `Engagement.VisibilityDecidesActivity` | script.js:136-138 | after a visibility event `isActive` is exactly "not hidden", and `maxScroll` is untouched |
| `Engagement.InactiveScrollIgnored` | script.js:127-128 | a scroll while inactive changes nothing |
| `Engagement.Tracker.constructor` | script.js:123-125 | the tracker starts at the given time with `maxScroll` 0 and active |
| `Engagement.Tracker.OnScroll` | script.js:127-134 | the scroll handler performs `Step` for a scroll, keeps `maxScroll` >= 0 and never lowers it |
| `Engagement.Tracker.OnVisibilityChange` | script.js:136-138 | the visibility handler sets `isActive` to "not hidden" |
| `Engagement.Tracker.UnloadMetrics` | script.js:142-149 | the unload record is `Metrics` of the tracker state, so its scroll is the tracker's `maxScroll` capped at 100, and it lies in [0, 100] |
| `Engagement.Tracker.OnBeforeUnload` | script.js:140-155 | unload stores that record under `lastVisitMetrics` (with `maxScroll` in [0, 100]) and changes nothing when the store throws |
| `Storage.Page.SaveVisitMetrics` | script.js:151-154 | the metrics record replaces `lastVisitMetrics` alone, or nothing changes when the write throws |
| `Stats.ShownViews` | script.js:166 | the printed count is the stored `pageViews` entry unless that is absent or empty, in which case it is 0 |
| `Stats.LastVisitOf` | script.js:167 | the last visit is printed exactly when a visit record with a non-empty `lastVisit` is stored, and it is that stored time |
| `Stats.TruthyMetric` | script.js:168-169 | a time or scroll is printed exactly when a metrics record is stored and the field is non-zero, and it is the stored field |
| `Stats.ReportAsWritten` | script.js:159-174 | the report is absent exactly when one of the two stored records fails to parse; otherwise it prints the stored count, the stored last visit, and each stored metric exactly when it is non-zero, as stored |
| `Stats.Report` | script.js:159-174 | as above, but a time and a scroll depth are printed exactly when a metrics record is stored, as stored, zero included |
| `Stats.ReportAfterFirstLoad` | script.js:167 | after the first clean load of a session the report prints the just-stored count and that load's time as the last visit |
| `Stats.ZeroMetricsReportedMissing` | script.js:168-169 | as written, a stored 0 s / 0 % visit is reported as "not available"; the corrected report shows 0 and 0 |
| `Stats.ReportShowsStoredMetrics` | script.js:168-169 | the corrected report shows exactly the stored time and scroll, and agrees with the as-written one when both are non-zero |
| `Stats.ReportedViews` | script.js:161-166 | an absent or empty count is reported as 0, any other entry as stored |

## Findings

| source | as written | input that shows it | evidently intended | confidence | as-written member | corrected member |
|---|---|---|---|---|---|---|
| script.js:168-169 | `lastMetrics.timeSpent ? … : placeholder` and the same for `maxScroll` test truthiness, so a recorded 0 prints "not available" | `lastVisitMetrics` = {timeSpent: 0, maxScroll: 0, …}, stored by an unload within half a second and without scrolling | print the placeholder only when the field is missing, and print 0 s / 0 % otherwise | medium, not executed | `Stats.ReportAsWritten` | `Stats.Report` |

## Left out

- Smooth-scroll navigation (script.js:6-24) is browser layout arithmetic (`offsetTop - 80`) and is not modelled. Note that `preventDefault` runs unconditionally, so a link whose target is missing navigates nowhere rather than jumping by default.
- The reveal-on-scroll animation (script.js:27-47) is an `IntersectionObserver` plus style strings and is not modelled.
- Timer scheduling and `stepTime` (script.js:109-112) are not modelled: each tick is one loop iteration.
- `toLocaleString` (script.js:118) is locale formatting. The element log holds the integers, not their text.
- `Date.now()` and the ISO timestamps are inputs. The user agent and the page URL are opaque strings, and only the 50-character truncation is kept. `substring` counts UTF-16 code units, while the model counts characters.
- The floating-point scroll percentage (script.js:130-132) is an input: an integer, NaN or an infinity.
- JSON text is not modelled: records are stored already decoded. `Text` under a record key stands for text that `JSON.parse` rejects, except the empty text, which `|| '{}'` replaces. Texts such as "null" that parse but make the field access throw are not distinguished.
- `ViewCounter.StoredCount`: JavaScript numbers are 64-bit floats, and counts at or above 2^53 are not modelled: there `parseInt` rounds, `viewCount++` sticks at 2^53, and from 1e21 on `setItem` writes "1e+21", which reads back as 1. The model's count is an unbounded integer.
- `ViewCounter.FirstLoadInSession`: stores exactly count + 1 only for counts below 2^53 in the real program; see `ViewCounter.StoredCount`.
- `ViewCounter.LoadCountStep`: the "adds exactly one" step holds in the real program only for counts below 2^53; see `ViewCounter.StoredCount`.
- `Animation.Increment`: `Math.ceil(n / 30)` divides in floating point; the model takes the exact ceiling, which is what it gives for the counts below 2^53 the model stands for.
- `ViewCounter.StoredCount`: counts that `isNaN` and `parseInt` read differently (" ", "3.7", "1e3", "Infinity") are not modelled. A stored count is a numeral (`Number`) or not (`Text`).
- `ViewCounter.InitViewCounter`: only storage calls throw in the model. The `!element` guard of `animateCounter` (script.js:102-103) is never reached from `initViewCounter`, which always passes an element, so it is not modelled.
- `ViewCounter.ResetViewCounter`: a store that throws is modelled as throwing on the first removal, so nothing changes. A throw between two removals is not modelled.
- `Stats.ReportAsWritten` and `Stats.Report`: a missing `localStorage` or a `getItem` that throws inside `showPageStats` (script.js:161, caught at 171) prints nothing but the error; the model's report assumes the store can be read.
- `ViewCounter.ResetRemovesExactlyFourKeys`: a reset during the counter animation is not modelled. The reset writes "0" (script.js:187), but the still-running `setInterval` callback (script.js:112-118) keeps writing ticks over it, so "shows 0" holds only once the animation has ended.
- The console output of script.js:165-169 and the hostname-dependent startup messages (script.js:196-216) are not modelled. The report is the values `showPageStats` would print.
