# HabitPro habit model in Dafny

HabitPro is a browser habit tracker. It keeps one list of habits. Each habit
record holds an id, a name, a category, a colour, a streak, the day it was
last completed and its history of completion days. Three handlers change the
list:

- **create** trims the name. It refuses a blank name and otherwise appends a
  fresh record.
- **toggle** marks a habit done for today, at most once per day.
- **delete** removes a habit.

Each successful change writes the whole list to storage. The dashboard, the
charts and the reminder sweep derive read-only numbers from the list and the
current day.

The project has three modules:

- `Habits` (`habits.dfy`) holds the habit record and JavaScript's `trim`.
  It also holds the per-habit transitions (`NewHabit`, `MarkDone`, `Complete`),
  the list lookups that `find` and `filter` perform, and the lemmas about
  repeated completions. The record invariant `Consistent` says: the history
  has no duplicate days, the streak equals the history length, and the last
  completion day is in the history.
- `Tracker` (`tracker.dfy`) holds the class `HabitList`. Its field `habits`
  is changed in place by `Create`, `Toggle` and `Delete`. Its ghost field
  `saves` logs every full-list write to storage.
- `Stats` (`stats.dfy`) holds the pure aggregates: the done-today count,
  the total, the best streak, the completed/pending split, the weekday
  histogram and the reminder selection.

Inputs that the program reads from its environment are parameters here:

- `today` stands for the clock's date string.
- `id` stands for `Date.now()`.
- `dayOf: Date -> int` stands for `new Date(d).getDay()`. Any value outside
  0..6 stands for a date that does not parse.
- `confirmed` is the answer to the delete confirmation dialog.
- `granted` is the notification permission.
- The constructor's `stored` argument is the stored list, or `None` when the
  storage key is absent.

Modelling notes:

- Toggling an unknown id makes `find` return `undefined`, and reading its
  `lastDate` throws a `TypeError` at `script.js:67`. That happens before
  anything is changed or saved. The model makes this an explicit outcome:
  `HabitList.Toggle` returns `NotFound` and leaves the list and the save log
  unchanged.
- Malformed stored text makes `JSON.parse` throw at `script.js:3`. Only an
  absent key, or a stored value that is falsy once parsed, gives the empty
  list.
- The streak counts distinct completion days. It is never reset on a missed
  day, and the model keeps that.
- `find` updates only the first habit with a given id (`script.js:64`).
  `filter` deletes every habit with that id (`script.js:85`).
- "Done today" (`DoneToday`) means the last completion date equals today's
  date string (`script.js:49, 67, 128`). A missing history reads as an empty
  one (`Dates`, `script.js:74, 143`). A habit counts for a weekday (`OnDay`)
  when one of its history dates parses to that weekday (`script.js:143`).

## Model

| member | source | states |
|---|---|---|
| `Habits.Trim` | script.js:192 | the trimmed name is a slice of the input that neither starts nor ends with white space, everything cut off is white space, and it is empty exactly when the input is blank |
| `Habits.TrimIdempotent` | script.js:192 | trimming an already trimmed name changes nothing |
| `Habits.NewHabit` | script.js:195-203 | a created record has the given id, name, category and colour, streak 0, no last date, an empty history, and satisfies the record invariant |
| `Habits.MarkDone` | script.js:72-78 | after the guard: last date becomes today, a missing history becomes present, a new day is appended at the end with the streak up by exactly 1, a day already present changes neither, identity fields kept |
| `Habits.Complete` | script.js:67-78 | a habit already done today (`DoneToday`) is returned unchanged; otherwise the result is exactly `MarkDone(h, today)` and is done today; the only day that can be appended to the history (`Dates`) is today, and only when it is not there yet, raising the streak by one; when today is already in the history, history and streak stay as they were; identity fields are kept |
| `Habits.CompleteConsistent` | script.js:72-78 | a completion keeps the record invariant (no duplicate days, streak equals history length, last date in history) and adds exactly today to the set of completion days |
| `Habits.ReplayMonotone` | script.js:63-81 | over any sequence of toggles the streak never decreases and grows by at most one per toggle, the history never shrinks and only grows at its end, and identity fields never change |
| `Habits.ReplayConsistent` | script.js:74-77 | over any sequence of toggles the history never holds duplicates, the streak equals the history length, and the set of days is the old set plus every toggled day |
| `Habits.ReplayDistinctDays` | script.js:74-77 | toggles on pairwise distinct new days append exactly those days in order and raise the streak by their number |
| `Habits.FreshHabitCountsDistinctDays` | script.js:200-202 | from a freshly created habit, toggles on any days give streak == history length == number of distinct days; on N distinct days the history is those days and the streak is N |
| `Habits.FirstIndex` | script.js:64 | `find` returns nothing exactly when no habit has the id, and otherwise the first position holding that id |
| `Habits.Without` | script.js:85 | delete keeps exactly the habits whose id differs, no habit of that id remains, and an absent id leaves the list unchanged |
| `Habits.WithoutConcat` | script.js:85 | delete preserves the order of the remaining habits (it distributes over concatenation) |
| `Habits.WithoutKeepsConsistent` | script.js:85 | delete keeps every remaining record consistent |
| `Habits.WithoutKeepsUniqueIds` | script.js:85 | delete keeps ids unique |
| `Habits.WithoutIdempotent` | script.js:85 | deleting the same id twice equals deleting it once |
| `Tracker.HabitList.constructor` | script.js:3 | start-up list is the stored list, or empty when nothing is stored; no save yet |
| `Tracker.HabitList.Create` | script.js:191-208 | a blank trimmed name is refused and nothing changes or is saved; otherwise exactly one fresh record with the trimmed name and given id is appended after the unchanged prefix and the list is saved; record invariant and (for an unused id) unique ids kept |
| `Tracker.HabitList.Toggle` | script.js:63-81 | an unknown id changes nothing; a habit already done today is refused with no change and no save; otherwise only the first habit of that id is replaced by its `MarkDone` update and the list is saved; invariant and unique ids kept |
| `Tracker.HabitList.Delete` | script.js:83-88 | once confirmed, the list becomes `Without(list, id)` and is saved, an absent id leaving it unchanged; unconfirmed, nothing changes; invariant and unique ids kept |
| `Stats.Completed` | script.js:128 | contains exactly the habits that are done today (`DoneToday`); its length is fixed by `Stats.SelectCount` |
| `Stats.Pending` | script.js:49 | the reminder's pending set contains exactly the habits that are not done today; its length is fixed by `Stats.SelectCount` |
| `Stats.Select` | script.js:128 | the shared filter behind both `filter` calls keeps exactly the habits whose done-today status (`DoneToday`) matches the one asked for |
| `Stats.SelectCount` | script.js:127-128 | the filter's length is the number of list positions whose habit matches, so repeated records are counted once per position |
| `Stats.SelectConcat` | script.js:128 | the filter keeps list order: filtering a concatenation is concatenating the filtered parts |
| `Stats.CompletedPendingPartition` | script.js:172-178 | completed plus pending is the whole list |
| `Stats.TodayCount` | script.js:127-128 | the done-today count is the number of list positions whose habit is done today (repeated records counted once per position), at most n, and equal to n minus the number of pending habits |
| `Stats.TodayCountZero` | script.js:127-128 | the count is 0 exactly when no habit is done today |
| `Stats.BestStreak` | script.js:131-132 | 0 for an empty list; otherwise at least every habit's streak and equal to some habit's streak |
| `Stats.DashboardOf` | script.js:126-133 | total is the list length, today count equals `TodayCount` and adds up with pending to the total, best streak equals `BestStreak`, bounds every streak, is reached by some habit and is 0 on an empty list |
| `Stats.CompletionSplit` | script.js:172-178 | the pie's slices add up to the list length and are exactly the completed and the pending habits |
| `Stats.Reminders` | script.js:49-57 | with permission, the reminders are exactly the pending list, one per list position not done today and in list order (n - c of them, order and count through `Stats.SelectConcat` and `Stats.SelectCount`); without permission none |
| `Stats.CountOnDay` | script.js:142-144 | a weekday's count never exceeds the number of habits; its exact value is stated by `Stats.CountOnDayValue` |
| `Stats.CountOnDayValue` | script.js:141-145 | a weekday's count is the number of list positions whose habit has a history date on that weekday (`OnDay`) |
| `Stats.Histogram` | script.js:140-145 | the weekly chart has exactly 7 entries, and entry i is the number of list positions whose habit has a history date on weekday i (`OnDay`), hence at most the number of habits |
| `Stats.CountSkipsNoHistory` | script.js:143 | a habit with missing or empty history adds nothing to a weekday count, wherever it sits in the list |
| `Stats.HistogramSkipsNoHistory` | script.js:143 | a habit with missing or empty history leaves the whole weekly chart unchanged |
| `Stats.MarkDoneRaisesTodayCount` | script.js:72 | completing a habit not yet done today raises the done-today count by exactly one |
| `Stats.MarkDoneGrowsCompleted` | script.js:72-78 | completing a habit not done today adds exactly one element to the completed list |
| `Stats.CompleteKeepsBestStreak` | script.js:77 | a completion never lowers the best streak |

## Left out

- Rendering is not modelled: the habit cards, the `innerHTML` templates, the modal, the theme toggle, the toasts and their timer (script.js:10-15, 96-118, 184-188, 210-226). They are user interface only.
- The Chart.js objects are not modelled: their creation and destruction (script.js:137-138, 147-151, 174-181) is a foreign library. Only the data arrays are modelled.
- The streak line chart (script.js:154-166) is not modelled. It only copies each habit's name and streak into a chart.
- Storage is not modelled: `localStorage` and JSON encoding (script.js:3, 91). Each write is recorded as a whole-list snapshot in the ghost log `saves`. Malformed stored text, on which `JSON.parse` throws, is not modelled. Stored records whose fields have other types are not modelled either: the streak is a natural number and ids are integers.
- The clock, the locale and date parsing (script.js:17, 30-36, 143, 196) are not modelled. They are the parameters `today`, `id` and `dayOf`.
- The reminder timer, the Notification API and the permission request (script.js:46-60, 218-222) are not modelled. Only the choice of habits to remind about is modelled, with the permission as a parameter.
- The random daily quote (script.js:38-39) is not modelled.
- The delete confirmation dialog (script.js:84) is not modelled. It is the parameter `confirmed`.
- Aliasing of habit objects is not modelled. The source changes the found habit object in place, and the model replaces that element of the list. Nothing else holds a reference to a habit between handler calls, so the two agree.
- JavaScript numbers are not modelled. The streak is an unbounded natural number, while the source's `streak++` is exact only up to 2^53.
