# HabitTracker weekly row — Dafny model

The HabitTracker app shows each habit as a row of seven day circles, Sunday
to Saturday. Tapping a circle marks or unmarks that day. The row then
recomputes a "streak" at that day and writes both the days and the streak
back into the habit's persisted record. This project models that logic in
`HabitTracker/HabitRow.swift`:

- `day_codec.dfy` (module `DayCodec`): the record stores the week as a
  text of `'0'`/`'1'` characters. A day is written as `"1"` when marked and
  `"0"` when not, and the characters are joined. Reading maps each character
  to "is it `'1'`".
- `streak.dfy` (module `Streak`): `calculateStreak(at:)`. It counts the
  marked days forward from the pivot to the end of the week. It adds the
  marked days backward from the day before the pivot to the start. It does
  not wrap from Saturday to Sunday. It is modelled twice. `RunForward`,
  `RunBackward` and `StreakAt` are recursive reference definitions.
  `CalculateStreak` is the two-loop scan, proved equal to them. Both are
  linked to an independent description: the length of a maximal run of
  marked days.
- `habit_row.dfy` (module `HabitRow`): the row as a value. `Item` holds the
  record's optional day text and its 16-bit streak. `Row` holds the record
  plus the row's own `daysSelected` and `currentStreak`. The transitions are
  creation (`init(item:)`), `onAppear`, `loadDaysSelected`, the tap handler
  and the save.
- `wrappers.dfy` (module `Wrappers`): the `Option` type for record
  attributes that may be unset.

The streak is the maximal run of marked days containing the pivot only when
the pivot is marked. When the pivot is unmarked, the forward count is zero
but the backward count still runs. The streak is then the run of marked days
that ends just before the pivot. `Streak.StreakOnUnmarkedDay` states this.

`calculateStreak(at:)` builds the range `index..<count`, which traps when
`index > count`. Its precondition is therefore `index <= |days|`.
`index == |days|` is allowed and gives the backward run alone, which is the
run that ends the week.

The view draws and reads days `0..<7`, so it needs at least seven days. The
tap itself needs only `index < count`. The model's tap requires a week of
exactly seven days and `index < 7`. The app only ever writes seven-day
weeks: the default week has seven days, and a tap keeps the length.

Storing the streak uses `Int16(currentStreak)`, which traps when the value is
out of range. The model uses a `newtype Int16`, so the conversion is a proof
obligation. It holds because the streak never exceeds the number of days.

## Model

| member | source | states |
|---|---|---|
| DayCodec.Encode | HabitTracker/HabitRow.swift:70 | the stored text has one character per day, only contains '0' and '1', and character k is '1' exactly when day k is marked |
| DayCodec.Decode | HabitTracker/HabitRow.swift:57 | the decoded week has one day per character; a day is marked exactly when its character is '1', and every other character reads as unmarked |
| DayCodec.DecodeEncode | HabitTracker/HabitRow.swift:70 | reading back the saved text gives the same week, for every week (round trip) |
| DayCodec.EncodeDecode | HabitTracker/HabitRow.swift:65 | a stored text made only of '0'/'1' is reproduced exactly by reading it and saving again |
| DayCodec.EncodeInjective | HabitTracker/HabitRow.swift:70 | two different weeks never save to the same text |
| Streak.RunForward | HabitTracker/HabitRow.swift:81-87 | the forward count from i covers only marked days and stops at an unmarked day or the end of the week |
| Streak.RunBackward | HabitTracker/HabitRow.swift:88-94 | the backward count ending at j-1 covers only marked days and stops at an unmarked day or the start of the week, with no wraparound |
| Streak.StreakAt | HabitTracker/HabitRow.swift:79-97 | the streak is between 0 and the number of days, so it fits the 16-bit field it is stored in |
| Streak.CalculateStreak | HabitTracker/HabitRow.swift:79-97 | the two-loop scan with early exits returns the forward run from the pivot plus the backward run before it, at most the number of days |
| Streak.ForwardRunIsUnique | HabitTracker/HabitRow.swift:81-87 | any marked stretch from i that ends at an unmarked day or the end of the week has exactly the forward count's length |
| Streak.BackwardRunIsUnique | HabitTracker/HabitRow.swift:88-94 | any marked stretch ending at j-1 that starts after an unmarked day or at the start has exactly the backward count's length |
| Streak.StreakOnMarkedDay | HabitTracker/HabitRow.swift:81-94 | on a marked pivot, a maximal run of marked days containing it exists, and the streak equals the length of every such run |
| Streak.StreakOnUnmarkedDay | HabitTracker/HabitRow.swift:81-94 | on an unmarked pivot the forward count is 0; the streak is the length of the maximal run ending just before the pivot, and 0 at index 0 |
| Streak.StreakIsRunLength | HabitTracker/HabitRow.swift:79-97 | on a marked pivot the streak is the length of every maximal run containing it; on an unmarked pivot, or at index == count, it is the length of every maximal run ending just before the pivot |
| Streak.NoWraparound | HabitTracker/HabitRow.swift:88-94 | a marked last day after an unmarked second-to-last day has streak 1, whatever the first day holds |
| HabitRow.DefaultDays | HabitTracker/HabitRow.swift:20 | the default week has seven days, all unmarked |
| HabitRow.StoredDays | HabitTracker/HabitRow.swift:20 | a missing text gives the default seven unmarked days; a present text gives the week it denotes, of the same length |
| HabitRow.Init | HabitTracker/HabitRow.swift:18-22 | a new row keeps the record, takes the week from the stored text (seven unmarked days when none) and takes the stored streak |
| HabitRow.OnAppear | HabitTracker/HabitRow.swift:55-60 | appearing re-reads the week only when a text is stored, and always re-reads the streak from the record |
| HabitRow.LoadDaysSelected | HabitTracker/HabitRow.swift:63-67 | reloading leaves the row unchanged when no text is stored; otherwise only the week changes, to the week the text denotes |
| HabitRow.UpdateDaysSelectedInCoreData | HabitTracker/HabitRow.swift:69-71 | saving stores a '0'/'1' text that reads back as the row's week, and stores the streak unchanged in 16 bits; the row's own state is untouched |
| HabitRow.CalculateStreak | HabitTracker/HabitRow.swift:79-97 | the row keeps its week and record, its streak becomes the returned value, and that value is the length of the maximal run around the pivot, or of the run ending just before it when the pivot is unmarked or equals the week's length |
| HabitRow.Toggle | HabitTracker/HabitRow.swift:43 | exactly the tapped day flips and every other day is unchanged |
| HabitRow.Tap | HabitTracker/HabitRow.swift:42-46 | a tap flips exactly that day and keeps seven days; the streak is recomputed at that day; the record then holds the new week's text and the new streak |
| HabitRow.ToggleTwice | HabitTracker/HabitRow.swift:43 | flipping the same day twice restores the week |
| HabitRow.TapTwice | HabitTracker/HabitRow.swift:42-46 | two taps on the same day restore the week; the record then holds its text and the streak at that day |
| HabitRow.SaveThenInit | HabitTracker/HabitRow.swift:69-71 | a row created from the record a save wrote shows the same week and streak as the row that saved |
| HabitRow.OnAppearAfterInit | HabitTracker/HabitRow.swift:55-60 | appearing right after creation changes nothing |
| HabitRow.LoadAfterTap | HabitTracker/HabitRow.swift:63-67 | after a tap, neither reloading nor appearing changes the row: what was saved is what is shown |
| HabitRow.FirstTapScenario | HabitTracker/HabitRow.swift:42-46 | the first tap on a habit with no stored week gives streak 1, on any day |
| HabitRow.MarkScenario | HabitTracker/HabitRow.swift:42-46 | marking Wednesday ahead of a marked Thursday through Saturday gives streak 4 |
| HabitRow.UnmarkScenario | HabitTracker/HabitRow.swift:42-46 | unmarking Tuesday after marked Sunday and Monday gives streak 2 (the run before it) |

## Left out

- HabitRow.Tap: a stored text of other than seven characters is not modelled. With fewer, the view's reads of days 0 through 6 fail. With more, the view shows only the first seven days and a tap's forward run could extend past Saturday. The app itself never writes such a text.
- The SwiftUI layout, colours (`Color(hex:)`) and the flame label: presentation only.
- The day-of-month and weekday labels (HabitTracker/HabitRow.swift:29-30, :47): they depend on the current date and the ambient calendar.
- The record store's `save()` and its error print (HabitTracker/HabitRow.swift:72-76): persistence I/O. The model treats the record's fields as written once they are assigned.
- Observation and redraw of `@State` and `@ObservedObject`: every transition is a pure function from one row value to the next.
- DayCodec.Decode: Swift iterates a `String` by grapheme clusters, and the model iterates by `char`. The two agree on every text the app writes, which is only '0' and '1'.
- Streak.CalculateStreak: the 64-bit `Int` counter is unbounded in the model. It cannot overflow, because it never exceeds the number of days.
- Adding, editing and deleting habits, reminder notifications, and the calendar views (HabitDetailView.swift, AddHabitView.swift, ContentView.swift, CalendarView.swift, CalendarComponent.swift, HabitTrackerApp.swift). These copy form fields into the record or call the OS, and are not part of this model.
- A date-key codec or a set of tracked dates: the app's source has none.
