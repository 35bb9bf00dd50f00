# Exam clock: schedule logic and page state

A Dafny model of the logic of the exam countdown page in `app/page.tsx`.
Every second the page reads the wall clock. From that time and an ordered list of exams
(subject, "HH:MM" start, "HH:MM" end) it works out four things:

- which exam is in progress;
- how each row of the schedule list looks;
- how many exams remain;
- what the attendance panel shows.

The edit and import dialogs replace the schedule and the attendance. A button cycles the stored
colour-theme preference.

Modules:

- `Wrappers` (`wrappers.dfy`): `Option`.
- `ClockTime` (`clock_time.dfy`): the clock reading `Now` and the well-formed `"HH:MM"` type `HHMM`.
  It has the minute arithmetic of `parseInt(...) * 60` and JavaScript's string `<` (`LexLess`).
  It proves that string order on `HHMM` is time-of-day order.
- `ExamSchedule` (`schedule.dfy`): `isTimePassed` (`Classify`) and `getScheduleCount`.
  `ScheduleCount` is the loop. `RemainingCount` is the function that specifies it.
  Also the active-exam resolver (`ActiveExam`) and its midnight rule.
- `RowDisplay` (`row_display.dfy`): the precedence that picks each row's look and bullet,
  and what fills the schedule area.
- `ExamClockPage` (`page.dfy`): the edit data, the index-aligned merge, the theme cycle, the version label and the attendance text.
  It also holds the class `ExamClock`. Its fields are the component's state. Its methods are the handlers.

Time is a second of the day. Every start and end time is anchored at second 0 of its minute.
A midnight-crossing exam (end sorts before start) ends one day later (+86400 s).
Its start always stays on the current day. So after midnight the exam is never current
(`CrossingNotCurrentAfterMidnight`, `MidnightExample`).
For example, a 23:30–00:30 exam is not current at 00:15:00. The model follows the code here,
not the intended reading that such an exam runs until 00:30.
While such an exam is current, its row is hidden (`ActiveCrossingRowHidden`).
The cause is that `isTimePassed` compares the unshifted end minute.

The row classifier and the remaining count use different thresholds:

- `CLASSIFY_THRESHOLD_SECONDS = 5` for the classifier;
- `COUNT_THRESHOLD_SECONDS = 0` for the count.

Both are kept as the code has them. `RemainingAgainstRows` states exactly how the two disagree.

## Model

| member | source | states |
|---|---|---|
| `ClockTime.MinuteOfDay` | app/page.tsx:136 | the current minute of the day lies in 0..1439 |
| `ClockTime.SecondOfDay` | app/page.tsx:140 | the instant of the day lies in 0..86399 and inside the current minute's 60 seconds |
| `ClockTime.ClockMinutes` | app/page.tsx:137-138 | an "HH:MM" string parses to a minute of the day in 0..1439 |
| `ClockTime.LexLessIsClockOrder` | app/page.tsx:240 | on well-formed "HH:MM" strings, string `<` holds iff the first time of day is earlier |
| `ExamSchedule.Classify` | app/page.tsx:135-147 | exactly one of three: Not Passed iff now is before the end instant; Just Passed iff now is 0 to 5 s past it; Passed iff more than 5 s past it |
| `ExamSchedule.ClassifyMonotone` | app/page.tsx:135-147 | for a fixed end time the classification never moves backwards over the day; once Passed, always Passed |
| `ExamSchedule.CountedAsPassed` | app/page.tsx:121-127 | the count's per-entry test holds iff now is strictly after the end instant |
| `ExamSchedule.CountAgainstClassify` | app/page.tsx:124-143 | Passed rows are always excluded from the count and Not Passed rows always included; a Just Passed row is excluded iff the second is 1..5 |
| `ExamSchedule.RemainingCount` | app/page.tsx:117-133 | the remaining count lies in 0..length |
| `ExamSchedule.NoneRemaining` | app/page.tsx:117-133 | the remaining count is 0 iff every entry's end instant is behind now |
| `ExamSchedule.ScheduleCount` | app/page.tsx:117-133 | the decrementing loop returns exactly the remaining count, within 0..length |
| `ExamSchedule.CountClassified` | app/page.tsx:92-94 | the number of rows in one classification is at most the schedule length |
| `ExamSchedule.RemainingAgainstRows` | app/page.tsx:117-147 | remaining = Not Passed rows, plus the Just Passed rows only at second 0; in seconds 1..5 of an end minute a dimmed row is shown but not counted |
| `ExamSchedule.IsCurrent` | app/page.tsx:237-244 | an exam is current iff now has reached its start today and, unless it crosses midnight, has not passed its end |
| `ExamSchedule.ActiveExam` | app/page.tsx:234-248 | the result is the first entry in list order with start <= now <= end, both inclusive; None iff no entry's interval holds now |
| `ExamSchedule.ActiveIsMember` | app/page.tsx:236-247 | a returned exam is an entry of the schedule |
| `ExamSchedule.SameDayCurrent` | app/page.tsx:237-244 | for an exam that does not cross midnight, start <= end and it is current exactly from start to end inclusive |
| `ExamSchedule.CrossingCurrent` | app/page.tsx:240-244 | an exam whose end sorts before its start is current exactly when now is at or after its start today |
| `ExamSchedule.CrossingNotCurrentAfterMidnight` | app/page.tsx:237-244 | a midnight-crossing exam is never current at a minute up to its end minute (the part after midnight) |
| `ExamSchedule.SameDayExample` | app/page.tsx:117-147 | 09:00-10:00 is current and Not Passed at 09:30:00; at 10:00:03 it is Just Passed and no longer counted |
| `ExamSchedule.MidnightExample` | app/page.tsx:234-248 | 23:30-00:30 is current at 23:45:00 and not current at 00:15:00 |
| `RowDisplay.RowStyleOf` | app/page.tsx:91-99 | a row is dimmed iff Just Passed, hidden iff Passed, highlighted iff Not Passed and its id matches the current exam's, plain otherwise |
| `RowDisplay.RowIconOf` | app/page.tsx:103-109 | the bullet is hollow iff the row is Just Passed |
| `RowDisplay.IconMatchesStyle` | app/page.tsx:91-109 | on every rendered row, hollow goes with dimmed, chevron with highlighted, filled with plain |
| `RowDisplay.ActiveSameDayRow` | app/page.tsx:91-99 | the active same-day exam's row is highlighted, except at its exact end instant, where it is dimmed |
| `RowDisplay.ActiveCrossingRowHidden` | app/page.tsx:91-99 | the active midnight-crossing exam's row is hidden |
| `RowDisplay.ScheduleAreaOf` | app/page.tsx:323-350 | the area is empty iff the schedule is switched off during an exam; otherwise the list iff the count is nonzero, else the "no more exams" note |
| `RowDisplay.ScheduleAreaMeaning` | app/page.tsx:323-350 | the area is empty iff the schedule is switched off and some exam is current; "no more exams" iff it is not empty and every end instant is behind now |
| `ExamClockPage.FormatEditingData` | app/page.tsx:74-86 | parallel sequences of the schedule's length hold each entry's subject, start and end at its index; headcounts and switch copied; a missing seat list becomes "" |
| `ExamClockPage.MergeEdited` | app/page.tsx:159-166 | one entry per edited subject, with subject and times from the dialog at that index; the id is kept from the previous entry at that index, and is None past the old length |
| `ExamClockPage.SaveUnmodified` | app/page.tsx:158-173 | saving unmodified edit data leaves the schedule and headcounts unchanged |
| `ExamClockPage.SaveKeepsIds` | app/page.tsx:159-166 | an edit no longer than the old list keeps every id at its position |
| `ExamClockPage.NextTheme` | app/page.tsx:192-205 | the result is "light" iff the stored value is absent or empty, "dark" iff it is "light", absent iff it is "dark"; any other value is unchanged |
| `ExamClockPage.IsDark` | app/page.tsx:41-44 | the page is dark iff the stored theme is "dark", or no theme is stored and the system prefers dark |
| `ExamClockPage.AttendanceFromEdit` | app/page.tsx:168-173 | the saved attendance has the edited headcounts and the edited seat list, shown as "all present" iff that list is empty; formatting it again gives back the edited attendance |
| `ExamClockPage.ThemeCycle` | app/page.tsx:192-207 | absent -> "light" -> "dark" -> absent; the page is light, dark, then follows the system preference |
| `ExamClockPage.VersionString` | app/page.tsx:36-38 | the label starts "Version "; it is exactly "Version " + the first three characters iff the part from index 4 is "0" |
| `ExamClockPage.VersionExamples` | app/page.tsx:35-38 | "0.3.1" gives "Version 0.3 Update 1"; "0.4.0" gives "Version 0.4" |
| `ExamClockPage.ReplaceCommas` | app/page.tsx:373 | the result is one character longer per comma of the input |
| `ExamClockPage.ReplaceCommasOnlyAddsSpaces` | app/page.tsx:373 | the result equals the input once spaces are removed from both |
| `ExamClockPage.ReplaceCommasSpacesCommas` | app/page.tsx:373 | every comma of the result is followed by a space |
| `ExamClockPage.AbsentSeatsShown` | app/page.tsx:369-378 | no seat line iff the list is missing or empty; otherwise exactly the list with a space inserted after every comma, equal to the list once spaces are removed |
| `ExamClockPage.Deficit` | app/page.tsx:359-365 | the deficit is shown iff the actual and expected headcounts differ; it is nonzero and actual + deficit = expected |
| `ExamClockPage.ExamClock.constructor` | app/page.tsx:52-72 | the built-in three-exam schedule, 36/36 attendance, the schedule shown, both dialogs closed, the stored theme applied |
| `ExamClockPage.ExamClock.RestoreSaved` | app/page.tsx:215-220 | a non-empty saved schedule replaces the current one; nothing else changes |
| `ExamClockPage.ExamClock.Tick` | app/page.tsx:40-248 | the clock moves to now; the re-render applies the stored theme against the system preference (the dark class is set iff the theme is "dark", or absent while the system prefers dark); the current exam is resolved again; nothing else changes |
| `ExamClockPage.ExamClock.ApplyTheme` | app/page.tsx:40-50 | the dark class is set iff the stored theme is "dark", or no theme is stored and the system prefers dark |
| `ExamClockPage.ExamClock.EditClick` | app/page.tsx:149-152 | the edit dialog opens on the formatted current data |
| `ExamClockPage.ExamClock.ImportClick` | app/page.tsx:154-156 | the import dialog opens |
| `ExamClockPage.ExamClock.EditDialogClose` | app/page.tsx:179-181 | the edit dialog closes |
| `ExamClockPage.ExamClock.ImportDialogClose` | app/page.tsx:183-185 | the import dialog closes |
| `ExamClockPage.ExamClock.DialogSave` | app/page.tsx:158-177 | the schedule becomes the index-aligned merge; attendance and the switch are replaced; the edit dialog closes; the current exam follows; nothing else changes |
| `ExamClockPage.ExamClock.ImportData` | app/page.tsx:187-190 | the schedule becomes exactly the imported list; the import dialog closes; nothing else changes |
| `ExamClockPage.ExamClock.PreferredThemeChange` | app/page.tsx:192-207 | the stored theme takes one cycle step, then the dark class is recomputed from it |

## Left out

- Rendering: JSX, CSS class strings, icons, the credits toggle and the overflow styling when more than three exams remain. Only row look, bullet and schedule-area choice are modelled.
- The one-second `setInterval` and React's effect scheduling. A tick is the method `Tick`. The resolver effect is applied within each state change, so the model has no intermediate render with a stale current exam (the invariant `Valid`).
- Persistence: `loadExamScheduleFromLocalStorage`, `saveExamScheduleToLocalStorage` and `calculateRemainingTime`. `lib/utils` is not part of this model. The saved schedule is a parameter of `RestoreSaved`. No write-back is modelled.
- The `EditDialog` and `ImportDialog` components are not part of this model. Their results are method parameters. `DialogSave` requires the three edited sequences to have equal length, which the dialog supplies.
- Fullscreen toggling (`screenfull`). The browser's dark-mode preference is a boolean parameter.
- Milliseconds, time zones, daylight-saving changes and the calendar date. The clock is an hour, minute and second.
- `ExamSchedule.ActiveExam`: the code compares Dates that carry milliseconds. During the last second of an exam (after HH:MM:00.000 of the end minute) the code treats the exam as no longer current. The model, at whole seconds, treats it as current for the whole of second 0.
- Malformed time strings: `parseInt` giving NaN, and Invalid Date. Times are the type `HHMM`: zero-padded, hour below 24, minute below 60.
- Extra fields that imported entries may carry. An exam is its id, subject, start and end.
- String comparison is on Unicode scalar values rather than UTF-16 code units. The two agree on the digits and colon of "HH:MM".
