# timez-people: the hour grid and its state, in Dafny

timez-people is a single browser script (`app.js`). It shows a roster of people and,
for each person, 24 hourly columns. The columns are the hours 0..23 of today in a chosen
base timezone, and each cell shows the person's own wall-clock time at that hour. This
project models the script's sequential logic:

- the 12-hour clock formatters `formatHour12` and `formatTime12Hour` (module `Clock12`);
- `isDifferentDay`, and the search `createDateAtHourInTimezone` that finds the instant of
  local hour `h` of today in a timezone (module `Timezone`);
- the 24-cell loop of `renderTableBody`, with each cell turned into a record of what it
  displays and which highlights it gets (module `Grid`);
- the global state (`people`, `baseTimezone`, `referenceHour`, `currentEditingId`) and
  the handlers that change it (module `Roster`, class `App`).

Instants are integers (milliseconds since the epoch). The platform timezone database
(`Intl.DateTimeFormat`) is a function parameter `db: (string, int) -> WallClock`. Nothing
is assumed about it, not even that its hour lies in 0..23. The browser-local midnight
that `baseDate.setHours(0, 0, 0, 0)` computes is the parameter `midnight`. The
`new Date()` fallback of the search is the parameter `fallback`. `Date.now()` as a new
id, the trimmed name field, the dialog's timezone and the answer to `confirm` are method
inputs.

Observations on the code that the model keeps as written:

- The hour search tries 48 whole-hour offsets from the browser-local midnight.
  An hour that the base zone skips on a daylight-saving day is never found. That column
  then gets the fallback clock reading (`SkippedHourFallsBack`).
- Two clicks on the same hour column restore the previous reference hour only when it
  was empty or was that hour. After a different hour, the second click clears it
  (`ToggleTwice`).
- `if (currentEditingId)` uses JavaScript truthiness, so an editing id of 0 counts as
  "adding" (`Truthy`).
- `people.find` renames only the first person with a given id (`RenameFirst`).
- The day-change highlight compares the day of the month alone
  (`DayChangeIgnoresMonthAndYear`).
- `formatTime12Hour`, `isDifferentDay` and `getTimezoneOffset` are never called in the
  script. The first two are modelled anyway.
- The `year`/`month`/`day` date string built inside `createDateAtHourInTimezone` is
  never used. Only the day of the month takes part in the search.

## Model

| member | source | states |
|---|---|---|
| Clock12.Digits | app.js:257 | a number renders as a non-empty string of decimal digits, with a leading '0' only for zero |
| Clock12.DigitsRoundTrip | app.js:265 | reading the decimal rendering of n back gives n |
| Clock12.DigitsLength | app.js:256 | numbers below 10 take one digit, numbers from 10 to 99 take two |
| Clock12.DisplayHour | app.js:263-264 | the displayed hour is in 1..12 and agrees with the hour modulo 12 |
| Clock12.MinuteField | app.js:256 | the minute field is exactly two characters (zero-padded below 10) and reads back as the minutes |
| Clock12.Meridiem | app.js:262 | "AM" exactly when the hour is below 12, "PM" exactly when it is 12 or more |
| Clock12.FormatHour12 | app.js:261-266 | the label ends in " AM" exactly when the hour is below 12, else " PM"; before that comes the display hour in decimal with no leading zero; hour 0 is "12 AM" and hour 12 is "12 PM" |
| Clock12.FormatTime12Hour | app.js:250-258 | the text is the display hour in decimal with no leading zero, then ":", the two-character minute field, then " AM" exactly when the hour is below 12, else " PM" |
| Clock12.FormatHour12RoundTrip | app.js:261-266 | for every hour 0..23 the 12-hour label decodes back to that hour |
| Clock12.FormatHour12Injective | app.js:261-266 | no two hours of the day share a label |
| Clock12.FormatTime12RoundTrip | app.js:250-258 | for hours 0..23 and minutes 0..59 the text decodes back to the same hour and minute |
| Clock12.Time12ExtendsHour12 | app.js:250-266 | `formatTime12Hour` is `formatHour12`'s label with ":mm" put between the hour and the AM/PM part |
| Timezone.IsDifferentDay | app.js:269-273 | false exactly when day, month and year all agree; the time of day is ignored |
| Timezone.IsDifferentDayApartness | app.js:269-273 | symmetric and irreflexive |
| Timezone.Candidate | app.js:372 | candidate k lies a whole number k of hours after the starting midnight |
| Timezone.FirstMatchFrom | app.js:371-387 | yields the first offset k from the start up to 35 whose candidate shows the hour on the reference day, with no matching offset before it; yields nothing exactly when no offset in range matches |
| Timezone.DateAtHour | app.js:348-390 | the result is the fallback or shows the requested hour on the reference day of the month |
| Timezone.FirstMatchIsResult | app.js:384-386 | a matching candidate preceded by no matching one is the result |
| Timezone.NoMatchIsFallback | app.js:389 | when none of the 48 candidates match, the result is the fallback clock reading |
| Timezone.SkippedHourFallsBack | app.js:371-389 | an hour the zone skips on the reference day always yields the fallback |
| Timezone.CreateDateAtHourInTimezone | app.js:348-390 | the loop of 48 probes from offset -12 to 35 returns the first match or the fallback |
| Timezone.Matches | app.js:384 | the zone shows the requested hour and the reference day of the month at the instant |
| Timezone.UtcSearchFindsTopOfHour | app.js:367-386 | in a zone whose wall clock is UTC, with the midnight on a UTC day boundary, the reference instant on that same day, and the day before having a different day of the month, hour h is found exactly h hours after midnight |
| Roster.FindIndex | app.js:221 | the index of the first person with the id, and none exactly when nobody has it |
| Roster.RenameFirst | app.js:219-224 | only the name of the first person with the id changes; ids, timezones, order and length are kept |
| Roster.RemoveId | app.js:243 | a person is kept exactly when they were in the roster with another id; the roster never grows |
| Roster.RemoveIdConcat | app.js:243 | the filter distributes over concatenation, so the kept people keep their relative order |
| Roster.RemoveIdAbsent | app.js:243 | deleting an id nobody has leaves the roster unchanged |
| Roster.RemoveIdIdempotent | app.js:243 | deleting an id twice is the same as deleting it once |
| Roster.ToggleReference | app.js:333 | the new reference hour is null exactly when it was the clicked hour, else the clicked hour |
| Roster.ToggleTwice | app.js:333 | two clicks on one hour restore the prior reference hour exactly when it was null or that hour; otherwise they clear it |
| Roster.Truthy | app.js:219 | the editing id counts as set only when it is present and not 0, as JavaScript's truthiness has it |
| Roster.App.constructor | app.js:53-57 | an empty roster, base timezone "UTC", no reference hour, no edit in progress |
| Roster.App.OpenModalForAdd | app.js:176-184 | sets the dialog to add mode |
| Roster.App.OpenModalForEdit | app.js:187-198 | starts an edit only for an id in the roster |
| Roster.App.CloseModal | app.js:201-207 | ends any edit in progress |
| Roster.App.HandleModalSave | app.js:210-238 | an empty name changes nothing; a truthy editing id renames only that person; otherwise exactly one person is appended at the end; non-empty names stay the rule |
| Roster.App.DeletePerson | app.js:241-247 | if confirmed, removes every person with the id and keeps the rest; without confirmation nothing changes |
| Roster.App.HandleHourClick | app.js:332-335 | toggles the reference hour and changes nothing else |
| Roster.App.HandleBaseTimezoneChange | app.js:152-157 | sets the base timezone and always clears the reference hour |
| Grid.CurrentHourInBase | app.js:414-418 | the base zone's hour at `now` |
| Grid.BaseDay | app.js:421-428 | the base zone's day of the month at `now` |
| Grid.TopOfHour | app.js:436 | the instant the search gives for the hour: the fallback reading or one at which the base zone shows that hour on today's day of the month |
| Grid.CellAt | app.js:432-474 | the cell carries its hour; it is current exactly when its hour is the base zone's hour; it displays now when current and the hour's search result otherwise, with the person's wall clock at that instant; it is the reference cell exactly when its hour is the reference hour; its day-change flag compares the person's day of the month at the search result with the base day |
| Grid.Row | app.js:431-475 | a row is 24 cells, cell h being the cell of base hour h |
| Grid.Rows | app.js:398-496 | one row per person, in roster order, each the row of that person's timezone |
| Grid.RenderTableBody | app.js:393-475 | builds one row per person, in roster order, each row the 24 cells of that person's timezone |
| Grid.RowHours | app.js:431 | each row has 24 cells with hours 0..23 in increasing order |
| Grid.CurrentCellShowsNow | app.js:439-442 | a cell is current exactly when its hour is the base zone's current hour; it then displays now, and every other cell displays its hour's search result |
| Grid.ExactlyOneCurrentCell | app.js:414-439 | exactly one cell per row is current when the base hour is in 0..23, and none otherwise |
| Grid.DayChangeFromTopOfHour | app.js:451-470 | the day-change flag compares the person's day of the month at the hour's search result, even in the current column, with the base day; a flagged cell is on a different day |
| Grid.DayChangeIgnoresMonthAndYear | app.js:428-470 | equal days of the month raise no flag even when the months differ |
| Grid.ReferenceCell | app.js:465-467 | only the cell of the reference hour is marked as reference |
| Grid.RowsDependOnZonesOnly | app.js:398-475 | a row depends on the person's timezone alone |
| Grid.RenameKeepsGrid | app.js:219-224 | renaming a person changes no cell of the grid |
| Grid.AddAppendsRow | app.js:232 | adding a person appends one row and changes no other |

## Left out

- DOM construction and event wiring: it is UI. This covers `renderTable`, `renderTableHeader`, `populateTimezoneSelects`, the dialog's text, focus and classes, and the name/timezone/actions cells.
- `loadFromLocalStorage`, `saveToLocalStorage` and their JSON: browser persistence. The saves inside the handlers are left out; the constructor is the state before loading.
- `startAutoUpdate` and `setInterval`: timer scheduling. A render is a call of `RenderTableBody`.
- `handleBaseTimezoneNameChange` and `baseTimezoneName`: they only store and show a label.
- The behaviour of `Intl.DateTimeFormat` and of `Date` local time: this is the platform timezone database, a parameter here. The text a cell shows is the wall-clock reading `shown`, not the formatter's string.
- `getTimezoneOffset`: it round-trips the formatter's strings through `Date` parsing and is never called.
- The `TIMEZONES` catalogue: it is data. Timezone identifiers are opaque strings.
- `String.prototype.trim`: the trimmed name is an input of `HandleModalSave`.
- Grid.RenderTableBody: each call of `new Date()` inside the search's fallback is a separate clock reading; the model takes one reading, `fallback`, for the whole render.
