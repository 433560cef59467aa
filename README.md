# World clock: time arithmetic and edit state

This project models the core of the `WorldClockApp` React component
(`src/WorldClockApp.js`). It covers:

- the table of six clocks and the daylight-saving heuristic that picks each
  clock's offset (`isDST`);
- the projection of the shared instant onto a zone (`getTimeForTimezone`);
- the edit cycle: `handleEdit` fills a draft of two-digit strings, the three
  selects (filled by `generateTimeOptions`) change it, and `handleSave`
  validates it and commits a new instant;
- `handleCancelEdit`, `handleReset`, `toggleLiveUpdates` and the
  one-second live tick.

A time value is an integer count of milliseconds, split into fields as
section 21.4.1 of ECMA-262 does. Offsets are in minutes east of UTC: the
table's hour offsets times 60, so Kolkata's 5.5 hours is 330.

The host's `getTimezoneOffset()` is one constant, `hostOffset`. Host-local
fields (`getHours`, `getMonth`, `setHours`) are read from
`LocalTime(t, hostOffset)`.

`parseInt`, `padStart`, `toString` and `includes` are modelled on strings
(module `Text`).

Modules:
- `Calendar`: ECMA-262 field arithmetic and the Gregorian date of a day
  number.
- `Text`: the string operations.
- `Zones`: the table and `isDST`.
- `Projection`: `getTimeForTimezone`, `setHours` and the instant a save
  commits.
- `EditSession`: each handler as a step function on a `Session` value.
- `WorldClockApp`: the component as a class. Its fields are the six state
  hooks, and each handler is a method proved to perform the `EditSession`
  step.

Behaviour of the code that is easy to misread:
- `isDST` reads the month with `getMonth()`, which is the host's local month,
  not the UTC month.
- A successful save does not set `isLive` back to true. The clock stays
  paused (`SavedEditStaysPaused`).
- The cancel and reset handlers keep the draft strings. Only `editMode` is
  cleared (`CancelAndResetAfterEdit`).
- "Paused while editing" is not an invariant. Live updates can be switched
  back on while an editor is open (`ToggleWhileEditing`).
- A save reprojects the zone with the offset of the new instant. When the
  new instant falls in another host month, the zone can show a different
  time from the one typed. On a UTC host, typing 23:00:00 into Berlin at
  2024-10-31T23:30:00Z commits 2024-11-01T22:00:00Z. Berlin then shows
  22:00:00 (`SaveAcrossSeasonChange`, `ShownAfterSeasonChange`).

## Model

| member | source | states |
|---|---|---|
| Calendar.HourFromTime | src/WorldClockApp.js:136 | getHours is always an hour of the day, 0 to 23 |
| Calendar.MinFromTime | src/WorldClockApp.js:137 | getMinutes is always 0 to 59 |
| Calendar.SecFromTime | src/WorldClockApp.js:138 | getSeconds is always 0 to 59 |
| Calendar.MsFromTime | src/WorldClockApp.js:167 | the millisecond setHours keeps is 0 to 999 |
| Calendar.FieldsOfMakeDate | src/WorldClockApp.js:167 | a time value built from in-range day, hour, minute, second and millisecond reads those fields back |
| Calendar.MakeDateOfFields | src/WorldClockApp.js:167 | every time value equals the one built from its own fields |
| Calendar.LocalTime | src/WorldClockApp.js:98 | moving to the host's wall clock is undone by moving back to UTC |
| Calendar.CivilFromDays | src/WorldClockApp.js:85 | the date getMonth reads a month from has a month 1 to 12 and a day 1 to 31; the lemmas below prove it is the Gregorian date of every day |
| Calendar.CivilFromDaysValid | src/WorldClockApp.js:85 | every day's date is a real date: its day lies within the length of its month, 29 February only in leap years |
| Calendar.CivilFromDaysNext | src/WorldClockApp.js:85 | for every day number, the next day's date is the calendar date after this day's |
| Calendar.CivilFromDaysIsDateFromEpoch | src/WorldClockApp.js:85 | for every day number, before or after 1970, the date is the one reached by counting calendar days from 1 January 1970 |
| Calendar.LocalMonth | src/WorldClockApp.js:85 | getMonth() + 1 is a month 1 to 12 |
| Calendar.LocalMonthIsCalendarMonth | src/WorldClockApp.js:85 | for every instant, getMonth() + 1 is the calendar month of the host-local day, counted from 1 January 1970 |
| Calendar.CivilFromDaysEpoch | src/WorldClockApp.js:85 | day 0 is 1 January 1970 |
| Calendar.CivilFromDaysLeapDay | src/WorldClockApp.js:85 | day 11016 is 29 February 2000 |
| Calendar.CivilFromDaysJune14 | src/WorldClockApp.js:85 | day 19888 is 14 June 2024 |
| Calendar.CivilFromDaysJune15 | src/WorldClockApp.js:85 | day 19889 is 15 June 2024 |
| Calendar.CivilFromDaysOctober31 | src/WorldClockApp.js:85 | day 20027 is 31 October 2024 |
| Calendar.CivilFromDaysNovember1 | src/WorldClockApp.js:85 | day 20028 is 1 November 2024 |
| Text.DigitChar | src/WorldClockApp.js:136 | a digit value has a decimal digit character |
| Text.DigitValue | src/WorldClockApp.js:155 | a digit character's value is 0 to 9 and maps back to that character |
| Text.NatToString | src/WorldClockApp.js:136 | toString of a non-negative integer is a non-empty numeral of digits, one digit exactly below 10, two exactly from 10 to 99 |
| Text.Repeat | src/WorldClockApp.js:136 | the fill that padStart adds: k copies of one character |
| Text.PadStart | src/WorldClockApp.js:136-138 | padStart gives the longer of len and the length of s, ends with s, and is fill before it |
| Text.TrimStart | src/WorldClockApp.js:155 | parseInt's trimming never lengthens the string |
| Text.TrimStartSpec | src/WorldClockApp.js:155-157 | trimming removes exactly the longest leading run of white space |
| Text.DigitPrefix | src/WorldClockApp.js:155-157 | the digits parseInt reads are digits and no longer than the input |
| Text.DigitPrefixSpec | src/WorldClockApp.js:155-157 | parseInt reads the longest prefix of decimal digits |
| Text.DigitsValueOfNatToString | src/WorldClockApp.js:136 | the value of a number's numeral is the number |
| Text.DigitsValueLeadingZeros | src/WorldClockApp.js:136 | leading zeros added by padStart change neither digit-ness nor value |
| Text.ZerosValue | src/WorldClockApp.js:136 | a run of zeros has value 0 |
| Text.DigitPrefixOfDigits | src/WorldClockApp.js:155 | parseInt's digit run of an all-digit string is the whole string |
| Text.ParseDigits | src/WorldClockApp.js:155 | parseInt reads a non-empty digit string as its value |
| Text.ParsePadded | src/WorldClockApp.js:136-157 | parseInt reads back every zero-padded numeral that padStart makes |
| Text.ParseTwoDigits | src/WorldClockApp.js:136-157 | parseInt reads back each draft string handleEdit writes |
| Text.TwoDigitsShape | src/WorldClockApp.js:136-138 | the padded form of n < 100 is its tens digit then its units digit |
| Text.TwoDigitsOfDigits | src/WorldClockApp.js:146 | the padded form of 10a + b is the digits a and b |
| Text.TwoDigitsExamples | src/WorldClockApp.js:146 | 0, 15, 23 and 30 pad to "00", "15", "23" and "30" |
| Text.ParseTwentyFour | src/WorldClockApp.js:155 | "24" parses as 24 |
| Text.TwoDigitsInjective | src/WorldClockApp.js:146-147 | distinct numbers pad to distinct strings, so option keys are unique |
| Text.ContainsIffOccurs | src/WorldClockApp.js:86 | includes is true exactly when the substring occurs at some position |
| Text.NotContains | src/WorldClockApp.js:86 | a string lacking one character of sub does not include sub |
| Zones.IsDstSpec | src/WorldClockApp.js:84-91 | isDST holds exactly for names containing Europe or America, and then exactly in host months 3 to 10 |
| Zones.EffectiveOffset | src/WorldClockApp.js:51-78 | a fixed offset is constant; a seasonal one takes its summer value exactly when isDST holds |
| Zones.Clocks | src/WorldClockApp.js:26-82 | the clocks array has the six rows, each with its rule applied at the current time |
| Zones.Find | src/WorldClockApp.js:133 | find returns nothing exactly when no clock has the id, and otherwise the first clock with it |
| Zones.TableIds | src/WorldClockApp.js:26-82 | row i has id i + 1, ids are unique, and the ids are exactly 1 to 6 |
| Zones.FindClock | src/WorldClockApp.js:164 | a table id finds its own row at every time; any other id finds nothing |
| Zones.SummerIsOneHourAhead | src/WorldClockApp.js:51-78 | every seasonal row's summer offset is its winter offset plus one hour |
| Zones.TableRegionsOutside | src/WorldClockApp.js:86 | "UTC" and "Asia/Kolkata" include neither Europe nor America |
| Zones.KolkataNotEuropean | src/WorldClockApp.js:86 | "Asia/Kolkata" does not include Europe |
| Zones.KolkataNotAmerican | src/WorldClockApp.js:86 | "Asia/Kolkata" does not include America |
| Zones.TableRegionsInside | src/WorldClockApp.js:86 | the Berlin, Bucharest and Paris names include Europe, and New York's includes America |
| Zones.FixedRowOffsets | src/WorldClockApp.js:26-44 | UTC has offset 0 and Kolkata 330 at every time |
| Zones.ClockOffsets | src/WorldClockApp.js:26-91 | all six offsets: UTC and Kolkata never on summer time, the others summer exactly in host months 3 to 10 |
| Projection.TimeForTimezone | src/WorldClockApp.js:94-104 | the projected copy's host-local fields read the zone's wall clock, and undoing both shifts gives the instant back |
| Projection.ProjectionIsAdditive | src/WorldClockApp.js:94-104 | shifting the instant shifts every projection equally; two projections differ by their offsets |
| Projection.SetHours | src/WorldClockApp.js:167 | setHours with in-range fields makes the local hour, minute and second those values and keeps the local day and millisecond |
| Projection.SavedTime | src/WorldClockApp.js:164-173 | the committed instant is the zone's wall clock with its time of day replaced, moved back to UTC; the host offset cancels |
| Projection.SaveRoundTrip | src/WorldClockApp.js:164-173 | projecting the committed instant with the same offset shows h:m:s on the previous date and millisecond |
| Projection.SaveShownTimeIsIdentity | src/WorldClockApp.js:164-173 | saving the time a zone shows leaves the instant unchanged |
| Projection.SaveSeenFromOtherZone | src/WorldClockApp.js:164-173 | after a save every other zone shows the edited wall clock moved by the offset difference |
| EditSession.ZoneOffset | src/WorldClockApp.js:133-134 | the lookup of a table id finds that row with the offset for the current time |
| EditSession.DraftTime | src/WorldClockApp.js:155-162 | the draft is accepted exactly when all three parse and lie in 0..23, 0..59 and 0..59, and then gives the parsed values |
| EditSession.DraftOfOptions | src/WorldClockApp.js:143-162 | any draft chosen from the select options is accepted and read back as the numbers chosen |
| EditSession.Edit | src/WorldClockApp.js:129-141 | editing pauses, opens the editor on id, keeps the instant and changes only the draft otherwise |
| EditSession.EditShowsDigits | src/WorldClockApp.js:136-138 | the draft is exactly the two digits of the shown hour, minute and second |
| EditSession.EditDraftReadsBack | src/WorldClockApp.js:129-162 | the draft handleEdit writes is accepted and reads back the shown hour, minute and second |
| EditSession.Save | src/WorldClockApp.js:152-181 | with no editor, a rejected draft or an unknown zone nothing changes; otherwise only the instant changes and the editor closes |
| EditSession.SaveCommits | src/WorldClockApp.js:164-176 | a commit sets the instant to SavedTime with the edited zone's current offset |
| EditSession.SaveShowsDraft | src/WorldClockApp.js:164-176 | after a commit the edited zone, at its previous offset, shows the draft's time on its previous date |
| EditSession.EditThenSaveKeepsTime | src/WorldClockApp.js:129-181 | saving an unchanged draft keeps the instant and closes the editor |
| EditSession.EditReplacesDraft | src/WorldClockApp.js:129-141 | a second edit leaves no trace of the first |
| EditSession.SavedEditStaysPaused | src/WorldClockApp.js:152-181 | after an edit, saving any draft leaves the clock paused; the editor closes exactly when the draft is accepted |
| EditSession.SaveChosenOptions | src/WorldClockApp.js:143-181 | any time picked in the selects is committed: only the instant changes and the zone shows the picked time on its previous date |
| EditSession.SaveIsIdempotent | src/WorldClockApp.js:152-181 | a second save changes nothing |
| EditSession.ToggleWhileEditing | src/WorldClockApp.js:188-190 | live updates can be switched on with an editor open |
| EditSession.CancelAndResetAfterEdit | src/WorldClockApp.js:122-186 | cancel and reset close the editor, resume live updates and keep the draft; cancel keeps the instant, reset jumps to now |
| EditSession.TicksWhilePaused | src/WorldClockApp.js:15-23 | while paused no number of ticks moves the instant |
| EditSession.TicksWhileLive | src/WorldClockApp.js:15-23 | while live the instant after ticks is the last tick's time |
| EditSession.ScenarioShownBeforeEdit | src/WorldClockApp.js:94-104 | at 2024-06-15T10:00:00Z UTC shows 10:00:00 and Kolkata 15:30:00 on any host |
| EditSession.ScenarioEditKolkata | src/WorldClockApp.js:129-141 | editing Kolkata then pauses and fills "15", "30", "00" |
| EditSession.ScenarioKolkataSave | src/WorldClockApp.js:152-181 | saving 00:00:00 there commits 2024-06-14T18:30:00Z, which UTC shows as 18:30:00 on 14 June |
| EditSession.KolkataCommit | src/WorldClockApp.js:152-181 | that save sets the instant to 2024-06-14T18:30:00Z and closes the editor |
| EditSession.KolkataSavedTime | src/WorldClockApp.js:164-173 | midnight typed into Kolkata on 15 June is 18:30 UTC on 14 June |
| EditSession.UtcAfterKolkataSave | src/WorldClockApp.js:94-104 | UTC shows 18:30:00 on 14 June at 2024-06-14T18:30:00Z |
| EditSession.ScenarioHour24Rejected | src/WorldClockApp.js:155-161 | a draft hour of "24" is rejected and the state is left unchanged |
| EditSession.SaveAcrossSeasonChange | src/WorldClockApp.js:152-181 | on a UTC host, 23:00:00 typed into Berlin at 2024-10-31T23:30:00Z commits 2024-11-01T22:00:00Z |
| EditSession.BerlinOffsetOnOctober31 | src/WorldClockApp.js:46-54 | Berlin has offset 60 at 2024-10-31T23:30:00Z on a UTC host |
| EditSession.BerlinSavedTime | src/WorldClockApp.js:164-173 | 23:00:00 on Berlin's 1 November at offset 60 is 2024-11-01T22:00:00Z |
| EditSession.ShownAfterSeasonChange | src/WorldClockApp.js:46-54 | after that save Berlin, now at offset 0, shows 22:00:00 |
| WorldClockApp.GenerateTimeOptions | src/WorldClockApp.js:143-150 | the options are "00" up to max - 1 in two digits, each parses back to its index, and all are distinct |
| WorldClockApp.WorldClock.constructor | src/WorldClockApp.js:7-12 | mounting gives the initial state: now, no editor, empty draft, live |
| WorldClockApp.WorldClock.GetTimeForTimezone | src/WorldClockApp.js:94-104 | the two setTime steps give the projection whose local fields read the zone's wall clock |
| WorldClockApp.WorldClock.ShownDraft | src/WorldClockApp.js:133-138 | the three strings are the padded hour, minute and second the zone shows |
| WorldClockApp.WorldClock.HandleEdit | src/WorldClockApp.js:129-141 | the handler performs Edit on the component's state |
| WorldClockApp.WorldClock.SetEditHours | src/WorldClockApp.js:242 | the hours select sets editHours and nothing else |
| WorldClockApp.WorldClock.SetEditMinutes | src/WorldClockApp.js:252 | the minutes select sets editMinutes and nothing else |
| WorldClockApp.WorldClock.SetEditSeconds | src/WorldClockApp.js:262 | the seconds select sets editSeconds and nothing else |
| WorldClockApp.WorldClock.EditedInstant | src/WorldClockApp.js:164-173 | the try block gives nothing exactly for an id outside the table, and otherwise SavedTime at that zone's current offset |
| WorldClockApp.WorldClock.HandleSave | src/WorldClockApp.js:152-181 | the handler performs Save; its outcome is not-editing, rejected, no-such-zone or committed exactly in those cases, and only a commit changes the state |
| WorldClockApp.WorldClock.HandleCancelEdit | src/WorldClockApp.js:183-186 | the handler performs Cancel |
| WorldClockApp.WorldClock.HandleReset | src/WorldClockApp.js:122-126 | the handler performs Reset with the given now |
| WorldClockApp.WorldClock.ToggleLiveUpdates | src/WorldClockApp.js:188-190 | the handler performs ToggleLive |
| WorldClockApp.WorldClock.Tick | src/WorldClockApp.js:15-23 | one interval firing performs Tick: it moves to now only while live |

## Left out

- Rendering is not modelled. That covers the JSX, the clock cards, the names, short names and colours, and the `major` split into two lists.
- `formatTime` and `formatDate` are not modelled. They depend on the locale formatting of `toLocaleTimeString` and `toLocaleDateString`.
- `setInterval` and `clearInterval` are not modelled. Each interval firing is the `Tick` method, with `new Date()` passed in as `now`.
- React's batching of state updates is not modelled. Each handler mutates the fields directly, and no handler reads a field that it wrote earlier in the same call.
- The host's `getTimezoneOffset()` is one constant. A host whose own offset changes with daylight saving is not modelled, including the way the offset read at line 173 can differ from the one read at line 98.
- Time values are unbounded integers. The ±8.64e15 ms range of a Date and the floating-point representation are not modelled. Kolkata's 5.5-hour offset is the exact 330 minutes.
- The `console.error` call in the catch block is not modelled. Its effect is that nothing changes, which is what `Save` models.
- `parseInt` is modelled for radix 10 only, and its result is an integer. Digit runs long enough to lose floating-point precision are not modelled.
- Real time-zone data is not modelled. The offsets are the table's, chosen by the month heuristic.
- WorldClockApp.WorldClock.HandleEdit: requires a table id. The edit buttons only pass those; an unknown id would throw a TypeError at line 134, which is not modelled.
- EditSession.Edit: requires a table id, for the same reason as HandleEdit.
- `src/App.js` is not part of this model.
- Calendar.CivilFromDays: its own postcondition gives only the month and day ranges. A stronger postcondition makes every handler that builds the zone table too costly to prove. `CivilFromDaysValid`, `CivilFromDaysNext` and `CivilFromDaysIsDateFromEpoch` state, for every day, that it is the calendar date.
- Calendar.LocalMonth: its own postcondition gives only the range 1 to 12, for the same reason. `LocalMonthIsCalendarMonth` states, for every instant, that it is the calendar month of the host-local day.
