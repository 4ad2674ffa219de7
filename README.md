# Class routine builder: schedule parser and routine search

This project models the core of a web tool that helps a student pick a
conflict-free weekly class routine from a catalog of course sections. All of
the core lives in `script.js`. It has two leaf components:

- **The schedule-string parser** (`parseScheduleString`, with its helpers
  `convertTo24Hour` and `timeToMinutes`). It turns the free text of a
  section's schedule into day / start / end / room records. Commas, newlines
  and every case-blind day name mark chunk boundaries. A chunk is kept only
  when it starts with a day name and contains a time range
  `h:mm AM - h:mm PM`. The two times become 24-hour `HH:MM`. The text after
  the range becomes the room once its leading `-`, `(`, `)`, `,` and white
  space and its trailing `(`, `)`, `,` and white space are dropped; other
  punctuation, such as a final period, stays. The room is `N/A` when nothing
  is left. A chunk that fails is dropped and the parse goes on.
- **The routine generator** (`generate`, `isSectionValid`, `hasConflict`,
  `shuffleArray`). It:
  - keeps each selected course's sections that fit the preferred days and
    daily window;
  - gives up when a course keeps none;
  - searches depth-first for one section per course, with no two meetings
    overlapping on the same day, stopping at 500 routines;
  - shuffles the routines in place with Fisher–Yates.
- **The table helpers** `getAffectedTimeSlots` and `getCellId`. They map a
  meeting to the seven fixed 80-minute slots of the routine table and name
  the table cell of a day and a slot.

## Modules

| Module | File | Contents |
|---|---|---|
| `Wrappers` | `wrappers.dfy` | `Option`. `None` stands for JavaScript's `null`, `undefined` and `NaN`. |
| `Text` | `text.dfy` | The string primitives the core uses. This covers `trim` and `\s`, ASCII case mapping, `split`, global `replace` and `Number`. |
| `Clock` | `clock.dfy` | `timeToMinutes`, `convertTo24Hour`, and a scanner for a 12-hour clock reading. |
| `Catalog` | `catalog.dfy` | The records: `MeetingTime`, `Section`, `Preferences`, and the day names. |
| `ScheduleParser` | `schedule_parser.dfy` | `parseScheduleString`. Its regular expressions are written as leftmost scanners. |
| `RoutineGenerator` | `routine_generator.dfy` | `isSectionValid`, `hasConflict`, the search of `generate` with its cap, and `shuffleArray`. |
| `Grid` | `grid.dfy` | `getAffectedTimeSlots` and `getCellId`. |
| `ParserExamples` | `parser_examples.dfy` | Worked examples of the parser: one entry for every listed day, and two entries joined by a comma. |

### Modelling choices

- **`NaN` and null.** A time that `timeToMinutes` cannot read is `None`. Every
  comparison with it is false. `Math.max` and `Math.min` return it unchanged.
- **The generator's state.** `RoutineGenerator` never reassigns its three
  fields after construction, so they are parameters here.
- **The search.** `generate`'s recursive closure is the recursive method
  `Backtrack`. It threads the shared `allCombinations` list through its calls
  and returns it. Its result is tied to `Completions`, the list of every
  routine in depth-first order, cut at the cap (`Capped`).
- **The shuffle.** `shuffleArray` is a method over an `array`. It is proved
  against `FisherYates`, a function over sequences.
- **The chunk marker.** The parser marks chunk boundaries with a string of
  three bar characters. The model calls it `Marker`, and the README calls it
  the chunk marker.
- **Randomness.** `Math.random` is a parameter `random: nat -> real` with
  values in `[0, 1)`. `random(t)` is the value of the `t`-th call.
- **Behaviour worth noting.**
  - With no course selected, `generate` returns one empty routine `[[]]`, not
    an empty list (`EmptySelectionGivesOneEmptyRoutine`).
  - A record whose end time is not after its start time is still emitted. The
    parser never compares the two times.

## Model

| member | source | states |
|---|---|---|
| Text.NumberValue | script.js:378 | Blank or all-white-space text reads as 0. Text holding any character that is neither a digit nor white space reads as `NaN`. A number read from text is never negative (see "Left out" for the signs `Number` would also read). |
| Text.NonDigitInTrim | script.js:378 | A character that is neither a digit nor white space survives `trim()`, so the trimmed text is not blank and not all digits. |
| Text.NonNumericIsNaN | script.js:378 | Text holding a character that is neither a digit nor white space reads as `NaN`. |
| Text.NumberOfDigits | script.js:378 | `Number` reads a non-empty run of decimal digits as its decimal value. |
| Text.Split | script.js:378 | `split` always gives at least one piece. |
| Text.SplitAfterFirst | script.js:378 | Splitting at a one-character separator gives the text before its first occurrence, followed by the pieces of the rest. |
| Text.SplitNoSeparator | script.js:378 | Text without the separator splits into itself alone. |
| Text.SplitAtMarker | script.js:394 | Splitting at the chunk marker cuts right after a leading piece that holds no bar character, and splits the rest on its own. |
| Text.SplitWithoutMarker | script.js:394 | Text without a bar character splits at the chunk marker into itself alone. |
| Text.TrimEmptyIff | script.js:394 | `trim()` gives the empty text exactly when every character is white space. |
| Text.TrimUnpadded | script.js:408 | `trim()` leaves text that starts and ends with a non-space character unchanged. |
| Text.TrimIsPiece | script.js:366 | `trim()` gives the piece of the text between a leading and a trailing run of white space, and that piece neither starts nor ends with white space. |
| Text.LowerAsciiString | script.js:366 | `toLowerCase()` keeps the length, leaves no letter 'A' to 'Z', keeps every letter's upper-case form at its position, and leaves every non-letter unchanged. |
| Text.LowerAsciiAppend | script.js:366 | Lower-casing a join is joining the lower-cased pieces. |
| Text.ReplaceChar | script.js:390 | After `replace(/c/g, rep)` with `c` not in `rep`, no `c` is left, and every character comes from the text or from `rep`. |
| Text.ReplaceCharAppend | script.js:390 | The replacement works piece by piece: replacing in a join is joining the replaced pieces, so order and every other character are kept. |
| Text.ReplaceCharOne | script.js:390 | The empty text stays empty; one character becomes `rep` when it is `c` and stays itself otherwise. |
| Text.ReplaceCharAbsent | script.js:390 | Text without `c` is unchanged. |
| Text.ReplaceWordAbsent | script.js:392 | `replace(new RegExp(day, 'gi'), ...)` leaves text with no case-blind occurrence of the word unchanged. |
| Text.ReplaceWordShort | script.js:392 | Text shorter than the word is unchanged. |
| Text.ReplaceWordNoLetters | script.js:392 | Text without letters is unchanged by replacing a word of letters. |
| Text.ReplaceWordJoin | script.js:392 | A word of letters cannot match across a non-empty piece without letters, so replacing in `a + j + b` replaces in `a` and in `b` and keeps `j`. |
| Text.DigitCharOfValue | script.js:373 | A digit is the digit character of its own value. |
| Clock.TimeToMinutes | script.js:376-381 | Blank text reads as `NaN`. A time that reads contains ':' and is a non-negative number of minutes. |
| Clock.NonNumericFieldIsNaN | script.js:378-380 | If the hours field or the minutes field holds a character that is neither a digit nor white space, the time is `NaN`. |
| Clock.NonNumericMinutesExample | script.js:378-380 | "9:xx" reads as `NaN`. |
| Clock.SecondsIgnoredExample | script.js:378-380 | "10:30:00" reads as 630 minutes. Fields after the second are ignored. |
| Clock.ClockTextMinutes | script.js:376-381 | Any "HH:MM" text for hour `h` and minute `m` reads as `h * 60 + m` minutes. |
| Clock.TimeToMinutesOfFields | script.js:378-380 | Text whose first two ':'-fields read as numbers `h` and `m` reads as `h * 60 + m`, however many fields follow. |
| Clock.ClockText | script.js:373 | The 24-hour text of an hour and a minute below 100 is two digits, ':', two digits. |
| Clock.DecimalString | script.js:360 | `String(n)` is a non-empty run of digits whose value is `n`. It is one digit below 10 and two digits below 100. |
| Clock.PadStart2 | script.js:373 | `padStart(2, '0')` left-pads text shorter than 2 with zeros to length 2, keeps the text as its suffix, and leaves longer text alone. |
| Clock.PaddedHour | script.js:373 | The padded hour is its two decimal digits. |
| Clock.Hour24 | script.js:370-372 | `pm` adds 12 to hours 0 to 11. `am` turns 12 into 0. Other hours are unchanged, with no range check. Results stay below 100. |
| Clock.ClockAt | script.js:367 | A match of the reading pattern (one or two digits, ':', two digits, white space, am or pm) at a position is one or two hour digits, ':', two minute digits, white space, a meridiem letter and 'm', all inside the text, and it is `pm` exactly when the meridiem letter is 'p' in either case. |
| Clock.ClockAtReads | script.js:367 | Conversely, one or two digits, ':', two digits, any white space, then 'a' or 'p' and 'm' in either case are matched at that position, with those fields and that meridiem. |
| Clock.ReadingText | script.js:367 | The matched text is the hour, ':', the minutes, the white space and the two meridiem letters. |
| Clock.ConvertTo24Hour | script.js:364-374 | The conversion is defined exactly when the text is non-empty and, trimmed and lower-cased, starts with a clock reading. The result is the 24-hour text of the adjusted hour, and its minutes are the matched minutes copied unchanged. |
| Clock.ConvertWrittenReading | script.js:364-374 | Any written reading, with one or two hour digits, two minute digits, any white space and a meridiem in either case (as in "1:05pm" or "9:30  am"), converts to the 24-hour text of the adjusted hour and its minutes. |
| Clock.LoweredReading | script.js:366 | Lower-casing and trimming such a reading lowers only its meridiem letters. |
| Clock.ConvertTwelveHourReading | script.js:364-374 | The catalog's own spelling "hh:mm AM" or "hh:mm PM" converts to the 24-hour text of `Hour24(h, pm)` and the minutes. |
| Clock.MidnightExample | script.js:372 | "12:00 AM" converts to "00:00". |
| Clock.NoonExample | script.js:371 | "12:00 PM" converts to "12:00". |
| Clock.AfternoonExample | script.js:371 | "01:15 PM" converts to "13:15". |
| ScheduleParser.MarkDaysJoin | script.js:391-393 | The day loop cannot mark across a non-empty piece without letters: marking `a + j + b` marks `a` and `b` separately and keeps `j`. |
| ScheduleParser.MarkDaysNoLetters | script.js:391-393 | Text without letters is left unmarked. |
| ScheduleParser.MarkDaysNoDay | script.js:391-393 | A word no longer than the day names that starts with none of them is left unmarked. |
| ScheduleParser.MarkDaysAbsent | script.js:391-393 | Text with no case-blind occurrence of any day name is left unmarked. |
| ScheduleParser.MarkDaysOfDay | script.js:391-393 | A day name alone gets exactly one marker, in front of it. |
| ScheduleParser.DayHoldsNoOtherDay | script.js:386 | No day name holds another day name anywhere, up to case. |
| ScheduleParser.MarkEveryDay | script.js:391-393 | The day loop computes `MarkDays(s, 0)`, whose effect the MarkDays lemmas above state. |
| ScheduleParser.NormalizeWithoutSeparators | script.js:390-393 | Text without commas and newlines is normalised by marking its days alone. |
| ScheduleParser.NormalizeJoin | script.js:390-393 | A comma or newline between two texts becomes the marker between their normalised forms. |
| ScheduleParser.NonBlank | script.js:394 | The filter keeps no more pieces than it is given. |
| ScheduleParser.NonBlankKeeps | script.js:394 | The pieces kept are exactly those that are not blank after `trim()`. |
| ScheduleParser.NonBlankAppend | script.js:394 | Filtering a join is joining the filtered parts, so the order and the repeats of the kept pieces are those of the input. |
| ScheduleParser.NonBlankOne | script.js:394 | A single piece is kept exactly when it is not blank. |
| ScheduleParser.EmptyHasNoChunks | script.js:385 | The empty schedule text yields no chunk. |
| ScheduleParser.ChunksOfCommaJoin | script.js:389-394 | Two entries joined by ", ", each without commas, newlines or bar characters, not blank, and marked once in front of their day name, are exactly two chunks, in order. |
| ScheduleParser.ChunkDay | script.js:397-398 | The day found is a listed day the chunk starts with, ignoring case. When none is found, the chunk starts with no day name. |
| ScheduleParser.ChunkDayIsFirst | script.js:397-398 | Conversely, the first listed day the chunk starts with is the day found. |
| ScheduleParser.TitleCaseOfDay | script.js:399 | Title-casing the matched day word gives the day name exactly as listed. |
| ScheduleParser.RangeAt | script.js:387 | A time range at a position is a clock reading there, a hyphen after it, and a second clock reading after the hyphen. |
| ScheduleParser.RangeAtSpells | script.js:387 | Between the first reading and the hyphen, and between the hyphen and the second reading, there is only white space. |
| ScheduleParser.RangeAtReads | script.js:387 | Conversely, a reading, white space, '-', white space and a second reading make a range at that position, with those parts. |
| ScheduleParser.RangeStart | script.js:401 | The scan stops at the first position from the start where a range begins, and no range begins before it. |
| ScheduleParser.FirstRange | script.js:401-402 | The range found starts at or after the search start and is a range at that position. |
| ScheduleParser.FirstRangeIsLeftmost | script.js:401-402 | No time range starts before the one found. When none is found, there is no range anywhere. |
| ScheduleParser.NoRangeBefore | script.js:401 | Text without digits holds no range start, so the search may begin after it. |
| ScheduleParser.MatchedReadingConverts | script.js:404-406 | Each time captured by the range pattern converts to 24-hour text, so the unconvertible-time exit is never taken. |
| ScheduleParser.StripLeading | script.js:408 | Stripping `^[-\s(),]+` drops exactly the longest prefix of those characters. |
| ScheduleParser.StripTrailing | script.js:408 | Stripping `[(),\s]+$` drops exactly the longest suffix of those characters. |
| ScheduleParser.Room | script.js:408-410 | The room is never empty. It is "N/A", or the piece of the text after the range left once a prefix of leading junk and a suffix of trailing junk are dropped, and it neither starts with leading junk nor ends with trailing junk. It is "N/A" when that text holds only junk. |
| ScheduleParser.RoomOfPadded | script.js:408-410 | A room padded by leading junk in front and trailing junk behind comes out as itself. |
| ScheduleParser.ParseChunk | script.js:396-410 | A chunk yields a record exactly when it starts with a day name and contains a time range. The record holds that day, the 24-hour forms of the leftmost range's two times, and the room after the range. |
| ScheduleParser.ParseChunkWellFormed | script.js:397-410 | A record names a listed day, holds "HH:MM" times and has a non-empty room. |
| ScheduleParser.ChunkDropsOrYields | script.js:396-411 | Each chunk adds its own record, or nothing, at its own position among the records of the other chunks. |
| ScheduleParser.ChunkRecordsAppend | script.js:396-411 | The records of two runs of chunks, one after the other, are the records of each run in order. |
| ScheduleParser.ChunkRecordsWellFormed | script.js:396-411 | Every record the chunks yield is well formed. |
| ScheduleParser.ParseChunks | script.js:396-411 | The chunk loop appends each chunk's record, if it has one, in chunk order. |
| ScheduleParser.ParseScheduleString | script.js:384-414 | The parse returns the chunk records in chunk order, at most one per chunk. Every record is well formed. Empty input gives no record. |
| ParserExamples.EntryParses | script.js:396-410 | For every listed day, "<day> 09:30 AM-10:50 AM (Room 301)" yields that day, "09:30", "10:50" and "Room 301". |
| ParserExamples.ParseChunkExample | script.js:396-410 | "Monday 09:30 AM-10:50 AM (Room 301)" yields Monday, "09:30", "10:50" and "Room 301". |
| ParserExamples.TwoEntriesChunks | script.js:389-394 | The Monday and Wednesday entries joined by ", " are two chunks, one per entry. |
| ParserExamples.TwoEntriesRecords | script.js:384-414 | Parsing the Monday and Wednesday entries joined by ", " gives the Monday record and then the Wednesday record. |
| RoutineGenerator.Max | script.js:282 | `Math.max` is `NaN` when either side is, else the larger side. |
| RoutineGenerator.Min | script.js:282 | `Math.min` is `NaN` when either side is, else the smaller side. |
| RoutineGenerator.MeetingFitsIsOverlap | script.js:266-273 | A meeting passes (`MeetingFits`) exactly when its times and the window are readable, its day is preferred, and it overlaps the window as half-open intervals. |
| RoutineGenerator.SectionValidIff | script.js:259-275 | `IsSectionValid` holds exactly when the section has no meetings or every meeting is readable, on a preferred day and overlapping the window. |
| RoutineGenerator.TouchingWindowInvalid | script.js:272 | A meeting that only touches the window at either end makes its section invalid. |
| RoutineGenerator.UnreadableWindowRejects | script.js:261-270 | With an unreadable window, only sections without meetings are valid. |
| RoutineGenerator.WiderPreferencesKeepValid | script.js:259-275 | Allowing more days and a wider window keeps every valid section valid. |
| RoutineGenerator.WindowEdgeExample | script.js:272 | A Monday 08:00–09:20 meeting fails a window from 09:20 and passes a window from 09:00. |
| RoutineGenerator.HasConflict | script.js:278-289 | The triple loop answers exactly `Conflicts`: whether some section of the routine has a meeting that clashes with one of the new section's meetings. |
| RoutineGenerator.ClashFound | script.js:279-284 | One clashing pair of meetings is enough for a conflict. |
| RoutineGenerator.ClashIsOverlap | script.js:282 | Two meetings clash (`MeetingsClash`) exactly when they share a day, all four times are readable, each is a proper interval, and the intervals overlap. |
| RoutineGenerator.ClashSymmetric | script.js:282 | The clash test does not depend on which meeting comes first. |
| RoutineGenerator.TouchingMeetingsDoNotClash | script.js:282 | A meeting that ends when the other starts clashes with it in neither order. |
| RoutineGenerator.EmptyRoutineNeverConflicts | script.js:278-289 | Nothing conflicts with the empty routine. |
| RoutineGenerator.SingleMeetingConflict | script.js:278-289 | For one-meeting sections, a conflict is exactly a clash of their meetings. |
| RoutineGenerator.BackToBackExample | script.js:282 | Monday 09:00–10:00 and 10:00–11:00 do not conflict. |
| RoutineGenerator.OverlapExample | script.js:282 | Monday 09:00–10:00 and 09:30–10:30 conflict. |
| RoutineGenerator.ValidSections | script.js:229 | The filter keeps exactly the valid sections. |
| RoutineGenerator.ValidSectionsAppend | script.js:229 | Filtering a join is joining the filtered parts, so the kept sections stay in catalog order. |
| RoutineGenerator.ValidSectionsOne | script.js:229 | A single section is kept exactly when it is valid. |
| RoutineGenerator.Capped | script.js:241 | At most 500 leading results are kept, and all of them when there are fewer. |
| RoutineGenerator.CappedAppend | script.js:241 | Capping early and capping once at the end give the same results. |
| RoutineGenerator.ExtendPartial | script.js:247-249 | Adding a section of the next course that conflicts with none chosen extends a partial routine. |
| RoutineGenerator.CompletionsSound | script.js:240-252 | Every result the search reaches from a partial routine is a full routine that extends it. |
| RoutineGenerator.CompletionsComplete | script.js:240-252 | Every full routine that extends a partial routine is reached from it. |
| RoutineGenerator.PrefixDoesNotConflict | script.js:247-249 | Each section of a routine conflicts with none of the sections before it. |
| RoutineGenerator.SearchFindsExactlyRoutines | script.js:240-254 | The uncapped search finds a list exactly when it takes one valid section per selected course, in selection order, with no conflicts. |
| RoutineGenerator.Backtrack | script.js:240-252 | The recursive search appends to what was collected the depth-first completions of the current choice, stopping once 500 are held. |
| RoutineGenerator.BacktrackStep | script.js:246-250 | One pass of the section loop either adds the completions of a non-conflicting section or skips a conflicting one. |
| RoutineGenerator.Generate | script.js:225-256 | `generate` gives no routine when some course has no valid section. Otherwise it gives the shuffled capped search results. In every case it gives at most 500 routines, each a valid routine of the filtered courses. |
| RoutineGenerator.ShuffledRoutinesValid | script.js:239-255 | The shuffled results number at most 500, and each is a valid routine. |
| RoutineGenerator.AllRoutinesKeptBelowCap | script.js:241-255 | When the search meets fewer than 500 routines, every valid routine is in the result. |
| RoutineGenerator.EmptySelectionGivesOneEmptyRoutine | script.js:225-256 | With no course selected, the result is one empty routine. |
| RoutineGenerator.PickIndex | script.js:293 | The index drawn for position `i` is at most `i`. |
| RoutineGenerator.PickIndexIsFloor | script.js:293 | That index is `Math.floor(r * (i + 1))`, which lies in `0..i`. |
| RoutineGenerator.ScaledDrawBelow | script.js:293 | `r * n` lies in `[0, n)` for a draw `r` in `[0, 1)`. |
| RoutineGenerator.SwapPermutes | script.js:294 | Exchanging two positions keeps the multiset of elements. |
| RoutineGenerator.ShuffleStepsPermutes | script.js:292-295 | Any number of shuffle steps keeps the multiset of elements. |
| RoutineGenerator.FisherYatesPermutes | script.js:291-297 | The shuffle `FisherYates` keeps the length and the multiset of elements, so it is a permutation. |
| RoutineGenerator.Exchange | script.js:294 | The destructuring swap exchanges two cells and changes nothing else. |
| RoutineGenerator.ShuffleArray | script.js:291-297 | The in-place loop leaves the array holding the Fisher–Yates permutation of its old contents for the given draws. |
| Grid.Slots | script.js:346 | There are seven slot labels. |
| Grid.SlotsAsListed | script.js:346 | The slot labels are "08:00-09:20" to "17:00-18:20", as listed. |
| Grid.SlotPattern | script.js:346 | Slot `k` starts at `480 + 90k` minutes and lasts 80 minutes. |
| Grid.SlotsInOrder | script.js:346 | Each slot ends before any later slot starts. |
| Grid.SlotsDistinct | script.js:346 | No two slot labels are equal. |
| Grid.ClockPairSplits | script.js:350 | Splitting "a-b" at '-' and reading both halves gives the minutes of `a` and of `b`. |
| Grid.SlotReads | script.js:350 | Each slot label reads back as its start and end minutes. |
| Grid.TouchedSlots | script.js:349-352 | The filter keeps exactly the slots that overlap the meeting. |
| Grid.AffectedSlotsAreOverlaps | script.js:345-353 | A slot is in `GetAffectedTimeSlots` exactly when both times are readable and `start < slotEnd` and `slotStart < end`. |
| Grid.AffectedSlotsAreSlots | script.js:345-353 | Affected slots are table slots, at most seven. |
| Grid.UnreadableTimeAffectsNothing | script.js:348 | An unreadable start or end affects no slot. |
| Grid.IndexOf | script.js:358-359 | A lookup that succeeds names a position holding the key. |
| Grid.IndexOfFirst | script.js:358-359 | A lookup fails exactly for keys not in the table, and otherwise finds the first occurrence. |
| Grid.DaysDistinct | script.js:357 | The seven day names are distinct. |
| Grid.SlotRow | script.js:356 | Slot `k` sits in row `k + 1`. |
| Grid.DayColumn | script.js:357 | Day `d` from Sunday sits in column `d + 1`. |
| Grid.CellIdDefinedIff | script.js:355-362 | `GetCellId` gives an id exactly for a listed slot and a listed day. |
| Grid.CellIdAt | script.js:358-361 | Found row and column give the id "tableId-row-col", both 1-based. |
| Grid.CellIdOfSlotAndDay | script.js:355-362 | Slot `k` on day `d` has the id "tableId-(k+1)-(d+1)". |
| Grid.CellIdDigits | script.js:360 | With one-digit row and column, the id is exactly the table id, '-', the row digit, '-', and the column digit. It is four characters longer than the table id. |
| Grid.CellIdInjective | script.js:355-362 | Two cells of one table with the same id are the same day and slot. |

## Left out

- **The user interface.** DOM building and event wiring are not modelled.
  That covers `renderSelectedCourses`, `handleSearchInput`,
  `displaySuggestions`, `confirmRoutine`, `populateTable`,
  `createRoutineTableHTML`, `createStatusTableHTML` and the listeners. So are
  `alert`, `console.warn`, the `setTimeout` deferral and the `html2canvas`
  image export. All of these are host I/O or foreign code.
- **The catalog feed and theme.** The `fetch` of the feed, the theme logic over
  `localStorage` and `matchMedia`, and the grouping in `processScheduleData`
  are I/O or JSON plumbing. Sections reach the model already grouped, as a map
  from course code to its sections in arrival order.
- **The table constants beyond the labels.** The `timeSlots` and `days`
  constants of the HTML table (script.js:302-303) are only modelled as the slot
  labels and day names the helpers use.
- Text.NumberValue: models `Number` only for blank text (0) and
  space-padded runs of decimal digits. Signs, decimals, exponents, hex and
  `Infinity` are read as `NaN`. The core only passes text produced by its own
  24-hour formatting or by the preferences form.
- Clock.TimeToMinutes: minutes are unbounded integers, not IEEE doubles. No
  input the core produces comes near 2^53.
- Text.LowerAsciiString: `toLowerCase()` is modelled on ASCII letters only. The
  scanners that follow it look only at ASCII digits, spaces, ':' and the
  letters a, m and p, and no non-ASCII character lower-cases to one of those.
  The same holds for the `i` flag of the parser's patterns, which folds case in
  non-unicode mode.
- **Non-string inputs.** `convertTo24Hour`'s checks for `null` and for a
  non-string argument, and `parseScheduleString` with `null`, are not
  modelled. Dafny strings cannot be `null`. The empty string takes the same
  early exit and is modelled.
- **Course codes missing from the catalog.** `generate` would throw a
  `TypeError` for a selected code that is not in the catalog. The model
  requires every selected code to be present, as the source does.
- **Fresh arrays and aliasing.** Routines are values, so "each result is a
  fresh array" holds trivially and says nothing about aliasing.
  `shuffleArray`'s return of the same array object is modelled as the
  in-place update of `a`.
- **`Math.random`.** It is a parameter. Neither its distribution nor the
  uniformity of the shuffle is modelled.
- **JavaScript object-key lookups.** `getCellId` looks up its two literal maps
  by key, which would also find inherited keys such as `"constructor"`. That
  case is not modelled. A lookup finds only the listed slot labels and day
  names.
