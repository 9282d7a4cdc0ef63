# Weekly schedule generator — a Dafny model

This project models the core of a personal weekly schedule manager. The manager is a
single C++ file, `generador_horarios.cpp`, with two classes. `Actividad` is a timed
activity on one weekday. `Horario` is a named list of activities. The model is pure
functions over an immutable `Activity` record and a `Schedule` value:

- the conflict rule between two activities (`conflictoCon`);
- insertion that rejects the first conflicting activity (`agregarActividad`) and removal by
  name (`eliminarActividad`);
- the per-day view (filter by day, then sort by start minute), defined once and used by the
  one-day listing, the whole-week listing and the free-slot search;
- the free-slot search (`buscarHuecosLibres`), returning data instead of printing it;
- the one-line text form of an activity (`toString`) and the parse that `cargarDesdeArchivo`
  runs on each line, with `std::getline` and `std::stoi` modelled as the C++ library
  defines them; saving and loading a whole file, seen as its list of lines;
- the range and ordering check the menu applies before it builds an activity;
- `formatoHora`, which writes minutes as "HH:MM".

Modules: `Activities` (record, minutes, conflict rule, the no-overlap invariant),
`DayViews` (filter and sort), `FreeSlots` (the gap computation), `Schedules` (the operations
of `Horario`), `Decimal` (writing and reading `int`s), `Persistence` (lines and files),
`InputValidation`, `Clock`, and the generic helpers `Options` and `Sequences`. `Scenarios`
holds a few worked examples.

The project has no I/O. The console, files and keyboard input are left out. A file is its
sequence of lines. The model does not use the clock or randomness.

In these places the model follows the code as written:

- The day view is sorted with `std::sort`, which is not stable. Only sortedness and
  permutation are promised. `DayViews.SortedOrderUnique` shows the order is still fully
  determined on a day with no overlaps, so the free slots do not depend on it.
- A day with no activities gives a "whole day free" answer, and no slot is reported.
- The slots between activities are not clipped to the 8:00-22:00 window. The leading and
  trailing slots are anchored at the first start and the last end, wherever those fall.
- The location is read to the end of the line, so commas in it survive a save and a load.
  Only the name must be free of commas.

One place departs from the code: loading fails as a whole (`None`) instead of leaving a
half-replaced list (see `Persistence.Load` under "## Left out").

## Model

| member | source | states |
|---|---|---|
| `Activities.ConflictsWith` | generador_horarios.cpp:37-48 | activities on different days never conflict; an activity that ends when (or before) the other starts never conflicts with it |
| `Activities.ConflictSymmetric` | generador_horarios.cpp:37-48 | the conflict rule gives the same answer whichever activity is asked |
| `Activities.ConflictIffSharedMinute` | generador_horarios.cpp:40-47 | two well-formed activities conflict exactly when some minute of the week is occupied by both (half-open intervals intersect with positive length) |
| `DayViews.FilterDay` | generador_horarios.cpp:268-273 | the filtered list holds exactly the activities of the requested day, each as many times as in the schedule |
| `DayViews.SortByStart` | generador_horarios.cpp:276-281 | the sorted list is ordered by start minute and is a permutation of its input |
| `DayViews.ActivitiesOfDay` | generador_horarios.cpp:268-281 | the day view is sorted by start minute and is a permutation of that day's activities |
| `DayViews.SortedOrderUnique` | generador_horarios.cpp:276-281 | two start-sorted permutations of the same activities with distinct starts are equal, so the unstable sort has one outcome on a conflict-free day |
| `DayViews.DayViewChained` | generador_horarios.cpp:268-281 | when one day's activities are free of conflicts and well-formed, whatever the other days hold, that day's sorted view has each activity ending no later than every later one begins, and distinct starts |
| `FreeSlots.InnerGaps` | generador_horarios.cpp:302-309 | each gap between neighbouring activities is reported only when it has positive length; `FreeSlots.InnerGapsAreBetween` shows each is the span from one activity's end to the next one's start |
| `FreeSlots.InnerGapsReported` | generador_horarios.cpp:302-309 | conversely, every pair of neighbours with the next start after the previous end yields that gap, wherever it falls relative to 8:00-22:00 |
| `FreeSlots.GapsReported` | generador_horarios.cpp:294-315 | the same gap appears in the day's full list of free slots |
| `FreeSlots.InnerGapsAreBetween` | generador_horarios.cpp:302-309 | every inner gap runs from the end of some activity to the start of the activity after it |
| `FreeSlots.GapsOf` | generador_horarios.cpp:290-315 | every reported slot has strictly positive length |
| `FreeSlots.GapsAreCandidates` | generador_horarios.cpp:294-315 | each slot is the leading candidate [8:00, first start), the gap between two neighbouring activities, or the trailing candidate [last end, 22:00), and is reported only when non-empty |
| `FreeSlots.GapsFree` | generador_horarios.cpp:294-315 | on a non-empty day of well-formed activities where each ends no later than every later one begins, no slot shares a minute with any activity of the day |
| `FreeSlots.GapsAscending` | generador_horarios.cpp:294-315 | on such a day the slots come in ascending order, each ending no later than the next begins |
| `FreeSlots.GapsComplete` | generador_horarios.cpp:294-315 | every minute of the 8:00-22:00 window that no activity covers lies in some slot, for any day |
| `FreeSlots.InnerGapNotClipped` | generador_horarios.cpp:302-309 | a gap between activities is reported even outside the window (1:00-2:00 and 3:00-4:00 give 2:00-3:00) |
| `Schedules.Empty` | generador_horarios.cpp:77 | a new schedule is named "Mi Horario", holds no activity, and so keeps the no-overlap invariant |
| `Schedules.Add` | generador_horarios.cpp:80-96 | rejects, leaving the schedule unchanged and naming the first conflicting stored activity, exactly when some stored activity conflicts; otherwise appends the activity at the end |
| `Schedules.AddPreservesConsistent` | generador_horarios.cpp:80-96 | adding a well-formed activity keeps "no two stored activities conflict, each starts before it ends" |
| `Schedules.Remove` | generador_horarios.cpp:141-153 | succeeds exactly when some activity has that exact name; then it removes the first such activity only and keeps the others in order; otherwise the schedule is unchanged |
| `Schedules.RemovePreservesConsistent` | generador_horarios.cpp:141-153 | removal only takes activities away, so the no-overlap invariant is kept |
| `Schedules.DayView` | generador_horarios.cpp:156-193 | a day outside 1..7 is refused; otherwise the result is sorted by start and is a permutation of that day's activities |
| `Schedules.WeekView` | generador_horarios.cpp:99-138 | an empty schedule gives the "empty" answer; otherwise seven lists, list d sorted by start and holding each activity of day d + 1 exactly as many times as the schedule does (the one-day listing's contract, day by day); an activity is listed iff it is stored on that day |
| `Schedules.FindFreeSlots` | generador_horarios.cpp:260-316 | a day outside 1..7 is refused; "whole day free" exactly when the day has no activity; otherwise every slot has positive length |
| `Schedules.FreeSlotsAreFree` | generador_horarios.cpp:285-315 | for a valid day whose own activities are free of conflicts and well-formed, whatever the other days hold, any reported slots ascend and none shares a minute with any activity of that day |
| `Schedules.FreeSlotsCoverFreeTime` | generador_horarios.cpp:285-315 | every window minute at which no activity of the day runs is reported free |
| `Schedules.SlotsIndependentOfSortOrder` | generador_horarios.cpp:276-281 | when the day's own activities are free of conflicts and well-formed, any start-ordered arrangement of them yields the same slots |
| `Decimal.IntToString` | generador_horarios.cpp:53-54 | the text of an `int` is non-empty, all digits except a leading minus sign; `Decimal.StoiIntToString` reads it back |
| `Decimal.Stoi` | generador_horarios.cpp:237-241 | a value `std::stoi` accepts always fits a 32-bit `int`; `Decimal.StoiReadsLeadingNumber` and `Decimal.StoiNeedsDigit` state which value is read |
| `Decimal.StoiReadsLeadingNumber` | generador_horarios.cpp:237-241 | after leading white space, an optional sign and a run of digits are read and any text after the digits is ignored; the result is the signed value, or failure exactly when it leaves the `int` range |
| `Decimal.StoiSkipsSpaceAndTail` | generador_horarios.cpp:237-241 | so a field such as " 1" or "1 " reads as 1: the text of any `int` is read back with white space before it and non-digit text after it |
| `Decimal.StoiNeedsDigit` | generador_horarios.cpp:237-241 | with no digit after the white space and the optional sign, `std::stoi` fails |
| `Decimal.SkipSpace` | generador_horarios.cpp:237-241 | `std::stoi` drops a prefix made only of white space and stops at the first other character |
| `Decimal.StoiIntToString` | generador_horarios.cpp:53-54 | reading back the decimal text an `int` is written as recovers the `int` |
| `Clock.FormatTime` | generador_horarios.cpp:320-327 | the text is never shorter than "HH:MM" and holds a colon; `Clock.FormatTimeReadsBack` states its content |
| `Clock.FormatTimeReadsBack` | generador_horarios.cpp:320-327 | for any non-negative number of minutes the text is the hours in digits, a colon and two digits of minutes below 60, and the two numbers give back the input; below 100 hours it is exactly the five characters "HH:MM" |
| `Clock.NegativeMinutes` | generador_horarios.cpp:320-327 | negative input follows C++ truncating division: -30 minutes is written "00:-30" |
| `Persistence.Encode` | generador_horarios.cpp:51-56 | the line opens with the name and a comma, ends with the location, and holds no line break when neither text field does; `Persistence.ParseEncode` reads it back |
| `Persistence.GetLine` | generador_horarios.cpp:236-242 | a stream that is no longer good leaves the target unchanged; a good stream holding the delimiter stays good, the field has no delimiter, and field, delimiter and the rest make up the old text; a good stream without the delimiter yields all of it and is exhausted |
| `Persistence.ParseLine` | generador_horarios.cpp:229-245 | a parsed activity's name holds no comma, its location no line break, and its numbers fit an `int` |
| `Persistence.ParseEncode` | generador_horarios.cpp:236-244 | parsing the line `toString` writes gives back the activity when the name holds no comma, the location no line break and the numbers fit an `int` |
| `Persistence.ParseLines` | generador_horarios.cpp:230-246 | the lines parse as a whole exactly when each line parses, and then the activities appear in line order |
| `Persistence.Save` | generador_horarios.cpp:204-208 | the first line is the display name, followed by one encoded line per activity in order |
| `Persistence.Load` | generador_horarios.cpp:224-246 | an empty file gives an empty schedule with an empty name; otherwise the first line is the name, loading succeeds exactly when every other line parses, and activity i is the parse of line i + 1, in file order |
| `Persistence.LoadSave` | generador_horarios.cpp:204-246 | loading what was saved gives back the same schedule for storable activities whose names, like the display name, hold no line break |
| `Persistence.LoadSkipsConflictCheck` | generador_horarios.cpp:244-245 | a load accepts two conflicting activities, so the no-overlap invariant holds only along the add path |
| `Persistence.ShortLineRepeatsField` | generador_horarios.cpp:236-242 | a line "name,n" loads as day n with every time field n and an empty location, because the exhausted stream leaves the field text unchanged |
| `InputValidation.Check` | generador_horarios.cpp:388-398 | a range error exactly when some field is outside its range; otherwise the hour-then-minute check rejects exactly when the start minute is not before the end minute |
| `InputValidation.AcceptedAddKeepsConsistent` | generador_horarios.cpp:388-401 | an accepted entry builds a well-formed activity on a valid day, and adding it keeps a consistent schedule consistent |
| `Scenarios.AddRejectsOverlapAcceptsTouching` | generador_horarios.cpp:80-96 | 9:00-10:00 is rejected against 8:00-9:30 on the same day, naming it; 9:30-10:00 is accepted |
| `Scenarios.FreeSlotsOfSmallDays` | generador_horarios.cpp:260-316 | a day with only 10:00-11:00 is free 8:00-10:00 and 11:00-22:00; an empty day is wholly free; day 9 is refused |
| `Scenarios.RemoveFirstThenNotFound` | generador_horarios.cpp:141-153 | removing "Math" leaves "Physics"; removing it again finds nothing and changes nothing |
| `Scenarios.OverlapOnOtherDay` | generador_horarios.cpp:230-245 | two overlapping Monday activities, which only a load can store, break the whole-week invariant but leave a clean Tuesday meeting the day-local hypothesis of the free-slot guarantees |

## Left out

- Console output: `mostrar`, the weekday-name table, the `setw`/`setfill` layout, and every error or confirmation message. The operations return the data those messages are printed from.
- File handling: opening, closing and stream errors in `guardarEnArchivo` and `cargarDesdeArchivo`. A file is modelled as its sequence of lines, and a file that cannot be opened is not modelled. `Persistence.Save` keeps a text field holding a line break as one line, where the file would split it, so `Persistence.LoadSave` asks that no name holds a line break.
- Persistence.Load: returns `None` for a malformed line and never touches the current schedule. The C++ code clears the list first, and the exception `std::stoi` throws is never caught, so the program terminates. The model replaces that half-replaced state with the atomic failure.
- Decimal.Stoi: `std::invalid_argument` and `std::out_of_range` both become `None`. The two exceptions are not told apart.
- The interactive menu loop and the reading of its input with `std::cin`. Only the validation check is modelled.
- `cambiarNombre`: it only assigns the display name.
- Activities.ConflictsWith: minutes since midnight are computed on unbounded integers. The C++ `hour * 60 + minute` overflows a 32-bit `int` whenever the result leaves the `int` range (for example an hour above about 35.8 million or below about -35.8 million, or hour 1 with minute 2147483647). Only a loaded file can supply such values. The same expression is computed in the conflict rule, the sort comparators and the gap code, and none of them is modelled with wrap-around.
- Clock.FormatTimeReadsBack: stated only for non-negative minutes. The function also models negative input with truncating division, and `Clock.NegativeMinutes` shows one such text ("00:-30"), but no general contract describes it.
- Schedules.Add: the C++ code prints both activities when it rejects a conflict. The model returns the stored activity that conflicts, and the caller already holds the candidate.
- DayViews.SortByStart: the model sorts by insertion, which is one admissible result of `std::sort`. Its contract promises only sortedness and permutation, as `std::sort` does.
