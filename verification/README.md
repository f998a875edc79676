# Live teaching platform: a verified model

This project models the stateful core of the platform's API server and proves what it is meant to
keep. One module, or a small family of modules, stands for one service.

- `BoardProtocol`, `BoardSafety`, `BoardService`: the life of a whiteboard document. Every stretch of
  code between two `await`s is one step, and steps interleave freely. `BoardProtocol` has the steps
  and the invariant, `BoardSafety` the proofs about runs, `BoardService` the service itself, with its
  maps and entries changed in place and every method proved to do its protocol step.
- `CivilDate`, `Zone`, `Schedule`, `JoinWindow`, `LocalTime`, `CourseIcs`, `IcsText`, `Reminders`: class meetings
  from a weekly cadence, in a time zone that is any function from instants to offsets; the calendar
  file, read back as RFC 5545 says; and the reminder sweep.
- `Surahs`, `Hifz`, `QuranWords`: memorisation progress, and the canonical form of marks.
- `CodePath`, `CodeDoc`, `CodeSafety`, `CodeService`: the shared code document, its validator and its
  sanitizer.
- `Buzzer`, `BuzzerService`, `Points`, `Assignments`: the buzzer round, the points ledger with its
  projection, and grading.
- `QuickAccess`, `Retention`, `Terminals`: the passcode lockout, the removal of old board files, and
  the live terminals.
- `Text` and `Wrappers`: decimal numbers, optional values and results.

What the code does comes first where its comments promise more:

- `release` of the board service deletes the session's key without asking whose entry it leads to
  (src/board/board-doc.service.ts:70), although `flushDirty` asks (line 121). The comments promise
  that no edit is lost. `BoardSafety.StepKeepsPromiseExactly` says exactly which steps keep that
  promise, `BoardSafety.StepKeepsInvExactly` which keep the room in the order that makes it last,
  and `BoardSafety.HijackLosesAnEdit` is a run in which it is broken.
- The service places a wall-clock time by the zone's offset at that time taken as UTC, which
  src/sessions/session-schedule.ts:8 calls correct but for one hour a year. Near a change of clocks
  it is the wrong offset for hours, and not only in a skipped or repeated hour: a class at 04:00 in
  New York is an hour late on the day of the spring change (`Zone.PlainTimeMovesAhead`).
  The calendar file names the time and the zone, so there it disagrees with the list of meetings.
  `CourseIcs.CalendarShowsTheSameMeetings` and `CourseIcs.AgreesAroundChangesExactly` say exactly
  when the two agree.
- Meetings are in chronological order exactly under `JoinWindow.AscendExactly`, and
  `JoinWindow.OutOfOrder` is a list that is not.
- A selected weekday outside 0 to 6 never meets, but makes the calendar file's BYDAY list unreadable.
- The sanitizer of the code document checks initialized marks but does not count them, so what it
  returns can fail the validator that guards every later update. From empty storage this cannot
  happen, since every document the service keeps has passed the validator (`CodeService`); it is
  about snapshots that were not written under these rules.
- Grading reads the earlier award outside its transaction
  (src/assignments/assignments.service.ts:520), so two gradings at once can leave a net that is not
  the grade.
- An award bumps the projection before its transaction commits, and bump failures are only logged
  (src/points/points.service.ts:39-53): `Points.Sound` says which of these leave the board right.

The environment enters as parameters: clocks, zones, the answers of the object store and the
database, whether a write landed, what an update makes of a document.

## Model

| member | source | states |
|---|---|---|
| `BoardSafety.StepKeepsInvExactly` | src/board/board-doc.service.ts:43-143 | From any room in order, a step keeps it in order if and only if it is not a release that resumes on an entry already evicted while its successor is in use or unsaved; among the steps are writes that fail at any time, and writes that land after their caller was told they had failed |
| `BoardSafety.StepKeepsPromiseExactly` | src/board/board-doc.service.ts:43-143 | From any room in order, a step keeps the promise itself (no edit lost, holders hold the live entry) if and only if it is not such a deletion of an entry that is in use or whose edits the store lacks |
| `BoardSafety.EveryRunKeepsPromise` | src/board/board-doc.service.ts:52-143 | In every interleaving of joins, leaves, edits, overlapping writes, failed writes and timer ticks without that one deletion: the document in memory, or else the snapshot, has every accepted edit; an entry that counts as clean is stored whole; whoever holds an entry holds the live one the map leads to; only clean, unused documents are destroyed |
| `BoardSafety.EveryRunCounts` | src/board/board-doc.service.ts:43-72 | In every such run, by the events alone: the clients counted, by the entry in the map or as waiting for the load, are exactly those who have joined and not left since, and once the load is done they hold the live entry the map leads to |
| `BoardSafety.NoEditIsLost` | src/board/board-doc.service.ts:43-143 | An edit made while someone is in the loaded room is in the document or, once that has gone, in the snapshot, whatever happens afterwards |
| `BoardSafety.RetainCounts` | src/board/board-doc.service.ts:43-47 | Joining a loaded board adds one to its clients and makes the joiner a holder; otherwise the joiner waits for the load with those before it |
| `BoardSafety.TickSaves` | src/board/board-doc.service.ts:115-142 | With no other write under way, one tick whose write succeeds leaves the entry clean and stored whole, and evicts it exactly if nobody holds it |
| `BoardSafety.RunKeepsInv` | src/board/board-doc.service.ts:43-143 | The invariant behind the promise holds after every such run |
| `BoardSafety.HolderKeepsDocument` | src/board/board-doc.service.ts:43-72 | A client keeps its entry, alive and in the map, across every step but its own leave; the document only grows, and its edits are taken |
| `BoardSafety.EvictThenReload` | src/board/board-doc.service.ts:43-113 | A last client leaving a saved document, then a join, gives a new entry with the same document |
| `BoardSafety.HijackLosesAnEdit` | src/board/board-doc.service.ts:52-143 | A run of fourteen steps in which the missing identity test of line 70 loses an accepted edit and leaves its author refused |
| `BoardSafety.AnsweredExactly` | src/board/board-doc.service.ts:58-143 | The answer to a write keeps the room in order exactly when it is not that deletion |
| `BoardSafety.GiveUpKeeps` | src/board/board-doc.service.ts:126-141 | A write reported as failed that is still on its way keeps the room in order |
| `BoardSafety.GivenUpForGood` | src/board/board-doc.service.ts:138-141 | A caller that was told of the failure is never resumed by that write again |
| `BoardSafety.PutDroppedKeeps` | src/board/board-doc.service.ts:126-141 | A write that comes to nothing, in whatever order, keeps the room in order |
| `BoardSafety.ReleaseTailExactly` | src/board/board-doc.service.ts:60-71 | The loop and tail of release keep the room in order exactly when the session has no other entry in use or unsaved |
| `BoardSafety.TimerTailKeeps` | src/board/board-doc.service.ts:118-122 | The tail of flushDirty, which does test identity, always keeps the room in order |
| `BoardSafety.EditKeeps` | src/board/board-doc.service.ts:74-81 | An edit, taken or refused, keeps the room in order |
| `BoardSafety.PutLandsKeeps` | src/board/board-doc.service.ts:126-137 | A write that takes effect in issue order never takes the store back behind a later one |
| `BoardSafety.MarkSavedKeeps` | src/board/board-doc.service.ts:134-137 | Clearing dirty only when the revision has not moved never hides an unsaved edit |
| `BoardService.BoardDocService.Retain` | src/board/board-doc.service.ts:43-47 | Counts the client into the entry in the map, or makes it wait for the pending load, and touches no other session |
| `BoardService.BoardDocService.StoreReads` | src/board/board-doc.service.ts:97-100 | The pending load reads what the store holds at that moment |
| `BoardService.BoardDocService.LoadDone` | src/board/board-doc.service.ts:101-109 | One new entry in the map, held by exactly those who waited, with as many clients |
| `BoardService.BoardDocService.LoadFails` | src/board/board-doc.service.ts:97-109 | A failed load leaves no entry and no pending load |
| `BoardService.BoardDocService.ApplyUpdate` | src/board/board-doc.service.ts:74-81 | The edit is taken exactly when the session has an entry; else nothing changes |
| `BoardService.BoardDocService.IssuePut` | src/board/board-doc.service.ts:126-133 | The write captures the revision and the encoded document of this moment |
| `BoardService.BoardDocService.MarkSaved` | src/board/board-doc.service.ts:134-137 | dirty is cleared exactly when no edit came since the write was issued |
| `BoardService.BoardDocService.Answered` | src/board/board-doc.service.ts:129-141 | The answered write leaves the flight and nothing else changes |
| `BoardService.BoardDocService.PutAnswered` | src/board/board-doc.service.ts:60-142 | The answer resumes release or the timer exactly as the protocol says; a release whose write failed answers true |
| `BoardService.BoardDocService.GiveUp` | src/board/board-doc.service.ts:129-141 | A failure reported while the store is undecided: a release answers true, the entry stays dirty, and the write stays on its way |
| `BoardService.BoardDocService.PutLands` | src/board/board-doc.service.ts:129-133 | A write takes effect in the store, in issue order among those that do |
| `BoardService.BoardDocService.PutDropped` | src/board/board-doc.service.ts:129-133 | A write turns out, at any time, never to take effect |
| `BoardService.BoardDocService.ReleaseTail` | src/board/board-doc.service.ts:60-71 | Flush again, give up for a rejoined client, or evict; and the answer to the caller in each case |
| `BoardService.BoardDocService.Release` | src/board/board-doc.service.ts:52-72 | Counts a client out and, for the last one, runs the tail; the answer is true exactly for the last client of a saved document, and waits for the write of an unsaved one |
| `BoardService.BoardDocService.TimerFlush` | src/board/board-doc.service.ts:115-118 | A dirty entry in the map is written, a clean or missing one is not |
| `BoardService.BoardDocService.TimerTail` | src/board/board-doc.service.ts:119-122 | A clean, unused entry is destroyed, and its key deleted only if it still leads to it |
| `CivilDate.CountsAsEcma` | src/sessions/session-schedule.ts:64-70 | Counting days year by year equals the closed form of ECMA-262 section 21.4.1 for every year |
| `CivilDate.DayRoundTrip` | src/sessions/session-schedule.ts:136-147 | Every day number is one valid civil date |
| `CivilDate.DateRoundTrip` | src/sessions/session-schedule.ts:64-85 | Every valid civil date is one day number: the two conversions are inverse |
| `CivilDate.MonthsStartAsEcma` | src/sessions/session-schedule.ts:136-147 | The months start on the days that ECMA-262 section 21.4.1 gives them, in leap years and others |
| `CivilDate.WeekDaysFollow` | src/sessions/session-schedule.ts:143 | Weekdays follow each other, and 1 January 1970 was a Thursday |
| `Zone.ProbeReadsTheZone` | src/sessions/session-schedule.ts:43-70 | The offset probe measures the zone's own offset, up to whole seconds of local time, and the printed date is the local date |
| `Zone.WallClockRoundTripExactly` | src/sessions/session-schedule.ts:73-85 | A wall-clock time survives the trip to UTC and back exactly when the offset at the answer is that at the guess, or ahead of it by less than a minute |
| `Zone.PlacedByTheGuess` | src/sessions/session-schedule.ts:73-85 | A wall-clock time is placed by the offset that the zone has when UTC clocks show that time |
| `Zone.SkippedTimeMovesBack` | src/sessions/session-schedule.ts:73-85 | On every day whose clocks go from 01:00 to 02:00, a class at 01:30 is placed at 00:30 |
| `Zone.PlainTimeMovesAhead` | src/sessions/session-schedule.ts:73-85 | Five hours west of Greenwich, on the day of a spring change, a class at 04:00 is placed at 05:00, although clocks show 04:00 exactly once that day |
| `LocalTime.OneReading` | src/courses/calendar-ics.ts:76-78 | In every zone each wall-clock time has exactly one reading after section 3.3.5 of RFC 5545 |
| `LocalTime.EveryZoneIsRead` | src/courses/calendar-ics.ts:76-78 | So every zone has a reader that follows it |
| `LocalTime.ReadingsAscend` | src/courses/calendar-ics.ts:76-78 | Where offsets never differ by a day, a time of a later day is read as a later instant |
| `LocalTime.PlacedAsReadExactly` | src/sessions/session-schedule.ts:73-85 | The service places a time where RFC 5545 reads it exactly when the offset at the guess holds at the answer, which is the first such instant, or held before the gap that skips the time |
| `LocalTime.OneChangeExactly` | src/sessions/session-schedule.ts:73-85 | Around one change of clocks that happens exactly outside a stretch as long as the larger offset, after the UTC time of the change in the east, before it in the west |
| `Schedule.ParsesExactly` | src/sessions/session-schedule.ts:91-96 | Exactly the times of a 24-hour clock in two pairs of digits are parsed, each as those hours and minutes |
| `Schedule.LastOverrideStands` | src/sessions/session-schedule.ts:98-115 | The overrides that stand are exactly the last well-formed one of each weekday |
| `Schedule.ParseTimesByDay` | src/sessions/session-schedule.ts:104-115 | The loop over the object gives exactly those overrides |
| `Schedule.PicksAreTheMeetingDays` | src/sessions/session-schedule.ts:141-149 | The days picked are exactly the days of the run whose weekday is selected, once each and in order |
| `Schedule.WalkDays` | src/sessions/session-schedule.ts:141-156 | The day-by-day walk builds exactly the meetings of those days |
| `Schedule.ListOccurrences` | src/sessions/session-schedule.ts:121-156 | Incomplete or malformed schedules give no meetings; all others give the meetings of the run |
| `Schedule.MeetingsAre` | src/sessions/session-schedule.ts:91-156 | By the columns alone: an incomplete or malformed schedule has no meetings; a complete one has, in order of days, exactly one for each day of its weeks whose weekday is selected, at the time that the last well-formed override of that weekday sets, or else the general time |
| `JoinWindow.ResolveJoinWindow` | src/sessions/session-schedule.ts:163-181 | The join window is the meeting of today's date key and the first meeting after now |
| `JoinWindow.OpenExactlyOnMeetingDays` | src/sessions/session-schedule.ts:163-181 | current is given exactly when today's local date lies in the run of 7 x weeks days and its weekday is a meeting day, and then it is that day's meeting |
| `JoinWindow.NextIsTheLeast` | src/sessions/session-schedule.ts:177 | In an ascending list, next is the least instant strictly after now, and missing only when none is left |
| `JoinWindow.NextOfTheWindow` | src/sessions/session-schedule.ts:163-181 | So of an ascending list the window gives the least meeting strictly after now |
| `JoinWindow.AscendExactly` | src/sessions/session-schedule.ts:121-156 | Meetings are in strictly ascending order exactly when, from each to the next, the zone's offset grows by less than the wall clock does |
| `JoinWindow.OutOfOrder` | src/sessions/session-schedule.ts:121-156 | Sundays at 23:50 and Mondays at 00:10 around a change at midnight: the second meeting of the list is forty minutes before the first, and the wrong one is taken for next |
| `JoinWindow.EachWeekdayMeetsEveryWeek` | src/sessions/session-schedule.ts:134-149 | A program of w weeks meets exactly w times on each selected weekday and never on another |
| `JoinWindow.DatesAreDistinct` | src/sessions/session-schedule.ts:145-154 | No two meetings have one date key |
| `JoinWindow.KeyNamesTheDay` | src/sessions/session-schedule.ts:145-154 | A day's key is the key of no other day, whatever the year |
| `JoinWindow.DateKeyInjective` | src/sessions/session-schedule.ts:145-154 | Date keys of valid dates determine the date |
| `CourseIcs.CalendarShowsTheSameMeetings` | src/courses/calendar-ics.ts:48-78 | Without per-day overrides, what a calendar makes of the zone, the start, the weekdays and the end written in the file, after sections 3.3.5 and 3.3.10 of RFC 5545, is the list of meetings, date by date and instant by instant, if and only if the service's guess holds at each of them |
| `CourseIcs.WrittenExactly` | src/courses/calendar-ics.ts:52-53 | A file is written exactly for a course that has a meeting |
| `CourseIcs.LastsAnHour` | src/courses/calendar-ics.ts:76-77 | DTSTART reads back as the first meeting's wall-clock time, and DTEND as an hour later |
| `CourseIcs.AgreesAroundChangesExactly` | src/courses/calendar-ics.ts:48-78 | In a zone whose changes are days apart: if and only if no meeting lies in the stretch that the change next to it misplaces |
| `CourseIcs.SampleAgreesExactly` | src/courses/calendar-ics.ts:48-78 | A course of Sundays in a zone like New York's, from the day of the 2024 spring change on: file and list agree exactly for times before 03:00 and from 07:00 on |
| `CourseIcs.FixedZoneGuessesHold` | src/courses/calendar-ics.ts:76-78 | In a zone that never changes its clocks they always agree |
| `CourseIcs.RuleOf` | src/courses/calendar-ics.ts:52-78 | The written rule reads back as the first meeting, the selected weekdays and the last instant, exactly when every selected number is a weekday |
| `CourseIcs.ByDayReadableExactly` | src/courses/calendar-ics.ts:61 | The BYDAY list names the selected days exactly when all are 0 to 6, and is unreadable otherwise |
| `CourseIcs.StrayDayBreaksTheRule` | src/courses/calendar-ics.ts:61 | Days 1 and 7 are written as a list that no calendar can read |
| `CourseIcs.StampRoundTrip` | src/courses/calendar-ics.ts:9-14 | A written stamp reads back as the instant, to the minute and second written |
| `CourseIcs.LocalStampReads` | src/courses/calendar-ics.ts:17-26 | DTSTART reads back as the wall-clock time of the first meeting's date key |
| `CourseIcs.SampleIsSchedulable` | src/courses/calendar-ics.ts:48-78 | Such a course meets the hypotheses of the calendar theorem |
| `CourseIcs.WholeSeconds` | src/courses/calendar-ics.ts:9-14 | Every meeting is at a whole second, so UNTIL loses nothing |
| `IcsText.TitlesReadBack` | src/courses/calendar-ics.ts:28-34 | Whatever a title holds, section 3.3.11 of RFC 5545 reads the escaped text back as that title, and it has no line break |
| `IcsText.EscIsOnePass` | src/courses/calendar-ics.ts:28-34 | The four replacements in sequence escape each character exactly once |
| `Reminders.AtMostOnce` | src/reminders/reminders.service.ts:58-88 | Over any run of sweeps, in any order and at any times, no class day of a course is reminded twice |
| `Reminders.ExactlyOnce` | src/reminders/reminders.service.ts:58-103 | In any run of sweeps over any number of courses: if the sweeps of a course are at most g apart, its lead is at least g and its meetings are at least g apart, every meeting swept before and after is reminded exactly once, before it starts and inside the lead, with one letter for each address on the list |
| `Reminders.Reminded` | src/reminders/reminders.service.ts:58-88 | The same for a course alone: the meeting is reminded |
| `Reminders.CoursesAreIndependent` | src/reminders/reminders.service.ts:58-88 | The reminders of a course are those it would get if it were the only one |
| `Reminders.EveryoneIsMailed` | src/reminders/reminders.service.ts:93-103 | In every run each reminder has mailed every address of its course exactly as often as it is on the list, and a class day without a reminder has brought no mail |
| `Reminders.RemindersAreTimely` | src/reminders/reminders.service.ts:59-75 | In every run each reminder is of a meeting of its course that had not begun when the sweep did and was inside the lead, 30 minutes if the organization sets none |
| `Reminders.NextVisit` | src/reminders/reminders.service.ts:58-103 | What one more visit of a course adds to the latches and the mail |
| `Reminders.RemindersService.VisitCourse` | src/reminders/reminders.service.ts:59-107 | The body of the loop adds exactly one visit to the history that latches and mail are explained by |
| `Reminders.RemindersService.Sweep` | src/reminders/reminders.service.ts:33-108 | A sweep visits the courses once each, in order, up to the one whose failure ends it |
| `Hifz.Summarize` | src/hifz/hifz.service.ts:208-238 | The count is the cardinality of the set union of all NEW_HIFZ ranges; the surahs touched and the last recitation are exact too |
| `Hifz.MergedLength` | src/hifz/hifz.service.ts:217-231 | The sort-and-sweep merge of one surah's ranges counts its union |
| `Hifz.GroupBySurah` | src/hifz/hifz.service.ts:209-215 | The lists hold exactly the NEW_HIFZ ranges, surah by surah |
| `Hifz.SortByStart` | src/hifz/hifz.service.ts:219 | The sorted list is ordered by first ayah and holds the same ranges |
| `Hifz.ProgressGrows` | src/hifz/hifz.service.ts:208-238 | One more entry never lowers the count, and raises it exactly when it brings an ayah not recited before |
| `Hifz.ProgressIgnoresOrder` | src/hifz/hifz.service.ts:208-238 | The count depends neither on the order of entries nor on repeats |
| `Hifz.ProgressIsBounded` | src/hifz/hifz.service.ts:208-238 | With references the validator accepts, progress never exceeds 6236 |
| `Surahs.TheWholeQuran` | src/quran/surahs.ts:25-154 | The 114 counts add up to the 6236 distinct ayahs of the book |
| `Surahs.Landmarks` | src/quran/surahs.ts:25-140 | The longest surah, the three shortest and the first have their ayah counts |
| `Surahs.AcceptedExactly` | src/quran/surahs.ts:165-189 | A reference is accepted exactly when it is a non-empty range of ayahs of one surah |
| `QuranWords.ValidateParts` | src/quran/quran-words.ts:82-166 | The first part in trouble decides the refusal; else the result is strictly in reading order and holds exactly the parts named |
| `QuranWords.CanonicalIs` | src/quran/quran-words.ts:82-166 | What is stored is exactly the parts of the text that the references name, each before those later in the text, whole ayahs before their words and whole words before their letters |
| `QuranWords.ResolvesExactly` | src/quran/quran-words.ts:107-152 | A reference is accepted exactly if it is the wire form of an ayah, word or letter of the text, and as that part |
| `QuranWords.RefusedExactly` | src/quran/quran-words.ts:107-152 | It is refused by the first of its surah, ayah, word and letter that is wrong |
| `QuranWords.FirstErrorIs` | src/quran/quran-words.ts:107-152 | A list is refused for the first of its references that has an error |
| `QuranWords.ComparesExactly` | src/quran/quran-words.ts:157-164 | The comparator is negative exactly for parts in that order |
| `QuranWords.KeyInjective` | src/quran/quran-words.ts:100-105 | Two parts share a dedupe key only if they are the same part |
| `QuranWords.OrderIsTotal` | src/quran/quran-words.ts:157-164 | The comparator is a strict total order that ties only equal parts |
| `QuranWords.SortSorts` | src/quran/quran-words.ts:157-164 | Sorting distinct parts gives them in reading order, none lost |
| `QuranWords.OneOrderOnly` | src/quran/quran-words.ts:157-164 | There is one list in reading order for each set of parts |
| `QuranWords.SamePartsSameForm` | src/quran/quran-words.ts:82-166 | Two accepted lists that name the same parts are stored alike |
| `QuranWords.StoringAgainChangesNothing` | src/quran/quran-words.ts:82-166 | A stored mark sent again is accepted and stored as it was |
| `QuranWords.FiledUnderTheLeastAyah` | src/quran/quran-words.ts:169-175 | The ayah a mark is filed under is the least of all its parts |
| `CodePath.SafePathsGoDown` | src/code/code-doc.service.ts:31-36 | Every segment of a safe path goes one directory down and none goes up |
| `CodePath.SafeExactly` | src/code/code-doc.service.ts:31-36 | Exactly those paths are safe that have at most 512 units, no drive letter, and no segment that is empty, a dot or two dots |
| `CodePath.ProtectedExactly` | src/code/code-doc.service.ts:38-61 | A path is protected exactly if, in lower case, a segment is a directory of secrets or the last one is a file of secrets: environments but for the three templates, credentials, and keys by ending or beginning |
| `CodePath.CaseDoesNotMatter` | src/code/code-doc.service.ts:39 | Letter case does not matter for what is protected |
| `CodePath.SlashesDontMatter` | src/code/code-doc.service.ts:32-39 | Backslashes and slashes mean the same |
| `CodePath.EveryPathIsJoined` | src/code/code-doc.service.ts:32-39 | Every path is plain segments joined by slashes, so the two rules are about every path |
| `CodePath.SizesAdd` | src/code/code-doc.service.ts:156 | The sizes of a text are the sums of its characters' |
| `CodePath.SizeOfCharacter` | src/code/code-doc.service.ts:156 | A character takes the bytes its code point needs in UTF-8 and one or two units in UTF-16 |
| `CodeDoc.Validate` | src/code/code-doc.service.ts:116-161 | The single pass with running totals accepts exactly the documents that keep every rule on types, paths, sizes and counts |
| `CodeSafety.AcceptedExactly` | src/code/code-doc.service.ts:112-161 | The validator accepts exactly the documents of one short language entry, at most 500 true marks on allowed paths, the editor's placeholder, and at most 500 files on allowed paths of at most 1 MB each and 20 MB together |
| `CodeSafety.FilesAre` | src/code/code-doc.service.ts:147-157 | The files counted are exactly the texts under file names, each path once |
| `CodeDoc.SanitizeProtectedBuffers` | src/code/code-doc.service.ts:298-369 | The two passes compute the sanitized document, or fail when a typed getter throws |
| `CodeSafety.Sanitized` | src/code/code-doc.service.ts:298-369 | Every sanitized document has only typed, allowed, non-empty and bounded roots, and stays within the file and text quotas |
| `CodeSafety.SanitizesExactly` | src/code/code-doc.service.ts:298-369 | Sanitizing fails exactly on a map name with text or a file name with a map; otherwise the result has exactly the files, with their texts, that are not empty, on an allowed path, within the quotas and without a false mark, exactly the metadata entries that are in order, exactly the true marks on allowed paths whose file is not dropped, and nothing else |
| `CodeSafety.SanitizedPassesExactly` | src/code/code-doc.service.ts:298-369 | A sanitized document passes the validator if and only if at most 500 of its initialized marks are true, on an allowed path, and of no file that is too big or beyond the quota: the sanitizer checks each mark but does not count them |
| `CodeSafety.DropsExactly` | src/code/code-doc.service.ts:312-343 | Among allowed paths the first pass drops exactly those of files too big or beyond the running quotas, and those with a mark that is not true |
| `CodeSafety.FewMarksPass` | src/code/code-doc.service.ts:298-369 | A document with at most 500 initialized marks is always sanitized into one that passes |
| `CodeSafety.TooManyMarksSurvive` | src/code/code-doc.service.ts:360-364 | A document of 501 marks on allowed paths is sanitized to itself and does not pass |
| `CodeSafety.SanitizeIsIdempotent` | src/code/code-doc.service.ts:298-369 | Sanitizing twice is sanitizing once |
| `CodeSafety.PassingDocumentsAreKept` | src/code/code-doc.service.ts:298-369 | A document that passes keeps every file with content and all its metadata, and loses nothing else |
| `CodeSafety.KeptWithinQuota` | src/code/code-doc.service.ts:326-352 | What the second pass keeps is never more than the first pass had counted within the quota |
| `CodeSafety.MetaIsSmall` | src/code/code-doc.service.ts:128-137 | Metadata that the sanitizer keeps is one short entry, within the validator's limits |
| `CodeService.SanitizedIsGood` | src/code/code-doc.service.ts:100-102 | Sanitizing a document the service keeps gives one to keep |
| `CodeService.ReloadedIsGood` | src/code/code-doc.service.ts:272-296 | Storing a kept document, decoding it into untyped roots and sanitizing it gives its non-empty part back |
| `CodeService.SeedKeepsTexts` | src/code/code-doc.service.ts:209-234 | A seeded candidate is the document with this path marked, this file's text its old one or else the new content, and every other root and mark as it was |
| `CodeService.CodeDocService.StoreReads` | src/code/code-doc.service.ts:277-279 | A pending load reads the snapshot of that moment |
| `CodeService.CodeDocService.Load` | src/code/code-doc.service.ts:277-291 | What a pending load has read never fails to load, and gives the snapshot's non-empty part |
| `CodeService.CodeDocService.ApplyUpdate` | src/code/code-doc.service.ts:108-175 | The update is taken exactly when its candidate passes; a refused one changes nothing, and all documents, writes and snapshots stay acceptable |
| `CodeService.CodeDocService.SeedFileContent` | src/code/code-doc.service.ts:209-234 | A path is seeded once, exactly if it is allowed, small enough and accepted; a refusal changes nothing, and no other session is touched |
| `CodeService.CodeDocService.ReleaseLast` | src/code/code-doc.service.ts:95-103 | The last leave sanitizes the document and writes exactly that |
| `CodeService.CodeDocService.Flush` | src/code/code-doc.service.ts:377-383 | A write carries an acceptable document |
| `CodeService.CodeDocService.WriteEnds` | src/code/code-doc.service.ts:377-388 | The store takes the captured snapshot or stays as it is |
| `CodeService.CodeDocService.Evict` | src/code/code-doc.service.ts:104-105 | Only the session's own document goes |
| `Buzzer.EveryRunKeepsInv` | src/room-gateway/room.gateway.ts:743-1048 | In every run a live timer exists exactly while a question is open and is for that question, only eligible students have answered, and a winner is one of them |
| `Buzzer.TimerExactlyWhileOpen` | src/room-gateway/room.gateway.ts:812-818 | The same, from the start of a session |
| `Buzzer.EndsAreFinal` | src/room-gateway/room.gateway.ts:1023-1042 | After a winner or a timeout nothing but a new start changes the round, and nothing is awarded |
| `Buzzer.FirstCorrectWins` | src/room-gateway/room.gateway.ts:821-937 | By the received events alone: the winner is the first eligible student whose first try was the index of the right option and came before the time ran out; there is one award, of the question's points or 25, exactly if the question has a course |
| `Buzzer.StartsExactly` | src/room-gateway/room.gateway.ts:743-819 | A start opens a round exactly for the owner, while no question is open, with students in the room and a question that is found and belongs to the class |
| `Buzzer.WholeRound` | src/room-gateway/room.gateway.ts:743-937 | A round, from its start on, ends as its events say |
| `Buzzer.OpenStep` | src/room-gateway/room.gateway.ts:821-937 | What the last event of a still open round makes of it |
| `BuzzerService.RoomGateway.OnBuzzerStart` | src/room-gateway/room.gateway.ts:743-819 | A round starts, with a fresh answered set and one timer, exactly when the caller owns the session and no check refuses it |
| `BuzzerService.RoomGateway.MarkAnswered` | src/room-gateway/room-state.service.ts:269-274 | True exactly the first time |
| `BuzzerService.RoomGateway.OnQuizAnswer` | src/room-gateway/room.gateway.ts:821-937 | Exactly when an answer is refused and with what, in the code's order; a refused answer changes nothing, and any other does what the protocol says |
| `BuzzerService.RoomGateway.TimeoutBuzzer` | src/room-gateway/room.gateway.ts:1023-1042 | The callback ends only its own, still open question |
| `BuzzerService.RoomGateway.ClearTimer` | src/room-gateway/room.gateway.ts:1044-1048 | Only this session's timer goes |
| `Points.StepKeepsFaithExactly` | src/points/points.service.ts:39-156 | A step keeps every trusted projection equal to the ledger's totals exactly when it is no failed bump, rolled-back award or lone expiry that changes what is read |
| `Points.RunsKeepFaith` | src/points/points.service.ts:39-156 | Over any run of awards, reads, rebuilds and joint expiry the projection refines the ledger |
| `Points.TotalsAppend` | src/points/points.service.ts:90-102 | One more row changes the totals by exactly one increment |
| `Points.SumAppends` | src/points/points.service.ts:132-139 | A student's sum in a course is of that student's deltas in that course alone |
| `Points.AwardMovesOne` | src/points/points.service.ts:39-53 | One award moves one student of one course by its points, and nobody else |
| `Points.LedgerIsTheAwards` | src/points/points.service.ts:39-53 | The ledger is only appended to, and holds exactly the committed awards in order |
| `Points.ReadsWarm` | src/points/points.service.ts:105-156 | A read or a rebuild leaves a projection that the next read trusts and that is the totals |
| `Points.ExpiryCools` | src/points/points.service.ts:105-156 | Joint expiry leaves a cold projection, which the next read rebuilds |
| `Points.PlaceRanks` | src/points/points.service.ts:105-125 | Placing one more score keeps the ranking complete and descending |
| `Points.PointsService.Award` | src/points/points.service.ts:39-53 | One row is appended and bumped, or one of the two alone when Redis or the transaction fails |
| `Points.PointsService.BumpProjection` | src/points/points.service.ts:90-102 | Increments only a trusted sorted set |
| `Points.PointsService.ZRevRange` | src/points/points.service.ts:105-125 | Every member once, with its score, in descending order |
| `Points.PointsService.Aggregate` | src/points/points.service.ts:128-139 | The sums by student are the ledger's totals |
| `Points.PointsService.RebuildProjection` | src/points/points.service.ts:128-156 | The rows rank the totals even when Redis fails; the projection is replaced only when it does not |
| `Points.PointsService.GetLeaderboard` | src/points/points.service.ts:60-77 | With a faithful projection the board is each student's ledger sum, descending, with ranks 1 to n |
| `Assignments.StepSettlesExactly` | src/assignments/assignments.service.ts:306-555 | A step keeps every graded submission's net equal to its grade exactly when the net read before the transaction still stands in it; the ledger only grows |
| `Assignments.GradeSettlesExactly` | src/assignments/assignments.service.ts:490-555 | The same for one grading |
| `Assignments.NetsAreGrades` | src/assignments/assignments.service.ts:306-555 | Over any such run of submitting, uploading, resubmitting and re-grading, each grade is the sum of its deltas |
| `Assignments.NetAppends` | src/assignments/assignments.service.ts:520-529 | The net of a submission is the sum of its own graded deltas and of no other rows |
| `Assignments.GradesAreTheLastWord` | src/assignments/assignments.service.ts:306-555 | Over any run a submission shows the grade that was given last, if it was not above the maximum, and none from a resubmission on; its student, course and maximum stay |
| `Assignments.FirstSubmission` | src/assignments/assignments.service.ts:327-333 | A first submission is there without a grade, and costs no points |
| `Assignments.GradingPostsTheDifference` | src/assignments/assignments.service.ts:529-553 | A grading posts the difference to what was awarded, and nothing when there is none or the grade is too high |
| `Assignments.RacingGradesUnsettle` | src/assignments/assignments.service.ts:520-555 | Two gradings that both read before either commits leave a net that is twice the grade |
| `Assignments.AssignmentsService.Submit` | src/assignments/assignments.service.ts:306-333 | A resubmission clears the grade and leaves the ledger alone |
| `Assignments.AssignmentsService.PriorAward` | src/assignments/assignments.service.ts:520-529 | The aggregate is the net of the submission |
| `Assignments.AssignmentsService.CommitGrade` | src/assignments/assignments.service.ts:507-555 | Refused exactly for a missing submission or a grade above the maximum; else grade and difference are written together |
| `QuickAccess.GuessingIsSlow` | src/auth/quick-access.service.ts:259-294 | With no success in between, any 5k + 1 consecutive wrong codes that were checked span at least 15k minutes |
| `QuickAccess.FifthLocks` | src/auth/quick-access.service.ts:268-279 | The wrong code that fills the counter is followed by fifteen minutes without a check |
| `QuickAccess.RightCodeStartsAfresh` | src/auth/quick-access.service.ts:286-294 | After a right code it takes five wrong ones to lock, whatever was counted before; the fifth locks for fifteen minutes |
| `QuickAccess.NothingChanges` | src/auth/quick-access.service.ts:257-289 | A revoked shortcut, a lock, and the right code of a disabled account change nothing |
| `QuickAccess.CounterStaysBelowFive` | src/auth/quick-access.service.ts:268-294 | The stored counter stays in 0 to 4 |
| `QuickAccess.QuickAccessRow.Redeem` | src/auth/quick-access.service.ts:240-296 | The new row, and exactly when the answer is a welcome, a refusal for the lock (with the minutes rounded up) or another |
| `Retention.EveryRunVisits` | src/sessions/board-asset-retention.service.ts:31-73 | From any state, and however removals go, one tick more than there are pages visits every session that stays expired |
| `Retention.EverySessionIsVisited` | src/sessions/board-asset-retention.service.ts:43-73 | The same for the cursor alone |
| `Retention.WrapsAround` | src/sessions/board-asset-retention.service.ts:53-62 | The ticks after the end of the list start again from its top |
| `Retention.TickMoves` | src/sessions/board-asset-retention.service.ts:43-73 | A tick visits the next page of a hundred and leaves the cursor at its end |
| `Retention.PassedIs` | src/sessions/board-asset-retention.service.ts:43-52 | The page starts after exactly the sessions that are not after the cursor |
| `Retention.RetriedExactlyWhileOwed` | src/sessions/board-asset-retention.service.ts:34-41 | A session is in the retry set exactly while it has a failed removal that no retry has made good |
| `Retention.BoardAssetRetentionService.RemoveExpiredAssets` | src/sessions/board-asset-retention.service.ts:31-73 | The loops do exactly one such tick |
| `Terminals.RunsRefine` | src/terminal/terminal.service.ts:28-64 | At every point of every run each open terminal's backlog is the last 65536 characters of everything appended since it opened, and no session keeps an empty map |
| `Terminals.BacklogIsTheEnd` | src/terminal/terminal.service.ts:28-64 | By the events alone: a terminal is listed exactly while they leave it open, with the last 65536 units of all it has streamed since it was opened, under its host |
| `Terminals.StepRefines` | src/terminal/terminal.service.ts:28-166 | Each operation on the nested maps does what it does to a flat map that forgets nothing |
| `Terminals.TailOfTail` | src/terminal/terminal.service.ts:60-63 | Cutting after every chunk is cutting once |
| `Terminals.CleanedIs` | src/terminal/terminal.service.ts:146-162 | Cleaning up after a socket leaves exactly the terminals of other hosts |
| `Terminals.TerminalService.OpenTerminal` | src/terminal/terminal.service.ts:28-46 | A new terminal, or a new one in its place, with an empty backlog |
| `Terminals.TerminalService.AppendData` | src/terminal/terminal.service.ts:48-64 | Data for a terminal that is not open is dropped |
| `Terminals.TerminalService.CloseTerminal` | src/terminal/terminal.service.ts:92-99 | The last terminal takes its session's map with it |
| `Terminals.TerminalService.CleanupSocket` | src/terminal/terminal.service.ts:146-162 | The list is exactly the terminals removed, each once, and no terminal of the socket is left |
| `Terminals.TerminalService.RemoveHosted` | src/terminal/terminal.service.ts:151-156 | The inner loop keeps exactly the terminals of other hosts and lists the rest |
| `Terminals.TerminalService.CleanupSession` | src/terminal/terminal.service.ts:164-166 | Only that session goes |

## Left out

- BoardSafety.EveryRunKeepsPromise: needs that no release resumes on an evicted entry whose successor is in use or unsaved (`NoHijack`), since the code does not test for it; `BoardSafety.HijackLosesAnEdit` shows the need.
- BoardSafety.StepKeepsInvExactly: clients leave only entries they were counted into, which is the gateway's own discipline (src/board/board.gateway.ts:164-176, 240-246, 291-303); writes that take effect on one key do so in issue order, and a write reported as done was applied.
- BoardSafety.StepKeepsPromiseExactly: for one step from a room in order; after a deletion that keeps the promise the room is out of order, and later steps may break it.
- CourseIcs.CalendarShowsTheSameMeetings: for courses without per-day overrides, because the file writes one time for all days; for zones with offsets of whole seconds that never differ by a day; for years of four digits, because the date key is read back by fixed positions.
- CourseIcs.RuleOf: for runs from the first meeting to the last in years of four digits; a file for other years is written, but no calendar reads its stamps.
- CourseIcs.StampRoundTrip: for years of four digits, as RFC 5545 has them.
- CourseIcs.LocalStampReads: for years of four digits, for the same reason.
- CourseIcs.LastsAnHour: for a first meeting that ends in a year of four digits, for the same reason.
- Zone.ProbeReadsTheZone: for local instants from the year 100 on, because `Date.UTC` takes the years 0 to 99 for 1900 to 1999 and the printed year has no era.
- Zone.WallClockRoundTripExactly: for years from 100 on, for the same reason.
- Zone.PlacedByTheGuess: for days after 1 January 100, for the same reason, and offsets of whole seconds.
- JoinWindow.OpenExactlyOnMeetingDays: for clocks from the year 100 on, for the same reason.
- JoinWindow.AscendExactly: for runs that start in the year 100 or later, for the same reason.
- Reminders.ExactlyOnce: for a schedule that does not change between sweeps; each sweep's delay counts toward the gap g.
- Reminders.RemindersService.Sweep: a class reminder that cannot be sent is only logged by the mailer (src/mail/mail.service.ts:120-142, 201-243), so mail stands for what is handed to it.
- Hifz.Summarize: NEW_HIFZ entries have their start not after their end, as `validateRef` makes sure when they are logged.
- Buzzer.FirstCorrectWins: one handler or timer callback is one step; the handler's own awaits (src/room-gateway/room.gateway.ts:897-904) are not, so two handlers that interleave inside are not modelled.
- Points.RunsKeepFaith: an award and its bump are one step, as are a read and the rebuild it causes; a bump that slips between the two parts of a rebuild is not modelled.
- Points.PointsService.ZRevRange: the order of equal scores is not stated; the sorted set and the ledger break ties differently.
- CodeSafety.SanitizedPassesExactly: for `forceCompact`, which both call sites set.
- CodeService.CodeDocService.Flush: that a saved flag means saved is not claimed, since `flush` clears it without a revision check and `release` destroys without a second look at the clients; entries are not told apart by identity.
- CodeService.CodeDocService.ApplyUpdate: an update is any function from documents to well-formed documents, and the limit on encoded size (`MAX_CODE_DOC_BYTES`) is a parameter, because the Yjs encoding is not modelled.
- CodeService.ReloadedIsGood: a snapshot decodes to the same roots; Yjs drops roots that never held anything, which sanitizing drops too.
- QuickAccess.QuickAccessRow.Redeem: one redemption is one step; two that read the row before either writes are not modelled.
- Retention.RetriedExactlyWhileOwed: which members of a larger retry set make up the hundred of a tick is left to the store; the removal inside (`removeSessionAssets`) is only a success or a failure; session ids are integers for their order.
- Retention.EveryRunVisits: for sessions that stay expired over the run; the list of expired sessions is the same in each of its ticks.
- Terminals.TerminalService.CleanupSocket: terminals are values in the nested maps, so two references to one terminal object cannot arise; permissions, sizes and the sandbox flags are left out.
- Assignments.NetsAreGrades: a grading whose first read is stale is excluded (`Fresh`), since the code does not guard against it; grades and deltas are whole numbers.
- Strings are sequences of Unicode characters; UTF-16 lengths and UTF-8 sizes are computed from them, lone surrogates do not occur, and lower-casing of protected paths is for ASCII letters.
- JSON columns are given as already taken apart: a meeting day that is not a number is dropped, and one that is not whole behaves as any number outside 0 to 6.
- The order in which `Array.prototype.sort` compares is an insertion sort's.
- The remaining lines of the calendar file (UID, SEQUENCE, DTSTAMP, the alarm) and `todayDateKey` are plain text building.
- `assertUsableCode`, `setPasscode`, and the describing and revoking of shortcuts would add only easy members.
- Controllers, guards, sockets, presence, chat, themes, mail texts, recordings and webhooks have no invariant that spans operations.
- Process restarts, the expiry that Redis sets as a safety net, and several instances of the server.
