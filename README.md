# Attendance front end: schedule resolution, template editing and the calendar

This project models in Dafny the client-side logic of a classroom attendance
tracker, a Next.js application. The model covers five pieces:

- **Dashboard (attendance session)**, `session.dfy`, module `AttendanceSession`.
  - It resolves the day's effective schedule: today's weekday template, or another
    weekday's template borrowed through the selector, with subject names looked up
    in the class catalog.
  - It lets the admin build a custom period list (add, remove and relabel periods).
  - It keeps absent roll numbers keyed by the period's *position* in the working
    list, and builds the attendance submission.
  - The page's state is the class `Dashboard`, with one method per handler.
- **Weekly template editor**, `weekly_template.dfy`, module `WeeklyTemplate`.
  - A weekday to period-list map is edited one period at a time by pure updaters:
    `AddedPeriod`, `RemovedPeriod` and `UpdatedPeriod`. The last one removes,
    re-inserts and sorts.
  - The class `TimetableEditor` replaces its state per event.
  - The render path sorts a day's list in place, modelled by `SortInPlace` on an array.
  - The new-subject guard uses JavaScript's `trim`.
- **Class creation**, `class_creation.dfy`, module `ClassCreation`.
  - Subject drafts are objects (`SubjectDraft`). Editing one writes into the shared
    object rather than into a copy.
  - The create payload carries the subjects as they are and a blank Monday to
    Saturday template.
- **Calendar widget**, `calendar.dfy`, module `CalendarView`.
  - It formats dates as `YYYY-MM-DD`.
  - It disables past or future days by comparing those strings with today's
    (JavaScript string order).
  - It marks days by list membership, steps the month with the year wrapping, and
    lays out the month grid.
- **Push key decoding**, `push_key.dfy`, module `PushKey`.
  - It pads a base64url key (section 5 of RFC 4648) and maps it to the base64
    alphabet (section 4).
  - It decodes the key with an abstract `atob` and copies the character codes into
    a byte array.

`common.dfy` (module `Common`) holds the shared values and the JavaScript array
methods the pages use:
- the class record, subjects and period slots;
- `findIndex`, `filter` and `Math.max`;
- the "next period number" rule, shared by both period-adding handlers;
- the blank Monday to Saturday template, shared by the create page and the editor.

Server responses, the stored class id, today's date and weekday, and the outcome
of each post are parameters. A failed request is `None`.

Some behaviours of the code are kept as they are, and lemmas state them:
- **Absentee positions after a removal.** Removing a custom period deletes only
  the absentee entry at the removed slot's old position. The entries of later
  slots are not shifted. So the slot that moves into that position is submitted
  with no absentees, and its own marks go to the slot after it
  (`RemovalLeavesMarksUnshifted`).
- **Rolls offered.** The dashboard offers roll numbers 1 to 60 whatever the class
  size (`OfferedRollsRange`). The system's design bounds roll numbers by the
  class's enrolment instead; the model follows the code.
- **Period numbers.** The code does not make period numbers unique. The model
  proves only that every editing operation *keeps* them distinct when they already
  are.

## Model

| member | source | states |
|---|---|---|
| Common.BlankWeek | app/admin/timetable/page.js:15-19 | the blank template has exactly the keys Monday to Saturday, each with no periods, and no Sunday |
| Common.FindIndex | app/admin/dashboard/page.js:67 | the result is -1 exactly when no element matches; otherwise it is the first matching index |
| Common.Filter | app/admin/dashboard/page.js:64 | the filtered list is never longer than the input |
| Common.FilterMembers | app/admin/dashboard/page.js:64 | an element is in the filtered list exactly when it is in the input and satisfies the predicate |
| Common.FilterMembersAll | app/admin/dashboard/page.js:64 | the membership characterisation, for all elements at once |
| Common.FilterConcat | app/admin/dashboard/page.js:64 | filtering distributes over concatenation, so the kept elements stay in their order |
| Common.FilterKeepsDistinct | app/admin/dashboard/page.js:64 | distinct keys stay distinct after filtering |
| Common.FilterKeepsAll | app/admin/dashboard/page.js:64 | a filter that rejects nothing returns the list unchanged |
| Common.FilterDropsOne | app/admin/dashboard/page.js:64 | a filter that rejects exactly position k returns the list without position k, the rest in order |
| Common.MaxOf | app/admin/dashboard/page.js:58 | the maximum of a non-empty list is an element of it and bounds every element |
| Common.Numbers | app/admin/dashboard/page.js:58 | the period numbers of the slots, one per slot, in order |
| Common.NextPeriodNumber | app/admin/dashboard/page.js:57-59 | the new number is 1 for an empty list; otherwise it is one more than a present number and above every present number |
| Common.NextPeriodKeepsDistinct | app/admin/dashboard/page.js:56-61 | appending the next number to distinct numbers keeps them distinct |
| Common.CatalogName | app/admin/dashboard/page.js:39-42 | the name is the first subject's name with that id, or the fallback when no subject has it |
| AttendanceSession.FormatSchedule | app/admin/dashboard/page.js:38-45 | the length and order are kept; each slot keeps its number and subject id and gets the catalog name, or "Unknown" |
| AttendanceSession.DayToLoad | app/admin/dashboard/page.js:35 | defined as the override when one is set and non-empty (JavaScript `||`), else today's label |
| AttendanceSession.StoredDay | app/admin/dashboard/page.js:36 | defined as the stored periods of that weekday, or none when the timetable or the weekday key is missing |
| AttendanceSession.ResolveSchedule | app/admin/dashboard/page.js:31-36 | without an override, the day is the weekday label at index `weekday` of the Sunday-first list; with an override, the override's day is used; a missing timetable or weekday key gives an empty schedule |
| AttendanceSession.SelectedOverride | app/admin/dashboard/page.js:161-163 | choosing today's own label clears the override; any other label becomes the override |
| AttendanceSession.WithExtraPeriod | app/admin/dashboard/page.js:56-61 | exactly one subject-less slot is appended and the rest are unchanged; its number is 1 on an empty list, else one above the maximum; distinct numbers stay distinct |
| AttendanceSession.WithoutPeriod | app/admin/dashboard/page.js:64 | the result holds exactly the slots not numbered p; a one-slot list is emptied exactly when that slot is numbered p; the list is unchanged when p is absent; distinct numbers stay distinct |
| AttendanceSession.WithoutPeriodKeepsOrder | app/admin/dashboard/page.js:64 | removing a number from a concatenation removes it from each part, in order; with the one-slot case this fixes the order of the kept slots |
| AttendanceSession.AbsenteesAfterRemove | app/admin/dashboard/page.js:65-68 | only the entry at the first slot numbered p is deleted; the entry -1, which never exists, is deleted when there is none |
| AttendanceSession.Relabeled | app/admin/dashboard/page.js:72-79 | the length and the period numbers are kept; slots not numbered p are unchanged; slots numbered p get the id and its catalog name, or "" |
| AttendanceSession.Toggled | app/admin/dashboard/page.js:81-90 | the position becomes a key; every other position's list is unchanged |
| AttendanceSession.MarkedAt | app/admin/dashboard/page.js:83 | defined as the list stored at the position, or the empty list when the position has no entry |
| AttendanceSession.ToggleFlipsMembership | app/admin/dashboard/page.js:83-88 | the roll's membership at that position flips; every other roll's membership is unchanged |
| AttendanceSession.ToggleKeepsDistinct | app/admin/dashboard/page.js:84-87 | a duplicate-free roll list stays duplicate-free |
| AttendanceSession.ToggleTwice | app/admin/dashboard/page.js:81-90 | toggling twice restores whether the roll is marked |
| AttendanceSession.MarkThenUnmarkRestores | app/admin/dashboard/page.js:81-90 | marking a roll not yet marked at an existing position and unmarking it restores the whole absentee map |
| AttendanceSession.OfferedRolls | app/admin/dashboard/page.js:262-263 | sixty roll buttons are offered |
| AttendanceSession.OfferedRollsRange | app/admin/dashboard/page.js:262-263 | the offered rolls are exactly 1 to 60 |
| AttendanceSession.FormatPeriods | app/admin/dashboard/page.js:97-102 | one entry per slot, in order, each carrying the rolls marked at that slot's position (none when unmarked) |
| AttendanceSession.WithoutDistinctPeriod | app/admin/dashboard/page.js:64 | with distinct numbers, removing the number at position k removes exactly position k |
| AttendanceSession.AbsenteesAfterDistinctRemove | app/admin/dashboard/page.js:67 | with distinct numbers, removing the number at position k deletes absentee entry k |
| AttendanceSession.RemovalLeavesMarksUnshifted | app/admin/dashboard/page.js:63-70 | after removing position k, the slot now at k is submitted with no absentees, and the marks made at k+1 are submitted with the slot after it |
| AttendanceSession.Dashboard.constructor | app/admin/dashboard/page.js:8-16 | the initial state is loading, with an empty schedule, no class, no override, not in custom mode, no subjects and no absentees |
| AttendanceSession.Dashboard.Load | app/admin/dashboard/page.js:18-54 | without a stored class id nothing changes; otherwise the class id is set and loading ends; on success the subjects, today's label and the resolved schedule are stored; the absentees are kept |
| AttendanceSession.Dashboard.SelectScheduleDay | app/admin/dashboard/page.js:161-163 | the override becomes the selected override for that value |
| AttendanceSession.Dashboard.ResetOverride | app/admin/dashboard/page.js:174-178 | Reset clears the override |
| AttendanceSession.Dashboard.EnterCustomMode | app/admin/dashboard/page.js:183-184 | custom mode is switched on |
| AttendanceSession.Dashboard.AddCustomPeriod | app/admin/dashboard/page.js:56-61 | the working list becomes the list with one extra period; distinct numbers stay distinct |
| AttendanceSession.Dashboard.RemoveCustomPeriod | app/admin/dashboard/page.js:63-70 | the list and the absentees are both computed from the list before the call; nothing changes when p is absent |
| AttendanceSession.Dashboard.UpdateCustomPeriod | app/admin/dashboard/page.js:72-79 | the list is relabelled; distinct numbers stay distinct |
| AttendanceSession.Dashboard.ToggleAbsent | app/admin/dashboard/page.js:81-90 | the absentees are toggled and the roll's membership flips; lists stay duplicate-free |
| AttendanceSession.Dashboard.SubmitAttendance | app/admin/dashboard/page.js:92-115 | without a class id nothing is sent; otherwise the request holds the class id, the date and the positional entries; the absentees are cleared only after a successful post |
| WeeklyTemplate.DaySchedule | app/admin/timetable/page.js:78 | defined as the stored list of the weekday, or no periods when the key is missing |
| WeeklyTemplate.AddedPeriod | app/admin/timetable/page.js:59-67 | the day gets one subject-less period, numbered one above its highest number (1 when empty), and the rest stay in order; other weekdays are unchanged; distinct numbers stay distinct |
| WeeklyTemplate.RemovedPeriod | app/admin/timetable/page.js:69-74 | the day holds exactly its periods not numbered p; nothing is added; other weekdays are unchanged; distinct numbers stay distinct |
| WeeklyTemplate.RemovedPeriodSingle | app/admin/timetable/page.js:72 | a one-period day is emptied exactly when that period is numbered p, and is kept as it is otherwise |
| WeeklyTemplate.RemovedPeriodKeepsOrder | app/admin/timetable/page.js:72 | removing a number from a day split in two removes it from each part, in order; with RemovedPeriodSingle this fixes the order of the kept periods |
| WeeklyTemplate.FilterSubMultiset | app/admin/timetable/page.js:72 | filtering only drops elements (sub-multiset) |
| WeeklyTemplate.InsertByPeriod | app/admin/timetable/page.js:85 | an insertion adds exactly the new slot |
| WeeklyTemplate.InsertMember | app/admin/timetable/page.js:85 | every element after an insertion is the new slot or an old one |
| WeeklyTemplate.InsertSorted | app/admin/timetable/page.js:85 | insertion into a sorted day keeps it sorted |
| WeeklyTemplate.InsertDistinct | app/admin/timetable/page.js:85 | inserting a new number keeps numbers distinct |
| WeeklyTemplate.SortByPeriod | app/admin/timetable/page.js:85 | sorting is a permutation |
| WeeklyTemplate.InsertStable | app/admin/timetable/page.js:85 | inserting a period puts it before every period of its own number, so each number's periods keep their order |
| WeeklyTemplate.SortByPeriodStable | app/admin/timetable/page.js:85 | the sort is stable, as JavaScript's is: for every number, its periods come out in the order they went in |
| WeeklyTemplate.SortByPeriodSpec | app/admin/timetable/page.js:85 | the sorted day is ascending by period number, and distinct numbers stay distinct |
| WeeklyTemplate.ReinsertedDay | app/admin/timetable/page.js:85 | the rebuilt day is sorted ascending by number and holds exactly the remaining periods plus the new one; for every number, its periods are in the order of the remaining periods followed by the new one |
| WeeklyTemplate.ReinsertedDaySpec | app/admin/timetable/page.js:83-86 | when no remaining period has the number, the rebuilt day has exactly one period numbered p, which carries the id; distinct numbers stay distinct |
| WeeklyTemplate.UpdatedPeriod | app/admin/timetable/page.js:76-88 | other weekdays are unchanged; a blank subject id is exactly a removal |
| WeeklyTemplate.UpdatedPeriodSpec | app/admin/timetable/page.js:76-88 | with a subject id, the day is sorted and keeps its other periods; exactly one period is numbered p and it carries the id; the periods of every other number are listed in their stored order; distinct numbers stay distinct |
| WeeklyTemplate.UpdatedKeepsOtherNumbers | app/admin/timetable/page.js:78-86 | with a subject id, the periods of a number other than p appear in the updated day in the order of the stored day |
| WeeklyTemplate.RemovedKeepsOtherNumbers | app/admin/timetable/page.js:79 | removing the periods numbered p leaves the periods of every other number as they were, in order |
| WeeklyTemplate.TrimStart | app/admin/timetable/page.js:46 | what is left is a suffix that does not start with white space, and everything removed was white space |
| WeeklyTemplate.TrimEnd | app/admin/timetable/page.js:46 | what is left is a prefix that does not end with white space, and everything removed was white space |
| WeeklyTemplate.Trim | app/admin/timetable/page.js:46 | the trimmed name is the slice of the name left after cutting white space from both ends: everything before and after it is white space, and it has none at either end |
| WeeklyTemplate.IsJsWhitespace | app/admin/timetable/page.js:46 | defined as JavaScript's white space and line terminators, the characters `trim` removes |
| WeeklyTemplate.TrimEmptyIffBlank | app/admin/timetable/page.js:46 | a name is refused exactly when it is empty or all white space |
| WeeklyTemplate.SortInPlace | app/admin/timetable/page.js:188-189 | the array is sorted ascending by period number, in place, and is a permutation of its old contents |
| WeeklyTemplate.TimetableEditor.constructor | app/admin/timetable/page.js:9-17 | the editor starts loading with the blank Monday to Saturday template |
| WeeklyTemplate.TimetableEditor.Load | app/admin/timetable/page.js:21-38 | without a stored id nothing changes; on success the subjects are stored, and the timetable is replaced only by a present, non-empty one; a failed load changes nothing else and loading stays on |
| WeeklyTemplate.TimetableEditor.AddPeriod | app/admin/timetable/page.js:59-67 | the template becomes the one with the added period |
| WeeklyTemplate.TimetableEditor.RemovePeriod | app/admin/timetable/page.js:69-74 | the template becomes the one with the period removed |
| WeeklyTemplate.TimetableEditor.UpdatePeriod | app/admin/timetable/page.js:76-88 | the template becomes the updated one |
| WeeklyTemplate.TimetableEditor.SetNewSubjectName | app/admin/timetable/page.js:124 | typing sets the new subject's name |
| WeeklyTemplate.TimetableEditor.SetShowAddSubject | app/admin/timetable/page.js:144 | the add-subject panel opens or closes |
| WeeklyTemplate.TimetableEditor.AddNewSubject | app/admin/timetable/page.js:45-57 | a blank name sends nothing and changes nothing; otherwise the name is posted; on success the subject is appended and the form is cleared and closed; a failure changes nothing |
| WeeklyTemplate.TimetableEditor.SaveTimetable | app/admin/timetable/page.js:90-92 | the request carries the class id and the whole weekday map |
| WeeklyTemplate.TimetableEditor.RenderDay | app/admin/timetable/page.js:170-189 | rendering sorts the stored day in place (a permutation); the keys and the other days are unchanged |
| ClassCreation.SubjectDraft.constructor | app/admin/create/page.js:17 | a new subject has an empty name and code |
| ClassCreation.Entries | app/admin/create/page.js:36 | the subjects are sent one entry per draft, in order, with each draft's current name and code |
| ClassCreation.BuildPayload | app/admin/create/page.js:34-38 | the subjects are passed through; the timetable has exactly the keys Monday to Saturday, all empty; the form fields are copied |
| ClassCreation.CreateForm.constructor | app/admin/create/page.js:9-17 | the form starts empty and not loading, with a single blank subject |
| ClassCreation.CreateForm.SetFormField | app/admin/create/page.js:78-99 | typing sets one field of the form and keeps the other two |
| ClassCreation.CreateForm.AddSubject | app/admin/create/page.js:19-21 | one new blank subject is appended; the existing drafts are unchanged |
| ClassCreation.CreateForm.HandleSubjectChange | app/admin/create/page.js:23-27 | the list keeps the same draft objects; the field of draft i is set; its other field and every other draft are unchanged |
| ClassCreation.CreateForm.BeginSubmit | app/admin/create/page.js:29-38 | only with the button enabled and every required field filled in; loading is on while the payload of the current fields and drafts is sent |
| ClassCreation.CreateForm.FinishSubmit | app/admin/create/page.js:40-56 | loading is off whatever the outcome; only a success yields the token and class id |
| CalendarView.MakeMonth | app/components/Calendar.js:23 | the month normalises into 0..11, with the same month count |
| CalendarView.MonthIndexInjective | app/components/Calendar.js:22-28 | two valid months with the same month count are equal |
| CalendarView.PrevMonth | app/components/Calendar.js:22-24 | one month back; January goes to December of the previous year |
| CalendarView.NextMonth | app/components/Calendar.js:26-28 | one month forward; December goes to January of the next year |
| CalendarView.StepsAreInverse | app/components/Calendar.js:22-28 | a step forward and a step back cancel, in either order |
| CalendarView.NatToDecimal | app/components/Calendar.js:32-33 | the decimal text is non-empty and all digits, with no leading zero for n >= 1 |
| CalendarView.IntToDecimal | app/components/Calendar.js:32-33 | `String(n)`: non-empty; for n >= 0 the digits of n, for n < 0 a '-' followed by the digits of -n; no leading zero after the sign for n != 0 |
| CalendarView.DecimalRoundTrip | app/components/Calendar.js:32-33 | reading the decimal text back gives the number |
| CalendarView.DecimalLength | app/components/Calendar.js:32-33 | numbers have 1, 2, 3 or 4 digits in the respective ranges |
| CalendarView.PadStart2 | app/components/Calendar.js:32-33 | `padStart(2, '0')`: two characters for a shorter text; a longer text keeps its length |
| CalendarView.PadStart2Layout | app/components/Calendar.js:32-33 | the text is kept as the tail of the padded one, and only '0's come before it |
| CalendarView.PaddedTwoDigits | app/components/Calendar.js:32-33 | a number below 100, zero-padded, is two digits denoting it |
| CalendarView.FormatDate | app/components/Calendar.js:30-35 | in any year, six characters longer than the year's text; its layout is stated by FormatDateRoundTrip and FormatDateFields |
| CalendarView.FormatDateFields | app/components/Calendar.js:30-35 | a formatted date is ten characters with '-' at positions 4 and 7; it reads back as the year, the 1-based month and the day |
| CalendarView.IntToDecimalRoundTrip | app/components/Calendar.js:31-34 | reading back the text of any integer, negative ones included, gives the integer |
| CalendarView.FormatDateRoundTrip | app/components/Calendar.js:30-35 | in any year, reading a formatted date back (the year's text before the last six characters, then two-digit month and day) gives the month shown and the day |
| CalendarView.FormatDateInjective | app/components/Calendar.js:30-35 | in any year, two dates format equally exactly when they are the same date |
| CalendarView.LexLess | app/components/Calendar.js:103 | defined as JavaScript's string `<`: character by character, the first difference deciding |
| CalendarView.LexLessPrefix | app/components/Calendar.js:103 | a proper prefix comes before the longer string and never after it |
| CalendarView.LexLessIrreflexive | app/components/Calendar.js:103 | no string is before itself |
| CalendarView.LexLessConcat | app/components/Calendar.js:103 | with equally long heads, the heads decide unless equal, and then the tails decide |
| CalendarView.DigitsInjective | app/components/Calendar.js:32-33 | equally long digit strings with the same value are equal |
| CalendarView.LexLessDigits | app/components/Calendar.js:103 | on equally long digit strings, string order is numeric order |
| CalendarView.DayKeyOrder | app/components/Calendar.js:103 | chronological order is year, then month, then day |
| CalendarView.LexLessFields | app/components/Calendar.js:103 | dash-separated fields of matching widths compare field by field |
| CalendarView.YearTextOrder | app/components/Calendar.js:31 | four-digit year texts have four characters, are equal exactly when the years are, and compare as the years |
| CalendarView.TwoDigitTextOrder | app/components/Calendar.js:32-33 | padded texts of numbers below 100 have two characters, are equal exactly when the numbers are, and compare as the numbers |
| CalendarView.MonthTextOrder | app/components/Calendar.js:32 | the 1-based month texts of two months are equal exactly when the months are and compare as the months |
| CalendarView.DatesInDayOrder | app/components/Calendar.js:103 | dash-joined year, month and day texts that are equal and ordered as the fields they stand for compare as the dates do |
| CalendarView.DateStringOrder | app/components/Calendar.js:97-103 | for four-digit years, string order of formatted dates is chronological order |
| CalendarView.IsDisabled | app/components/Calendar.js:100-103 | with allowFuture the days before today, otherwise the days after today; today itself is never disabled |
| CalendarView.DisabledDays | app/components/Calendar.js:97-103 | with allowFuture exactly the earlier days are disabled; otherwise exactly the later days |
| CalendarView.ClickDay | app/components/Calendar.js:108-109 | a click selects the day's date exactly when the day is not disabled |
| CalendarView.IsSelected | app/components/Calendar.js:44-49 | defined as membership of the formatted date in the selected dates in multi-select mode, else equality with the selected date |
| CalendarView.IsMarked | app/components/Calendar.js:51-61 | defined as membership of the formatted date in the given list (attendance, exam or holiday dates) |
| CalendarView.IsToday | app/components/Calendar.js:37-42 | the day, month and year match today's exactly when the month and the day are today's |
| CalendarView.SingleSelectionIsOneDay | app/components/Calendar.js:44-49 | in any year, in single-select mode at most one day of the month is selected |
| CalendarView.MarkIsItsOwnDay | app/components/Calendar.js:51-61 | in any year, a listed date marks exactly its own day |
| CalendarView.TodayMatchesTodayString | app/components/Calendar.js:37-42 | in any year, the today outline holds exactly when the day formats as today's date |
| CalendarView.MonthGrid | app/components/Calendar.js:90-96 | the grid is the leading blank cells, then the days 1 to N in order |
| CalendarView.GridDayCell | app/components/Calendar.js:88-96 | each day has exactly one cell, `firstDayOfMonth + day - 1` places from the start |
| PushKey.PaddingLength | app/components/NotificationSetup.js:7 | the padding is 0 to 3 characters: the fewest that complete a four-character group, and 0 exactly on a multiple of 4 |
| PushKey.Padded | app/components/NotificationSetup.js:7-8 | the padded key is a multiple of 4 long: the key followed by fewer than four '=' |
| PushKey.ReplaceAll | app/components/NotificationSetup.js:8 | every occurrence of the character is replaced, the others are kept, and the length is unchanged |
| PushKey.ToStandardAlphabet | app/components/NotificationSetup.js:8 | '-' becomes '+' and '_' becomes '/', the others are unchanged; no '-' or '_' remains; the length is kept |
| PushKey.ToUrlAlphabet | app/components/NotificationSetup.js:8 | the inverse mapping, from base64 to base64url |
| PushKey.AlphabetRoundTrip | app/components/NotificationSetup.js:8 | base64url text maps to base64 text and back unchanged |
| PushKey.StandardRoundTrip | app/components/NotificationSetup.js:8 | base64 text maps to base64url text and back unchanged |
| PushKey.Base64Text | app/components/NotificationSetup.js:7-8 | the text given to atob is a multiple of 4 long and has no base64url-only characters |
| PushKey.Base64TextShape | app/components/NotificationSetup.js:7-8 | a base64url key becomes base64 text: its mapped characters followed by fewer than four '=' |
| PushKey.ByteOf | app/components/NotificationSetup.js:12 | a character code below 256 is stored unchanged |
| PushKey.CopyCharCodes | app/components/NotificationSetup.js:10-13 | a new array, as long as the decoded text, whose element i is character i's code (modulo 256) |
| PushKey.UrlBase64ToBytes | app/components/NotificationSetup.js:6-15 | there is no array exactly when atob rejects; otherwise a new array with one byte per decoded character, each its code |

## Left out

- HTTP requests, `localStorage`, `alert`, `router.push` and `console` are not modelled. Responses and the stored class id are parameters, and a failed request is `None`.
- Today's date, weekday and the `toISOString` date string are parameters, because `new Date()` is a clock. Two things are out of scope: the difference between the UTC date string of the disabled rule and the local date of `isToday`, and the `new Date()` rule that maps years 0 to 99 to 1900 and later.
- Dashboard.Load: the page re-runs the load when the override changes; the model leaves that re-run to the caller. Exit Custom Mode is not modelled, because it reloads the whole page.
- Dashboard.SelectScheduleDay accepts any label, not only those of the select's options.
- CalendarView: the number of days in the month and the weekday of the 1st are parameters of `MonthGrid`, because the source takes them from `Date` arithmetic. The month name header and all JSX rendering are not modelled.
- DateStringOrder: stated for four-digit years only, because other years format with another width and then string order is not date order.
- DisabledDays: stated for four-digit years only, for the same reason.
- FormatDateFields: stated for four-digit years only, because only they give the ten-character `YYYY-MM-DD` shape.
- YearTextOrder: stated for four-digit years only, as a step of DateStringOrder.
- SortInPlace: the order among equally numbered periods is not stated. JavaScript's sort keeps it, as SortByPeriodStable proves for the functional sort, but the in-place sort's contract gives only sortedness and permutation.
- RenderDay: the order among equally numbered periods is not stated, as for SortInPlace.
- PushKey: `atob` is an abstract parameter. Characters are Dafny `char`s, not UTF-16 code units; the byte copy is exact for the Latin-1 text `atob` returns.
- Subscribing and unsubscribing to push, the VAPID key fetch and service-worker registration are not modelled. They are browser APIs.
- Ledger aggregation, attendance percentages, Safe/AtRisk classification and projections are not part of this model. They are computed outside these pages, and they use floating point.
- The logout handlers, the login page, the student page and the navigation bars are not part of this model.
- React's batching of state updates is not modelled. Each handler runs to completion, and `setState(prev => …)` updates read the state current at that point.
