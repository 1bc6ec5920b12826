# Effective weekly schedule of the HR schedule service

This project models the schedule service of a human-resources server. Every
employee has a recurring base availability: seven day records, Monday first.
Each record is either a day off or a working window in whole hours. The
service computes the actual schedule of a requested week by overlaying the
employee's approved time-off requests onto that week.

- The requested date must be a Monday. Otherwise the computation fails before anything is read or changed.
- A request is applied only when it is approved and lies inside the week.
  It must start at or after Monday midnight and end at or before next Monday midnight.
- A same-day request trims the day's working window at whichever boundary
  it matches, and marks the day modified.
- A multi-day request replaces every working day, from its start weekday to
  `(endDayOfWeek - 1) % 7`, with a fresh day off marked modified.
- Requests are applied in list order, and the availability array is edited in place.
- The whole schedule is one entry per employee-time record, named from the employee with that id.
- The base schedule is the same list of entries without time-off and without names.

Modules:

- `Calendar` (calendar.dfy) models the parts of `java.time` the service uses.
  It also has Java's truncating `%` by 7.
- `Model` (model.dfy) holds the records: day availability, time-off,
  employee, employee-time record, schedule entry, and the two errors.
- `ScheduleEngine` (engine.dfy) is the computation on values: selection,
  one request applied to a week, and the fold over the selected requests.
- `ScheduleProperties` (properties.dfy) holds the lemmas about that
  computation, and concrete weeks that show how the code behaves at its edges.
- `ScheduleService` (service.dfy) holds the service's operations as methods.
  They edit the availability arrays in place and are proved against `ScheduleEngine`.

Time is abstracted to integers. A date is its epoch day, and epoch day 0
(1970-01-01) is a Thursday. A date-time is seconds since 1970-01-01T00:00.
The weekday, the hour and the calendar date are derived from these numbers
with floor division, as `java.time` derives them.

In four places the code does something other than what its comment or the
intended design suggests. The model follows the code in all four:

- The comment at ScheduleService.java:90-91 says that `% 7` wraps -1 to 6.
  Because of that, a request ending next Monday would seem to take off every
  day through Sunday. Java's `%` truncates, so `(0 - 1) % 7` is -1 and the
  loop does not run. A multi-day request that ends on a Monday therefore takes
  no day off. `ScheduleProperties.EndingOnMondayChangesNothing` and
  `ScheduleProperties.UntilNextMondayExample` state this.
- A same-day request may match both boundaries of a working day. The day does
  not collapse to zero width: its start becomes the request's end hour and its
  end becomes the request's start hour (`ScheduleProperties.FullWindowInvertsHours`).
- A same-day request that matches neither boundary still marks the day
  modified (`ScheduleProperties.InteriorTimeOffOnlyMarksModified`).
- A request whose end comes before its start is not excluded. The week test at
  ScheduleService.java:113-120 compares the start with Monday midnight and the
  end with next Monday midnight, but never the start with the end. An approved
  request from Wednesday 10:00 back to the Saturday before the week is therefore
  applied, as a multi-day request from Wednesday to `(5 - 1) % 7`. It takes
  Wednesday, Thursday and Friday off (`ScheduleProperties.InvertedRequestExample`).

## Model

| member | source | states |
|---|---|---|
| Calendar.DayOfWeek | src/main/java/com/management/HumanResources/service/ScheduleService.java:48 | the Monday-based weekday index is in 0..6 and congruent to the epoch day plus 3 modulo 7 |
| Calendar.DateOf | src/main/java/com/management/HumanResources/service/ScheduleService.java:77 | the calendar date of a date-time is the day whose midnight-to-midnight span contains it |
| Calendar.HourOf | src/main/java/com/management/HumanResources/service/ScheduleService.java:80-84 | the hour of a date-time is in 0..23, and the date-time lies within that hour of its date |
| Calendar.AtStartOfDay | src/main/java/com/management/HumanResources/service/ScheduleService.java:119 | midnight of a date has that date and hour 0 |
| Calendar.JavaRem7 | src/main/java/com/management/HumanResources/service/ScheduleService.java:92 | Java's `% 7` result has the dividend's sign, magnitude below 7, and differs from the dividend by a multiple of 7 |
| Calendar.AtStartOfDayOrder | src/main/java/com/management/HumanResources/service/ScheduleService.java:119 | a date-time is at or after a date's midnight exactly when its date is that date or later |
| Calendar.DayOfWeekFromMonday | src/main/java/com/management/HumanResources/service/ScheduleService.java:48 | the k-th day after a Monday, for k in 0..6, has weekday index k |
| ScheduleEngine.SelectTimeOffs | src/main/java/com/management/HumanResources/service/ScheduleService.java:73-74 | a request is selected if and only if it is in the list, approved and inside the week; the selection is no longer than the list |
| ScheduleEngine.TrimSameDay | src/main/java/com/management/HumanResources/service/ScheduleService.java:79-87 | a day off is unchanged; a working day stays working and becomes modified; its start becomes the request's end hour only if the request's start hour equals it; its end becomes the request's start hour only if the request's end hour equals it |
| ScheduleEngine.TakeOff | src/main/java/com/management/HumanResources/service/ScheduleService.java:94-98 | a day covered by a multi-day request is off afterwards: a working day becomes the fresh day-off record marked modified, and a day already off keeps its record |
| ScheduleEngine.LastDayTakenOff | src/main/java/com/management/HumanResources/service/ScheduleService.java:92 | the loop bound `(endDayOfWeek - 1) % 7` is exactly endDayOfWeek - 1: Java's remainder never wraps it |
| ScheduleEngine.ApplyTimeOff | src/main/java/com/management/HumanResources/service/ScheduleService.java:77-100 | one request keeps the week at seven days and every day it does not affect; it trims the affected day (same-day) or takes the affected days off (multi-day) |
| ScheduleEngine.Overlay | src/main/java/com/management/HumanResources/service/ScheduleService.java:76-101 | applying requests in order keeps the week at seven days |
| ScheduleEngine.EffectiveAvailability | src/main/java/com/management/HumanResources/service/ScheduleService.java:72-101 | the week's availability after the selected requests has seven days |
| ScheduleProperties.SelectAppend | src/main/java/com/management/HumanResources/service/ScheduleService.java:73-74 | selecting from a concatenation is concatenating the selections, so list order is kept |
| ScheduleProperties.SelectSingle | src/main/java/com/management/HumanResources/service/ScheduleService.java:73-74 | a one-request list yields that request exactly when it is approved and inside the week |
| ScheduleProperties.NothingSelected | src/main/java/com/management/HumanResources/service/ScheduleService.java:73-74 | a list with no approved in-week request yields no request |
| ScheduleProperties.StartBeforeWeekIgnored | src/main/java/com/management/HumanResources/service/ScheduleService.java:113-120 | a request starting before Monday midnight is not applied |
| ScheduleProperties.EndAfterWeekIgnored | src/main/java/com/management/HumanResources/service/ScheduleService.java:113-120 | a request ending after next Monday midnight is not applied |
| ScheduleProperties.InWeekStartIndex | src/main/java/com/management/HumanResources/service/ScheduleService.java:78 | for an in-week request starting before next Monday, the array index it uses is its start's offset from the requested Monday |
| ScheduleProperties.InWeekEndIndex | src/main/java/com/management/HumanResources/service/ScheduleService.java:92 | an in-week request ending at or after Monday midnight ends on one of the week's days, or exactly at next Monday midnight with weekday index 0 |
| ScheduleProperties.OverlaySingle | src/main/java/com/management/HumanResources/service/ScheduleService.java:76-101 | overlaying a one-request list is applying that request |
| ScheduleProperties.ApplyChangedIsModified | src/main/java/com/management/HumanResources/service/ScheduleService.java:86-97 | any day record one request changes is marked modified |
| ScheduleProperties.ApplyOffDays | src/main/java/com/management/HumanResources/service/ScheduleService.java:79-98 | a day off is never changed; a multi-day request leaves every affected day off; a same-day request never changes whether a day is off |
| ScheduleProperties.MultiDayIdempotent | src/main/java/com/management/HumanResources/service/ScheduleService.java:92-99 | applying the same multi-day request twice equals applying it once |
| ScheduleProperties.EndingOnMondayChangesNothing | src/main/java/com/management/HumanResources/service/ScheduleService.java:90-92 | a multi-day request ending on a Monday leaves the whole week unchanged |
| ScheduleProperties.FullWindowInvertsHours | src/main/java/com/management/HumanResources/service/ScheduleService.java:80-86 | a same-day request matching both boundaries swaps the working day's hours and marks it modified |
| ScheduleProperties.InteriorTimeOffOnlyMarksModified | src/main/java/com/management/HumanResources/service/ScheduleService.java:80-86 | a same-day request matching neither boundary only sets modified |
| ScheduleProperties.OverlayAppend | src/main/java/com/management/HumanResources/service/ScheduleService.java:76-101 | overlaying a list with one more request is applying that request to the overlay of the rest |
| ScheduleProperties.OverlayFrame | src/main/java/com/management/HumanResources/service/ScheduleService.java:76-101 | a day that no request in the list affects keeps its record |
| ScheduleProperties.OverlayKeepsDaysOff | src/main/java/com/management/HumanResources/service/ScheduleService.java:79-94 | a day that is off keeps its record whatever requests are applied |
| ScheduleProperties.OverlayChangedIsModified | src/main/java/com/management/HumanResources/service/ScheduleService.java:86-97 | every day record the overlay changed is marked modified |
| ScheduleProperties.NothingSelectedKeepsBase | src/main/java/com/management/HumanResources/service/ScheduleService.java:72-101 | with no approved request inside the week the effective availability is the base availability |
| ScheduleProperties.EffectiveAppend | src/main/java/com/management/HumanResources/service/ScheduleService.java:72-101 | a request added at the end of the list is applied last if approved and in the week, and changes nothing otherwise |
| ScheduleProperties.WeekBoundaries | src/main/java/com/management/HumanResources/service/ScheduleService.java:113-120 | Monday midnight to next Monday midnight is in the week; a start one second before Monday midnight, or an end one second after next Monday midnight, is not |
| ScheduleProperties.SameDayTrimExample | src/main/java/com/management/HumanResources/service/ScheduleService.java:77-87 | Monday 09:00-12:00 on a nine-to-five Monday gives 12-17, modified |
| ScheduleProperties.UnapprovedExample | src/main/java/com/management/HumanResources/service/ScheduleService.java:73-74 | the same request unapproved changes nothing |
| ScheduleProperties.InteriorExample | src/main/java/com/management/HumanResources/service/ScheduleService.java:77-87 | Monday 10:00-11:00 keeps 9-17 and sets modified |
| ScheduleProperties.MultiDayExample | src/main/java/com/management/HumanResources/service/ScheduleService.java:89-99 | Wednesday 00:00 to Saturday 00:00 takes Wednesday to Friday off and leaves the other days |
| ScheduleProperties.InvertedRequestExample | src/main/java/com/management/HumanResources/service/ScheduleService.java:89-99 | an approved request from Wednesday 10:00 back to the Saturday before the week passes the week test although it ends before it starts, and takes Wednesday to Friday off |
| ScheduleProperties.UntilNextMondayExample | src/main/java/com/management/HumanResources/service/ScheduleService.java:89-99 | Wednesday 00:00 to next Monday 00:00 is selected but changes no day |
| ScheduleService.GetEmployeeBaseSchedule | src/main/java/com/management/HumanResources/service/ScheduleService.java:33-38 | the entry carries the record's id and the very same availability array, with no name |
| ScheduleService.GetBaseSchedule | src/main/java/com/management/HumanResources/service/ScheduleService.java:22-28 | one entry per record in list order, each with the record's id, its unchanged availability array and no name |
| ScheduleService.EmployeeMap | src/main/java/com/management/HumanResources/service/ScheduleService.java:52 | the map's keys are the employees' ids and each id maps to its employee |
| ScheduleService.ApplyTimeOffInPlace | src/main/java/com/management/HumanResources/service/ScheduleService.java:77-100 | the array afterwards holds ApplyTimeOff of what it held before |
| ScheduleService.GetEmployeeSchedule | src/main/java/com/management/HumanResources/service/ScheduleService.java:67-111 | a non-Monday fails with NotMonday and leaves the array unchanged; otherwise the array holds the effective availability, and the result is a failure for an unknown id or the named entry holding that same array |
| ScheduleService.FirstUnknown | src/main/java/com/management/HumanResources/service/ScheduleService.java:103-106 | the index returned is the first record whose id has no employee, or the number of records |
| ScheduleService.ScheduleOne | src/main/java/com/management/HumanResources/service/ScheduleService.java:55 | one record's schedule inside the loop: the result is the named entry or UnknownEmployee; with distinct arrays one more record's array is overlaid and the others keep their contents |
| ScheduleService.ScheduleEach | src/main/java/com/management/HumanResources/service/ScheduleService.java:53-57 | entries in record order until the first unknown id, which fails; with distinct arrays, the arrays up to and including that record are overlaid and the rest untouched |
| ScheduleService.GetSchedule | src/main/java/com/management/HumanResources/service/ScheduleService.java:47-58 | a non-Monday fails with NotMonday and changes nothing; otherwise one named entry per record in order, or UnknownEmployee for the first record without an employee; with distinct arrays each array up to that record holds its effective availability |

## Left out

- Reading the employee and employee-time lists from the controller (ScheduleService.java:24, 52, 54) is modelled by passing the lists in. Spring wiring is not modelled.
- src/main/java/com/management/HumanResources/dao/FirebaseDao.java is not part of this model: it only sends HTTP requests to a remote document store.
- The `TimeOff`, `DailyAvailability`, `Employee`, `EmployeeTime` and `ScheduleEntry` classes are not part of this model. Their accessors are derived from the fields the service uses. A fresh `DailyAvailability()` is taken to be a day off with hours 0 and not modified.
- Day records are values in the array. The array is edited in place, and entries share it with the records. A same-day trim writes an edited copy back into its slot. Two slots, or another holder, sharing one record object are therefore not modelled.
- ScheduleService.GetSchedule: the array contents are stated only when no two records share one array (`DistinctAvailabilities`). When records share an array, Java applies both records' requests to it one after the other, and the model states only the returned entries.
- ScheduleService.ScheduleEach: the same restriction to distinct arrays applies.
- Duplicate employee ids, on which `Collectors.toMap` throws (ScheduleService.java:52), are excluded by the precondition `UniqueIds`. This is library behaviour.
- Availability arrays not of length 7 are excluded by precondition. Seven days is the record's invariant, and a shorter array would make Java throw an index exception.
- Null lists, null dates and null ids, and the null-pointer failures they would cause, are not modelled. The one null dereference the service itself reaches is an unknown employee id, and it is modelled as `UnknownEmployee`.
- Calendar detail is abstracted to epoch days and whole seconds: time zones, leap seconds and sub-second precision are not modelled.
