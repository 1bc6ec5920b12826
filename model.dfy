/**
  The records the schedule service reads and produces: a day's availability,
  a time-off request, an employee, an employee's time record and a schedule
  entry, with the two ways a schedule computation fails.
 */
module Model {
  import opened Calendar

  datatype Option<T> = None | Some(value: T)

  /**
    One day's working window, in whole hours. A day is either off or works from
    `start` to `end`; `modified` records that a time-off overlay touched it.
   */
  datatype DailyAvailability = DailyAvailability(start: int, end: int, off: bool, modified: bool)

  /** `new DailyAvailability()`: a day off that no overlay has touched. */
  const DefaultAvailability := DailyAvailability(0, 0, true, false)

  /** `new DailyAvailability()` followed by `setModified(true)`: the record that replaces a day taken off. */
  const TakenOffAvailability := DefaultAvailability.(modified := true)

  /**
    A time-off request from `start` to `end`; only `approved` requests are
    applied. The derived accessors are those the service calls.
   */
  datatype TimeOff = TimeOff(start: DateTime, end: DateTime, approved: bool)
  {
    /** Start and end fall on the same calendar date. */
    predicate IsSameDay()
    {
      DateOf(start) == DateOf(end)
    }

    function StartDayOfWeek(): DayIndex
    {
      DayOfWeek(DateOf(start))
    }

    function EndDayOfWeek(): DayIndex
    {
      DayOfWeek(DateOf(end))
    }

    /** `getStart().getHour()` */
    function StartHour(): int
    {
      HourOf(start)
    }

    /** `getEnd().getHour()` */
    function EndHour(): int
    {
      HourOf(end)
    }
  }

  datatype Employee = Employee(id: int, firstName: string, lastName: string)

  /**
    An employee's time record: the recurring weekly availability (an array of
    seven days, 0 = Monday, which the service edits in place) and the
    employee's time-off requests in their list order.
   */
  datatype EmployeeTime = EmployeeTime(employeeId: int, availability: array<DailyAvailability>, timeOffs: seq<TimeOff>)

  /** One employee's schedule; a name that was never set is None. */
  datatype ScheduleEntry = ScheduleEntry(
    employeeId: int,
    firstName: Option<string>,
    lastName: Option<string>,
    availability: array<DailyAvailability>)

  datatype Error =
    | NotMonday(date: Date)          // NotMondayException
    | UnknownEmployee(id: int)       // the lookup by id found no employee

  datatype Result<T> = Success(value: T) | Failure(error: Error)
}
