/**
  The schedule service: the base schedule of every employee, and the actual
  schedule of a requested week, computed by editing each employee's
  availability array in place. The employee and employee-time lists the
  service reads from its controller are parameters.
 */
module ScheduleService {
  import opened Calendar
  import opened Model
  import opened ScheduleEngine
  import opened ScheduleProperties

  /** An employee's entry of the base schedule: id and availability array, no name. */
  function GetEmployeeBaseSchedule(employeeTime: EmployeeTime): (entry: ScheduleEntry)
    ensures entry.employeeId == employeeTime.employeeId
    ensures entry.availability == employeeTime.availability
    ensures entry.firstName == None && entry.lastName == None
  {
    ScheduleEntry(employeeTime.employeeId, None, None, employeeTime.availability)
  }

  /** The base schedule: one entry per employee-time record, in list order. */
  method GetBaseSchedule(employeeTimes: seq<EmployeeTime>) returns (entries: seq<ScheduleEntry>)
    ensures |entries| == |employeeTimes|
    ensures forall j :: 0 <= j < |employeeTimes| ==>
      entries[j].employeeId == employeeTimes[j].employeeId &&
      entries[j].availability == employeeTimes[j].availability &&
      entries[j].firstName == None && entries[j].lastName == None
  {
    entries := [];
    var k := 0;
    while k < |employeeTimes|
      invariant 0 <= k <= |employeeTimes|
      invariant |entries| == k
      invariant forall j :: 0 <= j < k ==> entries[j] == GetEmployeeBaseSchedule(employeeTimes[j])
    {
      entries := entries + [GetEmployeeBaseSchedule(employeeTimes[k])];
      k := k + 1;
    }
  }

  /** No two employees have the same id (Collectors.toMap rejects duplicate keys). */
  predicate UniqueIds(employees: seq<Employee>)
  {
    forall i, j :: 0 <= i < j < |employees| ==> employees[i].id != employees[j].id
  }

  /** The id-to-employee map built from the employee list. */
  function EmployeeMap(employees: seq<Employee>): (m: map<int, Employee>)
    requires UniqueIds(employees)
    ensures m.Keys == set e | e in employees :: e.id
    ensures forall i :: 0 <= i < |employees| ==> m[employees[i].id] == employees[i]
  {
    if employees == [] then map[]
    else EmployeeMap(employees[1..])[employees[0].id := employees[0]]
  }

  /** An employee's schedule entry once the employee has been found: id, names and the availability array. */
  function NamedEntry(employeeTime: EmployeeTime, employee: Employee): ScheduleEntry
  {
    ScheduleEntry(employeeTime.employeeId, Some(employee.firstName), Some(employee.lastName), employeeTime.availability)
  }

  /**
    One request applied in place to a week's availability array: a same-day
    request trims that day's record, a multi-day request replaces every working
    day from its start index to `(endDayOfWeek - 1) % 7` by a fresh day off.
   */
  method ApplyTimeOffInPlace(availability: array<DailyAvailability>, timeOff: TimeOff)
    requires availability.Length == 7
    modifies availability
    ensures availability[..] == ApplyTimeOff(old(availability[..]), timeOff)
  {
    if timeOff.IsSameDay() {
      var d := timeOff.StartDayOfWeek();
      var day := availability[d];
      if !day.off {
        if timeOff.StartHour() == day.start {
          day := day.(start := timeOff.EndHour());
        }
        if timeOff.EndHour() == day.end {
          day := day.(end := timeOff.StartHour());
        }
        day := day.(modified := true);
        availability[d] := day;
      }
    } else {
      var first := timeOff.StartDayOfWeek();
      var last := JavaRem7(timeOff.EndDayOfWeek() - 1);
      var i := first;
      while i <= last
        invariant i == first || first < i <= last + 1
        invariant forall j :: 0 <= j < 7 ==>
          availability[j] == if first <= j < i then TakeOff(old(availability[j])) else old(availability[j])
      {
        if !availability[i].off {
          availability[i] := TakenOffAvailability;
        }
        i := i + 1;
      }
    }
  }

  /**
    One employee's schedule for the week starting on `monday`. The date is
    checked first; the approved requests inside the week are then applied to
    the employee's availability array in list order, and only after that is
    the employee looked up, so a missing employee fails after the array has
    been edited. The entry holds the edited array itself.
   */
  method GetEmployeeSchedule(monday: Date, employeeTime: EmployeeTime, employees: map<int, Employee>)
    returns (r: Result<ScheduleEntry>)
    requires employeeTime.availability.Length == 7
    modifies employeeTime.availability
    ensures !IsMonday(monday) ==> r == Failure(NotMonday(monday)) && unchanged(employeeTime.availability)
    ensures IsMonday(monday) ==>
      employeeTime.availability[..] ==
        EffectiveAvailability(monday, old(employeeTime.availability[..]), employeeTime.timeOffs)
    ensures IsMonday(monday) && employeeTime.employeeId !in employees ==>
      r == Failure(UnknownEmployee(employeeTime.employeeId))
    ensures IsMonday(monday) && employeeTime.employeeId in employees ==>
      r == Success(NamedEntry(employeeTime, employees[employeeTime.employeeId]))
  {
    if !IsMonday(monday) {
      return Failure(NotMonday(monday));
    }
    var availability := employeeTime.availability;
    var timeOffs := SelectTimeOffs(employeeTime.timeOffs, monday);
    var k := 0;
    while k < |timeOffs|
      invariant 0 <= k <= |timeOffs|
      invariant availability[..] == Overlay(old(availability[..]), timeOffs[..k])
    {
      ApplyTimeOffInPlace(availability, timeOffs[k]);
      OverlayAppend(old(availability[..]), timeOffs[..k], timeOffs[k]);
      assert timeOffs[..k + 1] == timeOffs[..k] + [timeOffs[k]];
      k := k + 1;
    }
    assert timeOffs[..k] == timeOffs;
    if employeeTime.employeeId !in employees {
      return Failure(UnknownEmployee(employeeTime.employeeId));
    }
    var employee := employees[employeeTime.employeeId];
    return Success(NamedEntry(employeeTime, employee));
  }

  /** The index of the first record whose employee is not in the map, or the number of records. */
  function FirstUnknown(employeeTimes: seq<EmployeeTime>, employees: map<int, Employee>): (k: nat)
    ensures k <= |employeeTimes|
    ensures forall j :: 0 <= j < k ==> employeeTimes[j].employeeId in employees
    ensures k < |employeeTimes| ==> employeeTimes[k].employeeId !in employees
  {
    if employeeTimes == [] || employeeTimes[0].employeeId !in employees then 0
    else 1 + FirstUnknown(employeeTimes[1..], employees)
  }

  /** No two records share one availability array. */
  predicate DistinctAvailabilities(employeeTimes: seq<EmployeeTime>)
  {
    forall i, j :: 0 <= i < j < |employeeTimes| ==> employeeTimes[i].availability != employeeTimes[j].availability
  }

  /** The arrays of the records, which the loop over them may edit. */
  function Arrays(employeeTimes: seq<EmployeeTime>): set<array<DailyAvailability>>
  {
    set j | 0 <= j < |employeeTimes| :: employeeTimes[j].availability
  }

  /**
    Part-way through the loop over the records: the arrays of the first k
    records hold their week's effective availability computed from their
    contents `before` the loop, and the other arrays still hold `before`.
   */
  ghost predicate OverlaidUpTo(monday: Date, employeeTimes: seq<EmployeeTime>, before: seq<seq<DailyAvailability>>, k: nat)
    reads Arrays(employeeTimes)
  {
    |before| == |employeeTimes| &&
    (forall j :: 0 <= j < |employeeTimes| ==> |before[j]| == 7) &&
    (forall j :: 0 <= j < k && j < |employeeTimes| ==>
      employeeTimes[j].availability[..] == EffectiveAvailability(monday, before[j], employeeTimes[j].timeOffs)) &&
    (forall j :: k <= j < |employeeTimes| ==> employeeTimes[j].availability[..] == before[j])
  }

  /**
    The k-th record's schedule inside the loop over all records. Its array is
    the only one edited, so with distinct arrays one more record is overlaid.
   */
  method ScheduleOne(monday: Date, employees: map<int, Employee>, employeeTimes: seq<EmployeeTime>, k: nat,
                     ghost before: seq<seq<DailyAvailability>>)
    returns (r: Result<ScheduleEntry>)
    requires IsMonday(monday)
    requires k < |employeeTimes| && employeeTimes[k].availability.Length == 7
    requires DistinctAvailabilities(employeeTimes) ==> OverlaidUpTo(monday, employeeTimes, before, k)
    modifies employeeTimes[k].availability
    ensures employeeTimes[k].employeeId !in employees ==> r == Failure(UnknownEmployee(employeeTimes[k].employeeId))
    ensures employeeTimes[k].employeeId in employees ==>
      r == Success(NamedEntry(employeeTimes[k], employees[employeeTimes[k].employeeId]))
    ensures DistinctAvailabilities(employeeTimes) ==> OverlaidUpTo(monday, employeeTimes, before, k + 1)
  {
    r := GetEmployeeSchedule(monday, employeeTimes[k], employees);
    if DistinctAvailabilities(employeeTimes) {
      forall j | 0 <= j < |employeeTimes| && j != k
        ensures employeeTimes[j].availability[..] == old(employeeTimes[j].availability[..])
      {
        assert employeeTimes[j].availability != employeeTimes[k].availability;
      }
    }
  }

  /**
    The loop over the employee-time records: each record's schedule, in list
    order, until a record's employee is missing from the map.
   */
  method ScheduleEach(monday: Date, employees: map<int, Employee>, employeeTimes: seq<EmployeeTime>)
    returns (r: Result<seq<ScheduleEntry>>)
    requires IsMonday(monday)
    requires forall j :: 0 <= j < |employeeTimes| ==> employeeTimes[j].availability.Length == 7
    modifies Arrays(employeeTimes)
    ensures
      var k := FirstUnknown(employeeTimes, employees);
      k < |employeeTimes| ==> r == Failure(UnknownEmployee(employeeTimes[k].employeeId))
    ensures
      FirstUnknown(employeeTimes, employees) == |employeeTimes| ==>
        r.Success? && |r.value| == |employeeTimes| &&
        forall j :: 0 <= j < |employeeTimes| ==>
          r.value[j] == NamedEntry(employeeTimes[j], employees[employeeTimes[j].employeeId])
    ensures DistinctAvailabilities(employeeTimes) ==>
      var k := FirstUnknown(employeeTimes, employees);
      forall j :: 0 <= j <= k && j < |employeeTimes| ==>
        employeeTimes[j].availability[..] ==
          EffectiveAvailability(monday, old(employeeTimes[j].availability[..]), employeeTimes[j].timeOffs)
    ensures DistinctAvailabilities(employeeTimes) ==>
      forall j :: FirstUnknown(employeeTimes, employees) < j < |employeeTimes| ==>
        employeeTimes[j].availability[..] == old(employeeTimes[j].availability[..])
  {
    ghost var stop := FirstUnknown(employeeTimes, employees);
    ghost var before := seq(|employeeTimes|, j requires 0 <= j < |employeeTimes| reads Arrays(employeeTimes) =>
      employeeTimes[j].availability[..]);
    var entries: seq<ScheduleEntry> := [];
    var k := 0;
    while k < |employeeTimes|
      invariant 0 <= k <= stop
      invariant |entries| == k
      invariant forall j {:trigger entries[j]} :: 0 <= j < k ==> entries[j] == NamedEntry(employeeTimes[j], employees[employeeTimes[j].employeeId])
      invariant |before| == |employeeTimes|
      invariant forall j {:trigger before[j]} :: 0 <= j < |employeeTimes| ==> before[j] == old(employeeTimes[j].availability[..])
      invariant DistinctAvailabilities(employeeTimes) ==> OverlaidUpTo(monday, employeeTimes, before, k)
    {
      var entry := ScheduleOne(monday, employees, employeeTimes, k, before);
      if entry.Failure? {
        return Failure(entry.error);
      }
      assert employeeTimes[k].employeeId in employees;
      assert entry.value == NamedEntry(employeeTimes[k], employees[employeeTimes[k].employeeId]);
      entries := entries + [entry.value];
      k := k + 1;
    }
    return Success(entries);
  }

  /**
    Every employee's schedule for the week starting on `monday`, one entry per
    employee-time record in list order, each named from the employee with the
    record's id. A record whose employee is missing ends the computation with
    a failure, after that record's array (and those before it) were edited.
   */
  method GetSchedule(monday: Date, employees: seq<Employee>, employeeTimes: seq<EmployeeTime>)
    returns (r: Result<seq<ScheduleEntry>>)
    requires UniqueIds(employees)
    requires forall j :: 0 <= j < |employeeTimes| ==> employeeTimes[j].availability.Length == 7
    modifies Arrays(employeeTimes)
    ensures !IsMonday(monday) ==> r == Failure(NotMonday(monday))
    ensures !IsMonday(monday) ==> forall j :: 0 <= j < |employeeTimes| ==>
      employeeTimes[j].availability[..] == old(employeeTimes[j].availability[..])
    ensures IsMonday(monday) ==>
      var k := FirstUnknown(employeeTimes, EmployeeMap(employees));
      k < |employeeTimes| ==> r == Failure(UnknownEmployee(employeeTimes[k].employeeId))
    ensures IsMonday(monday) ==>
      var m := EmployeeMap(employees);
      FirstUnknown(employeeTimes, m) == |employeeTimes| ==>
        r.Success? && |r.value| == |employeeTimes| &&
        forall j :: 0 <= j < |employeeTimes| ==>
          r.value[j] == NamedEntry(employeeTimes[j], m[employeeTimes[j].employeeId])
    ensures IsMonday(monday) && DistinctAvailabilities(employeeTimes) ==>
      var k := FirstUnknown(employeeTimes, EmployeeMap(employees));
      forall j :: 0 <= j <= k && j < |employeeTimes| ==>
        employeeTimes[j].availability[..] ==
          EffectiveAvailability(monday, old(employeeTimes[j].availability[..]), employeeTimes[j].timeOffs)
    ensures IsMonday(monday) && DistinctAvailabilities(employeeTimes) ==>
      forall j :: FirstUnknown(employeeTimes, EmployeeMap(employees)) < j < |employeeTimes| ==>
        employeeTimes[j].availability[..] == old(employeeTimes[j].availability[..])
  {
    if !IsMonday(monday) {
      return Failure(NotMonday(monday));
    }
    var m := EmployeeMap(employees);
    r := ScheduleEach(monday, m, employeeTimes);
  }
}
