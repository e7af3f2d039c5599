/** The attendance status engine (core/attendance_manager.py): the
    Present / Late / Absent decision for one check-in time, and the batch
    sync that rewrites every row's Status and bumps ClassesAttended on a
    move from not attending to attending. */
module Attendance {
  import opened Wrappers
  import opened Text
  import opened Clock
  import opened Records
  import opened Tables

  datatype Status = Present | Late | Absent

  /** The text a status is written as in the Status column. */
  function StatusName(st: Status): string
  {
    match st
    case Present => "Present"
    case Late => "Late"
    case Absent => "Absent"
  }

  predicate IsAttending(st: Status)
  {
    st == Present || st == Late
  }

  /** Present before Late before Absent: how good a status is. */
  function Rank(st: Status): nat
  {
    match st
    case Present => 0
    case Late => 1
    case Absent => 2
  }

  /** date.max.toordinal(): the last day Python's datetime can represent. */
  const MaxDayOrdinal := 3652059

  /** The day `datetime.today()` returns, as a proleptic Gregorian ordinal. */
  type DayOrdinal = d: int | 1 <= d <= MaxDayOrdinal witness 1

  /** The time of day `(combine(today, start) + timedelta(minutes=grace)).time()`
      shows: the sum wraps around midnight. */
  function GraceEnd(start: int, grace: int): int
  {
    (start + grace) % MinutesPerDay
  }

  /** Adding the grace period moves the datetime outside the years 1..9999,
      so the addition raises OverflowError. */
  predicate GraceOverflows(start: int, grace: int, today: DayOrdinal)
  {
    var day := today + (start + grace) / MinutesPerDay;
    day < 1 || day > MaxDayOrdinal
  }

  /** The decision on parsed times: after the end is Absent; up to the
      grace end (inclusive) is Present; anything else is Late. An error
      while computing the grace end is swallowed as Absent. */
  function Classify(t: int, start: int, end: int, grace: int, today: DayOrdinal): Status
  {
    if t > end then Absent
    else if GraceOverflows(start, grace, today) then Absent
    else if t <= GraceEnd(start, grace) then Present
    else Late
  }

  /** `determine_status`: blank check-in, or any of the three times not
      parsing, gives Absent; otherwise Classify decides. */
  function DetermineStatus(timeIn: string, classStart: string, classEnd: string,
                           grace: int, today: DayOrdinal): (st: Status)
    ensures Strip(timeIn) == [] ==> st == Absent
    ensures (ParseTime(timeIn).None? || ParseTime(classStart).None? || ParseTime(classEnd).None?)
              ==> st == Absent
  {
    if timeIn == "" || Strip(timeIn) == "" then Absent
    else
      match (ParseTime(timeIn), ParseTime(classStart), ParseTime(classEnd))
      case (Some(t), Some(s), Some(e)) => Classify(t, s, e, grace, today)
      case _ => Absent
  }

  /** With all three times parsed, the status is decided by the end, the
      grace end and nothing else: each status in both directions. */
  lemma DetermineStatusParsed(timeIn: string, classStart: string, classEnd: string,
                              grace: int, today: DayOrdinal, t: int, s: int, e: int)
    requires ParseTime(timeIn) == Some(t) && ParseTime(classStart) == Some(s)
    requires ParseTime(classEnd) == Some(e)
    ensures (DetermineStatus(timeIn, classStart, classEnd, grace, today) == Absent)
              <==> (t > e || GraceOverflows(s, grace, today))
    ensures (DetermineStatus(timeIn, classStart, classEnd, grace, today) == Present)
              <==> (t <= e && !GraceOverflows(s, grace, today) && t <= GraceEnd(s, grace))
    ensures (DetermineStatus(timeIn, classStart, classEnd, grace, today) == Late)
              <==> (t <= e && !GraceOverflows(s, grace, today) && GraceEnd(s, grace) < t)
  {
  }

  /** Checking in later never gives a better status: Present, then Late,
      then Absent as the check-in time grows. There is no lower bound, so
      an early arrival is Present. */
  lemma ClassifyMonotone(t1: int, t2: int, start: int, end: int, grace: int, today: DayOrdinal)
    requires t1 <= t2
    ensures Rank(Classify(t1, start, end, grace, today)) <= Rank(Classify(t2, start, end, grace, today))
  {
  }

  /** A check-in exactly at the class end is not Absent (the end test is
      strict), unless the grace computation overflows. */
  lemma ClassEndIsNotAbsent(t: int, start: int, grace: int, today: DayOrdinal)
    requires !GraceOverflows(start, grace, today)
    ensures Classify(t, start, t, grace, today) != Absent
  {
  }

  /** `_is_time_in_range` agrees with the engine: a check-in within the
      class window is never Absent when the grace end can be computed. */
  lemma InRangeNotAbsent(t: int, start: int, end: int, grace: int, today: DayOrdinal)
    requires IsTimeInRange(Some(t), Some(start), Some(end))
    requires !GraceOverflows(start, grace, today)
    ensures Classify(t, start, end, grace, today) != Absent
  {
  }

  /** The grace boundary is inclusive: a check-in exactly at the grace
      end is Present and one minute later is Late, as long as both are
      before the class end and the grace end does not wrap. */
  lemma GraceBoundary(start: int, end: int, grace: int, today: DayOrdinal)
    requires 0 <= start + grace && start + grace + 1 < MinutesPerDay && start + grace + 1 <= end
    requires !GraceOverflows(start, grace, today)
    ensures Classify(start + grace, start, end, grace, today) == Present
    ensures Classify(start + grace + 1, start, end, grace, today) == Late
  {
  }

  /** The grace end wraps past midnight: for a class from 11:50 PM to
      11:59 PM with 15 minutes' grace the grace end is 12:05 AM, so a
      check-in at 11:55 PM, inside the grace period, is Late. */
  lemma GraceEndWrapsAtMidnight(today: DayOrdinal)
    requires today < MaxDayOrdinal
    ensures GraceEnd(1430, 15) == 5
    ensures Classify(1435, 1430, 1439, 15, today) == Late
  {
  }

  /** On the last representable day a grace period that crosses midnight
      overflows the datetime, the error is swallowed, and even an on-time
      check-in is Absent. */
  lemma GraceOverflowIsAbsent()
    ensures Classify(1430, 1430, 1439, 15, MaxDayOrdinal) == Absent
  {
  }

  /** The engine on the texts the application writes: a check-in written
      by the RFID script ("%-I:%M %p") against class times written by the
      settings page ("%I:%M %p") gets exactly the status Classify gives
      the minutes, for every time of day. */
  lemma StatusOfFormattedTimes(t: Minute, start: Minute, end: Minute, grace: int, today: DayOrdinal)
    ensures DetermineStatus(FormatTime(t), FormatTimePadded(start), FormatTimePadded(end), grace, today)
              == Classify(t, start, end, grace, today)
  {
    ParseFormatTime(t);
    ParseFormatTimePadded(start);
    ParseFormatTimePadded(end);
  }

  // ---------------------------------------------------------------
  // Batch sync
  // ---------------------------------------------------------------

  /** The class schedule every sync is given; `today` stands for the
      clock read inside `determine_status`. */
  datatype Schedule = Schedule(classStart: string, classEnd: string, graceMinutes: int, today: DayOrdinal)

  /** The status the sync computes for a row: from its stripped TimeIn. */
  function StatusOf(timeIn: string, sched: Schedule): Status
  {
    DetermineStatus(Strip(timeIn), sched.classStart, sched.classEnd, sched.graceMinutes, sched.today)
  }

  /** The stored statuses the sync treats as already counted: exactly
      "Present" and "Late", case-sensitive. */
  predicate CountedStatus(text: string)
  {
    text == "Present" || text == "Late"
  }

  /** A row whose stored Status is `stored` moves from not attending to
      attending when the sync computes `st` for it. */
  predicate IsNewAttendance(stored: string, st: Status)
  {
    IsAttending(st) && !CountedStatus(Strip(stored))
  }

  /** A row after the sync has computed the status `st` for it: Status is
      rewritten, and the counter is read, incremented and written back on a
      new attendance. */
  function Resync(r: StudentRecord, st: Status): StudentRecord
  {
    var counter :=
      if IsNewAttendance(r.status, st)
      then DecimalString(CounterValue(r.classesAttended) + 1)
      else r.classesAttended;
    r.(status := StatusName(st), classesAttended := counter)
  }

  /** One row after the sync. */
  function SyncRow(r: StudentRecord, sched: Schedule): StudentRecord
  {
    Resync(r, StatusOf(r.timeIn, sched))
  }

  function SyncFn(sched: Schedule): StudentRecord -> StudentRecord
  {
    (r: StudentRecord) => SyncRow(r, sched)
  }

  /** The whole table after the sync, row by row and in order. */
  function SyncRows(rows: seq<StudentRecord>, sched: Schedule): seq<StudentRecord>
  {
    MapSeq(rows, SyncFn(sched))
  }

  /** The {old, new} pair reported for a row. */
  datatype StatusChange = StatusChange(previous: string, current: string)

  function ChangeOf(r: StudentRecord, sched: Schedule): StatusChange
  {
    StatusChange(Strip(r.status), StatusName(StatusOf(r.timeIn, sched)))
  }

  function ChangeFn(sched: Schedule): StudentRecord -> StatusChange
  {
    (r: StudentRecord) => ChangeOf(r, sched)
  }

  /** `results["changed"]` as the loop builds it: rows in order, each
      writing its ID's entry, so a later row with the same ID wins. */
  function ChangedMap(rows: seq<StudentRecord>, sched: Schedule): map<string, StatusChange>
  {
    KeyedMap(rows, IdOf, ChangeFn(sched))
  }

  /** The summary `update_statuses` returns (its error list is left out). */
  datatype SyncSummary = SyncSummary(updated: nat, changed: map<string, StatusChange>)

  /** The loop of `update_statuses` over the rows read from the file. */
  method RecomputeStatuses(rows: seq<StudentRecord>, sched: Schedule)
    returns (out: seq<StudentRecord>, summary: SyncSummary)
    ensures out == SyncRows(rows, sched)
    ensures summary == SyncSummary(|rows|, ChangedMap(rows, sched))
  {
    out := rows;
    var updated: nat := 0;
    var changed: map<string, StatusChange> := map[];
    for i := 0 to |rows|
      invariant |out| == |rows|
      invariant forall j :: 0 <= j < i ==> out[j] == SyncRow(rows[j], sched)
      invariant forall j :: i <= j < |rows| ==> out[j] == rows[j]
      invariant updated == i
      invariant changed == ChangedMap(rows[..i], sched)
    {
      var row, change := SyncOne(out[i], sched);
      KeyedMapSnoc(rows, i, IdOf, ChangeFn(sched));
      out := out[i := row];
      changed := changed[row.id := change];
      updated := updated + 1;
    }
    assert rows[..|rows|] == rows;
    summary := SyncSummary(updated, changed);
  }

  /** One pass of the loop body: the old status and the TimeIn are
      stripped, the status is recomputed and applied, and the {old, new}
      pair is reported. */
  method SyncOne(row: StudentRecord, sched: Schedule) returns (r: StudentRecord, change: StatusChange)
    ensures r == SyncRow(row, sched) && r.id == row.id
    ensures change == ChangeOf(row, sched)
  {
    var oldStatus := Strip(row.status);
    var timeIn := Strip(row.timeIn);
    var newStatus := DetermineStatus(timeIn, sched.classStart, sched.classEnd,
                                     sched.graceMinutes, sched.today);
    r := ApplyStatus(row, oldStatus, newStatus);
    change := StatusChange(oldStatus, StatusName(newStatus));
  }

  /** The body of the sync loop once the old and new statuses are known:
      on a new attendance the counter is read (0 when unreadable),
      incremented and written back; then Status is overwritten. */
  method ApplyStatus(row: StudentRecord, oldStatus: string, newStatus: Status) returns (r: StudentRecord)
    requires oldStatus == Strip(row.status)
    ensures r == Resync(row, newStatus)
  {
    r := row;
    if IsAttending(newStatus) && !CountedStatus(oldStatus) {
      var current := CounterValue(r.classesAttended);
      r := r.(classesAttended := DecimalString(current + 1));
    }
    r := r.(status := StatusName(newStatus));
  }

  /** `update_statuses` (also reached as `sync_students_data`): read the
      table, recompute it, write it back whole; an empty table returns zero
      counts without writing. */
  method UpdateStatuses(file: StudentsFile, sched: Schedule) returns (summary: SyncSummary)
    modifies file
    ensures file.rows == SyncRows(old(file.rows), sched)
    ensures summary == SyncSummary(|old(file.rows)|, ChangedMap(old(file.rows), sched))
  {
    var rows := file.rows;
    if |rows| == 0 {
      return SyncSummary(0, map[]);
    }
    var out;
    out, summary := RecomputeStatuses(rows, sched);
    file.rows := out;
  }

  /** What the sync does to one row: Status becomes the computed status,
      the counter rises by exactly one on a new attendance and is left as
      it was (text included) otherwise, and no other column changes. */
  lemma ResyncEffect(r: StudentRecord, st: Status)
    ensures Resync(r, st).status == StatusName(st)
    ensures CounterValue(Resync(r, st).classesAttended)
              == CounterValue(r.classesAttended) + (if IsNewAttendance(r.status, st) then 1 else 0)
    ensures !IsNewAttendance(r.status, st) ==> Resync(r, st).classesAttended == r.classesAttended
    ensures Resync(r, st).(status := r.status, classesAttended := r.classesAttended) == r
  {
    if IsNewAttendance(r.status, st) {
      ParseIntDecimal(CounterValue(r.classesAttended) + 1);
    }
  }

  /** A written status reads back as itself, and as counted exactly when
      it is an attending one. */
  lemma StatusNameStripped(st: Status)
    ensures Strip(StatusName(st)) == StatusName(st)
    ensures CountedStatus(StatusName(st)) <==> IsAttending(st)
  {
    StripUnchanged(StatusName(st));
  }

  /** Once a row carries the status computed for it, computing the same
      status again is no new attendance and changes nothing. */
  lemma ResyncStable(r: StudentRecord, st: Status)
    ensures !IsNewAttendance(Resync(r, st).status, st)
    ensures Resync(Resync(r, st), st) == Resync(r, st)
  {
    StatusNameStripped(st);
  }

  /** After a sync, a second sync with the same TimeIns and schedule finds
      no new attendance: every row already carries its computed status. */
  lemma SecondSyncCountsNothing(rows: seq<StudentRecord>, sched: Schedule)
    ensures forall i :: 0 <= i < |rows| ==>
              !IsNewAttendance(SyncRows(rows, sched)[i].status, StatusOf(SyncRows(rows, sched)[i].timeIn, sched))
  {
    forall i | 0 <= i < |rows|
      ensures !IsNewAttendance(SyncRows(rows, sched)[i].status, StatusOf(SyncRows(rows, sched)[i].timeIn, sched))
    {
      ResyncStable(rows[i], StatusOf(rows[i].timeIn, sched));
    }
  }

  /** Syncing twice is syncing once: the second run leaves every
      ClassesAttended (and every other column) as the first run left it. */
  lemma SyncIdempotent(rows: seq<StudentRecord>, sched: Schedule)
    ensures SyncRows(SyncRows(rows, sched), sched) == SyncRows(rows, sched)
  {
    var once := SyncRows(rows, sched);
    forall i | 0 <= i < |rows| ensures SyncRow(once[i], sched) == once[i] {
      ResyncStable(rows[i], StatusOf(rows[i].timeIn, sched));
    }
  }

  /** A row moving from Absent to Late (its TimeIn changed between two
      syncs) gains exactly one attended class. */
  lemma AbsentToLateCountsOnce(r: StudentRecord)
    requires Strip(r.status) == "Absent"
    ensures CounterValue(Resync(r, Late).classesAttended) == CounterValue(r.classesAttended) + 1
    ensures Resync(r, Late).status == "Late"
  {
    ResyncEffect(r, Late);
  }

  /** A row moving from Late to Present is already counted: its counter
      text stays exactly as it was. */
  lemma LateToPresentNotCounted(r: StudentRecord)
    requires Strip(r.status) == "Late"
    ensures Resync(r, Present) == r.(status := "Present")
  {
  }

  /** Pre-stripping the TimeIn, as the sync does, changes nothing: the
      engine strips it anyway. */
  lemma StatusOfUnstripped(timeIn: string, sched: Schedule)
    ensures StatusOf(timeIn, sched)
              == DetermineStatus(timeIn, sched.classStart, sched.classEnd, sched.graceMinutes, sched.today)
  {
    StripIdempotent(timeIn);
    ParseTimeStrip(timeIn);
  }

  /** A row with no check-in syncs to Absent with its counter untouched. */
  lemma NoCheckInIsAbsent(r: StudentRecord, sched: Schedule)
    requires Strip(r.timeIn) == ""
    ensures SyncRow(r, sched) == r.(status := "Absent")
  {
  }

  /** A first check-in written by the RFID script, on time against class
      times written by the settings page, turns a not-yet-counted row with
      counter "0" into a Present row with counter "1". */
  lemma FirstCheckInCounts(r: StudentRecord, sched: Schedule, t: Minute, start: Minute, end: Minute)
    requires r.timeIn == FormatTime(t)
    requires sched.classStart == FormatTimePadded(start) && sched.classEnd == FormatTimePadded(end)
    requires Classify(t, start, end, sched.graceMinutes, sched.today) == Present
    requires !CountedStatus(Strip(r.status)) && r.classesAttended == "0"
    ensures SyncRow(r, sched) == r.(status := "Present", classesAttended := "1")
  {
    OnTimeCheckIn(r.timeIn, sched, t, start, end);
    FirstAttendanceCounter(r);
  }

  /** A check-in time written by the RFID script is classified Present by
      the sync whenever its minute is on time for the class. */
  lemma OnTimeCheckIn(timeIn: string, sched: Schedule, t: Minute, start: Minute, end: Minute)
    requires timeIn == FormatTime(t)
    requires sched.classStart == FormatTimePadded(start) && sched.classEnd == FormatTimePadded(end)
    requires Classify(t, start, end, sched.graceMinutes, sched.today) == Present
    ensures StatusOf(timeIn, sched) == Present
  {
    StatusOfUnstripped(timeIn, sched);
    StatusOfFormattedTimes(t, start, end, sched.graceMinutes, sched.today);
  }

  /** A counter at "0" on a row not yet counted becomes "1" when the row turns Present. */
  lemma FirstAttendanceCounter(r: StudentRecord)
    requires !CountedStatus(Strip(r.status)) && r.classesAttended == "0"
    ensures Resync(r, Present) == r.(status := "Present", classesAttended := "1")
  {
    assert CounterValue("0") == 0 by {
      ParseIntDecimal(0);
      assert DecimalString(0) == "0";
    }
    assert DecimalString(1) == "1";
  }

  /** The changed map reports the change of the last row with each ID. */
  lemma ChangedMapLastWins(rows: seq<StudentRecord>, sched: Schedule, k: nat)
    requires k < |rows|
    requires forall j :: k < j < |rows| ==> rows[j].id != rows[k].id
    ensures rows[k].id in ChangedMap(rows, sched)
    ensures ChangedMap(rows, sched)[rows[k].id] == ChangeOf(rows[k], sched)
  {
    KeyedMapLastWins(rows, k, IdOf, ChangeFn(sched));
  }

  /** The changed map has an entry for exactly the IDs of the rows. */
  lemma ChangedMapKeys(rows: seq<StudentRecord>, sched: Schedule)
    ensures ChangedMap(rows, sched).Keys == set i | 0 <= i < |rows| :: rows[i].id
  {
    KeyedMapKeys(rows, IdOf, ChangeFn(sched));
  }

  // ---------------------------------------------------------------
  // Lookup
  // ---------------------------------------------------------------

  /** A row's Name matches a query when both, stripped and lower-cased,
      are equal. */
  predicate NameMatches(r: StudentRecord, query: string)
  {
    Lower(Strip(r.name)) == Lower(Strip(query))
  }

  function NameIs(query: string): StudentRecord -> bool
  {
    (r: StudentRecord) => NameMatches(r, query)
  }

  /** `get_student_attendance`: the first row whose Name matches the
      query, or None. */
  function GetStudentAttendance(rows: seq<StudentRecord>, query: string): (r: Option<StudentRecord>)
    ensures r.Some? ==> exists k :: 0 <= k < |rows| && rows[k] == r.value && NameMatches(rows[k], query)
                                     && forall j :: 0 <= j < k ==> !NameMatches(rows[j], query)
    ensures r.None? ==> forall j :: 0 <= j < |rows| ==> !NameMatches(rows[j], query)
  {
    match FirstWhere(rows, NameIs(query))
    case None => None
    case Some(k) => Some(rows[k])
  }

  /** The lookup ignores case and surrounding blanks in the query. */
  lemma LookupIgnoresCase(rows: seq<StudentRecord>, q1: string, q2: string)
    requires Lower(Strip(q1)) == Lower(Strip(q2))
    ensures GetStudentAttendance(rows, q1) == GetStudentAttendance(rows, q2)
  {
    FirstWhereSame(rows, NameIs(q1), NameIs(q2));
  }
}
