/** The RFID ingestion script (database/models.py): each line read from
    the reader is "name,number,status"; the script formats the student ID,
    then updates the matching row of Students_Data.csv or appends a new
    one. The serial port and the wall clock are inputs here: the received
    text and the scan minute are parameters of one step. */
module Ingest {
  import opened Wrappers
  import opened Text
  import opened Clock
  import opened Records
  import opened Tables
  import Students
  import Attendance

  // ---------------------------------------------------------------
  // Helpers of the script
  // ---------------------------------------------------------------

  /** `format_student_id(number)`: `int(number)` read with Python's rules,
      then the ID format; None where `int()` raises. */
  function ScanStudentId(number: string): (r: Option<string>)
    ensures r.Some? <==> ParseInt(number).Some?
  {
    match ParseInt(number)
    case Some(n) => Some(FormatStudentId(n))
    case None => None
  }

  /** A card number written in decimal becomes the ID of that number, and
      the roster reads that number back out of the ID. */
  lemma ScanStudentIdOfNumber(n: nat)
    ensures ScanStudentId(DecimalString(n)) == Some(FormatStudentId(n))
    ensures Students.IdNumber(FormatStudentId(n)) == Some(n)
  {
    ParseIntDecimal(n);
    Students.IdNumberOfFormatted(n);
  }

  const ProfilesPrefix: string := "assets/profiles/"
  const PhotoSuffix: string := ".jpeg"

  /** `get_image_path(name)`: the name with every space removed, under the
      profiles directory, with the ".jpeg" extension. */
  function GetImagePath(name: string): (r: string)
  {
    ProfilesPrefix + RemoveChar(name, ' ') + PhotoSuffix
  }

  /** The path holds no space, and its middle part is the name without
      spaces, so two names that differ only in spaces share one photo. */
  lemma GetImagePathSpec(name: string, a: string, b: string)
    ensures ' ' !in GetImagePath(name)
    ensures GetImagePath(a + " " + b) == GetImagePath(a + b)
    ensures ' ' !in name ==> GetImagePath(name) == ProfilesPrefix + name + PhotoSuffix
  {
    var r := GetImagePath(name);
    var mid := RemoveChar(name, ' ');
    assert r == ProfilesPrefix + mid + PhotoSuffix;
    assert forall i :: 0 <= i < |r| ==> r[i] != ' ' by {
      forall i | 0 <= i < |r|
        ensures r[i] != ' '
      {
        if i < |ProfilesPrefix| {
          assert r[i] == ProfilesPrefix[i];
        } else if i < |ProfilesPrefix| + |mid| {
          assert r[i] == mid[i - |ProfilesPrefix|];
        } else {
          assert r[i] == PhotoSuffix[i - |ProfilesPrefix| - |mid|];
        }
      }
    }
    RemoveCharAppend(a + " ", b, ' ');
    RemoveCharAppend(a, " ", ' ');
    assert RemoveChar(" ", ' ') == "";
    assert a + " " + b == (a + " ") + b;
    assert RemoveChar(a, ' ') + "" == RemoveChar(a, ' ');
    RemoveCharAppend(a, b, ' ');
    if ' ' !in name {
      RemoveCharAbsent(name, ' ');
    }
  }

  /** The ingestion script stores relative photo paths; the roster screens
      show each one with a '/' put in front. */
  lemma IngestedPhotoResolves(name: string)
    requires '\\' !in name
    ensures Students.ResolvePhotoPath(GetImagePath(name)) == "/" + GetImagePath(name)
  {
    var p := GetImagePath(name);
    var mid := RemoveChar(name, ' ');
    assert p == ProfilesPrefix + mid + PhotoSuffix;
    assert '\\' !in mid;
    assert forall i :: 0 <= i < |p| ==> p[i] != '\\' by {
      forall i | 0 <= i < |p|
        ensures p[i] != '\\'
      {
        if i < |ProfilesPrefix| {
          assert p[i] == ProfilesPrefix[i];
        } else if i < |ProfilesPrefix| + |mid| {
          assert p[i] == mid[i - |ProfilesPrefix|];
        } else {
          assert p[i] == PhotoSuffix[i - |ProfilesPrefix| - |mid|];
        }
      }
    }
    assert ReplaceChar(p, '\\', '/') == p;
    assert p[0] == 'a';
    assert !StartsWith(p, "/assets/");
  }

  // ---------------------------------------------------------------
  // One received line
  // ---------------------------------------------------------------

  /** The three fields of a scan line, each stripped. */
  datatype Scan = Scan(name: string, number: string, status: string)

  /** `name, number, status = [x.strip() for x in line.split(",")]`: None
      where the unpacking raises, that is unless there are exactly three
      comma-separated fields. */
  function ParseScanLine(line: string): (r: Option<Scan>)
    ensures r.Some? <==> |Split(line, ',')| == 3
  {
    var parts := Split(line, ',');
    if |parts| == 3 then Some(Scan(Strip(parts[0]), Strip(parts[1]), Strip(parts[2])))
    else None
  }

  /** A line joined from three stripped, comma-free fields is read back as
      exactly those fields. */
  lemma ParseScanLineJoin(name: string, number: string, status: string)
    requires ',' !in name && ',' !in number && ',' !in status
    requires Strip(name) == name && Strip(number) == number && Strip(status) == status
    ensures ParseScanLine(name + "," + number + "," + status) == Some(Scan(name, number, status))
  {
    var rest := number + [','] + status;
    var line := name + [','] + rest;
    assert name + "," + number + "," + status == line;
    var parts := Split(line, ',');
    assert parts == [name, number, status] by {
      SplitNoSeparator(status, ',');
      SplitFirstPiece(number, ',', status);
      SplitFirstPiece(name, ',', rest);
    }
    assert ParseScanLine(line) == Some(Scan(Strip(parts[0]), Strip(parts[1]), Strip(parts[2])));
  }

  /** `status.lower() == "present"`: the only status that counts a class. */
  predicate IsPresentStatus(status: string)
  {
    Lower(status) == "present"
  }

  /** What one received line does to the table. */
  datatype ScanResult =
    | NoLine                                  // the stripped line is empty
    | BadLine                                 // not three fields: skipped
    | ScanFailed                              // int() raised: nothing saved
    | Saved(rows: seq<StudentRecord>)         // the table written back

  /** The row appended for an ID the table does not hold yet. */
  function NewScanRow(scan: Scan, id: string, timeIn: string): StudentRecord
  {
    var present := IsPresentStatus(scan.status);
    StudentRecord(id, scan.name, scan.status,
                  if present then "1" else "0",
                  if present then timeIn else "",
                  "", GetImagePath(scan.name))
  }

  /** The first row holding `id` after the scan: the counter is read and
      incremented and TimeIn set on a "present" scan (None where the
      counter cannot be read as a number), then Status takes the raw
      scanned text and TimeOut is cleared. */
  function UpdateScanRow(r: StudentRecord, scan: Scan, timeIn: string): Option<StudentRecord>
  {
    if IsPresentStatus(scan.status) then
      match ParseInt(r.classesAttended)
      case None => None
      case Some(n) =>
        Some(r.(classesAttended := DecimalString(n + 1), timeIn := timeIn,
                status := scan.status, timeOut := ""))
    else
      Some(r.(status := scan.status, timeOut := ""))
  }

  /** The upsert on the table read from the file. */
  function UpsertScan(rows: seq<StudentRecord>, scan: Scan, id: string, timeIn: string): Option<seq<StudentRecord>>
  {
    match FirstWhere(rows, HasId(id))
    case Some(k) =>
      (match UpdateScanRow(rows[k], scan, timeIn)
       case None => None
       case Some(row) => Some(rows[k := row]))
    case None => Some(rows + [NewScanRow(scan, id, timeIn)])
  }

  /** One pass of the main loop for the text `received` read at minute `now`. */
  function ScanStep(rows: seq<StudentRecord>, received: string, now: Minute): ScanResult
  {
    var line := Strip(received);
    if line == [] then NoLine
    else match ParseScanLine(line)
      case None => BadLine
      case Some(scan) =>
        match ScanStudentId(scan.number)
        case None => ScanFailed
        case Some(id) =>
          match UpsertScan(rows, scan, id, FormatTime(now))
          case None => ScanFailed
          case Some(out) => Saved(out)
  }

  /** One pass of the main loop on the students file: the matching row is
      changed in place, or a row is appended, and the table is written
      back; a skipped or failed line leaves the file as it was. */
  method ProcessScan(file: StudentsFile, received: string, now: Minute) returns (result: ScanResult)
    modifies file
    ensures result == ScanStep(old(file.rows), received, now)
    ensures file.rows == if result.Saved? then result.rows else old(file.rows)
  {
    var line := Strip(received);
    if line == [] {
      return NoLine;
    }
    var parsed := ParseScanLine(line);
    if parsed.None? {
      return BadLine;
    }
    var scan := parsed.value;
    var id := ScanStudentId(scan.number);
    if id.None? {
      return ScanFailed;
    }
    var timeIn := FormatTime(now);
    ghost var upsert := UpsertScan(file.rows, scan, id.value, timeIn);
    assert ScanStep(file.rows, received, now) == if upsert.None? then ScanFailed else Saved(upsert.value);
    var present := IsPresentStatus(scan.status);
    var found := FirstWhere(file.rows, HasId(id.value));
    if found.Some? {
      var k := found.value;
      var row := file.rows[k];
      if present {
        var counter := ParseInt(row.classesAttended);
        if counter.None? {
          assert upsert.None?;
          return ScanFailed;
        }
        row := row.(classesAttended := DecimalString(counter.value + 1), timeIn := timeIn);
      }
      row := row.(status := scan.status, timeOut := "");
      assert UpdateScanRow(file.rows[k], scan, timeIn) == Some(row);
      file.rows := file.rows[k := row];
    } else {
      file.rows := file.rows + [NewScanRow(scan, id.value, timeIn)];
    }
    assert upsert == Some(file.rows);
    result := Saved(file.rows);
  }

  // ---------------------------------------------------------------
  // What a scan does
  // ---------------------------------------------------------------

  /** Exactly the non-empty lines that do not split into three fields are
      skipped as bad lines, and neither kind of line changes the table. */
  lemma BadLineSkipped(rows: seq<StudentRecord>, received: string, now: Minute)
    ensures (ScanStep(rows, received, now) == BadLine)
              <==> (Strip(received) != [] && |Split(Strip(received), ',')| != 3)
    ensures ScanStep(rows, received, now) == NoLine <==> Strip(received) == []
  {
  }

  /** A saved scan for an ID the table already holds changes only the
      first row with that ID: Status becomes the raw scanned text and
      TimeOut is cleared; on a "present" scan (in any letter case) the
      counter rises by one and TimeIn is the scan time, otherwise both are
      kept. ID, Name and Img_Path are never touched. */
  lemma ScanUpdatesExisting(rows: seq<StudentRecord>, scan: Scan, id: string, timeIn: string, k: nat)
    requires k < |rows| && rows[k].id == id
    requires forall j :: 0 <= j < k ==> rows[j].id != id
    requires UpsertScan(rows, scan, id, timeIn).Some?
    ensures var out := UpsertScan(rows, scan, id, timeIn).value;
      && |out| == |rows|
      && (forall j :: 0 <= j < |rows| && j != k ==> out[j] == rows[j])
      && out[k].status == scan.status && out[k].timeOut == ""
      && out[k].(status := rows[k].status, timeOut := rows[k].timeOut,
                 classesAttended := rows[k].classesAttended, timeIn := rows[k].timeIn) == rows[k]
      && (IsPresentStatus(scan.status) ==>
            CounterValue(out[k].classesAttended) == CounterValue(rows[k].classesAttended) + 1
            && out[k].timeIn == timeIn)
      && (!IsPresentStatus(scan.status) ==>
            out[k].classesAttended == rows[k].classesAttended && out[k].timeIn == rows[k].timeIn)
  {
    FirstWhereAt(rows, HasId(id), k);
    if IsPresentStatus(scan.status) {
      ScanPresentRow(rows[k], scan, timeIn);
    }
  }

  /** A "present" scan on a row whose counter reads as a number raises the
      counter by one, sets TimeIn to the scan time and stores the raw
      status. */
  lemma ScanPresentRow(r: StudentRecord, scan: Scan, timeIn: string)
    requires IsPresentStatus(scan.status) && ParseInt(r.classesAttended).Some?
    ensures UpdateScanRow(r, scan, timeIn).Some?
    ensures var out := UpdateScanRow(r, scan, timeIn).value;
      && out.status == scan.status && out.timeIn == timeIn && out.timeOut == ""
      && CounterValue(out.classesAttended) == CounterValue(r.classesAttended) + 1
      && out.(classesAttended := r.classesAttended, status := r.status,
              timeIn := r.timeIn, timeOut := r.timeOut) == r
  {
    ParseIntDecimal(ParseInt(r.classesAttended).value + 1);
  }

  /** A "present" scan for a row whose counter is not a number raises
      inside the update, and nothing is written. */
  lemma ScanUnreadableCounterFails(rows: seq<StudentRecord>, scan: Scan, id: string, timeIn: string, k: nat)
    requires k < |rows| && rows[k].id == id
    requires forall j :: 0 <= j < k ==> rows[j].id != id
    requires IsPresentStatus(scan.status) && ParseInt(rows[k].classesAttended).None?
    ensures UpsertScan(rows, scan, id, timeIn).None?
  {
    FirstWhereAt(rows, HasId(id), k);
  }

  /** A scan for an unseen ID appends exactly one row, with counter 1 and
      the scan time on a "present" scan and counter 0 and no time
      otherwise; the rows already there are kept as they were. */
  lemma ScanAppendsNew(rows: seq<StudentRecord>, scan: Scan, id: string, timeIn: string)
    requires forall j :: 0 <= j < |rows| ==> rows[j].id != id
    ensures UpsertScan(rows, scan, id, timeIn).Some?
    ensures var out := UpsertScan(rows, scan, id, timeIn).value;
      && |out| == |rows| + 1 && out[..|rows|] == rows
      && out[|rows|].id == id && out[|rows|].name == scan.name && out[|rows|].status == scan.status
      && out[|rows|].timeOut == "" && out[|rows|].imgPath == GetImagePath(scan.name)
      && CounterValue(out[|rows|].classesAttended) == (if IsPresentStatus(scan.status) then 1 else 0)
      && out[|rows|].timeIn == (if IsPresentStatus(scan.status) then timeIn else "")
  {
    assert FirstWhere(rows, HasId(id)).None?;
    ParseIntDecimal(1);
    ParseIntDecimal(0);
  }

  /** After any saved scan the table holds the scanned ID. */
  lemma ScanKeepsId(rows: seq<StudentRecord>, scan: Scan, id: string, timeIn: string)
    requires UpsertScan(rows, scan, id, timeIn).Some?
    ensures exists j :: 0 <= j < |UpsertScan(rows, scan, id, timeIn).value|
                        && UpsertScan(rows, scan, id, timeIn).value[j].id == id
  {
    var out := UpsertScan(rows, scan, id, timeIn).value;
    match FirstWhere(rows, HasId(id))
    case Some(k) =>
      assert out[k].id == id;
    case None =>
      assert out[|rows|].id == id;
  }

  // ---------------------------------------------------------------
  // Ingestion followed by the attendance sync
  // ---------------------------------------------------------------

  /** The text the reader sends for an attendance is not a status the
      sync treats as already counted. */
  lemma LowercasePresentNotCounted()
    ensures IsPresentStatus("present")
    ensures !Attendance.CountedStatus(Strip("present"))
  {
    StripUnchanged("present");
  }

  /** The script stores the scanned status text as received, and the sync
      only treats "Present" and "Late" (capitalised) as already counted.
      So a row not counted yet, scanned "present" on time and then synced,
      is counted by both: its counter rises by two for one attendance. */
  lemma IngestThenSyncCountsTwice(r: StudentRecord, scan: Scan, now: Minute,
                                  start: Minute, end: Minute, grace: int, today: Attendance.DayOrdinal)
    requires scan.status == "present"
    requires !Attendance.CountedStatus(Strip(r.status))
    requires ParseInt(r.classesAttended).Some?
    requires Attendance.Classify(now, start, end, grace, today) == Attendance.Present
    ensures UpdateScanRow(r, scan, FormatTime(now)).Some?
    ensures var sched := Attendance.Schedule(FormatTimePadded(start), FormatTimePadded(end), grace, today);
      var scanned := UpdateScanRow(r, scan, FormatTime(now)).value;
      var synced := Attendance.SyncRow(scanned, sched);
      && synced.status == "Present"
      && CounterValue(synced.classesAttended) == CounterValue(r.classesAttended) + 2
  {
    var sched := Attendance.Schedule(FormatTimePadded(start), FormatTimePadded(end), grace, today);
    LowercasePresentNotCounted();
    ScanPresentRow(r, scan, FormatTime(now));
    var scanned := UpdateScanRow(r, scan, FormatTime(now)).value;
    Attendance.OnTimeCheckIn(scanned.timeIn, sched, now, start, end);
    Attendance.ResyncEffect(scanned, Attendance.Present);
  }
}
