/** The student roster (core/student_manager.py): fresh IDs, photo paths,
    the roster view and add / update / delete over the rows of
    Students_Data.csv. */
module Students {
  import opened Wrappers
  import opened Text
  import opened Records
  import opened Tables

  /** The web path shown for a student without a photo. */
  const PlaceholderPhoto: string := "/assets/placeholder.png"

  /** The web directory uploaded photos are copied into. */
  const ProfilesDir: string := "/assets/profiles/"

  /** Every roster entry reports this many classes in total. */
  const ClassesTotal: int := 20

  // ---------------------------------------------------------------------
  // Fresh IDs
  // ---------------------------------------------------------------------

  /** The digits of `s`, in order: `"".join(c for c in s if c.isdigit())`. */
  function KeepDigits(s: string): (r: string)
    ensures |r| <= |s| && AllDigits(r)
    decreases |s|
  {
    if s == [] then []
    else (if IsDigit(s[0]) then [s[0]] else []) + KeepDigits(s[1..])
  }

  lemma {:induction false} KeepDigitsAppend(a: string, b: string)
    ensures KeepDigits(a + b) == KeepDigits(a) + KeepDigits(b)
    decreases |a|
  {
    if a == [] {
      assert a + b == b;
    } else {
      var head: string := if IsDigit(a[0]) then [a[0]] else [];
      assert (a + b)[0] == a[0];
      assert (a + b)[1..] == a[1..] + b;
      KeepDigitsAppend(a[1..], b);
      assert KeepDigits(a + b) == head + (KeepDigits(a[1..]) + KeepDigits(b));
      assert KeepDigits(a) == head + KeepDigits(a[1..]);
    }
  }

  lemma {:induction false} KeepDigitsAll(s: string)
    requires AllDigits(s)
    ensures KeepDigits(s) == s
    decreases |s|
  {
    if s != [] {
      KeepDigitsAll(s[1..]);
    }
  }

  /** The number an ID contributes to `_next_id`: the value of its digits,
      or nothing when it has none. */
  function IdNumber(id: string): Option<nat>
  {
    var digits := KeepDigits(id);
    if digits == [] then None else Some(DigitsValue(digits))
  }

  /** One step of the `max_num` loop. */
  function Bump(maxNum: nat, id: string): nat
  {
    match IdNumber(id)
    case Some(v) => if v > maxNum then v else maxNum
    case None => maxNum
  }

  /** The largest ID number of the rows, 0 when none has digits. */
  function MaxIdNumber(rows: seq<StudentRecord>): nat
    decreases |rows|
  {
    if rows == [] then 0
    else Bump(MaxIdNumber(rows[..|rows| - 1]), rows[|rows| - 1].id)
  }

  /** The maximum bounds every ID number and is one of them, or 0. */
  lemma {:induction false} MaxIdNumberSpec(rows: seq<StudentRecord>)
    ensures forall k :: 0 <= k < |rows| && IdNumber(rows[k].id).Some? ==> IdNumber(rows[k].id).value <= MaxIdNumber(rows)
    ensures MaxIdNumber(rows) == 0 || exists k :: 0 <= k < |rows| && IdNumber(rows[k].id) == Some(MaxIdNumber(rows))
    decreases |rows|
  {
    if rows != [] {
      var init := rows[..|rows| - 1];
      MaxIdNumberSpec(init);
      assert forall k :: 0 <= k < |init| ==> init[k] == rows[k];
    }
  }

  /** One more than the largest ID number, formatted as a student ID. */
  function FreshId(rows: seq<StudentRecord>): string
  {
    FormatStudentId(MaxIdNumber(rows) + 1)
  }

  /** `_next_id`, the loop that computes `FreshId`. */
  method NextId(rows: seq<StudentRecord>) returns (id: string)
    ensures id == FreshId(rows)
  {
    var maxNum: nat := 0;
    var i := 0;
    while i < |rows|
      invariant 0 <= i <= |rows|
      invariant maxNum == MaxIdNumber(rows[..i])
    {
      var digits := KeepDigits(rows[i].id);
      if digits != [] {
        var val := DigitsValue(digits);
        if val > maxNum {
          maxNum := val;
        }
      }
      assert rows[..i + 1][..i] == rows[..i];
      i := i + 1;
    }
    assert rows[..|rows|] == rows;
    id := FormatStudentId(maxNum + 1);
  }

  /** A formatted student ID reads back as its number. */
  lemma IdNumberOfFormatted(n: nat)
    ensures IdNumber(FormatStudentId(n)) == Some(n)
  {
    Format03Value(n);
    var f := Format03(n);
    KeepDigitsAppend("00-", f);
    KeepDigitsAll(f);
    assert KeepDigits("00-") == "00" by {
      assert KeepDigits("-") == [];
      assert KeepDigits("0-") == "0";
    }
    assert Zeros(2) == "00";
    LeadingZerosValue(2, f);
  }

  /** The next ID's number is above every existing ID's number, so the new
      ID differs from every existing one. */
  lemma NextIdFresh(rows: seq<StudentRecord>, k: nat)
    requires k < |rows|
    ensures IdNumber(rows[k].id).Some? ==> IdNumber(rows[k].id).value < MaxIdNumber(rows) + 1
    ensures FreshId(rows) != rows[k].id
  {
    var m := MaxIdNumber(rows);
    assert IdNumber(rows[k].id).Some? ==> IdNumber(rows[k].id).value <= m by {
      MaxIdNumberSpec(rows);
    }
    FormattedIdDiffers(m + 1, rows[k].id);
  }

  /** The fresh ID reads back as one more than the largest ID number. */
  lemma FreshIdNumber(rows: seq<StudentRecord>)
    ensures IdNumber(FreshId(rows)) == Some(MaxIdNumber(rows) + 1)
  {
    IdNumberOfFormatted(MaxIdNumber(rows) + 1);
  }

  /** An ID whose number is below `n` is not the formatted ID `n`. */
  lemma FormattedIdDiffers(n: nat, other: string)
    requires IdNumber(other).Some? ==> IdNumber(other).value < n
    ensures FormatStudentId(n) != other
  {
    IdNumberOfFormatted(n);
  }

  // ---------------------------------------------------------------------
  // Photo paths
  // ---------------------------------------------------------------------

  predicate IsSafeChar(c: char)
  {
    || ('A' <= c <= 'Z') || ('a' <= c <= 'z') || ('0' <= c <= '9')
    || c == '.' || c == '_' || c == '-'
  }

  /** The file name an uploaded photo is stored under: every character
      outside [A-Za-z0-9._-] becomes '_'. */
  function SafeName(name: string): (r: string)
    ensures |r| == |name|
    ensures forall i :: 0 <= i < |name| ==> r[i] == if IsSafeChar(name[i]) then name[i] else '_'
  {
    seq(|name|, i requires 0 <= i < |name| => if IsSafeChar(name[i]) then name[i] else '_')
  }

  /** A safe name is all safe characters, keeps the safe characters in
      place, and is its own safe name. */
  lemma SafeNameSafe(name: string)
    ensures forall i :: 0 <= i < |name| ==> IsSafeChar(SafeName(name)[i])
    ensures forall i :: 0 <= i < |name| && IsSafeChar(name[i]) ==> SafeName(name)[i] == name[i]
    ensures SafeName(SafeName(name)) == SafeName(name)
  {
  }

  /** What copying the uploaded file did: the source file was missing, the
      copy failed, or it succeeded for a source file called `fileName`. */
  datatype PhotoCopy = SourceMissing | CopyFailed | Copied(fileName: string)

  /** `_copy_photo_to_profiles`: the web path stored in Img_Path for an
      uploaded photo, "" when there is none or it could not be copied. A
      path is stored exactly when a photo was given and copied, and it is
      the safe name of the copied file under the profiles directory. */
  function StoredPhotoPath(photo: string, copy: PhotoCopy): (r: string)
    ensures r == [] || StartsWith(r, ProfilesDir)
    ensures r != [] <==> photo != [] && copy.Copied?
    ensures photo != [] && copy.Copied? ==> r == ProfilesDir + SafeName(copy.fileName)
  {
    if photo == [] then ""
    else match copy
      case Copied(fileName) => ProfilesDir + SafeName(fileName)
      case _ => ""
  }

  /** `_resolve_photo_path`: the placeholder for an empty path; otherwise
      backslashes become '/', and a '/' is put in front unless the path
      already starts with "/assets/". */
  function ResolvePhotoPath(imgPath: string): string
  {
    if imgPath == [] then PlaceholderPhoto
    else
      var path := ReplaceChar(imgPath, '\\', '/');
      if StartsWith(path, "/assets/") then path else "/" + path
  }

  /** A resolved path starts with '/', holds no backslash, and is the
      slash-converted path, with a '/' in front exactly when that did not
      start with "/assets/". */
  lemma ResolvePhotoPathShape(imgPath: string)
    ensures var r := ResolvePhotoPath(imgPath);
      |r| > 0 && r[0] == '/' && '\\' !in r
    ensures imgPath == [] ==> ResolvePhotoPath(imgPath) == PlaceholderPhoto
    ensures imgPath != [] ==>
      var path := ReplaceChar(imgPath, '\\', '/');
      (StartsWith(path, "/assets/") ==> ResolvePhotoPath(imgPath) == path)
      && (!StartsWith(path, "/assets/") ==> ResolvePhotoPath(imgPath) == "/" + path)
  {
    if imgPath != [] {
      var path := ReplaceChar(imgPath, '\\', '/');
      assert '\\' !in path;
      if !StartsWith(path, "/assets/") {
        assert '\\' !in "/" + path;
      }
    }
  }

  /** A photo path stored by the roster resolves to itself, or to the
      placeholder when none was stored. */
  lemma ResolveStoredPhoto(photo: string, copy: PhotoCopy)
    ensures var stored := StoredPhotoPath(photo, copy);
      ResolvePhotoPath(stored) == if stored == [] then PlaceholderPhoto else stored
  {
    var stored := StoredPhotoPath(photo, copy);
    if stored != [] {
      var name := copy.fileName;
      SafeNameSafe(name);
      assert stored == ProfilesDir + SafeName(name);
      assert forall i :: 0 <= i < |stored| ==> stored[i] != '\\';
      assert ReplaceChar(stored, '\\', '/') == stored;
      assert stored[..|"/assets/"|] == "/assets/";
    }
  }

  /** Resolving is not idempotent: a relative path gains one '/' each time. */
  lemma ResolveTwiceAddsSlash(imgPath: string)
    requires imgPath != [] && '\\' !in imgPath && imgPath[0] != '/' && !StartsWith(imgPath, "assets/")
    ensures ResolvePhotoPath(imgPath) == "/" + imgPath
    ensures ResolvePhotoPath(ResolvePhotoPath(imgPath)) == "//" + imgPath
  {
    assert ReplaceChar(imgPath, '\\', '/') == imgPath;
    var once := "/" + imgPath;
    assert ReplaceChar(once, '\\', '/') == once;
    assert !StartsWith(imgPath, "/assets/");
    if |imgPath| >= 7 {
      assert once[1..8] == imgPath[..7];
      assert once[..8][1..] == once[1..8];
    }
    assert !StartsWith(once, "/assets/");
    assert "/" + once == "//" + imgPath;
  }

  // ---------------------------------------------------------------------
  // The roster view
  // ---------------------------------------------------------------------

  /** One entry of `get_all_students`. */
  datatype StudentView = StudentView(id: string, name: string, photo: string, attended: int, classesTotal: int)

  /** The entry for one row. */
  function ViewOf(r: StudentRecord): StudentView
  {
    StudentView(r.id, r.name, ResolvePhotoPath(r.imgPath), CounterValue(r.classesAttended), ClassesTotal)
  }

  function ViewFn(): StudentRecord -> StudentView
  {
    (r: StudentRecord) => ViewOf(r)
  }

  /** `get_all_students`: one entry per row, in order. */
  function GetAllStudents(rows: seq<StudentRecord>): seq<StudentView>
  {
    MapSeq(rows, ViewFn())
  }

  /** The roster keeps every row's ID and name in order, always reports 20
      classes, shows the row's resolved photo path (which starts with '/'),
      and 0 attended classes for a counter that is not an integer. */
  lemma GetAllStudentsSpec(rows: seq<StudentRecord>, i: nat)
    requires i < |rows|
    ensures |GetAllStudents(rows)| == |rows|
    ensures var v := GetAllStudents(rows)[i];
      && v.id == rows[i].id && v.name == rows[i].name
      && v.classesTotal == 20
      && v.photo == ResolvePhotoPath(rows[i].imgPath)
      && |v.photo| > 0 && v.photo[0] == '/'
      && (ParseInt(rows[i].classesAttended).None? ==> v.attended == 0)
      && (ParseInt(rows[i].classesAttended).Some? ==> v.attended == ParseInt(rows[i].classesAttended).value)
  {
    ResolvePhotoPathShape(rows[i].imgPath);
  }

  // ---------------------------------------------------------------------
  // Add, update, delete
  // ---------------------------------------------------------------------

  /** The fields a form submits; a missing key is `None`. */
  datatype Payload = Payload(name: Option<string>, photo: Option<string>, attended: Option<string>)

  /** `int(payload.get("attended", 0))`; a value that is not an integer
      raises, which ends `add_student` before anything is written. */
  function PayloadAttended(p: Payload): Result<int>
  {
    match p.attended
    case None => Ok(0)
    case Some(text) =>
      match ParseInt(text)
      case Some(n) => Ok(n)
      case None => Err("invalid literal for int()")
  }

  /** The row `add_student` appends, or the error it raises. */
  function NewStudentRow(rows: seq<StudentRecord>, p: Payload, copy: PhotoCopy): Result<StudentRecord>
  {
    match PayloadAttended(p)
    case Err(m) => Err(m)
    case Ok(attended) =>
      var name := match p.name case Some(n) => n case None => "";
      var photo := match p.photo case Some(ph) => ph case None => "";
      Ok(StudentRecord(FreshId(rows), Strip(name), "", DecimalString(attended),
                       "", "", StoredPhotoPath(photo, copy)))
  }

  /** The new row has the next ID, which no existing row has, the stripped
      name, no status and no check-in times, the given count, and the
      stored path of the uploaded photo. */
  lemma NewStudentRowSpec(rows: seq<StudentRecord>, p: Payload, copy: PhotoCopy)
    ensures NewStudentRow(rows, p, copy).Err? <==> p.attended.Some? && ParseInt(p.attended.value).None?
    ensures NewStudentRow(rows, p, copy).Ok? ==>
      var r := NewStudentRow(rows, p, copy).value;
      && r.id == FreshId(rows)
      && (forall k :: 0 <= k < |rows| ==> r.id != rows[k].id)
      && r.name == Strip(if p.name.Some? then p.name.value else "")
      && r.status == "" && r.timeIn == "" && r.timeOut == ""
      && CounterValue(r.classesAttended) == PayloadAttended(p).value
      && r.imgPath == StoredPhotoPath(if p.photo.Some? then p.photo.value else "", copy)
  {
    if NewStudentRow(rows, p, copy).Ok? {
      forall k | 0 <= k < |rows|
        ensures FreshId(rows) != rows[k].id
      {
        NextIdFresh(rows, k);
      }
      ParseIntDecimal(PayloadAttended(p).value);
    }
  }

  /** `add_student`: append the new row at the end of the table and report
      its roster entry. */
  method AddStudent(file: StudentsFile, p: Payload, copy: PhotoCopy) returns (res: Result<StudentView>)
    modifies file
    ensures match NewStudentRow(old(file.rows), p, copy)
      case Err(m) => res == Err(m) && file.rows == old(file.rows)
      case Ok(row) => file.rows == old(file.rows) + [row] && res == Ok(ViewOf(row))
  {
    var rows := file.rows;
    var newId := NextId(rows);
    var attended := PayloadAttended(p);
    if attended.Err? {
      return Err(attended.message);
    }
    var photoPath := StoredPhotoPath(if p.photo.Some? then p.photo.value else "", copy);
    var row := StudentRecord(newId, Strip(if p.name.Some? then p.name.value else ""), "",
                             DecimalString(attended.value), "", "", photoPath);
    rows := rows + [row];
    file.rows := rows;
    ParseIntDecimal(attended.value);
    res := Ok(StudentView(row.id, row.name, ResolvePhotoPath(row.imgPath), attended.value, ClassesTotal));
  }

  /** The fields `update_student` writes into the matching row: a new
      stripped name, a new photo path, and a new count only when "attended"
      is an integer. */
  function EditRow(r: StudentRecord, p: Payload, copy: PhotoCopy): StudentRecord
  {
    var r1 := if p.name.Some? then r.(name := Strip(p.name.value)) else r;
    var r2 := if p.photo.Some? then r1.(imgPath := StoredPhotoPath(p.photo.value, copy)) else r1;
    if p.attended.Some? then
      match ParseInt(p.attended.value)
      case Some(n) => r2.(classesAttended := DecimalString(n))
      case None => r2
    else r2
  }

  /** An edit keeps the ID, status and times; it changes a field only when
      the payload names it, and a count that is not an integer changes
      nothing. */
  lemma EditRowSpec(r: StudentRecord, p: Payload, copy: PhotoCopy)
    ensures var e := EditRow(r, p, copy);
      && e.id == r.id && e.status == r.status && e.timeIn == r.timeIn && e.timeOut == r.timeOut
      && (p.name.None? ==> e.name == r.name)
      && (p.name.Some? ==> e.name == Strip(p.name.value))
      && (p.photo.None? ==> e.imgPath == r.imgPath)
      && (p.photo.Some? ==> e.imgPath == StoredPhotoPath(p.photo.value, copy))
      && (p.attended.None? || ParseInt(p.attended.value).None? ==> e.classesAttended == r.classesAttended)
      && (p.attended.Some? && ParseInt(p.attended.value).Some? ==>
            CounterValue(e.classesAttended) == ParseInt(p.attended.value).value)
  {
    if p.attended.Some? && ParseInt(p.attended.value).Some? {
      ParseIntDecimal(ParseInt(p.attended.value).value);
    }
  }

  /** The table `update_student` writes: the first row with the ID edited,
      or "student not found" when there is none. */
  function UpdateRows(rows: seq<StudentRecord>, studentId: string, p: Payload, copy: PhotoCopy): Result<seq<StudentRecord>>
  {
    match FirstWhere(rows, HasId(studentId))
    case None => Err("student not found")
    case Some(k) => Ok(rows[k := EditRow(rows[k], p, copy)])
  }

  /** An update fails exactly when no row has the ID; otherwise it changes
      the first row with the ID and no other row. */
  lemma UpdateRowsSpec(rows: seq<StudentRecord>, studentId: string, p: Payload, copy: PhotoCopy)
    ensures UpdateRows(rows, studentId, p, copy).Err? <==> forall k :: 0 <= k < |rows| ==> rows[k].id != studentId
    ensures UpdateRows(rows, studentId, p, copy).Ok? ==>
      var out := UpdateRows(rows, studentId, p, copy).value;
      && |out| == |rows|
      && (exists k :: 0 <= k < |rows| && rows[k].id == studentId
            && (forall j :: 0 <= j < k ==> rows[j].id != studentId)
            && out[k] == EditRow(rows[k], p, copy)
            && (forall j :: 0 <= j < |rows| && j != k ==> out[j] == rows[j]))
  {
    match FirstWhere(rows, HasId(studentId))
    case None =>
    case Some(k) =>
      assert HasId(studentId)(rows[k]);
      forall j | 0 <= j < k ensures rows[j].id != studentId {
        assert !HasId(studentId)(rows[j]);
      }
  }

  /** The entry `update_student` returns: `int(ClassesAttended or 0)`,
      which raises for a stored count that is not an integer. */
  function UpdatedView(r: StudentRecord): Result<StudentView>
  {
    if r.classesAttended == "" then Ok(StudentView(r.id, r.name, ResolvePhotoPath(r.imgPath), 0, ClassesTotal))
    else match ParseInt(r.classesAttended)
      case Some(n) => Ok(StudentView(r.id, r.name, ResolvePhotoPath(r.imgPath), n, ClassesTotal))
      case None => Err("invalid literal for int()")
  }

  /** The returned entry is the roster entry of the edited row, unless its
      count is neither empty nor an integer. */
  lemma UpdatedViewSpec(r: StudentRecord)
    ensures UpdatedView(r).Err? <==> r.classesAttended != "" && ParseInt(r.classesAttended).None?
    ensures UpdatedView(r).Ok? ==> UpdatedView(r).value == ViewOf(r)
  {
  }

  /** `update_student`: edit the first row with the ID in place and write the
      table; with no such row, raise and write nothing. The entry is
      computed after the write, so its error leaves the table written. */
  method UpdateStudent(file: StudentsFile, studentId: string, p: Payload, copy: PhotoCopy)
    returns (res: Result<StudentView>)
    modifies file
    ensures match UpdateRows(old(file.rows), studentId, p, copy)
      case Err(m) => res == Err(m) && file.rows == old(file.rows)
      case Ok(out) =>
        && file.rows == out
        && res == UpdatedView(out[FirstWhere(old(file.rows), HasId(studentId)).value])
  {
    var rows := file.rows;
    var i := 0;
    while i < |rows|
      invariant 0 <= i <= |rows|
      invariant forall j :: 0 <= j < i ==> !HasId(studentId)(rows[j])
    {
      if rows[i].id == studentId {
        assert HasId(studentId)(rows[i]);
        var row := EditRow(rows[i], p, copy);
        rows := rows[i := row];
        file.rows := rows;
        res := UpdatedView(row);
        return;
      }
      i := i + 1;
    }
    res := Err("student not found");
  }

  function NotId(studentId: string): StudentRecord -> bool
  {
    (r: StudentRecord) => r.id != studentId
  }

  /** `delete_student`'s comprehension: the rows without the ID, in order. */
  function RemoveStudentRows(rows: seq<StudentRecord>, studentId: string): seq<StudentRecord>
  {
    Filter(rows, NotId(studentId))
  }

  /** After deleting, no row has the ID, every other row is still there,
      the length drops exactly when some row had the ID, and deleting from
      two halves of the table deletes from each in order. */
  lemma RemoveStudentRowsSpec(rows: seq<StudentRecord>, studentId: string, r: StudentRecord)
    ensures forall i :: 0 <= i < |RemoveStudentRows(rows, studentId)| ==> RemoveStudentRows(rows, studentId)[i].id != studentId
    ensures r in RemoveStudentRows(rows, studentId) <==> r in rows && r.id != studentId
    ensures |RemoveStudentRows(rows, studentId)| == |rows| <==> forall k :: 0 <= k < |rows| ==> rows[k].id != studentId
    ensures (forall k :: 0 <= k < |rows| ==> rows[k].id != studentId) ==> RemoveStudentRows(rows, studentId) == rows
  {
    var out := RemoveStudentRows(rows, studentId);
    forall i | 0 <= i < |out| ensures out[i].id != studentId {
      assert NotId(studentId)(out[i]);
    }
    FilterMembers(rows, NotId(studentId), r);
    FilterKeepsAll(rows, NotId(studentId));
  }

  /** Deleting from a table made of two parts deletes from each part. */
  lemma RemoveStudentRowsAppend(a: seq<StudentRecord>, b: seq<StudentRecord>, studentId: string)
    ensures RemoveStudentRows(a + b, studentId) == RemoveStudentRows(a, studentId) + RemoveStudentRows(b, studentId)
  {
    FilterAppend(a, b, NotId(studentId));
  }

  /** `delete_student`: drop every row with the ID; raise "student not
      found" and write nothing when no row was dropped. */
  method DeleteStudent(file: StudentsFile, studentId: string) returns (res: Outcome)
    modifies file
    ensures var out := RemoveStudentRows(old(file.rows), studentId);
      if |out| == |old(file.rows)| then res == Failed("student not found") && file.rows == old(file.rows)
      else res == Done && file.rows == out
  {
    var newRows := RemoveStudentRows(file.rows, studentId);
    if |newRows| == |file.rows| {
      return Failed("student not found");
    }
    file.rows := newRows;
    res := Done;
  }
}
