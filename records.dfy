/** The two flat tables the application keeps: the student attendance
    table (Students_Data.csv, shared by the attendance engine, the roster
    screens and the RFID ingestion script) and the admin credential table
    (admin.csv). A table is held as a sequence of rows; every CSV write
    replaces the whole sequence. */
module Records {
  import opened Wrappers
  import opened Text

  /** One row of Students_Data.csv. Every column holds the text read from
      the file: Status, ClassesAttended and TimeIn are not trusted to be
      well formed. */
  datatype StudentRecord = StudentRecord(
    id: string,
    name: string,
    status: string,
    classesAttended: string,
    timeIn: string,
    timeOut: string,
    imgPath: string)

  /** One row of admin.csv; the id column is text until int() reads it. */
  datatype AdminRecord = AdminRecord(id: string, username: string, password: string)

  /** The students file: read it by reading `rows`, write it by replacing them. */
  class StudentsFile {
    var rows: seq<StudentRecord>

    constructor (initial: seq<StudentRecord>)
      ensures rows == initial
    {
      rows := initial;
    }
  }

  /** The admin credential file. */
  class AdminFile {
    var rows: seq<AdminRecord>

    constructor (initial: seq<AdminRecord>)
      ensures rows == initial
    {
      rows := initial;
    }
  }

  function IdOf(r: StudentRecord): string
  {
    r.id
  }

  /** The row test `r.get("ID") == student_id` and `df['ID'] == student_id`:
      the ID column equals `id` exactly. */
  function HasId(id: string): StudentRecord -> bool
  {
    (r: StudentRecord) => r.id == id
  }

  /** A ClassesAttended cell read as a number, `int(...)` with a failed
      parse (and the empty cell) read as 0. */
  function CounterValue(text: string): int
  {
    match ParseInt(text)
    case Some(n) => n
    case None => 0
  }

  /** The student ID format `f"00-{n:03d}"`. */
  function FormatStudentId(n: int): string
  {
    "00-" + Format03(n)
  }
}
