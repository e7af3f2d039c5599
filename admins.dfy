/** The admin credential table (core/admin_manager.py): exact-match login,
    and signup with duplicate rejection and max+1 IDs. */
module Admins {
  import opened Wrappers
  import opened Text
  import opened Records
  import opened Tables

  // ---------------------------------------------------------------------
  // Login
  // ---------------------------------------------------------------------

  /** The row test of `admin_login`: both columns equal the inputs exactly. */
  function CredentialsAre(username: string, password: string): AdminRecord -> bool
  {
    (r: AdminRecord) => r.username == username && r.password == password
  }

  /** `admin_login`: some row holds exactly this username and password
      (no trimming, no case folding). */
  function AdminLogin(rows: seq<AdminRecord>, username: string, password: string): (ok: bool)
    ensures ok <==> exists i :: 0 <= i < |rows| && rows[i].username == username && rows[i].password == password
  {
    var found := FirstWhere(rows, CredentialsAre(username, password));
    assert found.None? ==> forall i :: 0 <= i < |rows| ==> !CredentialsAre(username, password)(rows[i]);
    found.Some?
  }

  // ---------------------------------------------------------------------
  // IDs
  // ---------------------------------------------------------------------

  /** `int(r["id"])`, nothing when it raises. */
  function ParsedIdFn(): AdminRecord -> Option<int>
  {
    (r: AdminRecord) => ParseInt(r.id)
  }

  /** The value of the `max_id` loop: `max(max_id, int(r["id"]))` over the
      rows from 0, skipping the ids that do not parse. */
  function MaxParsedId(rows: seq<AdminRecord>): int
  {
    MaxValue(rows, ParsedIdFn())
  }

  /** The id a new account gets. */
  function NewAdminId(rows: seq<AdminRecord>): int
  {
    MaxParsedId(rows) + 1
  }

  /** The `max_id` loop shared by `admin_signup` and the signup page. */
  method NextAdminId(rows: seq<AdminRecord>) returns (id: int)
    ensures id == NewAdminId(rows)
  {
    var maxId := 0;
    var i := 0;
    while i < |rows|
      invariant 0 <= i <= |rows|
      invariant maxId == MaxParsedId(rows[..i])
    {
      var parsed := ParseInt(rows[i].id);
      if parsed.Some? {
        maxId := if parsed.value > maxId then parsed.value else maxId;
      }
      MaxValueStep(rows, ParsedIdFn(), i);
      i := i + 1;
    }
    assert rows[..|rows|] == rows;
    id := maxId + 1;
  }

  /** The new id is positive and above every id that parses. */
  lemma NewAdminIdFresh(rows: seq<AdminRecord>, k: nat)
    requires k < |rows|
    ensures NewAdminId(rows) >= 1
    ensures ParseInt(rows[k].id).Some? ==> ParseInt(rows[k].id).value < NewAdminId(rows)
  {
    MaxValueSpec(rows, ParsedIdFn());
    assert ParsedIdFn()(rows[k]) == ParseInt(rows[k].id);
  }

  // ---------------------------------------------------------------------
  // Signup
  // ---------------------------------------------------------------------

  function UsernameIs(username: string): AdminRecord -> bool
  {
    (r: AdminRecord) => r.username == username
  }

  /** The row `admin_signup` appends, or "username already exists" when a
      row has exactly this username. */
  function SignupRow(rows: seq<AdminRecord>, username: string, password: string): Result<AdminRecord>
  {
    if FirstWhere(rows, UsernameIs(username)).Some? then Err("username already exists")
    else Ok(AdminRecord(DecimalString(NewAdminId(rows)), username, password))
  }

  /** Signup fails exactly on an exact duplicate username; otherwise the new
      row carries the inputs and an id above every id that parses. */
  lemma SignupRowSpec(rows: seq<AdminRecord>, username: string, password: string)
    ensures SignupRow(rows, username, password).Err? <==> exists k :: 0 <= k < |rows| && rows[k].username == username
    ensures SignupRow(rows, username, password).Ok? ==>
      var row := SignupRow(rows, username, password).value;
      && row.username == username && row.password == password
      && ParseInt(row.id) == Some(NewAdminId(rows))
      && NewAdminId(rows) >= 1
      && (forall k :: 0 <= k < |rows| && ParseInt(rows[k].id).Some? ==> ParseInt(rows[k].id).value < NewAdminId(rows))
  {
    if FirstWhere(rows, UsernameIs(username)).None? {
      assert forall k :: 0 <= k < |rows| ==> !UsernameIs(username)(rows[k]);
      ParseIntDecimal(NewAdminId(rows));
      forall k | 0 <= k < |rows| && ParseInt(rows[k].id).Some?
        ensures ParseInt(rows[k].id).value < NewAdminId(rows)
      {
        NewAdminIdFresh(rows, k);
      }
      if |rows| > 0 {
        NewAdminIdFresh(rows, 0);
      } else {
        assert MaxParsedId(rows) == 0;
      }
    } else {
      var k := FirstWhere(rows, UsernameIs(username)).value;
      assert UsernameIs(username)(rows[k]);
    }
  }

  /** The id column as `_write_admin_csv` should write it: `int(id)` when it
      parses, and the stored text otherwise. */
  function WrittenId(id: string): string
  {
    match ParseInt(id)
    case Some(v) => DecimalString(v)
    case None => id
  }

  function WrittenRow(r: AdminRecord): AdminRecord
  {
    r.(id := WrittenId(r.id))
  }

  function WrittenRowFn(): AdminRecord -> AdminRecord
  {
    (r: AdminRecord) => WrittenRow(r)
  }

  /** The table `_write_admin_csv` leaves in admin.csv, every row kept. */
  function WriteAdminRows(rows: seq<AdminRecord>): seq<AdminRecord>
  {
    MapSeq(rows, WrittenRowFn())
  }

  /** Writing keeps every row, its username and its password, and an id that
      reads back as the same number. */
  lemma WriteAdminRowsKeeps(rows: seq<AdminRecord>, k: nat)
    requires k < |rows|
    ensures |WriteAdminRows(rows)| == |rows|
    ensures WriteAdminRows(rows)[k].username == rows[k].username
    ensures WriteAdminRows(rows)[k].password == rows[k].password
    ensures ParseInt(WriteAdminRows(rows)[k].id) == ParseInt(rows[k].id)
  {
    assert WriteAdminRows(rows)[k] == WrittenRow(rows[k]);
    if ParseInt(rows[k].id).Some? {
      ParseIntDecimal(ParseInt(rows[k].id).value);
    }
  }

  /** Writing the table keeps every account able to log in. */
  lemma WriteAdminRowsKeepsLogins(rows: seq<AdminRecord>, username: string, password: string)
    ensures AdminLogin(WriteAdminRows(rows), username, password) <==> AdminLogin(rows, username, password)
  {
    if AdminLogin(rows, username, password) {
      var i :| 0 <= i < |rows| && rows[i].username == username && rows[i].password == password;
      WriteAdminRowsKeeps(rows, i);
    }
    if AdminLogin(WriteAdminRows(rows), username, password) {
      var out := WriteAdminRows(rows);
      var i :| 0 <= i < |out| && out[i].username == username && out[i].password == password;
      WriteAdminRowsKeeps(rows, i);
    }
  }

  /** `admin_signup` with the corrected write: reject an exact duplicate
      username, otherwise append a row with the next id and write the
      table, every row kept. The source's write can instead raise after
      emptying admin.csv; `AdminSignupAsWritten` models that. */
  method AdminSignup(file: AdminFile, username: string, password: string) returns (res: Result<AdminRecord>)
    modifies file
    ensures match SignupRow(old(file.rows), username, password)
      case Err(m) => res == Err(m) && file.rows == old(file.rows)
      case Ok(row) => res == Ok(row) && file.rows == WriteAdminRows(old(file.rows) + [row])
  {
    var rows := file.rows;
    var i := 0;
    while i < |rows|
      invariant 0 <= i <= |rows|
      invariant forall j :: 0 <= j < i ==> !UsernameIs(username)(rows[j])
    {
      if rows[i].username == username {
        assert UsernameIs(username)(rows[i]);
        return Err("username already exists");
      }
      i := i + 1;
    }
    var newId := NextAdminId(rows);
    var row := AdminRecord(DecimalString(newId), username, password);
    rows := rows + [row];
    file.rows := WriteAdminRows(rows);
    res := Ok(row);
  }

  /** After a successful signup the new account logs in, and so does every
      account that could log in before. */
  lemma SignupThenAdminLogin(rows: seq<AdminRecord>, username: string, password: string,
                             other: string, otherPassword: string)
    requires SignupRow(rows, username, password).Ok?
    ensures var after := WriteAdminRows(rows + [SignupRow(rows, username, password).value]);
      && AdminLogin(after, username, password)
      && (AdminLogin(rows, other, otherPassword) ==> AdminLogin(after, other, otherPassword))
  {
    var row := SignupRow(rows, username, password).value;
    var all := rows + [row];
    WriteAdminRowsKeepsLogins(all, username, password);
    assert all[|rows|] == row;
    WriteAdminRowsKeepsLogins(all, other, otherPassword);
    if AdminLogin(rows, other, otherPassword) {
      var i :| 0 <= i < |rows| && rows[i].username == other && rows[i].password == otherPassword;
      assert all[i] == rows[i];
    }
  }

  // ---------------------------------------------------------------------
  // The write as the source has it
  // ---------------------------------------------------------------------

  /** What admin.csv holds after `_write_admin_csv` as written: the file is
      opened for writing first, then each row is written with `int(id)`, so
      the first id that does not parse raises and the file keeps only the
      rows before it. `complete` is false when that happened. */
  function WriteRowAsWritten(): AdminRecord -> Option<AdminRecord>
  {
    (r: AdminRecord) =>
      match ParseInt(r.id)
      case Some(v) => Some(r.(id := DecimalString(v)))
      case None => None
  }

  function WriteAsWritten(rows: seq<AdminRecord>): Partial<AdminRecord>
  {
    MapUntil(rows, WriteRowAsWritten())
  }

  /** `admin_signup` as written: the table left in admin.csv and the result;
      a failed write raises after the file was already truncated. */
  function AdminSignupAsWritten(rows: seq<AdminRecord>, username: string, password: string)
    : (r: (seq<AdminRecord>, Result<AdminRecord>))
    ensures |r.0| <= |rows| + 1
    ensures r.1.Ok? ==> |r.0| == |rows| + 1
  {
    match SignupRow(rows, username, password)
    case Err(m) => (rows, Err(m))
    case Ok(row) =>
      var w := WriteAsWritten(rows + [row]);
      (w.done, if w.complete then Ok(row) else Err("invalid literal for int()"))
  }

  /** As written, a stored id that does not parse makes the signup fail
      after the write has dropped that row and every row after it. */
  lemma WriteAsWrittenDropsFromBadId(rows: seq<AdminRecord>, k: nat)
    requires k < |rows| && ParseInt(rows[k].id).None?
    ensures !WriteAsWritten(rows).complete
    ensures |WriteAsWritten(rows).done| <= k
  {
    assert WriteRowAsWritten()(rows[k]).None?;
    MapUntilStops(rows, WriteRowAsWritten(), k);
  }

  /** As written, a signup succeeds exactly when the username is new and
      every stored id parses; it then leaves the same table as the
      corrected write. A duplicate leaves the table as it was, and an id
      that does not parse makes a new username's signup fail with that row
      and every later one dropped. */
  lemma AdminSignupAsWrittenSpec(rows: seq<AdminRecord>, username: string, password: string)
    ensures var out := AdminSignupAsWritten(rows, username, password);
      out.1.Ok? <==>
        SignupRow(rows, username, password).Ok? && forall k :: 0 <= k < |rows| ==> ParseInt(rows[k].id).Some?
    ensures var out := AdminSignupAsWritten(rows, username, password);
      SignupRow(rows, username, password).Err? ==> out == (rows, SignupRow(rows, username, password))
    ensures var out := AdminSignupAsWritten(rows, username, password);
      out.1.Ok? ==> out == (WriteAdminRows(rows + [out.1.value]), SignupRow(rows, username, password))
    ensures SignupRow(rows, username, password).Ok? ==>
      forall k :: 0 <= k < |rows| && ParseInt(rows[k].id).None? ==>
      |AdminSignupAsWritten(rows, username, password).0| <= k
  {
    if SignupRow(rows, username, password).Ok? {
      var row := SignupRow(rows, username, password).value;
      var all := rows + [row];
      if forall k :: 0 <= k < |rows| ==> ParseInt(rows[k].id).Some? {
        forall k | 0 <= k < |all|
          ensures WriteRowAsWritten()(all[k]).Some?
          ensures WriteRowAsWritten()(all[k]).value == WriteAdminRows(all)[k]
        {
          if k == |rows| {
            SignupRowSpec(rows, username, password);
          }
          assert WriteAdminRows(all)[k] == WrittenRow(all[k]);
        }
        MapUntilAll(all, WriteRowAsWritten());
        assert WriteAsWritten(all).done == WriteAdminRows(all);
      } else {
        var k :| 0 <= k < |rows| && ParseInt(rows[k].id).None?;
        WriteAsWrittenDropsFromBadId(all, k);
      }
      forall k | 0 <= k < |rows| && ParseInt(rows[k].id).None?
        ensures |AdminSignupAsWritten(rows, username, password).0| <= k
      {
        WriteAsWrittenDropsFromBadId(all, k);
      }
    }
  }

  /** The concrete case: an admin table holding the account ("alice", "pw")
      under the id "x". Signing up "bob" as written raises and leaves an
      empty admin.csv, so neither account can log in; the corrected write
      keeps both. */
  lemma SignupWithBadIdEmptiesTable()
    ensures var rows := [AdminRecord("x", "alice", "pw")];
      && AdminLogin(rows, "alice", "pw")
      && AdminSignupAsWritten(rows, "bob", "pw2").0 == []
      && AdminSignupAsWritten(rows, "bob", "pw2").1.Err?
      && !AdminLogin(AdminSignupAsWritten(rows, "bob", "pw2").0, "alice", "pw")
      && AdminLogin(WriteAdminRows(rows + [SignupRow(rows, "bob", "pw2").value]), "alice", "pw")
      && AdminLogin(WriteAdminRows(rows + [SignupRow(rows, "bob", "pw2").value]), "bob", "pw2")
  {
    var rows := [AdminRecord("x", "alice", "pw")];
    assert rows[0].username == "alice" && rows[0].password == "pw";
    assert ParseInt("x").None? by {
      assert Strip("x") == "x" by {
        StripUnchanged("x");
      }
      assert !IsUnderscoredDigits("x");
    }
    assert "alice" != "bob";
    SignupRowSpec(rows, "bob", "pw2");
    var row := SignupRow(rows, "bob", "pw2").value;
    WriteAsWrittenDropsFromBadId(rows + [row], 0);
    SignupThenAdminLogin(rows, "bob", "pw2", "alice", "pw");
  }
}
