/** The admin login and signup pages (auth/admin_login.py,
    auth/admin_signup.py): the ordered checks behind the "Login" and
    "Create account" buttons, and what they do to the page. */
module Auth {
  import opened Wrappers
  import opened Text
  import opened Records
  import opened Tables
  import opened Admins

  /** The colours the status line is painted in. */
  const ErrorColor: string := "#B00020"
  const SuccessColor: string := "#2E7D32"

  const DatabaseErrorMessage: string := "Database error. Please try again."

  /** The page-side account test: the stored username, trimmed and
      lower-cased, equals the lower-cased (already trimmed) input. */
  function UsernameMatches(username: string): AdminRecord -> bool
  {
    (r: AdminRecord) => Lower(Strip(r.username)) == Lower(username)
  }

  // ---------------------------------------------------------------------
  // Login
  // ---------------------------------------------------------------------

  datatype LoginOutcome = UsernameRequired | PasswordRequired | LoginDatabaseError
                        | NotRegistered | IncorrectPassword | LoggedIn

  function LoginMessage(o: LoginOutcome): string
  {
    match o
    case UsernameRequired => "Username is required"
    case PasswordRequired => "Password is required"
    case LoginDatabaseError => DatabaseErrorMessage
    case NotRegistered => "Account not registered"
    case IncorrectPassword => "Incorrect password"
    case LoggedIn => ""
  }

  /** The decision `on_login` takes for the two field values and the admin
      table, `None` when reading it failed. */
  function LoginDecision(usernameValue: string, passwordValue: string, store: Option<seq<AdminRecord>>): LoginOutcome
  {
    var username := Strip(usernameValue);
    var password := Strip(passwordValue);
    if username == [] then UsernameRequired
    else if password == [] then PasswordRequired
    else match store
      case None => LoginDatabaseError
      case Some(rows) =>
        match FirstWhere(rows, UsernameMatches(username))
        case None => NotRegistered
        case Some(k) => if rows[k].password != password then IncorrectPassword else LoggedIn
  }

  /** The checks run in order: the username before the password, both before
      the table is read. */
  lemma LoginChecksInOrder(usernameValue: string, passwordValue: string, store: Option<seq<AdminRecord>>)
    ensures Strip(usernameValue) == [] ==> LoginDecision(usernameValue, passwordValue, store) == UsernameRequired
    ensures Strip(usernameValue) != [] && Strip(passwordValue) == [] ==>
              LoginDecision(usernameValue, passwordValue, store) == PasswordRequired
    ensures Strip(usernameValue) != [] && Strip(passwordValue) != [] && store.None? ==>
              LoginDecision(usernameValue, passwordValue, store) == LoginDatabaseError
  {
  }

  /** With both fields filled in, the account is "not registered" exactly
      when no stored username matches ignoring case and surrounding spaces. */
  lemma LoginDecisionSpec(usernameValue: string, passwordValue: string, rows: seq<AdminRecord>)
    requires Strip(usernameValue) != [] && Strip(passwordValue) != []
    ensures (LoginDecision(usernameValue, passwordValue, Some(rows)) == NotRegistered) <==>
      (forall k :: 0 <= k < |rows| ==> Lower(Strip(rows[k].username)) != Lower(Strip(usernameValue)))
  {
    var m := UsernameMatches(Strip(usernameValue));
    var found := FirstWhere(rows, m);
    if found.None? {
      forall k | 0 <= k < |rows| ensures Lower(Strip(rows[k].username)) != Lower(Strip(usernameValue)) {
        assert !m(rows[k]);
      }
    } else {
      assert m(rows[found.value]);
    }
  }

  /** The login succeeds exactly when the first row whose username matches
      stores the trimmed password, compared exactly. */
  lemma LoginSucceedsSpec(usernameValue: string, passwordValue: string, rows: seq<AdminRecord>)
    requires Strip(usernameValue) != [] && Strip(passwordValue) != []
    ensures (LoginDecision(usernameValue, passwordValue, Some(rows)) == LoggedIn) <==>
      (exists k :: 0 <= k < |rows|
        && Lower(Strip(rows[k].username)) == Lower(Strip(usernameValue))
        && (forall j :: 0 <= j < k ==> Lower(Strip(rows[j].username)) != Lower(Strip(usernameValue)))
        && rows[k].password == Strip(passwordValue))
  {
    var m := UsernameMatches(Strip(usernameValue));
    var found := FirstWhere(rows, m);
    if found.Some? {
      var k := found.value;
      assert m(rows[k]);
      forall j | 0 <= j < k ensures Lower(Strip(rows[j].username)) != Lower(Strip(usernameValue)) {
        assert !m(rows[j]);
      }
    }
    forall k | 0 <= k < |rows| && Lower(Strip(rows[k].username)) == Lower(Strip(usernameValue))
               && (forall j :: 0 <= j < k ==> Lower(Strip(rows[j].username)) != Lower(Strip(usernameValue)))
      ensures found == Some(k)
    {
      FirstWhereAt(rows, m, k);
    }
  }

  /** The stored password is not trimmed, so an account whose stored
      password ends in a space can never log in. */
  lemma PaddedPasswordNeverLogsIn(usernameValue: string, passwordValue: string, rows: seq<AdminRecord>)
    requires Strip(usernameValue) != []
    requires forall k :: 0 <= k < |rows| ==> |rows[k].password| > 0 && IsSpace(rows[k].password[|rows[k].password| - 1])
    ensures LoginDecision(usernameValue, passwordValue, Some(rows)) != LoggedIn
  {
    match FirstWhere(rows, UsernameMatches(Strip(usernameValue)))
    case None =>
    case Some(k) =>
      PaddedNeverStripped(rows[k].password, passwordValue);
  }

  /** A text ending in a space is never what strip() returns. */
  lemma PaddedNeverStripped(stored: string, typed: string)
    requires |stored| > 0 && IsSpace(stored[|stored| - 1])
    ensures stored != Strip(typed)
  {
    StripEnds(typed);
  }

  /** The username field is matched ignoring case. */
  lemma LoginIgnoresUsernameCase(usernameValue: string, passwordValue: string, store: Option<seq<AdminRecord>>)
    ensures LoginDecision(Lower(usernameValue), passwordValue, store) == LoginDecision(usernameValue, passwordValue, store)
  {
    var u := Strip(usernameValue);
    LowerStrip(usernameValue);
    LowerIdempotent(u);
    assert Strip(Lower(usernameValue)) == Lower(u);
    if store.Some? {
      var rows := store.value;
      forall j | 0 <= j < |rows|
        ensures UsernameMatches(Lower(u))(rows[j]) == UsernameMatches(u)(rows[j])
      {
      }
      FirstWhereSame(rows, UsernameMatches(Lower(u)), UsernameMatches(u));
    }
  }

  /** The login page: its two input fields, the status line under the card
      and the route the page shows. */
  class LoginPage {
    var usernameValue: string
    var passwordValue: string
    var statusText: string
    var statusColor: string
    var route: string

    constructor ()
      ensures usernameValue == "" && passwordValue == "" && statusText == "" && statusColor == ErrorColor && route == "/"
    {
      usernameValue := "";
      passwordValue := "";
      statusText := "";
      statusColor := ErrorColor;
      route := "/";
    }

    /** `on_login`: show the first failed check in red, or clear the status
        line and go to "/dashboard". */
    method OnLogin(store: Option<seq<AdminRecord>>)
      modifies this
      ensures usernameValue == old(usernameValue) && passwordValue == old(passwordValue)
      ensures var o := LoginDecision(old(usernameValue), old(passwordValue), store);
        && statusText == LoginMessage(o)
        && statusColor == (if o == LoggedIn then old(statusColor) else ErrorColor)
        && route == (if o == LoggedIn then "/dashboard" else old(route))
    {
      var username := Strip(usernameValue);
      var password := Strip(passwordValue);
      if username == [] {
        statusText, statusColor := LoginMessage(UsernameRequired), ErrorColor;
        return;
      }
      if password == [] {
        statusText, statusColor := LoginMessage(PasswordRequired), ErrorColor;
        return;
      }
      if store.None? {
        statusText, statusColor := LoginMessage(LoginDatabaseError), ErrorColor;
        return;
      }
      var rows := store.value;
      var userRow := FirstWhere(rows, UsernameMatches(username));
      if userRow.None? {
        statusText, statusColor := LoginMessage(NotRegistered), ErrorColor;
        return;
      }
      if rows[userRow.value].password != password {
        statusText, statusColor := LoginMessage(IncorrectPassword), ErrorColor;
        return;
      }
      statusText := LoginMessage(LoggedIn);
      route := "/dashboard";
    }
  }

  // ---------------------------------------------------------------------
  // Signup
  // ---------------------------------------------------------------------

  datatype SignupOutcome = FieldsRequired | PasswordsDiffer | SignupDatabaseError
                         | AlreadyRegistered | Created(row: AdminRecord)

  const FieldsRequiredMessage: string := "All fields are required"
  const PasswordsDifferMessage: string := "Passwords do not match"
  const AlreadyRegisteredMessage: string := "Username already registered"
  const CreatedMessage: string := "Account created successfully"

  function SignupMessage(o: SignupOutcome): string
  {
    match o
    case FieldsRequired => FieldsRequiredMessage
    case PasswordsDiffer => PasswordsDifferMessage
    case SignupDatabaseError => DatabaseErrorMessage
    case AlreadyRegistered => AlreadyRegisteredMessage
    case Created(_) => CreatedMessage
  }

  /** The decision `on_create_account` takes for the three field values,
      the admin table (`None` when reading it failed) and whether appending
      the new row succeeded. */
  function SignupDecision(usernameValue: string, passwordValue: string, confirmValue: string,
                          store: Option<seq<AdminRecord>>, appendOk: bool): SignupOutcome
  {
    SignupChecks(Strip(usernameValue), Strip(passwordValue), Strip(confirmValue), store, appendOk)
  }

  /** The checks of `on_create_account` on the stripped field values. */
  function SignupChecks(username: string, password: string, confirm: string,
                        store: Option<seq<AdminRecord>>, appendOk: bool): SignupOutcome
  {
    if username == [] || password == [] || confirm == [] then FieldsRequired
    else if password != confirm then PasswordsDiffer
    else match store
      case None => SignupDatabaseError
      case Some(rows) =>
        if FirstWhere(rows, UsernameMatches(username)).Some? then AlreadyRegistered
        else if !appendOk then SignupDatabaseError
        else Created(AdminRecord(DecimalString(NewAdminId(rows)), username, password))
  }

  /** The checks run in order: empty fields, then the confirmation, then
      the table. An unreadable table is a database error, a username taken
      ignoring case is rejected, a failed append of a new username is a
      database error, and otherwise the account is created with the next
      id and the stripped username and password. */
  lemma SignupDecisionSpec(usernameValue: string, passwordValue: string, confirmValue: string,
                           store: Option<seq<AdminRecord>>, appendOk: bool)
    ensures (Strip(usernameValue) == [] || Strip(passwordValue) == [] || Strip(confirmValue) == []) ==>
      SignupDecision(usernameValue, passwordValue, confirmValue, store, appendOk) == FieldsRequired
    ensures (Strip(usernameValue) != [] && Strip(passwordValue) != [] && Strip(confirmValue) != []
             && Strip(passwordValue) != Strip(confirmValue)) ==>
      SignupDecision(usernameValue, passwordValue, confirmValue, store, appendOk) == PasswordsDiffer
    ensures (Strip(usernameValue) != [] && Strip(passwordValue) != [] && Strip(passwordValue) == Strip(confirmValue)
             && store.Some?) ==>
      (SignupDecision(usernameValue, passwordValue, confirmValue, store, appendOk) == AlreadyRegistered <==>
        exists k :: 0 <= k < |store.value| && Lower(Strip(store.value[k].username)) == Lower(Strip(usernameValue)))
    ensures (Strip(usernameValue) != [] && Strip(passwordValue) != [] && Strip(passwordValue) == Strip(confirmValue)
             && store.None?) ==>
      SignupDecision(usernameValue, passwordValue, confirmValue, store, appendOk) == SignupDatabaseError
    ensures (Strip(usernameValue) != [] && Strip(passwordValue) != [] && Strip(passwordValue) == Strip(confirmValue)
             && store.Some? && !appendOk
             && forall k :: 0 <= k < |store.value| ==> Lower(Strip(store.value[k].username)) != Lower(Strip(usernameValue))) ==>
      SignupDecision(usernameValue, passwordValue, confirmValue, store, appendOk) == SignupDatabaseError
    ensures (Strip(usernameValue) != [] && Strip(passwordValue) != [] && Strip(passwordValue) == Strip(confirmValue)
             && store.Some? && appendOk
             && forall k :: 0 <= k < |store.value| ==> Lower(Strip(store.value[k].username)) != Lower(Strip(usernameValue))) ==>
      SignupDecision(usernameValue, passwordValue, confirmValue, store, appendOk)
        == Created(AdminRecord(DecimalString(NewAdminId(store.value)), Strip(usernameValue), Strip(passwordValue)))
  {
    var u := Strip(usernameValue);
    if store.Some? {
      var rows := store.value;
      match FirstWhere(rows, UsernameMatches(u))
      case None =>
        forall k | 0 <= k < |rows| ensures Lower(Strip(rows[k].username)) != Lower(u) {
          assert !UsernameMatches(u)(rows[k]);
        }
      case Some(k) =>
        assert UsernameMatches(u)(rows[k]);
    }
  }

  /** A created account holds the trimmed inputs and an id above every id in
      the table that parses. */
  lemma SignupCreatedRow(usernameValue: string, passwordValue: string, confirmValue: string,
                         rows: seq<AdminRecord>, appendOk: bool)
    requires SignupDecision(usernameValue, passwordValue, confirmValue, Some(rows), appendOk).Created?
    ensures var row := SignupDecision(usernameValue, passwordValue, confirmValue, Some(rows), appendOk).row;
      && row.username == Strip(usernameValue) && row.password == Strip(passwordValue)
      && ParseInt(row.id) == Some(NewAdminId(rows))
      && (forall k :: 0 <= k < |rows| && ParseInt(rows[k].id).Some? ==> ParseInt(rows[k].id).value < NewAdminId(rows))
  {
    ParseIntDecimal(NewAdminId(rows));
    forall k | 0 <= k < |rows| && ParseInt(rows[k].id).Some?
      ensures ParseInt(rows[k].id).value < NewAdminId(rows)
    {
      NewAdminIdFresh(rows, k);
    }
  }

  /** After the signup page creates an account, the login page lets the
      same username and password in. */
  lemma SignupThenLogin(usernameValue: string, passwordValue: string, rows: seq<AdminRecord>)
    requires SignupDecision(usernameValue, passwordValue, passwordValue, Some(rows), true).Created?
    ensures var row := SignupDecision(usernameValue, passwordValue, passwordValue, Some(rows), true).row;
      LoginDecision(usernameValue, passwordValue, Some(rows + [row])) == LoggedIn
  {
    var u := Strip(usernameValue);
    var m := UsernameMatches(u);
    var row := SignupDecision(usernameValue, passwordValue, passwordValue, Some(rows), true).row;
    var all := rows + [row];
    assert row.username == u && row.password == Strip(passwordValue);
    assert m(row) by {
      StripIdempotent(usernameValue);
    }
    assert FirstWhere(rows, m).None?;
    forall j | 0 <= j < |rows| ensures !m(all[j]) {
      assert all[j] == rows[j];
    }
    FirstWhereAt(all, m, |rows|);
  }

  /** After the signup page creates an account, signing up again with a
      username equal to it ignoring case and surrounding spaces is rejected. */
  lemma SignupTwiceRejected(usernameValue: string, passwordValue: string, rows: seq<AdminRecord>,
                            otherUsername: string, otherPassword: string)
    requires SignupDecision(usernameValue, passwordValue, passwordValue, Some(rows), true).Created?
    requires Lower(Strip(otherUsername)) == Lower(Strip(usernameValue))
    requires Strip(otherPassword) != []
    ensures var row := SignupDecision(usernameValue, passwordValue, passwordValue, Some(rows), true).row;
      SignupDecision(otherUsername, otherPassword, otherPassword, Some(rows + [row]), true) == AlreadyRegistered
  {
    var u := Strip(usernameValue);
    var other := Strip(otherUsername);
    var row := SignupDecision(usernameValue, passwordValue, passwordValue, Some(rows), true).row;
    var all := rows + [row];
    assert row.username == u;
    assert other != [] by {
      assert |Lower(other)| == |Lower(u)|;
    }
    assert UsernameMatches(other)(all[|rows|]) by {
      StripIdempotent(usernameValue);
    }
    assert FirstWhere(all, UsernameMatches(other)).Some?;
  }

  /** The signup page: its three input fields and the status line. */
  class SignupPage {
    var usernameValue: string
    var passwordValue: string
    var confirmValue: string
    var statusText: string
    var statusColor: string

    constructor ()
      ensures usernameValue == "" && passwordValue == "" && confirmValue == ""
      ensures statusText == "" && statusColor == ErrorColor
    {
      usernameValue, passwordValue, confirmValue := "", "", "";
      statusText, statusColor := "", ErrorColor;
    }

    /** `on_create_account`: show the first failed check in red, or append
        the new account, report it in green and clear the three fields. */
    method OnCreateAccount(store: AdminFile, readOk: bool, appendOk: bool)
      modifies this, store
      ensures var o := SignupDecision(old(usernameValue), old(passwordValue), old(confirmValue),
                                      if readOk then Some(old(store.rows)) else None, appendOk);
        statusText == SignupMessage(o)
      ensures var o := SignupDecision(old(usernameValue), old(passwordValue), old(confirmValue),
                                      if readOk then Some(old(store.rows)) else None, appendOk);
        if o.Created? then
          && statusColor == SuccessColor && store.rows == old(store.rows) + [o.row]
          && usernameValue == "" && passwordValue == "" && confirmValue == ""
        else
          && statusColor == ErrorColor && store.rows == old(store.rows)
          && usernameValue == old(usernameValue) && passwordValue == old(passwordValue)
          && confirmValue == old(confirmValue)
    {
      var username := Strip(usernameValue);
      var password := Strip(passwordValue);
      var confirm := Strip(confirmValue);
      ghost var o := SignupChecks(username, password, confirm,
                                  if readOk then Some(store.rows) else None, appendOk);
      if username == [] || password == [] || confirm == [] {
        assert o == FieldsRequired;
        statusText, statusColor := SignupMessage(FieldsRequired), ErrorColor;
        return;
      }
      if password != confirm {
        assert o == PasswordsDiffer;
        statusText, statusColor := SignupMessage(PasswordsDiffer), ErrorColor;
        return;
      }
      if !readOk {
        assert o == SignupDatabaseError;
        statusText, statusColor := SignupMessage(SignupDatabaseError), ErrorColor;
        return;
      }
      var rows := store.rows;
      if FirstWhere(rows, UsernameMatches(username)).Some? {
        assert o == AlreadyRegistered;
        statusText, statusColor := SignupMessage(AlreadyRegistered), ErrorColor;
        return;
      }
      var newId := NextAdminId(rows);
      if !appendOk {
        assert o == SignupDatabaseError;
        statusText, statusColor := SignupMessage(SignupDatabaseError), ErrorColor;
        return;
      }
      var row := AdminRecord(DecimalString(newId), username, password);
      assert o == Created(row);
      store.rows := rows + [row];
      statusText, statusColor := SignupMessage(Created(row)), SuccessColor;
      usernameValue, passwordValue, confirmValue := "", "", "";
    }
  }
}
