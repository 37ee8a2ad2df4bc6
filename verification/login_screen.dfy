/** The login screen's two forms: sign-in and the join application. Both
    trim what was typed and check it for blanks before handing it to the
    session. */
module LoginScreen {
  import opened Common
  import opened Text
  import opened Types
  import Accounts
  import Session

  const InvalidCredentials: string := "Invalid credentials or access denied."
  const FieldsRequired: string := "Gamer Tag and Password are required."

  /** The sign-in form: the two fields and the error line. */
  datatype SignInForm = SignInForm(callsign: string, password: string, loginError: string)

  /** Both fields hold something other than whitespace. */
  predicate Filled(a: string, b: string) {
    Trim(a) != "" && Trim(b) != ""
  }

  /** Submitting the sign-in form. The error line clears first. With a blank
      field nothing else happens; otherwise the trimmed fields go to the
      session's login, and a refusal shows the fixed error. */
  function SubmitSignIn(form: SignInForm, app: Session.AppState): (r: (SignInForm, Session.AppState))
    ensures r.0.callsign == form.callsign && r.0.password == form.password
    ensures !Filled(form.callsign, form.password) ==> r == (form.(loginError := ""), app)
    ensures Filled(form.callsign, form.password) ==>
      var attempt := Session.Login(app, Trim(form.callsign), Trim(form.password));
      && r.1 == attempt.state
      && (r.0.loginError == InvalidCredentials <==> !attempt.success)
      && (attempt.success ==> r.0.loginError == "")
  {
    if !Filled(form.callsign, form.password) then (form.(loginError := ""), app)
    else
      var attempt := Session.Login(app, Trim(form.callsign), Trim(form.password));
      (form.(loginError := if attempt.success then "" else InvalidCredentials), attempt.state)
  }

  /** Whitespace typed around the callsign or the password makes no
      difference to signing in. */
  lemma SignInIgnoresPadding(form: SignInForm, app: Session.AppState)
    ensures SubmitSignIn(form, app).1
         == SubmitSignIn(form.(callsign := Trim(form.callsign), password := Trim(form.password)), app).1
  {
    TrimIdempotent(form.callsign);
    TrimIdempotent(form.password);
  }

  /** A sign-in that changes the session has logged in an approved account
      whose stored callsign matches the typed one ignoring case. */
  lemma SignInOnlyAdmitsApproved(form: SignInForm, app: Session.AppState)
    requires SubmitSignIn(form, app).1 != app
    ensures var s := SubmitSignIn(form, app).1;
      && s.isAuthenticated
      && exists i :: 0 <= i < |app.users| && app.users[i].accessStatus == Approved
           && app.users[i].callsign == s.userCallsign
           && EqualsIgnoreCase(app.users[i].callsign, Trim(form.callsign))
           && app.users[i].password == Trim(form.password)
  {
    var attempt := Session.Login(app, Trim(form.callsign), Trim(form.password));
    var u := Accounts.Authenticate(app.users, Trim(form.callsign), Trim(form.password)).value;
    var i :| 0 <= i < |app.users| && app.users[i] == u;
  }

  datatype StatusKind = Info | Success | Error

  /** The line under the join form. */
  datatype RegistrationStatus = RegistrationStatus(kind: StatusKind, message: string)

  /** The join form: the two fields and the status line. */
  datatype JoinForm = JoinForm(newCallsign: string, newPassword: string, status: Option<RegistrationStatus>)

  /** Submitting the join form. A blank field shows the "required" error and
      registers nothing. Otherwise the trimmed fields are registered: success
      shows the returned message and clears both fields, failure shows it as
      an error and keeps the fields. `id` and `joinDate` stand for the clock. */
  function SubmitJoin(form: JoinForm, users: seq<User>, id: int, shipId: int, joinDate: int): (r: (JoinForm, seq<User>))
    ensures !Filled(form.newCallsign, form.newPassword) ==>
      r == (form.(status := Some(RegistrationStatus(Error, FieldsRequired))), users)
    ensures Filled(form.newCallsign, form.newPassword) ==>
      var reg := Accounts.Register(users, Trim(form.newCallsign), Trim(form.newPassword), id, shipId, joinDate);
      && r.1 == reg.users
      && (reg.success ==> r.0 == JoinForm("", "", Some(RegistrationStatus(Success, reg.message))))
      && (!reg.success ==> r.0 == form.(status := Some(RegistrationStatus(Error, reg.message))))
  {
    if !Filled(form.newCallsign, form.newPassword) then
      (form.(status := Some(RegistrationStatus(Error, FieldsRequired))), users)
    else
      var reg := Accounts.Register(users, Trim(form.newCallsign), Trim(form.newPassword), id, shipId, joinDate);
      if reg.success then (JoinForm("", "", Some(RegistrationStatus(Success, reg.message))), reg.users)
      else (form.(status := Some(RegistrationStatus(Error, reg.message))), reg.users)
  }

  /** A join application that is accepted adds one pending account whose
      callsign and password carry no surrounding whitespace, so the same
      credentials typed with padding at sign-in will match it once approved. */
  lemma JoinStoresTrimmedCredentials(form: JoinForm, users: seq<User>, id: int, shipId: int, joinDate: int)
    requires Filled(form.newCallsign, form.newPassword)
    requires !Accounts.CallsignTaken(users, Trim(form.newCallsign))
    ensures var after := SubmitJoin(form, users, id, shipId, joinDate).1;
      && |after| == |users| + 1
      && after[|users|].callsign == Trim(form.newCallsign)
      && after[|users|].password == Trim(form.newPassword)
      && after[|users|].accessStatus == Pending
      && Trim(after[|users|].callsign) == after[|users|].callsign
      && Trim(after[|users|].password) == after[|users|].password
  {
    TrimIdempotent(form.newCallsign);
    TrimIdempotent(form.newPassword);
  }

  /** Applying twice with the same callsign: the second application is
      refused as taken and keeps the fields for correction. */
  lemma SecondJoinIsRefused(form: JoinForm, users: seq<User>, id: int, id2: int, shipId: int, joinDate: int)
    requires Filled(form.newCallsign, form.newPassword)
    requires !Accounts.CallsignTaken(users, Trim(form.newCallsign))
    ensures var after := SubmitJoin(form, users, id, shipId, joinDate).1;
      var again := SubmitJoin(form, after, id2, shipId, joinDate);
      && again.1 == after
      && again.0 == form.(status := Some(RegistrationStatus(Error, Accounts.TakenMessage)))
  {
    var after := SubmitJoin(form, users, id, shipId, joinDate).1;
    assert EqualsIgnoreCase(after[|users|].callsign, Trim(form.newCallsign));
    assert Accounts.CallsignTaken(after, Trim(form.newCallsign));
  }
}
