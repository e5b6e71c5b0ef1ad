/** The registration form (`RegistrationPage`): every field is checked on
    submit and gets its own message; only a form that passes every check,
    with the terms accepted, adds a user. */
module Registration {
  import opened Text
  import opened FormRules
  import opened Users

  datatype Form = Form(fullName: string, username: string, email: string, phone: string,
                       password: string, confirmPassword: string, termsAccepted: bool)

  /** The message under each field after a submit ("" for none), and whether
      the terms warning was shown. */
  datatype Report = Report(fullName: string, username: string, email: string, phone: string,
                           password: string, termsWarning: bool)

  datatype Submission = Submission(report: Report, users: seq<User>, registered: bool)

  const FullNameEmpty: string := "Full name cannot be empty."
  const UsernameEmpty: string := "Username cannot be empty."
  const UsernameTaken: string := "Username already taken."
  const EmailEmpty: string := "Email cannot be empty."
  const EmailInvalid: string := "Invalid email format."
  const PhoneEmpty: string := "Phone number cannot be empty."
  const PhoneInvalid: string := "Phone number must be 11 digits."
  const PasswordEmpty: string := "Password cannot be empty."
  const ConfirmEmpty: string := "Confirm password cannot be empty."
  const PasswordsDiffer: string := "Passwords do not match."

  /** The name is taken when some user has exactly that name; case counts. */
  predicate Taken(users: seq<User>, username: string) {
    exists i :: 0 <= i < |users| && users[i].username == username
  }

  function FullNameMessage(fullName: string): string {
    if fullName == "" then FullNameEmpty else ""
  }

  function UsernameMessage(users: seq<User>, username: string): string {
    if username == "" then UsernameEmpty else if Taken(users, username) then UsernameTaken else ""
  }

  function EmailMessage(email: string): string {
    if email == "" then EmailEmpty else if !EmailMatches(email) then EmailInvalid else ""
  }

  function PhoneMessage(phone: string): string {
    if phone == "" then PhoneEmpty else if !IsDigitsOfLength(phone, 11) then PhoneInvalid else ""
  }

  /** One message for the pair of password fields, the first problem in
      the order: empty password, empty confirmation, mismatch. */
  function PasswordMessage(password: string, confirmPassword: string): string {
    if password == "" then PasswordEmpty
    else if confirmPassword == "" then ConfirmEmpty
    else if password != confirmPassword then PasswordsDiffer
    else ""
  }

  /** The user a valid form adds: the text fields trimmed, the passwords
      as typed, the role "User". */
  function NewUser(f: Form): User {
    User(Trim(f.username), f.password, UserRole, Trim(f.fullName), Trim(f.phone), Trim(f.email))
  }

  /** Every check the form's fields must pass. */
  predicate Acceptable(users: seq<User>, f: Form) {
    && Trim(f.fullName) != ""
    && Trim(f.username) != "" && !Taken(users, Trim(f.username))
    && EmailValid(f.email)
    && PhoneValid(f.phone)
    && f.password != "" && f.confirmPassword != "" && f.password == f.confirmPassword
    && f.termsAccepted
  }

  /** `handleRegistration`. */
  function Register(users: seq<User>, f: Form): (r: Submission)
    ensures r.registered <==> Acceptable(users, f)
    ensures r.registered ==> r.users == users + [NewUser(f)]
    ensures !r.registered ==> r.users == users
    ensures r.registered <==>
      (r.report == Report("", "", "", "", "", false))
  {
    var fullName := Trim(f.fullName);
    var username := Trim(f.username);
    var email := Trim(f.email);
    var phone := Trim(f.phone);
    var report := Report(FullNameMessage(fullName), UsernameMessage(users, username), EmailMessage(email),
                         PhoneMessage(phone), PasswordMessage(f.password, f.confirmPassword), !f.termsAccepted);
    var ok := report == Report("", "", "", "", "", false);
    Submission(report, if ok then users + [NewUser(f)] else users, ok)
  }

  /** Every field is checked in the same submission: each field's message is
      present exactly when that field fails its own check, whatever the
      other fields hold. */
  lemma EveryCheckRuns(users: seq<User>, f: Form)
    ensures var rep := Register(users, f).report;
      && (rep.fullName != "" <==> Trim(f.fullName) == "")
      && (rep.username != "" <==> Trim(f.username) == "" || Taken(users, Trim(f.username)))
      && (rep.email != "" <==> !EmailValid(f.email))
      && (rep.phone != "" <==> !PhoneValid(f.phone))
      && (rep.password != "" <==> !(f.password != "" && f.confirmPassword != "" && f.password == f.confirmPassword))
      && (rep.termsWarning <==> !f.termsAccepted)
  {
    if Trim(f.email) != "" {
      assert EmailValid(f.email) ==> Trim(f.email) != "";
    }
  }

  /** The password message follows the priority order, and the passwords
      are compared as typed, spaces included. */
  lemma PasswordPriority(users: seq<User>, f: Form)
    ensures var m := Register(users, f).report.password;
      && (m == PasswordEmpty <==> f.password == "")
      && (m == ConfirmEmpty <==> f.password != "" && f.confirmPassword == "")
      && (m == PasswordsDiffer <==> f.password != "" && f.confirmPassword != "" && f.password != f.confirmPassword)
  {
  }

  /** The name is taken exactly when it belongs to one of the users. */
  lemma TakenIffMember(users: seq<User>, username: string)
    ensures Taken(users, username) <==> exists u :: u in users && u.username == username
  {
    if exists u :: u in users && u.username == username {
      var u :| u in users && u.username == username;
      var i :| 0 <= i < |users| && users[i] == u;
    }
  }

  /** After one more user is stored, a name is taken exactly when it was
      taken before or is that user's name. */
  lemma TakenAfterAdding(users: seq<User>, u: User, username: string)
    ensures Taken(users + [u], username) <==> Taken(users, username) || u.username == username
  {
    if Taken(users + [u], username) {
      var i :| 0 <= i < |users + [u]| && (users + [u])[i].username == username;
      if i < |users| {
        assert users[i] == (users + [u])[i];
      }
    }
    if Taken(users, username) {
      var i :| 0 <= i < |users| && users[i].username == username;
      assert (users + [u])[i] == users[i];
    }
    assert (users + [u])[|users|] == u;
  }

  /** Names are compared exactly: registering a name makes it taken, while
      a name differing from it only in case stays free if it was. */
  lemma TakenIsCaseSensitive(users: seq<User>, u: User, other: string)
    requires EqualsIgnoreCase(u.username, other) && u.username != other
    requires !Taken(users, other)
    ensures Taken(users + [u], u.username)
    ensures !Taken(users + [u], other)
  {
    TakenAfterAdding(users, u, u.username);
    TakenAfterAdding(users, u, other);
  }

  /** `validatePasswords`, run while the user types: a mismatch message only
      when both fields are filled in and differ; nothing otherwise. */
  function LivePasswordMessage(password: string, confirmPassword: string): (r: string)
    ensures r == PasswordsDiffer <==> password != "" && confirmPassword != "" && password != confirmPassword
    ensures r != PasswordsDiffer ==> r == ""
  {
    if password == "" || confirmPassword == "" then ""
    else if password != confirmPassword then PasswordsDiffer
    else ""
  }

  /** The live message agrees with the one a submit would show, except that
      the submit also reports empty fields. */
  lemma LiveAgreesWithSubmit(users: seq<User>, f: Form)
    ensures f.password != "" && f.confirmPassword != "" ==>
      LivePasswordMessage(f.password, f.confirmPassword) == Register(users, f).report.password
    ensures f.password == "" || f.confirmPassword == "" ==>
      LivePasswordMessage(f.password, f.confirmPassword) == "" && Register(users, f).report.password != ""
  {
  }
}
