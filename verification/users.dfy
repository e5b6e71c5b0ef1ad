/** Accounts on the client: the e-mail/password map of `UserStorage`, the
    user records the login page keeps, and the login page's decisions
    (sign-in and routing by role, the forgotten-password check). */
module Users {
  import opened Wrappers
  import opened Text

  datatype User = User(username: string, password: string, role: string, fullName: string,
                       phoneNumber: string, email: string)

  const AdminRole: string := "Admin"
  const UserRole: string := "User"

  /** `UserStorage.addUser`: an e-mail already present is refused and the map
      is left as it was; a new one is added with its password. */
  function AddUser(users: map<string, string>, email: string, password: string): (r: (map<string, string>, bool))
    ensures r.1 <==> email !in users
    ensures !r.1 ==> r.0 == users
    ensures r.1 ==> r.0.Keys == users.Keys + {email} && r.0[email] == password
    ensures forall e :: e in users ==> e in r.0 && r.0[e] == users[e]
  {
    if email in users then (users, false) else (users[email := password], true)
  }

  /** `UserStorage.validateUser`. */
  function ValidateUser(users: map<string, string>, email: string, password: string): (r: bool)
    ensures r ==> IsUserExist(users, email)
    ensures IsUserExist(users, email) ==> (r <==> users[email] == password)
  {
    email in users && users[email] == password
  }

  /** `UserStorage.isUserExist`: true exactly for the e-mails `addUser` refuses. */
  function IsUserExist(users: map<string, string>, email: string): (r: bool)
    ensures forall password :: r <==> !AddUser(users, email, password).1
  {
    email in users
  }

  /** Whatever the map held, after a successful `addUser` the pair validates
      and the e-mail exists; a refused `addUser` keeps the stored password. */
  lemma AddThenValidate(users: map<string, string>, email: string, password: string)
    ensures var (after, added) := AddUser(users, email, password);
      && IsUserExist(after, email)
      && (added ==> ValidateUser(after, email, password))
      && (!added ==> (ValidateUser(after, email, password) <==> ValidateUser(users, email, password)))
  {
  }

  /** Credentials that validate belong to an existing user. */
  lemma ValidateImpliesExists(users: map<string, string>, email: string, password: string)
    requires ValidateUser(users, email, password)
    ensures IsUserExist(users, email)
    ensures forall p :: ValidateUser(users, email, p) <==> p == password
  {
  }

  /** `LoginPage.getUser`: the first user whose name is exactly `username`. */
  function GetUser(users: seq<User>, username: string): (r: Option<User>)
    ensures r.None? <==> forall i :: 0 <= i < |users| ==> users[i].username != username
    ensures r.Some? ==> r.value.username == username
    ensures r.Some? ==> exists i :: 0 <= i < |users| && users[i] == r.value &&
                                    forall j :: 0 <= j < i ==> users[j].username != username
    decreases |users|
  {
    if |users| == 0 then None
    else if users[0].username == username then Some(users[0])
    else
      var r := GetUser(users[1..], username);
      assert forall i :: 1 <= i < |users| ==> users[i] == users[1..][i - 1];
      if r.Some? then
        ghost var k :| 0 <= k < |users[1..]| && users[1..][k] == r.value &&
                       forall j :: 0 <= j < k ==> users[1..][j].username != username;
        assert users[k + 1] == r.value;
        r
      else r
  }

  /** Where a successful sign-in leads. */
  datatype Route = AdminDashboard | CarCatalogue | AccessDenied

  datatype SignInOutcome =
    | EmptyFields
    | InvalidCredentials
    | SignedIn(user: User, role: string, route: Route)

  /** Who the client considers logged in, and in which role. */
  datatype Session = Session(user: Option<User>, role: Option<string>)

  /** The login button: empty fields are refused first; then the user must
      exist with exactly that password; the role comes from the toggle, and
      the stored role must agree with it for the user to get past the login
      page. */
  function SignIn(users: seq<User>, username: string, password: string, adminSelected: bool): (r: SignInOutcome)
    ensures r.EmptyFields? <==> username == "" || password == ""
    ensures r.InvalidCredentials? <==>
      (username != "" && password != "" && (GetUser(users, username).None? || GetUser(users, username).value.password != password))
    ensures r.SignedIn? ==> r.user == GetUser(users, username).value && r.user.password == password
    ensures r.SignedIn? ==> r.role == (if adminSelected then AdminRole else UserRole)
    ensures r.SignedIn? ==> (r.route == AdminDashboard <==> adminSelected && r.user.role == AdminRole)
    ensures r.SignedIn? ==> (r.route == CarCatalogue <==> !adminSelected && r.user.role == UserRole)
  {
    if username == "" || password == "" then EmptyFields
    else match GetUser(users, username)
      case None => InvalidCredentials
      case Some(u) =>
        if u.password != password then InvalidCredentials
        else
          var role := if adminSelected then AdminRole else UserRole;
          var route :=
            if adminSelected then (if u.role == AdminRole then AdminDashboard else AccessDenied)
            else (if u.role == UserRole then CarCatalogue else AccessDenied);
          SignedIn(u, role, route)
  }

  /** The session after the login button: set on every successful
      authentication, whatever the route, and untouched otherwise. */
  function SessionAfter(s: Session, outcome: SignInOutcome): (r: Session)
    ensures outcome.SignedIn? ==> r.user == Some(outcome.user) && r.role == Some(outcome.role)
    ensures !outcome.SignedIn? ==> r == s
  {
    if outcome.SignedIn? then Session(Some(outcome.user), Some(outcome.role)) else s
  }

  /** Sign-in succeeds exactly for a non-empty name whose first record holds
      exactly the given (non-empty) password. */
  lemma SignInIffCredentials(users: seq<User>, username: string, password: string, adminSelected: bool)
    ensures SignIn(users, username, password, adminSelected).SignedIn? <==>
      (username != "" && password != "" &&
       exists i :: 0 <= i < |users| && users[i].username == username && users[i].password == password &&
                   forall j :: 0 <= j < i ==> users[j].username != username)
  {
    var g := GetUser(users, username);
    if exists i :: 0 <= i < |users| && users[i].username == username && users[i].password == password &&
                   forall j :: 0 <= j < i ==> users[j].username != username {
      var i :| 0 <= i < |users| && users[i].username == username && users[i].password == password &&
               forall j :: 0 <= j < i ==> users[j].username != username;
      var k :| 0 <= k < |users| && users[k] == g.value && forall j :: 0 <= j < k ==> users[j].username != username;
      assert !(k < i) && !(i < k);
    }
  }

  /** A user whose stored role does not match the toggle is turned back to
      the login page, yet the session already names them, with the toggle's role. */
  lemma DeniedStillLoggedIn(users: seq<User>, username: string, password: string, adminSelected: bool, s: Session)
    requires SignIn(users, username, password, adminSelected).SignedIn?
    requires SignIn(users, username, password, adminSelected).route == AccessDenied
    ensures SessionAfter(s, SignIn(users, username, password, adminSelected)).user.Some?
    ensures SessionAfter(s, SignIn(users, username, password, adminSelected)).role ==
      Some(if adminSelected then AdminRole else UserRole)
    ensures adminSelected ==> GetUser(users, username).value.role != AdminRole
    ensures !adminSelected ==> GetUser(users, username).value.role != UserRole
  {
  }

  datatype ForgotOutcome = InvalidEmail | NoAccount | ResetSent(email: string)

  /** The forgotten-password dialog: the trimmed entry must be longer than
      five characters and hold an `@`; the account is then looked up by
      e-mail ignoring case. */
  function ForgotPassword(users: seq<User>, entry: string): (r: ForgotOutcome)
    ensures r.InvalidEmail? <==> !(|Trim(entry)| > 5 && '@' in Trim(entry))
    ensures r.ResetSent? ==> r.email == Trim(entry)
    ensures r.ResetSent? ==> exists i :: 0 <= i < |users| && EqualsIgnoreCase(users[i].email, Trim(entry))
    ensures r.NoAccount? ==> forall i :: 0 <= i < |users| ==> !EqualsIgnoreCase(users[i].email, Trim(entry))
  {
    var email := Trim(entry);
    ContainsChar(email, '@');
    if !(email != "" && Contains(email, "@") && |email| > 5) then InvalidEmail
    else if exists i :: 0 <= i < |users| && EqualsIgnoreCase(users[i].email, email) then ResetSent(email)
    else NoAccount
  }

  /** A registered address typed in another case still finds its account. */
  lemma ForgotIgnoresCase(users: seq<User>, i: int, entry: string)
    requires 0 <= i < |users|
    requires Trim(entry) == entry && |entry| > 5 && '@' in entry
    requires ToLower(entry) == ToLower(users[i].email)
    ensures ForgotPassword(users, entry) == ResetSent(entry)
  {
  }
}
