/** The administrator's dashboard (`AdminDashboard`): adding, editing and
    deleting users in the client's user list, the car dialog's checks, and
    how the client's own car list follows the worker's answers. The worker's
    answer to a car command is an input (`serviceOk`). */
module Admin {
  import opened Wrappers
  import opened Text
  import opened Seqs
  import opened Users
  import opened Cars
  import opened CarStore
  import opened ImagePaths

  /** The add-user and edit-user dialogs' fields, as typed. */
  datatype UserForm = UserForm(username: string, password: string, fullName: string,
                               phoneNumber: string, email: string, role: string)

  datatype UserError = FieldsMissing | UsernameTooShort | PasswordTooShort | BadEmail
                     | UsernameExists | UserNotFound | OwnAccount

  /** The dashboard's e-mail check: an `@` and a `.` somewhere. */
  predicate EmailLooksValid(e: string) {
    Contains(e, "@") && Contains(e, ".")
  }

  /** Some user already has this name, ignoring case. */
  predicate NameClash(users: seq<User>, username: string) {
    exists i :: 0 <= i < |users| && EqualsIgnoreCase(users[i].username, username)
  }

  /** The user an accepted add-user dialog appends: every field trimmed,
      the password included, with the selected role. */
  function FormUser(f: UserForm): User {
    User(Trim(f.username), Trim(f.password), f.role, Trim(f.fullName), Trim(f.phoneNumber), Trim(f.email))
  }

  /** The add-user dialog: the checks in order, the first failing one
      reported; an accepted user is appended. */
  function AddUserChecked(users: seq<User>, f: UserForm): (r: Result<seq<User>, UserError>)
    ensures r == Err(FieldsMissing) <==>
      (Trim(f.username) == "" || Trim(f.password) == "" || Trim(f.fullName) == "" ||
       Trim(f.phoneNumber) == "" || Trim(f.email) == "")
    ensures r.Ok? <==>
      (&& Trim(f.username) != "" && Trim(f.password) != "" && Trim(f.fullName) != ""
       && Trim(f.phoneNumber) != "" && Trim(f.email) != ""
       && |Trim(f.username)| >= 3 && |Trim(f.password)| >= 4 && EmailLooksValid(Trim(f.email))
       && !NameClash(users, Trim(f.username)))
    ensures r.Ok? ==> r.value == users + [FormUser(f)]
    ensures r == Err(UsernameExists) ==> NameClash(users, Trim(f.username))
  {
    var u := FormUser(f);
    if u.username == "" || u.password == "" || u.fullName == "" || u.phoneNumber == "" || u.email == "" then
      Err(FieldsMissing)
    else if |u.username| < 3 then Err(UsernameTooShort)
    else if |u.password| < 4 then Err(PasswordTooShort)
    else if !EmailLooksValid(u.email) then Err(BadEmail)
    else if NameClash(users, u.username) then Err(UsernameExists)
    else Ok(users + [u])
  }

  /** Position of the first user with exactly this name. */
  function FirstUser(users: seq<User>, username: string): (r: Option<nat>)
    ensures r.Some? ==> r.value < |users| && users[r.value].username == username
    ensures r.Some? ==> forall j :: 0 <= j < r.value ==> users[j].username != username
    ensures r.None? <==> forall j :: 0 <= j < |users| ==> users[j].username != username
    decreases |users|
  {
    if |users| == 0 then None
    else if users[0].username == username then Some(0)
    else
      match FirstUser(users[1..], username)
      case Some(i) => Some(i + 1)
      case None =>
        assert forall j :: 1 <= j < |users| ==> users[j] == users[1..][j - 1];
        None
  }

  /** The list with the user at `k` replaced by one of the same name; every
      other position is untouched. */
  function ReplaceUser(users: seq<User>, k: nat, u: User): (r: seq<User>)
    requires k < |users| && u.username == users[k].username
    ensures |r| == |users| && r[k] == u
    ensures forall j :: 0 <= j < |users| ==> r[j].username == users[j].username
    ensures forall j :: 0 <= j < |users| && j != k ==> r[j] == users[j]
  {
    users[k := u]
  }

  /** The edit-user dialog for the selected name: the username field is
      read-only, and the other fields are replaced only when they pass the
      checks. */
  function EditUser(users: seq<User>, username: string, f: UserForm): (r: Result<seq<User>, UserError>)
    ensures r == Err(UserNotFound) <==> forall j :: 0 <= j < |users| ==> users[j].username != username
    ensures r.Ok? ==> |r.value| == |users|
    ensures r.Ok? ==> forall j :: 0 <= j < |users| ==> r.value[j].username == users[j].username
    ensures r.Ok? ==> forall j :: 0 <= j < |users| && users[j].username != username ==> r.value[j] == users[j]
    ensures r.Ok? <==>
      && (exists j :: 0 <= j < |users| && users[j].username == username)
      && |Trim(f.password)| >= 4 && EmailLooksValid(Trim(f.email))
      && Trim(f.fullName) != "" && Trim(f.phoneNumber) != ""
    ensures r.Ok? ==> FirstUser(users, username).Some?
    ensures r.Ok? ==> r.value == users[FirstUser(users, username).value := FormUser(f).(username := username)]
  {
    match FirstUser(users, username)
    case None => Err(UserNotFound)
    case Some(k) =>
      var password := Trim(f.password);
      var fullName := Trim(f.fullName);
      var phone := Trim(f.phoneNumber);
      var email := Trim(f.email);
      if password == "" || fullName == "" || phone == "" || email == "" then Err(FieldsMissing)
      else if |password| < 4 then Err(PasswordTooShort)
      else if !EmailLooksValid(email) then Err(BadEmail)
      else
        var edited := users[k].(password := password, fullName := fullName, phoneNumber := phone,
                                email := email, role := f.role);
        assert edited == FormUser(f).(username := username);
        Ok(ReplaceUser(users, k, edited))
  }

  function UsernameIsNot(username: string): User -> bool {
    (u: User) => u.username != username
  }

  /** Deleting the selected user: the administrator's own account is
      refused; a confirmed deletion removes every user with that name. */
  function DeleteUser(users: seq<User>, username: string, session: Option<User>, confirmed: bool): (r: Result<seq<User>, UserError>)
    ensures r == Err(OwnAccount) <==> session.Some? && session.value.username == username
    ensures r.Ok? && !confirmed ==> r.value == users
    ensures r.Ok? && confirmed ==> IsSubsequence(r.value, users)
    ensures r.Ok? && confirmed ==> forall j :: 0 <= j < |r.value| ==> r.value[j].username != username
    ensures r.Ok? && confirmed ==> forall u: User :: u.username != username ==> multiset(r.value)[u] == multiset(users)[u]
  {
    if session.Some? && session.value.username == username then Err(OwnAccount)
    else if !confirmed then Ok(users)
    else
      FilterSpec(users, UsernameIsNot(username));
      Ok(Filter(users, UsernameIsNot(username)))
  }

  /** The two places that add users disagree on what "taken" means: with
      "Bob" registered, the login page's exact lookup finds no "bob", yet
      the dashboard refuses "bob" as a new name. */
  lemma UniquenessRulesDiffer(f: UserForm)
    requires f.username == "bob"
    ensures var users := [User("Bob", "pass", UserRole, "Bob B", "01712345678", "bob@mail.com")];
      && GetUser(users, "bob").None?
      && !AddUserChecked(users, f).Ok?
  {
    var users := [User("Bob", "pass", UserRole, "Bob B", "01712345678", "bob@mail.com")];
    assert "Bob"[0] != "bob"[0];
    assert Trim(f.username) == "bob" by {
      assert TrimStart("bob") == "bob" && TrimEnd("bob") == "bob";
    }
    assert EqualsIgnoreCase(users[0].username, "bob");
  }

  /** The car dialog's fields, as typed. */
  datatype CarForm = CarForm(name: string, available: bool, carType: string, rating: string, imagePath: string,
                             mileage: string, maxSpeed: string, seats: string, transmission: string,
                             vehicleClass: string, price: string, releaseDate: string)

  /** `Double.parseDouble` and `LocalDate.parse`, supplied by the caller. */
  datatype Parsers = Parsers(number: string -> Option<real>, isDate: string -> bool)

  datatype DialogError = NotANumber | EmptyField | RatingOutOfRange | NegativePrice | BadReleaseDate

  predicate AnyTextEmpty(f: CarForm) {
    || Trim(f.name) == "" || Trim(f.carType) == "" || Trim(f.imagePath) == "" || Trim(f.mileage) == ""
    || Trim(f.maxSpeed) == "" || Trim(f.seats) == "" || Trim(f.transmission) == ""
    || Trim(f.vehicleClass) == "" || Trim(f.releaseDate) == ""
  }

  /** The car an accepted dialog describes: text trimmed, numbers parsed, and a
      classpath image path turned into the stored form. */
  function DialogCar(f: CarForm, rating: real, price: real): Car {
    Car(Trim(f.name), f.available, Trim(f.carType), rating, StorePath(Trim(f.imagePath)), Trim(f.mileage),
        Trim(f.maxSpeed), Trim(f.seats), Trim(f.transmission), Trim(f.vehicleClass), price, Trim(f.releaseDate))
  }

  /** The car dialog's OK button: both numbers are parsed first, then every
      text field must be filled, the rating lie in [0, 5], the price be
      non-negative and the release date parse. */
  function ReadCarDialog(p: Parsers, f: CarForm): (r: Result<Car, DialogError>)
    ensures r == Err(NotANumber) <==> p.number(Trim(f.rating)).None? || p.number(Trim(f.price)).None?
    ensures r.Ok? <==>
      (&& p.number(Trim(f.rating)).Some? && p.number(Trim(f.price)).Some?
       && !AnyTextEmpty(f)
       && 0.0 <= p.number(Trim(f.rating)).value <= 5.0
       && p.number(Trim(f.price)).value >= 0.0
       && p.isDate(Trim(f.releaseDate)))
    ensures r.Ok? ==> r.value == DialogCar(f, p.number(Trim(f.rating)).value, p.number(Trim(f.price)).value)
    ensures r.Ok? ==> 0.0 <= r.value.rating <= 5.0 && r.value.price >= 0.0 && r.value.name != ""
  {
    match (p.number(Trim(f.rating)), p.number(Trim(f.price)))
    case (Some(rating), Some(price)) =>
      if AnyTextEmpty(f) then Err(EmptyField)
      else if rating < 0.0 || rating > 5.0 then Err(RatingOutOfRange)
      else if price < 0.0 then Err(NegativePrice)
      else if !p.isDate(Trim(f.releaseDate)) then Err(BadReleaseDate)
      else Ok(DialogCar(f, rating, price))
    case _ => Err(NotANumber)
  }

  /** An accepted dialog sends a classpath image path in stored form, which
      comes back to the client in the form the administrator typed. */
  lemma DialogPathRoundTrip(p: Parsers, f: CarForm)
    requires ReadCarDialog(p, f).Ok?
    requires StartsWith(Trim(f.imagePath), ClassPathPrefix)
    requires forall i :: !OccursAt(Trim(f.imagePath)[|ClassPathPrefix|..], StorePrefix, i)
    ensures StartsWith(ReadCarDialog(p, f).value.imagePath, StorePrefix)
    ensures ReceivedPath(ReadCarDialog(p, f).value.imagePath) == Trim(f.imagePath)
  {
    StoreThenReceive(Trim(f.imagePath));
  }

  datatype CarOutcome = DuplicateName | ServiceFailed | Done | NotInList | Invalid(error: DialogError)

  /** Adding a car: a name already in the client's list is refused before
      the worker is asked; the list gains the car only when the worker
      reports success. */
  function AddCarLocal(cars: seq<Car>, c: Car, serviceOk: bool): (r: (seq<Car>, CarOutcome))
    ensures r.1 == DuplicateName <==> HasName(cars, c.name)
    ensures r.1 == Done <==> !HasName(cars, c.name) && serviceOk
    ensures r.1 == Done ==> r.0 == AddCar(cars, c)
    ensures r.1 != Done ==> r.0 == cars
  {
    if HasName(cars, c.name) then (cars, DuplicateName)
    else if serviceOk then (AddCar(cars, c), Done)
    else (cars, ServiceFailed)
  }

  /** The edited car: the dialog's values, the name kept. */
  function Edited(current: Car, c: Car): Car {
    c.(name := current.name)
  }

  /** The list with the car at `k` taking the dialog's values under its own name. */
  function EditAt(cars: seq<Car>, k: nat, c: Car): (r: seq<Car>)
    requires k < |cars|
    ensures r == cars[k := Edited(cars[k], c)]
    ensures |r| == |cars| && forall j :: 0 <= j < |cars| ==> r[j].name == cars[j].name
  {
    cars[k := Edited(cars[k], c)]
  }

  /** Editing the first car with the selected name: the local car takes the
      dialog's values before the worker is asked, and keeps them whatever
      the worker answers. */
  function EditCarLocal(p: Parsers, cars: seq<Car>, name: string, f: CarForm, serviceOk: bool): (r: (seq<Car>, CarOutcome))
    ensures r.1 == NotInList <==> !HasName(cars, name)
    ensures |r.0| == |cars|
    ensures forall j :: 0 <= j < |cars| ==> r.0[j].name == cars[j].name
    ensures r.1.Invalid? || r.1 == NotInList ==> r.0 == cars
    ensures r.1 == Done || r.1 == ServiceFailed ==>
      && HasName(cars, name)
      && var k := FirstWithName(cars, name).value;
         && ReadCarDialog(p, f.(name := name)).Ok?
         && r.0 == cars[k := Edited(cars[k], ReadCarDialog(p, f.(name := name)).value)]
    ensures r.1 == Done <==> (HasName(cars, name) && ReadCarDialog(p, f.(name := name)).Ok? && serviceOk)
  {
    match FirstWithName(cars, name)
    case None => (cars, NotInList)
    case Some(k) =>
      match ReadCarDialog(p, f.(name := name))
      case Err(e) => (cars, Invalid(e))
      case Ok(c) =>
        (EditAt(cars, k, c), if serviceOk then Done else ServiceFailed)
  }

  /** When the worker accepts the edit, its own update on the same list
      gives the list the client now holds. */
  lemma EditMirrorsWorker(p: Parsers, cars: seq<Car>, name: string, f: CarForm)
    requires EditCarLocal(p, cars, name, f, true).1 == Done
    ensures var k := FirstWithName(cars, name).value;
      var sent := Edited(cars[k], ReadCarDialog(p, f.(name := name)).value);
      UpdateCar(cars, sent) == (EditCarLocal(p, cars, name, f, true).0, true)
  {
    var k := FirstWithName(cars, name).value;
    var sent := Edited(cars[k], ReadCarDialog(p, f.(name := name)).value);
    assert sent.name == name;
  }

  /** When the worker refuses the edit, the client's list still shows it: the
      two lists disagree whenever the dialog changed anything. */
  lemma EditKeptOnFailure(p: Parsers, cars: seq<Car>, name: string, f: CarForm)
    requires EditCarLocal(p, cars, name, f, false).1 == ServiceFailed
    ensures EditCarLocal(p, cars, name, f, false).0 == EditCarLocal(p, cars, name, f, true).0
    ensures var k := FirstWithName(cars, name).value;
      EditCarLocal(p, cars, name, f, false).0[k] != cars[k] <==>
        Edited(cars[k], ReadCarDialog(p, f.(name := name)).value) != cars[k]
  {
  }

  /** Deleting a car: the local list drops every car with that name, but only
      when the worker reports success. */
  function DeleteCarLocal(cars: seq<Car>, name: string, confirmed: bool, serviceOk: bool): (r: seq<Car>)
    ensures !(confirmed && serviceOk) ==> r == cars
    ensures confirmed && serviceOk ==> IsSubsequence(r, cars)
    ensures confirmed && serviceOk ==> forall j :: 0 <= j < |r| ==> r[j].name != name
    ensures confirmed && serviceOk ==> forall c: Car :: c.name != name ==> multiset(r)[c] == multiset(cars)[c]
  {
    if confirmed && serviceOk then
      FilterSpec(cars, NameIsNot(name));
      DeleteCar(cars, name).0
    else cars
  }

  /** A confirmed, successful delete leaves the client's list as the
      worker's `deleteCar` leaves the same list. */
  lemma DeleteMirrorsWorker(cars: seq<Car>, name: string)
    ensures DeleteCarLocal(cars, name, true, true) == DeleteCar(cars, name).0
  {
  }
}
