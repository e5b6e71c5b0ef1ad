/** One pass of the C++ worker's polling loop (`main.cpp`): read the command
    slot, skip it when idle, unparsable or already handled, dispatch on the
    action, write the response to the result slot, remember the id and clear
    the command slot. Sleeping between passes is not modelled; a `type_error`
    thrown outside the handlers' `try` blocks ends the process (`Crashed`). */
module WorkerLoop {
  import opened Wrappers
  import opened Json
  import opened Cars
  import opened CarStore
  import opened CarSort
  import opened CarFile

  /** The two files the processes share: `command.json` and `result.json`
      (a missing file reads as empty text). */
  datatype Mailbox = Mailbox(command: string, result: string)

  /** The worker's memory: the car list, the last processed command id and
      the contents of `cars_data.txt`. */
  datatype Worker = Worker(cars: seq<Car>, lastId: string, file: string)

  /** What a handler leaves behind: the new car list, whether it succeeded,
      whether it saved the list, the optional message and the optional list of
      cars sent back as `data`. */
  datatype Handled = Handled(cars: seq<Car>, success: bool, saved: bool, message: Option<string>, data: Option<seq<Car>>)

  datatype StepOutcome = Stepped(worker: Worker, mailbox: Mailbox) | Crashed(fault: Fault)

  const GetAll := "GET_ALL_CARS"
  const Add := "ADD_CAR"
  const Update := "UPDATE_CAR"
  const Delete := "DELETE_CAR"
  const Search := "SEARCH_CARS"
  const FilterAction := "FILTER_CARS"
  const SortAction := "SORT_CARS"

  const AddedMessage := "Car added successfully."
  const DuplicateMessage := "Car with this name already exists."
  const AddErrorPrefix := "Error adding car: "
  const UpdatedMessage := "Car updated successfully."
  const NotFoundForUpdateMessage := "Car not found for update."
  const UpdateErrorPrefix := "Error updating car: "
  const EmptyDeleteNameMessage := "Car name for deletion cannot be empty."
  const DeletedMessage := "Car deleted successfully."
  const NotFoundForDeleteMessage := "Car not found for deletion."
  const UnknownActionMessage := "Unknown action or invalid command structure."

  /** Defaults `FILTER_CARS` uses for absent keys. */
  const DefaultMinRating: real := 0.0
  const DefaultMaxPrice: real := 1000000.0

  predicate IsMutation(action: string) {
    action == Add || action == Update || action == Delete
  }

  /** `command["car"]`: a missing key reads as null. */
  function CarArgument(fields: map<string, Json>): Json {
    if "car" in fields then fields["car"] else JNull
  }

  function Success(cars: seq<Car>, data: seq<Car>): Handled {
    Handled(cars, true, false, None, Some(data))
  }

  /** The `if`/`else if` chain on the action. Errors the handlers catch become
      error responses; a `type_error` from a `value()` call outside any `try`
      is returned as `Err`. */
  function Dispatch(cars: seq<Car>, action: string, command: Json): (r: Result<Handled, Fault>)
    requires command.JObj?
    ensures r.Ok? && r.value.cars != cars ==> r.value.success && IsMutation(action)
    ensures r.Ok? ==> (r.value.saved <==> r.value.success && IsMutation(action))
    ensures r.Ok? && r.value.saved ==> (r.value.cars != cars || action == Update)
    ensures r.Err? ==> action in {Delete, Search, FilterAction, SortAction}
    ensures r.Ok? ==> (r.value.data.Some? <==> r.value.success && !IsMutation(action))
    ensures r.Ok? && r.value.data.Some? ==> forall c :: c in r.value.data.value ==> c in cars
  {
    if action == GetAll then
      Ok(Success(cars, cars))
    else if action == Add then
      match FromJson(CarArgument(command.fields))
      case Err(f) => Ok(Handled(cars, false, false, Some(AddErrorPrefix + Describe(f)), None))
      case Ok(c) =>
        if HasName(cars, c.name) then Ok(Handled(cars, false, false, Some(DuplicateMessage), None))
        else Ok(Handled(AddCar(cars, c), true, true, Some(AddedMessage), None))
    else if action == Update then
      match FromJson(CarArgument(command.fields))
      case Err(f) => Ok(Handled(cars, false, false, Some(UpdateErrorPrefix + Describe(f)), None))
      case Ok(c) =>
        var (updated, found) := UpdateCar(cars, c);
        if found then Ok(Handled(updated, true, true, Some(UpdatedMessage), None))
        else Ok(Handled(cars, false, false, Some(NotFoundForUpdateMessage), None))
    else if action == Delete then
      var name :- ValueStr(command, "carName", "");
      if name == "" then Ok(Handled(cars, false, false, Some(EmptyDeleteNameMessage), None))
      else
        var (kept, found) := DeleteCar(cars, name);
        DeleteShrinks(cars, name);
        if found then Ok(Handled(kept, true, true, Some(DeletedMessage), None))
        else Ok(Handled(cars, false, false, Some(NotFoundForDeleteMessage), None))
    else if action == Search then
      var query :- ValueStr(command, "query", "");
      var field :- ValueStr(command, "searchField", "");
      Ok(Success(cars, SearchCars(cars, query, field)))
    else if action == FilterAction then
      var typeFilter :- ValueStr(command, "typeFilter", "");
      var minRating :- ValueNum(command, "minRating", DefaultMinRating);
      var maxPrice :- ValueNum(command, "maxPrice", DefaultMaxPrice);
      var availableOnly :- ValueBool(command, "availableOnly", false);
      Ok(Success(cars, FilterCars(cars, typeFilter, minRating, maxPrice, availableOnly)))
    else if action == SortAction then
      var sortBy :- ValueStr(command, "sortBy", "");
      var ascending :- ValueBool(command, "ascending", true);
      Ok(Success(cars, SortCars(cars, sortBy, ascending)))
    else
      Ok(Handled(cars, false, false, Some(UnknownActionMessage), None))
  }

  function StatusText(success: bool): string {
    if success then "success" else "error"
  }

  /** The response object: the echoed id, the status, and the message and
      data when the handler set them. */
  function Response(id: string, h: Handled): (r: Json)
    ensures r.JObj? && "id" in r.fields && "status" in r.fields
    ensures r.fields["id"] == JStr(id)
    ensures r.fields["status"] == JStr(if h.success then "success" else "error")
    ensures "message" in r.fields <==> h.message.Some?
    ensures h.message.Some? ==> r.fields["message"] == JStr(h.message.value)
    ensures "data" in r.fields <==> h.data.Some?
    ensures h.data.Some? ==> r.fields["data"] == JArr(EncodeCars(h.data.value))
  {
    var base := map["id" := JStr(id), "status" := JStr(StatusText(h.success))];
    var withMessage := if h.message.Some? then base["message" := JStr(h.message.value)] else base;
    JObj(if h.data.Some? then withMessage["data" := JArr(EncodeCars(h.data.value))] else withMessage)
  }

  /** A response is representable exactly when every car it sends back is exact. */
  lemma ResponseRepresentable(id: string, h: Handled)
    ensures Representable(Response(id, h)) <==> (h.data.Some? ==> forall c :: c in h.data.value ==> Exact(c))
  {
    var r := Response(id, h);
    assert forall k :: k in r.fields ==> k in {"id", "status", "message", "data"};
    if h.data.Some? {
      EncodeCarsRepresentable(h.data.value);
    }
  }

  /** A command the loop should act on: neither empty nor the placeholder. */
  predicate HasCommand(mb: Mailbox) {
    mb.command != "" && mb.command != EmptyDocument
  }

  /** One pass of the loop. */
  function Step(w: Wire, nf: NumFormat, st: Worker, mb: Mailbox): (r: StepOutcome)
    ensures !HasCommand(mb) ==> r == Stepped(st, mb)
    ensures HasCommand(mb) && w.parse(mb.command).None? ==> r == Stepped(st, mb.(command := EmptyDocument))
    ensures r.Stepped? && r.worker.lastId != st.lastId ==>
      && r.mailbox.command == EmptyDocument
      && w.parse(mb.command).Some? && w.parse(mb.command).value.JObj?
      && "id" in w.parse(mb.command).value.fields
      && w.parse(mb.command).value.fields["id"] == JStr(r.worker.lastId)
      && r.worker.lastId != ""
    ensures r.Stepped? && r.worker.lastId == st.lastId ==> r.worker == st
  {
    if !HasCommand(mb) then Stepped(st, mb)
    else match w.parse(mb.command)
      case None => Stepped(st, mb.(command := EmptyDocument))
      case Some(command) =>
        match ValueStr(command, "id", "")
        case Err(f) => Crashed(f)
        case Ok(id) =>
          if id == "" || id == st.lastId then Stepped(st, mb)
          else match ValueStr(command, "action", "")
            case Err(f) => Crashed(f)
            case Ok(action) =>
              match Dispatch(st.cars, action, command)
              case Err(f) => Crashed(f)
              case Ok(h) =>
                var file := if h.saved then SaveCars(nf, h.cars) else st.file;
                Stepped(Worker(h.cars, id, file), Mailbox(EmptyDocument, w.render(Response(id, h))))
  }

  /** The command a pass acts on: an object whose `id` is a non-empty string
      other than the last one processed, and whose `action` is a string. */
  predicate Fresh(st: Worker, command: Json, id: string, action: string) {
    && command.JObj?
    && "id" in command.fields && command.fields["id"] == JStr(id)
    && id != "" && id != st.lastId
    && ("action" in command.fields ==> command.fields["action"] == JStr(action))
    && ("action" !in command.fields ==> action == "")
  }

  /** A fresh command is answered: the response carries its id and the
      handler's outcome, the id is remembered and the command slot cleared. */
  lemma StepAnswers(w: Wire, nf: NumFormat, st: Worker, mb: Mailbox, id: string, action: string)
    requires HasCommand(mb) && w.parse(mb.command).Some?
    requires Fresh(st, w.parse(mb.command).value, id, action)
    requires Dispatch(st.cars, action, w.parse(mb.command).value).Ok?
    ensures var h := Dispatch(st.cars, action, w.parse(mb.command).value).value;
      && Step(w, nf, st, mb) == Stepped(
           Worker(h.cars, id, if h.saved then SaveCars(nf, h.cars) else st.file),
           Mailbox(EmptyDocument, w.render(Response(id, h))))
  {
  }

  /** A command whose id was the last one processed changes nothing, so the
      same command is never handled twice in a row. */
  lemma StepSkipsRepeat(w: Wire, nf: NumFormat, st: Worker, mb: Mailbox)
    requires HasCommand(mb) && w.parse(mb.command).Some?
    requires w.parse(mb.command).value.JObj?
    requires "id" in w.parse(mb.command).value.fields
    requires w.parse(mb.command).value.fields["id"] == JStr(st.lastId)
    ensures Step(w, nf, st, mb) == Stepped(st, mb)
  {
  }

  /** Re-reading the command just handled (the slot not yet cleared, say) is a no-op. */
  lemma NoDoubleProcessing(w: Wire, nf: NumFormat, st: Worker, mb: Mailbox)
    requires Step(w, nf, st, mb).Stepped?
    requires Step(w, nf, st, mb).worker.lastId != st.lastId
    ensures var after := Step(w, nf, st, mb);
      Step(w, nf, after.worker, after.mailbox.(command := mb.command)) ==
        Stepped(after.worker, after.mailbox.(command := mb.command))
  {
  }

  /** A pass crashes only on a command that parsed and then failed a
      `value()` read outside a `try`: the command is not an object, its `id`
      or `action` is not a string, or its handler read a wrongly typed key. */
  lemma CrashNeedsTypeError(w: Wire, nf: NumFormat, st: Worker, mb: Mailbox)
    requires Step(w, nf, st, mb).Crashed?
    ensures HasCommand(mb) && w.parse(mb.command).Some?
    ensures var c := w.parse(mb.command).value;
      || !c.JObj?
      || ("id" in c.fields && !c.fields["id"].JStr?)
      || ("action" in c.fields && !c.fields["action"].JStr?)
      || (ValueStr(c, "action", "").Ok? && Dispatch(st.cars, ValueStr(c, "action", "").value, c).Err?)
  {
  }

  /** A non-object command (an array, say) crashes the worker: `value("id", "")`
      throws outside any `try`. */
  lemma NonObjectCommandCrashes(w: Wire, nf: NumFormat, st: Worker, mb: Mailbox)
    requires HasCommand(mb) && w.parse(mb.command).Some? && !w.parse(mb.command).value.JObj?
    ensures Step(w, nf, st, mb) == Crashed(TypeError("id"))
  {
  }

  /** `ADD_CAR` appends the car exactly when no car has its name, and says why not otherwise. */
  lemma AddSemantics(cars: seq<Car>, command: Json, c: Car)
    requires command.JObj? && FromJson(CarArgument(command.fields)) == Ok(c)
    ensures Dispatch(cars, Add, command).Ok?
    ensures Dispatch(cars, Add, command).value.success <==> !HasName(cars, c.name)
    ensures !HasName(cars, c.name) ==> Dispatch(cars, Add, command).value.cars == cars + [c]
    ensures HasName(cars, c.name) ==>
      Dispatch(cars, Add, command).value == Handled(cars, false, false, Some(DuplicateMessage), None)
  {
  }

  /** An `ADD_CAR` or `UPDATE_CAR` whose car cannot be decoded (no `car` key,
      or a wrongly typed field) is answered with an error and changes nothing. */
  lemma UndecodableCarRejected(cars: seq<Car>, action: string, command: Json)
    requires command.JObj? && (action == Add || action == Update)
    requires FromJson(CarArgument(command.fields)).Err?
    ensures Dispatch(cars, action, command).Ok?
    ensures !Dispatch(cars, action, command).value.success
    ensures Dispatch(cars, action, command).value.cars == cars
  {
  }

  /** `UPDATE_CAR` succeeds exactly when a car has the name, and then replaces the first such car. */
  lemma UpdateSemantics(cars: seq<Car>, command: Json, c: Car)
    requires command.JObj? && FromJson(CarArgument(command.fields)) == Ok(c)
    ensures Dispatch(cars, Update, command).Ok?
    ensures Dispatch(cars, Update, command).value.success <==> HasName(cars, c.name)
    ensures HasName(cars, c.name) ==>
      Dispatch(cars, Update, command).value.cars == cars[FirstWithName(cars, c.name).value := c]
  {
  }

  /** `DELETE_CAR` with a string name: empty names are refused, otherwise
      success means some car had the name and every such car is gone. */
  lemma DeleteSemantics(cars: seq<Car>, command: Json, name: string)
    requires command.JObj?
    requires ("carName" in command.fields ==> command.fields["carName"] == JStr(name))
    requires ("carName" !in command.fields ==> name == "")
    ensures Dispatch(cars, Delete, command).Ok?
    ensures name == "" ==>
      Dispatch(cars, Delete, command).value == Handled(cars, false, false, Some(EmptyDeleteNameMessage), None)
    ensures name != "" ==> (Dispatch(cars, Delete, command).value.success <==> HasName(cars, name))
    ensures name != "" ==> forall i :: 0 <= i < |Dispatch(cars, Delete, command).value.cars| ==>
      Dispatch(cars, Delete, command).value.cars[i].name != name
  {
    assert ValueStr(command, "carName", "") == Ok(name);
    if name != "" {
      DeleteCarSpec(cars, name);
      var (kept, found) := DeleteCar(cars, name);
      assert Dispatch(cars, Delete, command) ==
        if found then Ok(Handled(kept, true, true, Some(DeletedMessage), None))
        else Ok(Handled(cars, false, false, Some(NotFoundForDeleteMessage), None));
    }
  }

  /** A wrongly typed `carName` is not caught: the worker crashes. */
  lemma DeleteBadNameCrashes(cars: seq<Car>, command: Json)
    requires command.JObj? && "carName" in command.fields && !command.fields["carName"].JStr?
    ensures Dispatch(cars, Delete, command) == Err(TypeError("carName"))
  {
  }

  /** `FILTER_CARS` with none of its keys uses the defaults: any type, rating
      at least 0.0, price at most 1000000.0, available or not. */
  lemma FilterDefaults(cars: seq<Car>, command: Json)
    requires command.JObj?
    requires forall k :: k in command.fields ==> k !in {"typeFilter", "minRating", "maxPrice", "availableOnly"}
    ensures Dispatch(cars, FilterAction, command) ==
      Ok(Success(cars, FilterCars(cars, "", DefaultMinRating, DefaultMaxPrice, false)))
  {
  }

  /** `SORT_CARS` sorts ascending unless told otherwise. */
  lemma SortDefaultsAscending(cars: seq<Car>, command: Json, sortBy: string)
    requires command.JObj?
    requires "sortBy" in command.fields && command.fields["sortBy"] == JStr(sortBy)
    requires "ascending" !in command.fields
    ensures Dispatch(cars, SortAction, command) == Ok(Success(cars, SortCars(cars, sortBy, true)))
  {
  }

  /** An unknown action gets an error response and changes nothing. */
  lemma UnknownActionRejected(cars: seq<Car>, action: string, command: Json)
    requires command.JObj?
    requires action !in {GetAll, Add, Update, Delete, Search, FilterAction, SortAction}
    ensures Dispatch(cars, action, command) == Ok(Handled(cars, false, false, Some(UnknownActionMessage), None))
  {
  }

  /** The file mirrors the list: every pass keeps `file` equal to the saved
      form of `cars`, so a restart would load exactly the list in memory. */
  predicate InSync(nf: NumFormat, st: Worker) {
    st.file == SaveCars(nf, st.cars)
  }

  lemma StepKeepsInSync(w: Wire, nf: NumFormat, st: Worker, mb: Mailbox)
    requires InSync(nf, st)
    requires Step(w, nf, st, mb).Stepped?
    ensures InSync(nf, Step(w, nf, st, mb).worker)
  {
  }

  /** A restart reloads what the worker saved through `loadCarsFromFile`
      as written: with storable cars whose release dates are all filled in,
      that is exactly the list in memory. */
  lemma RestartRecoversList(w: Wire, nf: NumFormat, st: Worker, mb: Mailbox)
    requires InSync(nf, st)
    requires Step(w, nf, st, mb).Stepped?
    requires AllStorable(nf, Step(w, nf, st, mb).worker.cars)
    requires forall c :: c in Step(w, nf, st, mb).worker.cars ==> c.releaseDate != ""
    ensures LoadCarsFromFile(nf, [], Some(Step(w, nf, st, mb).worker.file)) == Step(w, nf, st, mb).worker.cars
  {
    var cars := Step(w, nf, st, mb).worker.cars;
    StepKeepsInSync(w, nf, st, mb);
    assert forall i :: 0 <= i < |cars| ==> cars[i].releaseDate != "" by {
      forall i | 0 <= i < |cars| ensures cars[i].releaseDate != "" {
        assert cars[i] in cars;
      }
    }
    AsWrittenRoundTrip(nf, cars);
  }

  /** With the corrected line reader, every storable list comes back,
      empty release dates included. */
  lemma RestartRecoversListCorrected(w: Wire, nf: NumFormat, st: Worker, mb: Mailbox)
    requires InSync(nf, st)
    requires Step(w, nf, st, mb).Stepped?
    requires AllStorable(nf, Step(w, nf, st, mb).worker.cars)
    ensures LoadCarsFromFileCorrected(nf, [], Some(Step(w, nf, st, mb).worker.file)) == Step(w, nf, st, mb).worker.cars
  {
    StepKeepsInSync(w, nf, st, mb);
    SaveLoadRoundTrip(nf, Step(w, nf, st, mb).worker.cars);
  }
}
