/** The two halves of the mailbox together: a command the client sends is
    answered by one pass of a live worker, and the client recognises the
    answer on its next read. */
module Bridge {
  import opened Wrappers
  import opened Text
  import opened Json
  import opened Cars
  import opened CarFile
  import opened ImagePaths
  import opened WorkerLoop
  import opened Exchange

  /** The command text the client writes for `command` under `id`. */
  function Sent(w: Wire, command: map<string, Json>, id: string): string {
    w.render(JObj(PrepareCommand(command, id)))
  }

  /** The action the worker reads from a prepared command. */
  function ActionOf(command: map<string, Json>): string {
    if "command" in command && command["command"].JStr? then command["command"].s
    else if "command" !in command && "action" in command && command["action"].JStr? then command["action"].s
    else ""
  }

  /** The command's action is a string (or absent), so reading it cannot throw. */
  predicate ActionReadable(command: map<string, Json>) {
    && ("command" in command ==> command["command"].JStr?)
    && ("command" !in command && "action" in command ==> command["action"].JStr?)
  }

  /** A worker that has not yet seen `id` answers the client's command in one
      pass: the command slot is cleared and the result slot holds the
      response to `id`, which a client read recognises as the answer. */
  lemma WorkerAnswersClient(w: Wire, nf: NumFormat, st: Worker, command: map<string, Json>, id: string)
    requires Faithful(w)
    requires Representable(JObj(command)) && forall c :: c in st.cars ==> Exact(c)
    requires id != "" && id != st.lastId
    requires ActionReadable(command)
    requires Dispatch(st.cars, ActionOf(command), JObj(PrepareCommand(command, id))).Ok?
    ensures var s := Step(w, nf, st, Mailbox(Sent(w, command, id), EmptyDocument));
      && s.Stepped?
      && s.mailbox.command == EmptyDocument
      && s.worker.lastId == id
      && Correlates(w, id, ClientRead(s.mailbox.result))
  {
    var prepared := PrepareCommand(command, id);
    PrepareRepresentable(command, id);
    RenderNonEmpty(w, prepared);
    var h := Dispatch(st.cars, ActionOf(command), JObj(prepared)).value;
    var response := Response(id, h);
    ResponseRepresentable(id, h);
    RenderNonEmptyStripped(w, response.fields);
    StepAnswers(w, nf, st, Mailbox(Sent(w, command, id), EmptyDocument), id, ActionOf(command));
  }

  /** Polls that find the slot still cleared, followed by one that finds the
      worker's response, end the wait at that poll with the response text. */
  lemma ClientSeesAnswer(w: Wire, id: string, start: int, before: seq<Poll>, last: Poll)
    requires forall j :: 0 <= j < |before| ==> before[j].content == EmptyDocument || before[j].content == ""
    requires forall j :: 0 <= j < |before| ==> before[j].clock - start < TimeoutMillis
    requires last.clock - start < TimeoutMillis
    requires Correlates(w, id, ClientRead(last.content))
    ensures Await(w, id, start, before + [last]) == Answered(ClientRead(last.content), |before|)
  {
    var polls := before + [last];
    forall j | 0 <= j < |before| ensures !Correlates(w, id, ClientRead(polls[j].content)) {
      StaleReadsIgnored(w, id, before[j].content);
    }
    assert AnswersAt(w, id, start, polls, |before|);
  }

  /** The whole exchange: with a live worker taking its pass while the client
      polls, `sendCommand` returns the worker's response. */
  lemma ExchangeCompletes(w: Wire, nf: NumFormat, st: Worker, command: map<string, Json>, id: string,
                          start: int, before: seq<Poll>, t: int)
    requires Faithful(w)
    requires Representable(JObj(command)) && forall c :: c in st.cars ==> Exact(c)
    requires id != "" && id != st.lastId
    requires ActionReadable(command)
    requires Dispatch(st.cars, ActionOf(command), JObj(PrepareCommand(command, id))).Ok?
    requires forall j :: 0 <= j < |before| ==> before[j].content == EmptyDocument && before[j].clock - start < TimeoutMillis
    requires t - start < TimeoutMillis
    ensures var s := Step(w, nf, st, Mailbox(Sent(w, command, id), EmptyDocument));
      && s.Stepped?
      && SendCommand(w, command, id, start, before + [Poll(t, s.mailbox.result)]).outcome == Reply(ClientRead(s.mailbox.result))
  {
    WorkerAnswersClient(w, nf, st, command, id);
    var s := Step(w, nf, st, Mailbox(Sent(w, command, id), EmptyDocument));
    ClientSeesAnswer(w, id, start, before, Poll(t, s.mailbox.result));
  }

  /** The text the client reads back from a response parses to that response. */
  lemma ClientParsesResponse(w: Wire, id: string, h: Handled)
    requires Faithful(w)
    requires h.data.Some? ==> forall c :: c in h.data.value ==> Exact(c)
    ensures w.parse(ClientRead(w.render(Response(id, h)))) == Some(Response(id, h))
  {
    ResponseRepresentable(id, h);
    RenderNonEmptyStripped(w, Response(id, h).fields);
  }

  /** A list the worker sends back reaches the client's caller as the same
      cars, with stored image paths in classpath form. */
  lemma ClientReceivesList(w: Wire, id: string, cars: seq<Car>, data: seq<Car>)
    requires Faithful(w)
    requires forall c :: c in data ==> Exact(c)
    ensures QueryResult(w, Reply(ClientRead(w.render(Response(id, Success(cars, data)))))) == Ok(RewriteCars(data))
  {
    ClientParsesResponse(w, id, Success(cars, data));
    ParseEncodedList(w, ClientRead(w.render(Response(id, Success(cars, data)))), Response(id, Success(cars, data)).fields, data);
  }

  /** The boolean the mutation methods return is the worker's success flag. */
  lemma ClientReceivesStatus(w: Wire, id: string, h: Handled)
    requires Faithful(w)
    requires h.data.Some? ==> forall c :: c in h.data.value ==> Exact(c)
    ensures MutationResult(w, Reply(ClientRead(w.render(Response(id, h))))) == Ok(h.success)
  {
    ClientParsesResponse(w, id, h);
  }

  /** The worker handles the prepared command without crashing. */
  predicate Accepted(cars: seq<Car>, command: map<string, Json>, id: string) {
    ActionReadable(command) && Dispatch(cars, ActionOf(command), JObj(PrepareCommand(command, id))).Ok?
  }

  /** The commands the client's public methods build are all well formed for
      the worker: none of them makes it crash. */
  lemma CarCommandsAccepted(cars: seq<Car>, id: string, c: Car)
    ensures Accepted(cars, GetAllCommand(), id)
    ensures Accepted(cars, AddCommand(c), id)
    ensures Accepted(cars, UpdateCommand(c), id)
  {
    GetAllCommandAccepted(cars, id);
    AddCommandAccepted(cars, id, c);
    UpdateCommandAccepted(cars, id, c);
  }

  lemma GetAllCommandAccepted(cars: seq<Car>, id: string)
    ensures Accepted(cars, GetAllCommand(), id)
  {
    assert ActionOf(GetAllCommand()) == GetAll;
  }

  lemma AddCommandAccepted(cars: seq<Car>, id: string, c: Car)
    ensures Accepted(cars, AddCommand(c), id)
  {
    assert ActionOf(AddCommand(c)) == Add;
  }

  lemma UpdateCommandAccepted(cars: seq<Car>, id: string, c: Car)
    ensures Accepted(cars, UpdateCommand(c), id)
  {
    assert ActionOf(UpdateCommand(c)) == Update;
  }

  lemma DeleteCommandAccepted(cars: seq<Car>, id: string, name: string)
    ensures Accepted(cars, DeleteCommand(name), id)
  {
    var m := PrepareCommand(DeleteCommand(name), id);
    assert ActionOf(DeleteCommand(name)) == Delete;
    assert m["carName"] == JStr(name);
  }

  lemma SearchCommandAccepted(cars: seq<Car>, id: string, query: string, field: string)
    ensures Accepted(cars, SearchCommand(query, field), id)
  {
    var m := PrepareCommand(SearchCommand(query, field), id);
    assert ActionOf(SearchCommand(query, field)) == Search;
    assert m["query"] == JStr(query) && m["searchField"] == JStr(field);
  }

  lemma FilterCommandAccepted(cars: seq<Car>, id: string, typeFilter: string, minRating: real, maxPrice: real, availableOnly: bool)
    ensures Accepted(cars, FilterCommand(typeFilter, minRating, maxPrice, availableOnly), id)
  {
    var command := FilterCommand(typeFilter, minRating, maxPrice, availableOnly);
    var m := PrepareCommand(command, id);
    assert ActionOf(command) == FilterAction;
    assert m["typeFilter"] == JStr(typeFilter) && m["minRating"] == JNum(minRating);
    assert m["maxPrice"] == JNum(maxPrice) && m["availableOnly"] == JBool(availableOnly);
  }

  lemma SortCommandAccepted(cars: seq<Car>, id: string, sortBy: string, ascending: bool)
    ensures Accepted(cars, SortCommand(sortBy, ascending), id)
  {
    var m := PrepareCommand(SortCommand(sortBy, ascending), id);
    assert ActionOf(SortCommand(sortBy, ascending)) == SortAction;
    assert m["sortBy"] == JStr(sortBy) && m["ascending"] == JBool(ascending);
  }

  /** Getting all cars through the mailbox returns the worker's list, image
      paths rewritten, and leaves the worker's list as it was. */
  lemma GetAllThroughMailbox(w: Wire, nf: NumFormat, st: Worker, id: string)
    requires Faithful(w)
    requires forall c :: c in st.cars ==> Exact(c)
    requires id != "" && id != st.lastId
    ensures var s := Step(w, nf, st, Mailbox(Sent(w, GetAllCommand(), id), EmptyDocument));
      && s.Stepped?
      && s.worker.cars == st.cars
      && QueryResult(w, Reply(ClientRead(s.mailbox.result))) == Ok(RewriteCars(st.cars))
  {
    var prepared := PrepareCommand(GetAllCommand(), id);
    assert ActionOf(GetAllCommand()) == GetAll;
    assert Representable(JObj(GetAllCommand()));
    PrepareRepresentable(GetAllCommand(), id);
    RenderNonEmpty(w, prepared);
    StepAnswers(w, nf, st, Mailbox(Sent(w, GetAllCommand(), id), EmptyDocument), id, GetAll);
    ClientReceivesList(w, id, st.cars, st.cars);
  }
}
