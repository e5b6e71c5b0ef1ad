/** The Java client's side of the file mailbox (`CarService`): tag a command
    with a fresh id, clear the result slot, write the command, poll the result
    slot until a response carrying the id appears or ten seconds pass, clear
    the command slot; then read the status and the car list out of the
    response. The clock and the file contents seen at each poll are inputs. */
module Exchange {
  import opened Wrappers
  import opened Text
  import opened Json
  import opened Cars
  import opened ImagePaths

  const TimeoutMillis: int := 10000
  const PollIntervalMillis: int := 100

  /** `readJsonFromFile`: a missing or empty file reads as the placeholder;
      otherwise the lines are joined without their line breaks. */
  function ClientRead(content: string): (r: string)
    ensures content == "" ==> r == EmptyDocument
    ensures content != "" ==> r == StripLineBreaks(content)
  {
    if content == "" then EmptyDocument else StripLineBreaks(content)
  }

  /** `sendCommand`'s preparation of the command map: the id is put in, and
      a `command` entry is moved to `action`. */
  function PrepareCommand(command: map<string, Json>, id: string): (r: map<string, Json>)
    ensures "id" in r && r["id"] == JStr(id)
    ensures "command" !in r
    ensures "command" in command ==> "action" in r && r["action"] == command["command"]
    ensures forall k :: k in command && k != "id" && k != "command" && (k != "action" || "command" !in command) ==>
      k in r && r[k] == command[k]
    ensures forall k :: k in r ==> k in command || k == "id" || k == "action"
  {
    var tagged := command["id" := JStr(id)];
    if "command" in tagged then (tagged - {"command"})["action" := tagged["command"]] else tagged
  }

  /** Tagging a command keeps it representable: the id is a string and every
      other member is one of the command's own. */
  lemma PrepareRepresentable(command: map<string, Json>, id: string)
    requires Representable(JObj(command))
    ensures Representable(JObj(PrepareCommand(command, id)))
  {
    var r := PrepareCommand(command, id);
    forall k | k in r
      ensures Representable(r[k])
    {
      if k == "action" && "command" in command {
        assert r[k] == command["command"];
      } else if k != "id" {
        assert k in command;
      }
    }
  }

  /** What one pass of the polling loop sees: the clock when the loop
      condition is checked, and the content of `result.json` read then. */
  datatype Poll = Poll(clock: int, content: string)

  /** The text read from the result slot answers command `id`: it is neither
      empty nor the placeholder, parses to an object, and its `id` is `id`. */
  predicate Correlates(w: Wire, id: string, text: string) {
    && text != "" && text != EmptyDocument
    && w.parse(text).Some? && w.parse(text).value.JObj?
    && "id" in w.parse(text).value.fields
    && w.parse(text).value.fields["id"] == JStr(id)
  }

  /** Every loop check up to and including poll `k` falls before the deadline. */
  predicate BeforeDeadline(start: int, polls: seq<Poll>, k: int) {
    forall j :: 0 <= j <= k && j < |polls| ==> polls[j].clock - start < TimeoutMillis
  }

  /** Poll `k` is reached and its read answers the command. */
  predicate AnswersAt(w: Wire, id: string, start: int, polls: seq<Poll>, k: int) {
    0 <= k < |polls| && BeforeDeadline(start, polls, k) && Correlates(w, id, ClientRead(polls[k].content))
  }

  /** Once the first check passes, answering at poll `k` is answering at
      poll `k - 1` of the polls that follow. */
  lemma AnswersShift(w: Wire, id: string, start: int, polls: seq<Poll>)
    requires |polls| > 0 && polls[0].clock - start < TimeoutMillis
    ensures forall k :: 1 <= k < |polls| ==>
      (AnswersAt(w, id, start, polls, k) <==> AnswersAt(w, id, start, polls[1..], k - 1))
  {
    forall k | 1 <= k < |polls|
      ensures AnswersAt(w, id, start, polls, k) <==> AnswersAt(w, id, start, polls[1..], k - 1)
    {
      assert polls[k] == polls[1..][k - 1];
      assert BeforeDeadline(start, polls, k) <==> BeforeDeadline(start, polls[1..], k - 1) by {
        assert forall j :: 1 <= j < |polls| ==> polls[j] == polls[1..][j - 1];
      }
    }
  }

  datatype AwaitOutcome = Answered(doc: string, at: nat) | TimedOut

  /** The polling loop. A read that does not parse, or parses to something
      else, is passed over and polling continues. The polls list covers the
      loop until the deadline; when it runs out the loop counts as timed out. */
  function Await(w: Wire, id: string, start: int, polls: seq<Poll>): (r: AwaitOutcome)
    ensures r.Answered? ==> AnswersAt(w, id, start, polls, r.at) && r.doc == ClientRead(polls[r.at].content)
    ensures r.Answered? ==> forall j :: 0 <= j < r.at ==> !Correlates(w, id, ClientRead(polls[j].content))
    ensures r.TimedOut? <==> forall k :: !AnswersAt(w, id, start, polls, k)
    decreases |polls|
  {
    if |polls| == 0 || polls[0].clock - start >= TimeoutMillis then
      assert forall k :: 0 <= k < |polls| ==> !BeforeDeadline(start, polls, k);
      TimedOut
    else if Correlates(w, id, ClientRead(polls[0].content)) then
      assert AnswersAt(w, id, start, polls, 0);
      Answered(ClientRead(polls[0].content), 0)
    else
      var rest := Await(w, id, start, polls[1..]);
      AnswersShift(w, id, start, polls);
      match rest
      case Answered(doc, k) =>
        assert polls[k + 1] == polls[1..][k];
        assert AnswersAt(w, id, start, polls, k + 1);
        assert forall j :: 1 <= j < k + 1 ==> polls[j] == polls[1..][j - 1];
        Answered(doc, k + 1)
      case TimedOut =>
        assert !AnswersAt(w, id, start, polls, 0);
        TimedOut
  }

  /** Each pass sleeps at least the poll interval, so pass `k` starts at least
      `k` intervals after the start. */
  predicate Paced(start: int, polls: seq<Poll>) {
    forall k :: 0 <= k < |polls| ==> polls[k].clock >= start + PollIntervalMillis * k
  }

  /** With the loop paced, an answer is found within the first hundred reads. */
  lemma AnsweredWithinBudget(w: Wire, id: string, start: int, polls: seq<Poll>)
    requires Paced(start, polls)
    ensures Await(w, id, start, polls).Answered? ==> Await(w, id, start, polls).at < TimeoutMillis / PollIntervalMillis
  {
  }

  /** Reads of the placeholder, of an empty file or of a response to another
      command never answer. */
  lemma StaleReadsIgnored(w: Wire, id: string, content: string)
    requires content == "" || content == EmptyDocument ||
      (w.parse(ClientRead(content)).Some? && w.parse(ClientRead(content)).value.JObj? &&
       "id" in w.parse(ClientRead(content)).value.fields &&
       w.parse(ClientRead(content)).value.fields["id"] != JStr(id))
    ensures !Correlates(w, id, ClientRead(content))
  {
    if content == EmptyDocument {
      assert StripLineBreaks(content) == content by {
        StripLineBreaksIdentity(content);
      }
    }
  }

  /** The writes `sendCommand` makes, in order. */
  datatype FileWrite = ToResult(text: string) | ToCommand(text: string)

  /** The result of `sendCommand`, or an `IOException` from the file calls. */
  datatype CallOutcome = Reply(doc: string) | NoReply | IoError

  datatype Call = Call(writes: seq<FileWrite>, outcome: CallOutcome)

  /** `sendCommand`: the result slot is cleared before the command is
      written, and the command slot is cleared afterwards whether or not an
      answer came. */
  function SendCommand(w: Wire, command: map<string, Json>, id: string, start: int, polls: seq<Poll>): (r: Call)
    ensures r.writes == [ToResult(EmptyDocument), ToCommand(w.render(JObj(PrepareCommand(command, id)))), ToCommand(EmptyDocument)]
    ensures r.outcome.Reply? <==> Await(w, id, start, polls).Answered?
    ensures r.outcome.Reply? ==> Correlates(w, id, r.outcome.doc)
    ensures !r.outcome.IoError?
  {
    var sent := w.render(JObj(PrepareCommand(command, id)));
    var writes := [ToResult(EmptyDocument), ToCommand(sent), ToCommand(EmptyDocument)];
    match Await(w, id, start, polls)
    case Answered(doc, _) => Call(writes, Reply(doc))
    case TimedOut => Call(writes, NoReply)
  }

  /** An unchecked exception escaping to the caller (a response that Gson
      cannot read as a map, a `data` value that is not a list of cars, a
      `null` response map). */
  datatype ClientFault = Unchecked

  const SuccessStatus: Json := JStr("success")

  /** `parseResponseData` for a list of cars: no response, a status other
      than "success", or missing or null data give the empty list; the cars
      are decoded and their image paths rewritten. */
  function ParseResponseData(w: Wire, reply: Option<string>): (r: Result<seq<Car>, ClientFault>)
    ensures reply.None? ==> r == Ok([])
    ensures (reply.Some? && w.parse(reply.value).Some? && w.parse(reply.value).value.JObj? &&
             Get(w.parse(reply.value).value.fields, "status") != Some(SuccessStatus)) ==> r == Ok([])
    ensures reply.Some? && (w.parse(reply.value).None? || !w.parse(reply.value).value.JObj?) ==> r.Err?
  {
    match reply
    case None => Ok([])
    case Some(doc) =>
      match w.parse(doc)
      case None => Err(Unchecked)
      case Some(response) =>
        if !response.JObj? then Err(Unchecked)
        else if Get(response.fields, "status") != Some(SuccessStatus) then Ok([])
        else DecodeData(Get(response.fields, "data"))
  }

  /** The `data` entry of a success response: missing or null is the empty
      list; a list of cars is decoded with its image paths rewritten. */
  function DecodeData(data: Option<Json>): (r: Result<seq<Car>, ClientFault>)
    ensures data.None? || data == Some(JNull) ==> r == Ok([])
    ensures r.Ok? && data.Some? && data.value.JArr? ==> DecodeCars(data.value.items).Some?
    ensures r.Err? <==> data.Some? && !data.value.JNull? && !(data.value.JArr? && DecodeCars(data.value.items).Some?)
  {
    match data
    case None => Ok([])
    case Some(JNull) => Ok([])
    case Some(JArr(items)) =>
      (match DecodeCars(items)
       case Some(cars) => Ok(RewriteCars(cars))
       case None => Err(Unchecked))
    case Some(_) => Err(Unchecked)
  }

  /** A success response carrying an encoded list yields exactly that list,
      with image paths rewritten. */
  lemma ParseEncodedList(w: Wire, reply: string, m: map<string, Json>, cars: seq<Car>)
    requires w.parse(reply) == Some(JObj(m))
    requires "status" in m && m["status"] == SuccessStatus
    requires "data" in m && m["data"] == JArr(EncodeCars(cars))
    ensures ParseResponseData(w, Some(reply)) == Ok(RewriteCars(cars))
  {
    DecodeDataEncoded(cars);
  }

  lemma DecodeDataEncoded(cars: seq<Car>)
    ensures DecodeData(Some(JArr(EncodeCars(cars)))) == Ok(RewriteCars(cars))
  {
    DecodeEncodeCars(cars);
  }

  /** `checkStatus`: true exactly for a response whose status is "success". */
  function CheckStatus(w: Wire, reply: Option<string>): (r: Result<bool, ClientFault>)
    ensures reply.None? ==> r == Ok(false)
    ensures reply.Some? ==> (r.Ok? <==> w.parse(reply.value).Some? && w.parse(reply.value).value.JObj?)
    ensures r == Ok(true) <==>
      (reply.Some? && w.parse(reply.value).Some? && w.parse(reply.value).value.JObj? &&
       Get(w.parse(reply.value).value.fields, "status") == Some(SuccessStatus))
  {
    match reply
    case None => Ok(false)
    case Some(doc) =>
      match w.parse(doc)
      case None => Err(Unchecked)
      case Some(response) =>
        if !response.JObj? then Err(Unchecked)
        else Ok(Get(response.fields, "status") == Some(SuccessStatus))
  }

  function ReplyText(outcome: CallOutcome): Option<string> {
    if outcome.Reply? then Some(outcome.doc) else None
  }

  /** `getAllCars`, `searchCars`, `filterCars` and `sortCars` after the call:
      an `IOException` or a timeout gives the empty list. */
  function QueryResult(w: Wire, outcome: CallOutcome): (r: Result<seq<Car>, ClientFault>)
    ensures !outcome.Reply? ==> r == Ok([])
    ensures outcome.Reply? ==> r == ParseResponseData(w, Some(outcome.doc))
  {
    if outcome.IoError? then Ok([]) else ParseResponseData(w, ReplyText(outcome))
  }

  /** `addCar`, `updateCar` and `deleteCar` after the call: an `IOException`
      or a timeout gives false. */
  function MutationResult(w: Wire, outcome: CallOutcome): (r: Result<bool, ClientFault>)
    ensures !outcome.Reply? ==> r == Ok(false)
    ensures outcome.Reply? ==> r == CheckStatus(w, Some(outcome.doc))
  {
    if outcome.IoError? then Ok(false) else CheckStatus(w, ReplyText(outcome))
  }

  /** The command maps the public methods build. */
  function GetAllCommand(): (r: map<string, Json>)
    ensures ValueStr(JObj(r), "action", "") == Ok("GET_ALL_CARS")
  {
    map["action" := JStr("GET_ALL_CARS")]
  }

  /** The car travels as its JSON encoding, which the worker decodes back to it. */
  function AddCommand(c: Car): (r: map<string, Json>)
    ensures ValueStr(JObj(r), "action", "") == Ok("ADD_CAR")
    ensures "car" in r && FromJson(r["car"]) == Ok(c)
  {
    map["action" := JStr("ADD_CAR"), "car" := ToJson(c)]
  }

  function UpdateCommand(c: Car): (r: map<string, Json>)
    ensures ValueStr(JObj(r), "action", "") == Ok("UPDATE_CAR")
    ensures "car" in r && FromJson(r["car"]) == Ok(c)
  {
    map["action" := JStr("UPDATE_CAR"), "car" := ToJson(c)]
  }

  function DeleteCommand(name: string): (r: map<string, Json>)
    ensures ValueStr(JObj(r), "action", "") == Ok("DELETE_CAR")
    ensures ValueStr(JObj(r), "carName", "") == Ok(name)
  {
    map["action" := JStr("DELETE_CAR"), "carName" := JStr(name)]
  }

  function SearchCommand(query: string, field: string): (r: map<string, Json>)
    ensures ValueStr(JObj(r), "action", "") == Ok("SEARCH_CARS")
    ensures ValueStr(JObj(r), "query", "") == Ok(query)
    ensures ValueStr(JObj(r), "searchField", "") == Ok(field)
  {
    map["action" := JStr("SEARCH_CARS"), "query" := JStr(query), "searchField" := JStr(field)]
  }

  /** Whatever defaults the worker has, it reads the values the client chose. */
  function FilterCommand(typeFilter: string, minRating: real, maxPrice: real, availableOnly: bool): (r: map<string, Json>)
    ensures ValueStr(JObj(r), "action", "") == Ok("FILTER_CARS")
    ensures forall d :: ValueStr(JObj(r), "typeFilter", d) == Ok(typeFilter)
    ensures forall d :: ValueNum(JObj(r), "minRating", d) == Ok(minRating)
    ensures forall d :: ValueNum(JObj(r), "maxPrice", d) == Ok(maxPrice)
    ensures forall d :: ValueBool(JObj(r), "availableOnly", d) == Ok(availableOnly)
  {
    map["action" := JStr("FILTER_CARS"), "typeFilter" := JStr(typeFilter), "minRating" := JNum(minRating),
        "maxPrice" := JNum(maxPrice), "availableOnly" := JBool(availableOnly)]
  }

  function SortCommand(sortBy: string, ascending: bool): (r: map<string, Json>)
    ensures ValueStr(JObj(r), "action", "") == Ok("SORT_CARS")
    ensures forall d :: ValueStr(JObj(r), "sortBy", d) == Ok(sortBy)
    ensures forall d :: ValueBool(JObj(r), "ascending", d) == Ok(ascending)
  {
    map["action" := JStr("SORT_CARS"), "sortBy" := JStr(sortBy), "ascending" := JBool(ascending)]
  }
}
