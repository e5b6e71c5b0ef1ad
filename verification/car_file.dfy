/** The worker's text file (`cars_data.txt`): one line per car, twelve fields
    separated by `|` (`CarManager::saveCarsToFile` and
    `CarManager::loadCarsFromFile`). How a `double` is written by `operator<<`
    and read back by `std::stod` is left to a `NumFormat`. */
module CarFile {
  import opened Wrappers
  import opened Text
  import opened Cars

  /** `show` is `operator<<` on a `double`; `read` is `std::stod`, None where it throws. */
  datatype NumFormat = NumFormat(show: real -> string, read: string -> Option<real>)

  const FieldSeparator: char := '|'
  const LineEnd: char := '\n'
  const FieldCount: nat := 12

  /** The twelve fields in file order; `available` is written as "1" or "0". */
  function Fields(nf: NumFormat, c: Car): (r: seq<string>)
    ensures |r| == FieldCount
  {
    [c.name, if c.available then "1" else "0", c.carType, nf.show(c.rating), c.imagePath,
     c.mileage, c.maxSpeed, c.seats, c.transmission, c.vehicleClass, nf.show(c.price), c.releaseDate]
  }

  /** One saved line, without its line end. */
  function CarLine(nf: NumFormat, c: Car): (r: string)
    ensures Storable(nf, c) ==> LineEnd !in r
  {
    if Storable(nf, c) then
      FieldsSafe(nf, c);
      JoinFree(Fields(nf, c), FieldSeparator, LineEnd);
      Join(Fields(nf, c), FieldSeparator)
    else
      Join(Fields(nf, c), FieldSeparator)
  }

  /** The whole file as `saveCarsToFile` writes it: each line followed by `endl`. */
  function SaveCars(nf: NumFormat, cars: seq<Car>): (r: string)
    ensures cars == [] <==> r == ""
    ensures cars != [] ==> r[|r| - 1] == LineEnd
    decreases |cars|
  {
    if |cars| == 0 then "" else CarLine(nf, cars[0]) + [LineEnd] + SaveCars(nf, cars[1..])
  }

  /** The car a line's segments describe: exactly twelve segments are needed;
      a number `stod` rejects becomes 0.0 and any text but "1" means unavailable. */
  function ParseSegments(nf: NumFormat, segs: seq<string>): (r: Option<Car>)
    ensures r.Some? <==> |segs| == FieldCount
    ensures r.Some? ==> r.value.name == segs[0] && r.value.releaseDate == segs[11]
    ensures r.Some? ==> (r.value.available <==> segs[1] == "1")
    ensures r.Some? ==> r.value.rating == nf.read(segs[3]).GetOr(0.0)
    ensures r.Some? ==> r.value.price == nf.read(segs[10]).GetOr(0.0)
  {
    if |segs| != FieldCount then None
    else Some(Car(segs[0], segs[1] == "1", segs[2], nf.read(segs[3]).GetOr(0.0), segs[4], segs[5],
                  segs[6], segs[7], segs[8], segs[9], nf.read(segs[10]).GetOr(0.0), segs[11]))
  }

  /** Splitting a line at every `|`, keeping a trailing empty field. */
  function SplitFields(line: string): seq<string> {
    SplitAll(line, FieldSeparator)
  }

  /** Splitting a line with `getline(ss, segment, '|')` as the source does: a
      trailing empty field is never extracted. */
  function SplitFieldsAsWritten(line: string): seq<string> {
    GetlineSplit(line, FieldSeparator)
  }

  /** The cars of the given lines, in order, skipping every line that does not
      split into twelve segments. */
  function LoadLines(nf: NumFormat, lines: seq<string>, split: string -> seq<string>): (r: seq<Car>)
    ensures |r| <= |lines|
    ensures |r| == |lines| <==> forall k :: 0 <= k < |lines| ==> |split(lines[k])| == FieldCount
    decreases |lines|
  {
    if |lines| == 0 then []
    else
      var rest := LoadLines(nf, lines[1..], split);
      assert forall k :: 1 <= k < |lines| ==> lines[k] == lines[1..][k - 1];
      match ParseSegments(nf, split(lines[0]))
      case Some(c) => [c] + rest
      case None => rest
  }

  /** A first line that parses contributes its car at the front. */
  lemma LoadLinesCons(nf: NumFormat, lines: seq<string>, split: string -> seq<string>, c: Car)
    requires |lines| > 0 && ParseSegments(nf, split(lines[0])) == Some(c)
    ensures LoadLines(nf, lines, split) == [c] + LoadLines(nf, lines[1..], split)
  {
  }

  /** `loadCarsFromFile` with twelve-field lines read as intended: an empty
      file gives no car, and each line gives at most one. */
  function LoadContent(nf: NumFormat, content: string): (r: seq<Car>)
    ensures content == "" ==> r == []
    ensures |r| <= |GetlineSplit(content, LineEnd)|
  {
    assert content == "" ==> SplitAll(content, LineEnd) == [""];
    LoadLines(nf, GetlineSplit(content, LineEnd), SplitFields)
  }

  /** `loadCarsFromFile` as written, splitting each line with `getline`. */
  function LoadContentAsWritten(nf: NumFormat, content: string): (r: seq<Car>)
    ensures content == "" ==> r == []
    ensures |r| <= |GetlineSplit(content, LineEnd)|
  {
    assert content == "" ==> SplitAll(content, LineEnd) == [""];
    LoadLines(nf, GetlineSplit(content, LineEnd), SplitFieldsAsWritten)
  }

  /** `loadCarsFromFile` as written: a file that cannot be opened (None)
      leaves the list untouched; otherwise the list is replaced by what the
      file holds, read with `getline`. */
  function LoadCarsFromFile(nf: NumFormat, cars: seq<Car>, file: Option<string>): (r: seq<Car>)
    ensures file.None? ==> r == cars
    ensures file.Some? ==> r == LoadContentAsWritten(nf, file.value)
    ensures file == Some("") ==> r == []
  {
    match file
    case None => cars
    case Some(content) => LoadContentAsWritten(nf, content)
  }

  /** The same with the corrected line reader. */
  function LoadCarsFromFileCorrected(nf: NumFormat, cars: seq<Car>, file: Option<string>): (r: seq<Car>)
    ensures file.None? ==> r == cars
    ensures file.Some? ==> r == LoadContent(nf, file.value)
    ensures file == Some("") ==> r == []
  {
    match file
    case None => cars
    case Some(content) => LoadContent(nf, content)
  }

  predicate FieldSafe(s: string) {
    FieldSeparator !in s && LineEnd !in s
  }

  /** A number survives being written and read back. */
  predicate NumSafe(nf: NumFormat, x: real) {
    nf.read(nf.show(x)) == Some(x) && FieldSafe(nf.show(x))
  }

  /** What a car needs for its line to read back as the same car. */
  predicate Storable(nf: NumFormat, c: Car) {
    && FieldSafe(c.name) && FieldSafe(c.carType) && FieldSafe(c.imagePath) && FieldSafe(c.mileage)
    && FieldSafe(c.maxSpeed) && FieldSafe(c.seats) && FieldSafe(c.transmission)
    && FieldSafe(c.vehicleClass) && FieldSafe(c.releaseDate)
    && NumSafe(nf, c.rating) && NumSafe(nf, c.price)
  }

  predicate AllStorable(nf: NumFormat, cars: seq<Car>) {
    forall i :: 0 <= i < |cars| ==> Storable(nf, cars[i])
  }

  function Lines(nf: NumFormat, cars: seq<Car>): (r: seq<string>)
    ensures |r| == |cars|
    ensures forall i :: 0 <= i < |cars| ==> r[i] == CarLine(nf, cars[i])
    decreases |cars|
  {
    if |cars| == 0 then [] else [CarLine(nf, cars[0])] + Lines(nf, cars[1..])
  }

  lemma FieldsSafe(nf: NumFormat, c: Car)
    requires Storable(nf, c)
    ensures forall k :: 0 <= k < |Fields(nf, c)| ==> FieldSafe(Fields(nf, c)[k])
  {
  }

  /** Splitting the saved file at line ends gives each car's line and a final empty piece. */
  lemma {:induction false} SplitSaved(nf: NumFormat, cars: seq<Car>)
    requires AllStorable(nf, cars)
    ensures SplitAll(SaveCars(nf, cars), LineEnd) == Lines(nf, cars) + [""]
    decreases |cars|
  {
    if |cars| > 0 {
      SplitAllAfterPiece(CarLine(nf, cars[0]), LineEnd, SaveCars(nf, cars[1..]));
      SplitSaved(nf, cars[1..]);
    }
  }

  lemma SavedLines(nf: NumFormat, cars: seq<Car>)
    requires AllStorable(nf, cars)
    ensures GetlineSplit(SaveCars(nf, cars), LineEnd) == Lines(nf, cars)
  {
    SplitSaved(nf, cars);
    assert (Lines(nf, cars) + [""])[..|cars|] == Lines(nf, cars);
  }

  /** One storable car's line splits back into its twelve fields and parses to the car. */
  lemma LineRoundTrip(nf: NumFormat, c: Car)
    requires Storable(nf, c)
    ensures ParseSegments(nf, SplitFields(CarLine(nf, c))) == Some(c)
  {
    FieldsSafe(nf, c);
    SplitJoin(Fields(nf, c), FieldSeparator);
  }

  lemma {:induction false} LoadLinesRoundTrip(nf: NumFormat, cars: seq<Car>)
    requires AllStorable(nf, cars)
    ensures LoadLines(nf, Lines(nf, cars), SplitFields) == cars
    decreases |cars|
  {
    if |cars| > 0 {
      var lines := Lines(nf, cars);
      LineRoundTrip(nf, cars[0]);
      assert lines[1..] == Lines(nf, cars[1..]);
      LoadLinesRoundTrip(nf, cars[1..]);
      LoadLinesCons(nf, lines, SplitFields, cars[0]);
      assert [cars[0]] + cars[1..] == cars;
    }
  }

  /** Loading what was saved gives the same list back, order included. */
  lemma SaveLoadRoundTrip(nf: NumFormat, cars: seq<Car>)
    requires AllStorable(nf, cars)
    ensures LoadContent(nf, SaveCars(nf, cars)) == cars
  {
    SavedLines(nf, cars);
    LoadLinesRoundTrip(nf, cars);
  }

  /** As written, a saved car whose release date is empty is not read back:
      its line ends in `|`, `getline` extracts only eleven segments, and the
      line is reported as malformed. */
  lemma EmptyReleaseDateDropped(nf: NumFormat, c: Car)
    requires Storable(nf, c) && c.releaseDate == ""
    ensures LoadContent(nf, SaveCars(nf, [c])) == [c]
    ensures LoadContentAsWritten(nf, SaveCars(nf, [c])) == []
  {
    SaveLoadRoundTrip(nf, [c]);
    SavedLines(nf, [c]);
    FieldsSafe(nf, c);
    SplitJoin(Fields(nf, c), FieldSeparator);
    var segs := SplitAll(CarLine(nf, c), FieldSeparator);
    assert segs[|segs| - 1] == "";
    assert |SplitFieldsAsWritten(CarLine(nf, c))| == 11;
  }

  lemma LineRoundTripAsWritten(nf: NumFormat, c: Car)
    requires Storable(nf, c) && c.releaseDate != ""
    ensures ParseSegments(nf, SplitFieldsAsWritten(CarLine(nf, c))) == Some(c)
  {
    FieldsSafe(nf, c);
    SplitJoin(Fields(nf, c), FieldSeparator);
    assert SplitFieldsAsWritten(CarLine(nf, c)) == SplitFields(CarLine(nf, c));
    LineRoundTrip(nf, c);
  }

  lemma {:induction false} LoadLinesAsWrittenRoundTrip(nf: NumFormat, cars: seq<Car>)
    requires AllStorable(nf, cars)
    requires forall i :: 0 <= i < |cars| ==> cars[i].releaseDate != ""
    ensures LoadLines(nf, Lines(nf, cars), SplitFieldsAsWritten) == cars
    decreases |cars|
  {
    if |cars| > 0 {
      var lines := Lines(nf, cars);
      LineRoundTripAsWritten(nf, cars[0]);
      assert lines[1..] == Lines(nf, cars[1..]);
      LoadLinesAsWrittenRoundTrip(nf, cars[1..]);
      LoadLinesCons(nf, lines, SplitFieldsAsWritten, cars[0]);
      assert [cars[0]] + cars[1..] == cars;
    }
  }

  /** As written, the round trip holds when every release date is non-empty. */
  lemma AsWrittenRoundTrip(nf: NumFormat, cars: seq<Car>)
    requires AllStorable(nf, cars)
    requires forall i :: 0 <= i < |cars| ==> cars[i].releaseDate != ""
    ensures LoadContentAsWritten(nf, SaveCars(nf, cars)) == cars
  {
    SavedLines(nf, cars);
    LoadLinesAsWrittenRoundTrip(nf, cars);
  }
}
