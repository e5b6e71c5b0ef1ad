/** The worker's in-memory car list (`CarManager`): add, update and delete by
    name, and the search and filter queries. Sorting is in `CarSort`, the
    text file in `CarFile`. */
module CarStore {
  import opened Wrappers
  import opened Text
  import opened Cars
  import opened Seqs

  /** `CarManager::addCar`: the car goes at the end, nothing else moves. */
  function AddCar(cars: seq<Car>, c: Car): (r: seq<Car>)
    ensures |r| == |cars| + 1
    ensures r[..|cars|] == cars && r[|cars|] == c
  {
    cars + [c]
  }

  predicate HasName(cars: seq<Car>, name: string) {
    exists i :: 0 <= i < |cars| && cars[i].name == name
  }

  /** Position of the first car with this name. */
  function FirstWithName(cars: seq<Car>, name: string): (r: Option<nat>)
    ensures r.Some? ==> r.value < |cars| && cars[r.value].name == name
    ensures r.Some? ==> forall j :: 0 <= j < r.value ==> cars[j].name != name
    ensures r.None? <==> !HasName(cars, name)
    decreases |cars|
  {
    if |cars| == 0 then None
    else if cars[0].name == name then Some(0)
    else
      match FirstWithName(cars[1..], name)
      case Some(i) => Some(i + 1)
      case None =>
        assert forall j :: 1 <= j < |cars| ==> cars[j] == cars[1..][j - 1];
        None
  }

  /** `CarManager::updateCar`: replaces the first car with the same name and
      reports whether there was one. */
  function UpdateCar(cars: seq<Car>, c: Car): (r: (seq<Car>, bool))
    ensures r.1 <==> HasName(cars, c.name)
    ensures r.1 ==> r.0 == cars[FirstWithName(cars, c.name).value := c]
    ensures !r.1 ==> r.0 == cars
    decreases |cars|
  {
    if |cars| == 0 then (cars, false)
    else if cars[0].name == c.name then ([c] + cars[1..], true)
    else
      var rest := UpdateCar(cars[1..], c);
      assert cars == [cars[0]] + cars[1..];
      ([cars[0]] + rest.0, rest.1)
  }

  /** Only the replaced position changes, and the length is kept. */
  lemma UpdateCarFrame(cars: seq<Car>, c: Car)
    ensures |UpdateCar(cars, c).0| == |cars|
    ensures forall j :: 0 <= j < |cars| && cars[j].name != c.name ==> UpdateCar(cars, c).0[j] == cars[j]
  {
  }

  function NameIsNot(name: string): Car -> bool {
    (c: Car) => c.name != name
  }

  /** `CarManager::deleteCar` (`remove_if` then `erase`): every car with the
      name goes, the rest keep their order, and the flag says whether any went. */
  function DeleteCar(cars: seq<Car>, name: string): (r: (seq<Car>, bool))
    ensures r.0 == Filter(cars, NameIsNot(name))
    ensures r.1 <==> HasName(cars, name)
    decreases |cars|
  {
    if |cars| == 0 then ([], false)
    else
      var rest := DeleteCar(cars[1..], name);
      assert forall j :: 1 <= j < |cars| ==> cars[j] == cars[1..][j - 1];
      if cars[0].name == name then (rest.0, true)
      else ([cars[0]] + rest.0, rest.1)
  }

  /** What deletion keeps: an order-preserving subsequence with no car of that
      name and every other car as often as before. */
  lemma DeleteCarSpec(cars: seq<Car>, name: string)
    ensures IsSubsequence(DeleteCar(cars, name).0, cars)
    ensures forall i :: 0 <= i < |DeleteCar(cars, name).0| ==> DeleteCar(cars, name).0[i].name != name
    ensures forall x: Car :: x.name != name ==> multiset(DeleteCar(cars, name).0)[x] == multiset(cars)[x]
    ensures DeleteCar(cars, name).1 <==> |DeleteCar(cars, name).0| < |cars|
  {
    var keep := NameIsNot(name);
    FilterSpec(cars, keep);
    forall x: Car | x.name != name
      ensures multiset(DeleteCar(cars, name).0)[x] == multiset(cars)[x]
    {
      assert keep(x);
    }
    DeleteShrinks(cars, name);
  }

  lemma {:induction false} DeleteShrinks(cars: seq<Car>, name: string)
    ensures DeleteCar(cars, name).1 <==> |DeleteCar(cars, name).0| < |cars|
    ensures |DeleteCar(cars, name).0| <= |cars|
    decreases |cars|
  {
    if |cars| > 0 {
      DeleteShrinks(cars[1..], name);
    }
  }

  /** The field `CarManager::searchCars` looks in; an unrecognised field name selects the empty string. */
  function SearchField(c: Car, field: string): string {
    match field
    case "name" => c.name
    case "type" => c.carType
    case "vehicleClass" => c.vehicleClass
    case "transmission" => c.transmission
    case "mileage" => c.mileage
    case "maxSpeed" => c.maxSpeed
    case "seats" => c.seats
    case "releaseDate" => c.releaseDate
    case _ => ""
  }

  predicate IsSearchableField(field: string) {
    field in {"name", "type", "vehicleClass", "transmission", "mileage", "maxSpeed", "seats", "releaseDate"}
  }

  /** The search condition: the selected field contains the query, ignoring ASCII case. */
  predicate MatchesQuery(c: Car, query: string, field: string) {
    Contains(ToLower(SearchField(c, field)), ToLower(query))
  }

  function QueryMatcher(query: string, field: string): Car -> bool {
    (c: Car) => MatchesQuery(c, query, field)
  }

  /** `CarManager::searchCars`. */
  function SearchCars(cars: seq<Car>, query: string, field: string): (r: seq<Car>)
    ensures IsSubsequence(r, cars)
    ensures forall i :: 0 <= i < |r| ==> MatchesQuery(r[i], query, field)
    ensures forall x :: multiset(r)[x] == if MatchesQuery(x, query, field) then multiset(cars)[x] else 0
  {
    FilterSpec(cars, QueryMatcher(query, field));
    Filter(cars, QueryMatcher(query, field))
  }

  /** An unrecognised field matches every car when the query is empty and no car otherwise. */
  lemma SearchUnrecognisedField(cars: seq<Car>, query: string, field: string)
    requires !IsSearchableField(field)
    ensures query == "" ==> SearchCars(cars, query, field) == cars
    ensures query != "" ==> SearchCars(cars, query, field) == []
  {
    forall c: Car ensures MatchesQuery(c, query, field) <==> query == "" {
      assert SearchField(c, field) == "";
      ContainsIffOccurs("", ToLower(query));
      if query == "" {
        EmptyContained("");
      } else {
        assert forall i :: !OccursAt("", ToLower(query), i);
      }
    }
    if query == "" {
      FilterAll(cars, QueryMatcher(query, field));
    } else {
      FilterNone(cars, QueryMatcher(query, field));
    }
  }

  /** An empty query matches every car whatever the field. */
  lemma SearchEmptyQuery(cars: seq<Car>, field: string)
    ensures SearchCars(cars, "", field) == cars
  {
    forall c: Car ensures MatchesQuery(c, "", field) {
      EmptyContained(ToLower(SearchField(c, field)));
    }
    FilterAll(cars, QueryMatcher("", field));
  }

  /** The four conditions of `CarManager::filterCars`. */
  predicate PassesFilter(c: Car, typeFilter: string, minRating: real, maxPrice: real, availableOnly: bool) {
    && (typeFilter == "" || c.carType == typeFilter)
    && c.rating >= minRating
    && c.price <= maxPrice
    && (!availableOnly || c.available)
  }

  function FilterMatcher(typeFilter: string, minRating: real, maxPrice: real, availableOnly: bool): Car -> bool {
    (c: Car) => PassesFilter(c, typeFilter, minRating, maxPrice, availableOnly)
  }

  /** `CarManager::filterCars`. */
  function FilterCars(cars: seq<Car>, typeFilter: string, minRating: real, maxPrice: real, availableOnly: bool): (r: seq<Car>)
    ensures IsSubsequence(r, cars)
    ensures forall i :: 0 <= i < |r| ==> PassesFilter(r[i], typeFilter, minRating, maxPrice, availableOnly)
    ensures forall x :: multiset(r)[x] == if PassesFilter(x, typeFilter, minRating, maxPrice, availableOnly) then multiset(cars)[x] else 0
  {
    FilterSpec(cars, FilterMatcher(typeFilter, minRating, maxPrice, availableOnly));
    Filter(cars, FilterMatcher(typeFilter, minRating, maxPrice, availableOnly))
  }

  /** With no type filter and `availableOnly` off, only the rating and price bounds select. */
  lemma FilterUnconstrained(cars: seq<Car>, minRating: real, maxPrice: real)
    ensures forall i :: 0 <= i < |FilterCars(cars, "", minRating, maxPrice, false)| ==>
      FilterCars(cars, "", minRating, maxPrice, false)[i].rating >= minRating &&
      FilterCars(cars, "", minRating, maxPrice, false)[i].price <= maxPrice
    ensures forall x: Car :: x.rating >= minRating && x.price <= maxPrice ==>
      multiset(FilterCars(cars, "", minRating, maxPrice, false))[x] == multiset(cars)[x]
  {
  }
}
