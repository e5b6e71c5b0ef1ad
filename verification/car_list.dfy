/** The catalogue page's client-side rules (`CarListPage`): the search box,
    type and availability filters over the cars already fetched, and the
    choices offered in the type filter. */
module CarList {
  import opened Wrappers
  import opened Text
  import opened Cars
  import opened Seqs

  const AllTypes: string := "All Types"
  const AllAvailability: string := "All"
  const AvailableOnly: string := "Available"
  const UnavailableOnly: string := "Unavailable"

  /** The search text occurs in the name or the type, ignoring case. */
  predicate MatchesSearch(c: Car, searchText: string) {
    Contains(ToLower(c.name), ToLower(searchText)) || Contains(ToLower(c.carType), ToLower(searchText))
  }

  predicate MatchesType(c: Car, selectedType: string) {
    selectedType == AllTypes || c.carType == selectedType
  }

  /** "All" keeps every car, "Available" the available ones, and any other
      choice the unavailable ones. */
  predicate MatchesAvailability(c: Car, selectedAvailability: string) {
    if selectedAvailability == AllAvailability then true
    else if selectedAvailability == AvailableOnly then c.available
    else !c.available
  }

  predicate Shown(c: Car, searchText: string, selectedType: string, selectedAvailability: string) {
    MatchesSearch(c, searchText) && MatchesType(c, selectedType) && MatchesAvailability(c, selectedAvailability)
  }

  function ShownBy(searchText: string, selectedType: string, selectedAvailability: string): Car -> bool {
    (c: Car) => Shown(c, searchText, selectedType, selectedAvailability)
  }

  /** `applyFilters`: the cars passing all three filters, in list order.
      None is the method's defensive null guard, which leaves the display as
      it was; the page starts from an empty list and replaces a null or
      failed load by an empty one, so that guard never fires. */
  function ApplyFilters(allCars: Option<seq<Car>>, searchText: string, selectedType: string, selectedAvailability: string): (r: Option<seq<Car>>)
    ensures r.None? <==> allCars.None?
    ensures r.Some? ==> IsSubsequence(r.value, allCars.value)
    ensures r.Some? ==> forall i :: 0 <= i < |r.value| ==> Shown(r.value[i], searchText, selectedType, selectedAvailability)
    ensures r.Some? ==> forall x :: multiset(r.value)[x] ==
                                   if Shown(x, searchText, selectedType, selectedAvailability) then multiset(allCars.value)[x] else 0
  {
    match allCars
    case None => None
    case Some(cars) =>
      FilterSpec(cars, ShownBy(searchText, selectedType, selectedAvailability));
      Some(Filter(cars, ShownBy(searchText, selectedType, selectedAvailability)))
  }

  /** With an empty search box and both filters on "All", every car is shown. */
  lemma NoFiltersShowAll(cars: seq<Car>)
    ensures ApplyFilters(Some(cars), "", AllTypes, AllAvailability) == Some(cars)
  {
    forall c: Car ensures Shown(c, "", AllTypes, AllAvailability) {
      EmptyContained(ToLower(c.name));
    }
    FilterAll(cars, ShownBy("", AllTypes, AllAvailability));
  }

  /** "Available" and "Unavailable" split what "All" shows between them. */
  lemma AvailabilityPartitions(cars: seq<Car>, searchText: string, selectedType: string)
    ensures var all := ApplyFilters(Some(cars), searchText, selectedType, AllAvailability).value;
      var yes := ApplyFilters(Some(cars), searchText, selectedType, AvailableOnly).value;
      var no := ApplyFilters(Some(cars), searchText, selectedType, UnavailableOnly).value;
      multiset(yes) + multiset(no) == multiset(all)
  {
    var all := ApplyFilters(Some(cars), searchText, selectedType, AllAvailability).value;
    var yes := ApplyFilters(Some(cars), searchText, selectedType, AvailableOnly).value;
    var no := ApplyFilters(Some(cars), searchText, selectedType, UnavailableOnly).value;
    assert forall x :: (multiset(yes) + multiset(no))[x] == multiset(all)[x];
  }

  /** Strictly ascending in `String.compareTo` order, hence without repeats. */
  predicate StrictlyAscending(s: seq<string>) {
    forall i, j :: 0 <= i < j < |s| ==> LexLess(s[i], s[j])
  }

  /** Adds `x` to a strictly ascending list of types, unless it is already there. */
  function InsertType(x: string, s: seq<string>): (r: seq<string>)
    requires StrictlyAscending(s)
    ensures StrictlyAscending(r)
    ensures forall y :: y in r <==> y in s || y == x
    decreases |s|
  {
    if |s| == 0 then [x]
    else if x == s[0] then s
    else if LexLess(x, s[0]) then
      assert forall j :: 0 < j < |s| ==> LexLess(x, s[j]) by {
        forall j | 0 < j < |s| ensures LexLess(x, s[j]) {
          LexLessTransitive(x, s[0], s[j]);
        }
      }
      [x] + s
    else
      LexLessTotal(x, s[0]);
      var rest := InsertType(x, s[1..]);
      assert forall y :: y in s <==> y == s[0] || y in s[1..];
      assert forall j :: 0 <= j < |rest| ==> LexLess(s[0], rest[j]) by {
        forall j | 0 <= j < |rest| ensures LexLess(s[0], rest[j]) {
          assert rest[j] in rest;
          if rest[j] != x {
            assert rest[j] in s[1..];
            var k :| 0 <= k < |s| - 1 && s[1..][k] == rest[j];
            assert s[k + 1] == rest[j];
          }
        }
      }
      [s[0]] + rest
  }

  predicate HasType(cars: seq<Car>, t: string) {
    exists i :: 0 <= i < |cars| && cars[i].carType == t
  }

  lemma HasTypeCons(cars: seq<Car>, t: string)
    requires |cars| > 0
    ensures HasType(cars, t) <==> cars[0].carType == t || HasType(cars[1..], t)
  {
    if HasType(cars, t) {
      var i :| 0 <= i < |cars| && cars[i].carType == t;
      if i > 0 {
        assert cars[1..][i - 1].carType == t;
      }
    }
    if HasType(cars[1..], t) {
      var i :| 0 <= i < |cars[1..]| && cars[1..][i].carType == t;
      assert cars[i + 1].carType == t;
    }
  }

  /** `getUniqueCarTypes`: the distinct types, in ascending order; no list gives none. */
  function UniqueTypes(cars: Option<seq<Car>>): (r: seq<string>)
    ensures StrictlyAscending(r)
    ensures cars.None? ==> r == []
    ensures cars.Some? ==> forall t :: t in r <==> HasType(cars.value, t)
  {
    match cars
    case None => []
    case Some(s) => TypesOf(s)
  }

  function TypesOf(cars: seq<Car>): (r: seq<string>)
    ensures StrictlyAscending(r)
    ensures forall t :: t in r <==> HasType(cars, t)
    decreases |cars|
  {
    if |cars| == 0 then []
    else
      var rest := TypesOf(cars[1..]);
      assert forall t :: HasType(cars, t) <==> cars[0].carType == t || HasType(cars[1..], t) by {
        forall t ensures HasType(cars, t) <==> cars[0].carType == t || HasType(cars[1..], t) {
          HasTypeCons(cars, t);
        }
      }
      InsertType(cars[0].carType, rest)
  }

  lemma LexLeAntisymmetric(a: string, b: string)
    requires LexLe(a, b) && LexLe(b, a)
    ensures a == b
  {
    LexLeIffNotLess(a, b);
  }

  lemma TailMembership(a: seq<string>, b: seq<string>)
    requires StrictlyAscending(a) && StrictlyAscending(b)
    requires forall y :: y in a <==> y in b
    requires |a| > 0 && |b| > 0 && a[0] == b[0]
    ensures forall y :: y in a[1..] ==> y in b[1..]
  {
    forall y | y in a[1..] ensures y in b[1..] {
      var k :| 0 <= k < |a| - 1 && a[1..][k] == y;
      assert LexLess(a[0], a[k + 1]);
      LexLessIrreflexive(y);
      assert y in b;
      var m :| 0 <= m < |b| && b[m] == y;
      assert m != 0;
      assert b[1..][m - 1] == y;
    }
  }

  /** A strictly ascending list is fixed by its elements: whatever way the
      distinct types are sorted, the result is this list. */
  lemma {:induction false} AscendingUnique(a: seq<string>, b: seq<string>)
    requires StrictlyAscending(a) && StrictlyAscending(b)
    requires forall y :: y in a <==> y in b
    ensures a == b
    decreases |a|
  {
    if |a| > 0 {
      assert a[0] in b;
      assert |b| > 0;
      assert b[0] in a;
      assert LexLe(b[0], a[0]);
      assert LexLe(a[0], b[0]);
      LexLeAntisymmetric(a[0], b[0]);
      TailMembership(a, b);
      TailMembership(b, a);
      AscendingUnique(a[1..], b[1..]);
      assert a == [a[0]] + a[1..];
      assert b == [b[0]] + b[1..];
    } else {
      NoMembersEmpty(b);
    }
  }

  /** `prependToArray`. */
  function Prepend(items: seq<string>, first: string): (r: seq<string>)
    ensures |r| == |items| + 1 && r[0] == first && r[1..] == items
  {
    [first] + items
  }

  /** The type filter's choices: "All Types" first, then each type once, in
      order; picking any offered type shows only cars of that type. */
  lemma TypeChoices(cars: seq<Car>, choice: string)
    requires choice in Prepend(UniqueTypes(Some(cars)), AllTypes)[1..]
    requires choice != AllTypes
    ensures HasType(cars, choice)
    ensures forall i :: 0 <= i < |ApplyFilters(Some(cars), "", choice, AllAvailability).value| ==>
      ApplyFilters(Some(cars), "", choice, AllAvailability).value[i].carType == choice
  {
  }
}
