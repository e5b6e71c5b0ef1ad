/** `CarManager::sortCars`: a sorted copy of the car list by name, price or
    rating. The source hands a comparator to `std::sort`, which promises a
    sorted permutation and nothing about the order of ties; the model sorts by
    insertion, which keeps ties in their original order. */
module CarSort {
  import opened Text
  import opened Cars

  datatype SortKey = ByName | ByPrice | ByRating | Unrecognised

  function KeyOf(sortBy: string): SortKey {
    if sortBy == "name" then ByName
    else if sortBy == "price" then ByPrice
    else if sortBy == "rating" then ByRating
    else Unrecognised
  }

  /** The comparator: `a` must come strictly before `b`. An unrecognised key
      makes every pair incomparable. */
  predicate Before(k: SortKey, ascending: bool, a: Car, b: Car) {
    match k
    case ByName => if ascending then LexLess(a.name, b.name) else LexLess(b.name, a.name)
    case ByPrice => if ascending then a.price < b.price else a.price > b.price
    case ByRating => if ascending then a.rating < b.rating else a.rating > b.rating
    case Unrecognised => false
  }

  /** The order a caller expects to see: non-decreasing for ascending,
      non-increasing for descending, anything for an unrecognised key. */
  predicate InOrder(k: SortKey, ascending: bool, a: Car, b: Car) {
    match k
    case ByName => if ascending then LexLe(a.name, b.name) else LexLe(b.name, a.name)
    case ByPrice => if ascending then a.price <= b.price else a.price >= b.price
    case ByRating => if ascending then a.rating <= b.rating else a.rating >= b.rating
    case Unrecognised => true
  }

  lemma InOrderIffNotBefore(k: SortKey, ascending: bool, a: Car, b: Car)
    ensures InOrder(k, ascending, a, b) <==> !Before(k, ascending, b, a)
  {
    LexLeIffNotLess(a.name, b.name);
    LexLeIffNotLess(b.name, a.name);
  }

  lemma BeforeAsymmetric(k: SortKey, ascending: bool, a: Car, b: Car)
    requires Before(k, ascending, a, b)
    ensures !Before(k, ascending, b, a)
  {
    if k == ByName {
      if ascending {
        LexLessAsymmetric(a.name, b.name);
      } else {
        LexLessAsymmetric(b.name, a.name);
      }
    }
  }

  lemma BeforeIrreflexive(k: SortKey, ascending: bool, a: Car)
    ensures !Before(k, ascending, a, a)
  {
    if Before(k, ascending, a, a) {
      BeforeAsymmetric(k, ascending, a, a);
    }
  }

  /** "Not before" is transitive: the comparator is a strict weak order. */
  lemma NotBeforeTransitive(k: SortKey, ascending: bool, a: Car, b: Car, c: Car)
    requires !Before(k, ascending, a, b) && !Before(k, ascending, b, c)
    ensures !Before(k, ascending, a, c)
  {
    InOrderIffNotBefore(k, ascending, b, a);
    InOrderIffNotBefore(k, ascending, c, b);
    InOrderIffNotBefore(k, ascending, c, a);
    if k == ByName {
      if ascending {
        LexLeTransitive(c.name, b.name, a.name);
      } else {
        LexLeTransitive(a.name, b.name, c.name);
      }
    }
  }

  /** No later element should come before an earlier one. */
  predicate Sorted(k: SortKey, ascending: bool, s: seq<Car>) {
    forall i, j :: 0 <= i < j < |s| ==> !Before(k, ascending, s[j], s[i])
  }

  lemma PrependSorted(k: SortKey, ascending: bool, x: Car, s: seq<Car>)
    requires Sorted(k, ascending, s)
    requires |s| > 0 && !Before(k, ascending, s[0], x)
    ensures Sorted(k, ascending, [x] + s)
  {
    forall j | 0 < j < |s| ensures !Before(k, ascending, s[j], x) {
      NotBeforeTransitive(k, ascending, s[j], s[0], x);
    }
  }

  lemma InsertBehindSorted(k: SortKey, ascending: bool, x: Car, s: seq<Car>, rest: seq<Car>)
    requires Sorted(k, ascending, s) && |s| > 0 && Before(k, ascending, s[0], x)
    requires Sorted(k, ascending, rest)
    requires multiset(rest) == multiset(s[1..]) + multiset{x}
    ensures Sorted(k, ascending, [s[0]] + rest)
  {
    BeforeAsymmetric(k, ascending, s[0], x);
    forall j | 0 <= j < |rest| ensures !Before(k, ascending, rest[j], s[0]) {
      var y := rest[j];
      assert y in multiset(rest);
      if y != x {
        assert y in multiset(s[1..]);
        var m :| 0 <= m < |s| - 1 && s[1..][m] == y;
        assert s[m + 1] == y;
      }
    }
  }

  /** Puts `x` in front of the first element it need not follow. */
  function Insert(k: SortKey, ascending: bool, x: Car, s: seq<Car>): (r: seq<Car>)
    requires Sorted(k, ascending, s)
    ensures Sorted(k, ascending, r)
    ensures multiset(r) == multiset(s) + multiset{x}
    decreases |s|
  {
    if |s| == 0 then [x]
    else if !Before(k, ascending, s[0], x) then
      PrependSorted(k, ascending, x, s);
      [x] + s
    else
      var rest := Insert(k, ascending, x, s[1..]);
      assert s == [s[0]] + s[1..];
      InsertBehindSorted(k, ascending, x, s, rest);
      [s[0]] + rest
  }

  function Sort(k: SortKey, ascending: bool, s: seq<Car>): (r: seq<Car>)
    ensures Sorted(k, ascending, r)
    ensures multiset(r) == multiset(s)
    decreases |s|
  {
    if |s| == 0 then []
    else
      assert s == [s[0]] + s[1..];
      Insert(k, ascending, s[0], Sort(k, ascending, s[1..]))
  }

  /** `CarManager::sortCars`: a permutation of the list whose every pair
      stands in the requested order. */
  function SortCars(cars: seq<Car>, sortBy: string, ascending: bool): (r: seq<Car>)
    ensures multiset(r) == multiset(cars)
    ensures |r| == |cars|
    ensures forall i, j :: 0 <= i < j < |r| ==> InOrder(KeyOf(sortBy), ascending, r[i], r[j])
  {
    var r := Sort(KeyOf(sortBy), ascending, cars);
    assert |r| == |multiset(r)| == |multiset(cars)| == |cars|;
    forall i, j | 0 <= i < j < |r| ensures InOrder(KeyOf(sortBy), ascending, r[i], r[j]) {
      InOrderIffNotBefore(KeyOf(sortBy), ascending, r[i], r[j]);
    }
    r
  }

  /** A list already in order comes back unchanged from the model's
      insertion sort, ties included. */
  lemma {:induction false} SortSortedIdentity(k: SortKey, ascending: bool, s: seq<Car>)
    requires Sorted(k, ascending, s)
    ensures Sort(k, ascending, s) == s
    decreases |s|
  {
    if |s| > 0 {
      assert Sorted(k, ascending, s[1..]);
      SortSortedIdentity(k, ascending, s[1..]);
      if |s| > 1 {
        assert !Before(k, ascending, s[1..][0], s[0]);
      }
      assert [s[0]] + s[1..] == s;
    }
  }

  /** Neither car need come before the other: a tie, whose relative order
      `std::sort` leaves unspecified. */
  predicate Ties(k: SortKey, ascending: bool, a: Car, b: Car) {
    !Before(k, ascending, a, b) && !Before(k, ascending, b, a)
  }

  /** Tied cars are interchangeable in every comparison. */
  lemma TiesSubstitute(k: SortKey, ascending: bool, x: Car, y: Car, z: Car)
    requires Ties(k, ascending, x, y)
    ensures !Before(k, ascending, x, z) <==> !Before(k, ascending, y, z)
    ensures !Before(k, ascending, z, x) <==> !Before(k, ascending, z, y)
  {
    if !Before(k, ascending, x, z) {
      NotBeforeTransitive(k, ascending, y, x, z);
    }
    if !Before(k, ascending, y, z) {
      NotBeforeTransitive(k, ascending, x, y, z);
    }
    if !Before(k, ascending, z, x) {
      NotBeforeTransitive(k, ascending, z, x, y);
    }
    if !Before(k, ascending, z, y) {
      NotBeforeTransitive(k, ascending, z, y, x);
    }
  }

  lemma TiesTransitive(k: SortKey, ascending: bool, x: Car, y: Car, z: Car)
    requires Ties(k, ascending, x, y) && Ties(k, ascending, y, z)
    ensures Ties(k, ascending, x, z)
  {
    NotBeforeTransitive(k, ascending, x, y, z);
    NotBeforeTransitive(k, ascending, z, y, x);
  }

  /** Replacing elements by tied ones keeps a list in order. */
  lemma SortedUpToTies(k: SortKey, ascending: bool, a: seq<Car>, b: seq<Car>)
    requires Sorted(k, ascending, a) && |a| == |b|
    requires forall i :: 0 <= i < |a| ==> Ties(k, ascending, a[i], b[i])
    ensures Sorted(k, ascending, b)
  {
    forall i, j | 0 <= i < j < |b| ensures !Before(k, ascending, b[j], b[i]) {
      TiesSubstitute(k, ascending, a[j], b[j], a[i]);
      TiesSubstitute(k, ascending, a[i], b[i], b[j]);
    }
  }

  /** Swapping the front of an ordered list with a car tied to it keeps
      the list in order and changes each position only up to ties. */
  lemma SwapFront(k: SortKey, ascending: bool, a: seq<Car>, j: nat) returns (a': seq<Car>)
    requires Sorted(k, ascending, a) && j < |a|
    requires Ties(k, ascending, a[0], a[j])
    ensures |a'| == |a| && a'[0] == a[j]
    ensures Sorted(k, ascending, a')
    ensures multiset(a') == multiset(a)
    ensures forall i :: 0 <= i < |a| ==> Ties(k, ascending, a[i], a'[i])
  {
    a' := a[j := a[0]][0 := a[j]];
    forall i | 0 <= i < |a| ensures Ties(k, ascending, a[i], a'[i]) {
      if i != 0 && i != j {
        assert a'[i] == a[i];
        BeforeIrreflexive(k, ascending, a[i]);
      } else if i == 0 {
        assert a'[0] == a[j];
      } else {
        assert a'[j] == a[0];
      }
    }
    SortedUpToTies(k, ascending, a, a');
  }

  /** Two ordered arrangements of the same cars agree position by position
      up to ties: the only freedom a sort has is the order of tied cars. */
  lemma {:induction false} OrderedArrangementsAgree(k: SortKey, ascending: bool, a: seq<Car>, b: seq<Car>)
    requires Sorted(k, ascending, a) && Sorted(k, ascending, b)
    requires multiset(a) == multiset(b)
    ensures |a| == |b|
    ensures forall i :: 0 <= i < |a| ==> Ties(k, ascending, a[i], b[i])
    decreases |a|
  {
    assert |a| == |multiset(a)| == |multiset(b)| == |b|;
    if |a| > 0 {
      assert b[0] in multiset(a);
      var j :| 0 <= j < |a| && a[j] == b[0];
      assert a[0] in multiset(b);
      var m :| 0 <= m < |b| && b[m] == a[0];
      BeforeIrreflexive(k, ascending, a[0]);
      BeforeIrreflexive(k, ascending, b[0]);
      assert !Before(k, ascending, a[j], a[0]);
      assert !Before(k, ascending, b[m], b[0]);
      var a' := SwapFront(k, ascending, a, j);
      TailMultiset(a', b);
      OrderedArrangementsAgree(k, ascending, a'[1..], b[1..]);
      TiesThroughTail(k, ascending, a, a', b);
    }
  }

  lemma TailMultiset(a: seq<Car>, b: seq<Car>)
    requires |a| > 0 && |b| > 0 && a[0] == b[0] && multiset(a) == multiset(b)
    ensures multiset(a[1..]) == multiset(b[1..])
  {
    assert a == [a[0]] + a[1..];
    assert b == [b[0]] + b[1..];
    assert multiset(a[1..]) == multiset(a) - multiset{a[0]};
    assert multiset(b[1..]) == multiset(b) - multiset{b[0]};
  }

  lemma TiesThroughTail(k: SortKey, ascending: bool, a: seq<Car>, a': seq<Car>, b: seq<Car>)
    requires |a| == |a'| == |b| > 0 && a'[0] == b[0]
    requires forall i :: 0 <= i < |a| ==> Ties(k, ascending, a[i], a'[i])
    requires forall i :: 0 <= i < |a| - 1 ==> Ties(k, ascending, a'[1..][i], b[1..][i])
    ensures forall i :: 0 <= i < |a| ==> Ties(k, ascending, a[i], b[i])
  {
    forall i | 0 <= i < |a| ensures Ties(k, ascending, a[i], b[i]) {
      if i > 0 {
        assert Ties(k, ascending, a'[1..][i - 1], b[1..][i - 1]);
        TiesTransitive(k, ascending, a[i], a'[i], b[i]);
      }
    }
  }

  /** Whatever `std::sort` returns, that is any permutation whose pairs are
      in order, agrees with the model's result up to ties. */
  lemma SortDeterminedUpToTies(cars: seq<Car>, sortBy: string, ascending: bool, q: seq<Car>)
    requires multiset(q) == multiset(cars)
    requires forall i, j :: 0 <= i < j < |q| ==> InOrder(KeyOf(sortBy), ascending, q[i], q[j])
    ensures |q| == |cars|
    ensures forall i :: 0 <= i < |q| ==> Ties(KeyOf(sortBy), ascending, q[i], SortCars(cars, sortBy, ascending)[i])
  {
    var k := KeyOf(sortBy);
    forall i, j | 0 <= i < j < |q| ensures !Before(k, ascending, q[j], q[i]) {
      InOrderIffNotBefore(k, ascending, q[i], q[j]);
    }
    OrderedArrangementsAgree(k, ascending, q, Sort(k, ascending, cars));
  }

  /** An unrecognised sort key makes every two cars a tie, so `std::sort`
      may return any permutation of the list, and every permutation counts
      as in order. */
  lemma SortUnrecognised(cars: seq<Car>, sortBy: string, ascending: bool, q: seq<Car>)
    requires sortBy != "name" && sortBy != "price" && sortBy != "rating"
    ensures forall a, b :: Ties(KeyOf(sortBy), ascending, a, b)
    ensures multiset(SortCars(cars, sortBy, ascending)) == multiset(cars)
    ensures forall i, j :: 0 <= i < j < |q| ==> InOrder(KeyOf(sortBy), ascending, q[i], q[j])
  {
    assert KeyOf(sortBy) == Unrecognised;
  }

  /** Sorting a list that is already in order returns the same cars, each
      position holding a car tied with the one there before. */
  lemma SortIdempotent(s: seq<Car>, sortBy: string, ascending: bool)
    requires forall i, j :: 0 <= i < j < |s| ==> InOrder(KeyOf(sortBy), ascending, s[i], s[j])
    ensures multiset(SortCars(s, sortBy, ascending)) == multiset(s)
    ensures |SortCars(s, sortBy, ascending)| == |s|
    ensures forall i :: 0 <= i < |s| ==> Ties(KeyOf(sortBy), ascending, SortCars(s, sortBy, ascending)[i], s[i])
  {
    SortDeterminedUpToTies(s, sortBy, ascending, s);
    var r := SortCars(s, sortBy, ascending);
    forall i | 0 <= i < |s| ensures Ties(KeyOf(sortBy), ascending, r[i], s[i]) {
      assert Ties(KeyOf(sortBy), ascending, s[i], r[i]);
    }
  }
}
