/** The car record shared by the Java client and the C++ worker, and the
    worker's JSON codec for it (`Car::toJson`, `Car::fromJson`). */
module Cars {
  import opened Wrappers
  import opened Json

  /** `rating` and `price` are `double` in the source; they are reals here and
      only ever compared. */
  datatype Car = Car(
    name: string,
    available: bool,
    carType: string,
    rating: real,
    imagePath: string,
    mileage: string,
    maxSpeed: string,
    seats: string,
    transmission: string,
    vehicleClass: string,
    price: real,
    releaseDate: string)

  /** The default-constructed car: empty strings, `false` and 0.0. */
  const DefaultCar: Car := Car("", false, "", 0.0, "", "", "", "", "", "", 0.0, "")

  /** The twelve JSON keys, in the order the worker writes them. */
  const JsonKeys: seq<string> := ["name", "available", "type", "rating", "imagePath", "mileage",
                                  "maxSpeed", "seats", "transmission", "vehicleClass", "price", "releaseDate"]

  /** The JSON value of one field, looked up by its key; None for any other key. */
  function FieldJson(c: Car, key: string): Option<Json> {
    match key
    case "name" => Some(JStr(c.name))
    case "available" => Some(JBool(c.available))
    case "type" => Some(JStr(c.carType))
    case "rating" => Some(JNum(c.rating))
    case "imagePath" => Some(JStr(c.imagePath))
    case "mileage" => Some(JStr(c.mileage))
    case "maxSpeed" => Some(JStr(c.maxSpeed))
    case "seats" => Some(JStr(c.seats))
    case "transmission" => Some(JStr(c.transmission))
    case "vehicleClass" => Some(JStr(c.vehicleClass))
    case "price" => Some(JNum(c.price))
    case "releaseDate" => Some(JStr(c.releaseDate))
    case _ => None
  }

  /** The members `Car::toJson` writes, one per field. */
  function Fields(c: Car): map<string, Json> {
    map[
      "name" := JStr(c.name),
      "available" := JBool(c.available),
      "type" := JStr(c.carType),
      "rating" := JNum(c.rating),
      "imagePath" := JStr(c.imagePath),
      "mileage" := JStr(c.mileage),
      "maxSpeed" := JStr(c.maxSpeed),
      "seats" := JStr(c.seats),
      "transmission" := JStr(c.transmission),
      "vehicleClass" := JStr(c.vehicleClass),
      "price" := JNum(c.price),
      "releaseDate" := JStr(c.releaseDate)]
  }

  /** `Car::toJson`; `Car::fromJson` reads every field back. */
  function ToJson(c: Car): (r: Json)
    ensures r.JObj?
    ensures FromJson(r) == Ok(c)
  {
    var j := JObj(Fields(c));
    assert ValueStr(j, "name", "") == Ok(c.name);
    assert ValueBool(j, "available", false) == Ok(c.available);
    assert ValueStr(j, "type", "") == Ok(c.carType);
    assert ValueNum(j, "rating", 0.0) == Ok(c.rating);
    assert ValueStr(j, "imagePath", "") == Ok(c.imagePath);
    assert ValueStr(j, "mileage", "") == Ok(c.mileage);
    assert ValueStr(j, "maxSpeed", "") == Ok(c.maxSpeed);
    assert ValueStr(j, "seats", "") == Ok(c.seats);
    assert ValueStr(j, "transmission", "") == Ok(c.transmission);
    assert ValueStr(j, "vehicleClass", "") == Ok(c.vehicleClass);
    assert ValueNum(j, "price", 0.0) == Ok(c.price);
    assert ValueStr(j, "releaseDate", "") == Ok(c.releaseDate);
    j
  }

  /** `Car::fromJson`: every field read with `value(key, default)`, so a
      missing key gives the default and a wrongly typed one throws. */
  function FromJson(j: Json): (r: Result<Car, Fault>)
    ensures !j.JObj? ==> r.Err?
    ensures j == EmptyObject ==> r == Ok(DefaultCar)
  {
    var name :- ValueStr(j, "name", "");
    var available :- ValueBool(j, "available", false);
    var carType :- ValueStr(j, "type", "");
    var rating :- ValueNum(j, "rating", 0.0);
    var imagePath :- ValueStr(j, "imagePath", "");
    var mileage :- ValueStr(j, "mileage", "");
    var maxSpeed :- ValueStr(j, "maxSpeed", "");
    var seats :- ValueStr(j, "seats", "");
    var transmission :- ValueStr(j, "transmission", "");
    var vehicleClass :- ValueStr(j, "vehicleClass", "");
    var price :- ValueNum(j, "price", 0.0);
    var releaseDate :- ValueStr(j, "releaseDate", "");
    Ok(Car(name, available, carType, rating, imagePath, mileage, maxSpeed, seats,
           transmission, vehicleClass, price, releaseDate))
  }

  /** The encoding is an object with exactly the twelve keys, each holding its field. */
  lemma ToJsonShape(c: Car)
    ensures ToJson(c).JObj?
    ensures forall k :: k in ToJson(c).fields <==> k in JsonKeys
    ensures forall k :: k in ToJson(c).fields ==> FieldJson(c, k) == Some(ToJson(c).fields[k])
  {
    FieldsShape(c);
  }

  lemma FieldsShape(c: Car)
    ensures forall k :: k in Fields(c) <==> k in JsonKeys
    ensures forall k :: k in Fields(c) ==> FieldJson(c, k) == Some(Fields(c)[k])
  {
    FieldsKeys(c);
    FieldsValues(c);
  }

  lemma FieldsKeys(c: Car)
    ensures forall k :: k in Fields(c) <==> k in JsonKeys
  {
  }

  lemma FieldsValues(c: Car)
    ensures forall k :: k in Fields(c) ==> FieldJson(c, k) == Some(Fields(c)[k])
  {
    var m := Fields(c);
    forall k | k in m
      ensures FieldJson(c, k) == Some(m[k])
    {
    }
  }

  /** A list of cars as a JSON array, each through `Car::toJson`, in order. */
  function EncodeCars(cars: seq<Car>): (r: seq<Json>)
    ensures |r| == |cars|
    ensures forall i :: 0 <= i < |cars| ==> r[i] == ToJson(cars[i])
    decreases |cars|
  {
    if |cars| == 0 then [] else [ToJson(cars[0])] + EncodeCars(cars[1..])
  }

  /** A car whose rating and price a `double` holds: every car either program
      keeps, since both fields are `double`s on both sides. */
  ghost predicate Exact(c: Car) {
    Dyadic(c.rating) && Dyadic(c.price)
  }

  /** A car's encoding is a representable document exactly when the car is exact. */
  lemma ToJsonRepresentable(c: Car)
    ensures Representable(ToJson(c)) <==> Exact(c)
  {
    var m := Fields(c);
    assert m["rating"] == JNum(c.rating) && m["price"] == JNum(c.price);
    if Exact(c) {
      FieldsValues(c);
      forall k | k in m
        ensures Representable(m[k])
      {
        assert FieldJson(c, k) == Some(m[k]);
      }
    }
  }

  /** An encoded list is representable exactly when every car in it is exact. */
  lemma EncodeCarsRepresentable(cars: seq<Car>)
    ensures Representable(JArr(EncodeCars(cars))) <==> forall c :: c in cars ==> Exact(c)
  {
    var items := EncodeCars(cars);
    forall i | 0 <= i < |cars|
      ensures Representable(items[i]) <==> Exact(cars[i])
    {
      ToJsonRepresentable(cars[i]);
    }
  }

  /** Decoding a JSON array of cars: all of them, or nothing if one fails. */
  function DecodeCars(items: seq<Json>): (r: Option<seq<Car>>)
    ensures r.Some? <==> forall i :: 0 <= i < |items| ==> FromJson(items[i]).Ok?
    ensures r.Some? ==> |r.value| == |items| && forall i :: 0 <= i < |items| ==> FromJson(items[i]) == Ok(r.value[i])
    decreases |items|
  {
    if |items| == 0 then Some([])
    else
      assert forall i :: 1 <= i < |items| ==> items[i] == items[1..][i - 1];
      match FromJson(items[0])
      case Err(_) => None
      case Ok(c) =>
        match DecodeCars(items[1..])
        case None => None
        case Some(rest) => Some([c] + rest)
  }

  /** A first item that decodes, followed by items that decode, decodes to
      its car in front of theirs. */
  lemma DecodeCarsCons(items: seq<Json>, c: Car, rest: seq<Car>)
    requires |items| > 0 && FromJson(items[0]) == Ok(c)
    requires DecodeCars(items[1..]) == Some(rest)
    ensures DecodeCars(items) == Some([c] + rest)
  {
  }

  /** Decoding an encoded list gives the list back. */
  lemma {:induction false} DecodeEncodeCars(cars: seq<Car>)
    ensures DecodeCars(EncodeCars(cars)) == Some(cars)
    decreases |cars|
  {
    if |cars| > 0 {
      var items := EncodeCars(cars);
      DecodeEncodeCars(cars[1..]);
      assert items[1..] == EncodeCars(cars[1..]);
      assert items[0] == ToJson(cars[0]);
      DecodeCarsCons(items, cars[0], cars[1..]);
      assert [cars[0]] + cars[1..] == cars;
    }
  }

  /** Decoding the empty object gives the default-constructed car. */
  lemma FromEmptyObject()
    ensures FromJson(JObj(map[])) == Ok(DefaultCar)
  {
  }

  /** Any key the object lacks takes its default; present keys are read as they are. */
  lemma FromJsonDefaults(m: map<string, Json>, c: Car)
    requires FromJson(JObj(m)) == Ok(c)
    ensures c.name == (if "name" in m then m["name"].s else "")
    ensures c.available == (if "available" in m then m["available"].b else false)
    ensures c.carType == (if "type" in m then m["type"].s else "")
    ensures c.rating == (if "rating" in m then m["rating"].n else 0.0)
    ensures c.imagePath == (if "imagePath" in m then m["imagePath"].s else "")
    ensures c.mileage == (if "mileage" in m then m["mileage"].s else "")
    ensures c.maxSpeed == (if "maxSpeed" in m then m["maxSpeed"].s else "")
    ensures c.seats == (if "seats" in m then m["seats"].s else "")
    ensures c.transmission == (if "transmission" in m then m["transmission"].s else "")
    ensures c.vehicleClass == (if "vehicleClass" in m then m["vehicleClass"].s else "")
    ensures c.price == (if "price" in m then m["price"].n else 0.0)
    ensures c.releaseDate == (if "releaseDate" in m then m["releaseDate"].s else "")
  {
  }

  /** The value a key must hold to be read: the kind of the field's own JSON. */
  predicate KindFits(key: string, v: Json) {
    match FieldJson(DefaultCar, key)
    case None => true
    case Some(d) =>
      (d.JStr? && v.JStr?) || (d.JNum? && v.JNum?) || (d.JBool? && v.JBool?)
  }

  /** An object decodes exactly when each of the twelve keys it holds has a
      value of its field's kind; other keys are ignored. */
  lemma FromJsonAccepts(m: map<string, Json>)
    ensures FromJson(JObj(m)).Ok? <==> forall k :: k in m ==> KindFits(k, m[k])
  {
    if FromJson(JObj(m)).Ok? {
      DecodedKeysFit(m);
    } else {
      RejectedKeyMisfits(m);
    }
  }

  lemma DecodedKeysFit(m: map<string, Json>)
    requires FromJson(JObj(m)).Ok?
    ensures forall k :: k in m ==> KindFits(k, m[k])
  {
    forall k | k in m ensures KindFits(k, m[k]) {
      if FieldJson(DefaultCar, k).Some? {
        assert k in JsonKeys;
      }
    }
  }

  lemma RejectedKeyMisfits(m: map<string, Json>)
    requires FromJson(JObj(m)).Err?
    ensures exists k :: k in m && !KindFits(k, m[k])
  {
    var j := JObj(m);
    if ValueStr(j, "name", "").Err? {
      assert !KindFits("name", m["name"]);
    } else if ValueBool(j, "available", false).Err? {
      assert !KindFits("available", m["available"]);
    } else if ValueStr(j, "type", "").Err? {
      assert !KindFits("type", m["type"]);
    } else if ValueNum(j, "rating", 0.0).Err? {
      assert !KindFits("rating", m["rating"]);
    } else if ValueStr(j, "imagePath", "").Err? {
      assert !KindFits("imagePath", m["imagePath"]);
    } else if ValueStr(j, "mileage", "").Err? {
      assert !KindFits("mileage", m["mileage"]);
    } else if ValueStr(j, "maxSpeed", "").Err? {
      assert !KindFits("maxSpeed", m["maxSpeed"]);
    } else if ValueStr(j, "seats", "").Err? {
      assert !KindFits("seats", m["seats"]);
    } else if ValueStr(j, "transmission", "").Err? {
      assert !KindFits("transmission", m["transmission"]);
    } else if ValueStr(j, "vehicleClass", "").Err? {
      assert !KindFits("vehicleClass", m["vehicleClass"]);
    } else if ValueNum(j, "price", 0.0).Err? {
      assert !KindFits("price", m["price"]);
    } else {
      assert ValueStr(j, "releaseDate", "").Err?;
      assert !KindFits("releaseDate", m["releaseDate"]);
    }
  }

  /** A non-object (null, say, for a missing `car` key) cannot be decoded. */
  lemma FromJsonNonObject(j: Json)
    requires !j.JObj?
    ensures FromJson(j).Err?
  {
  }
}
