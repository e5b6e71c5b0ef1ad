/** JSON as an abstract value, shared by both sides of the bridge. The text of
    a document is never modelled: a `Wire` pairs a parser with a renderer, and
    the lemmas that need it assume only that parsing undoes rendering. */
module Json {
  import opened Wrappers
  import opened Text

  datatype Json =
    | JNull
    | JBool(b: bool)
    | JNum(n: real)
    | JStr(s: string)
    | JArr(items: seq<Json>)
    | JObj(fields: map<string, Json>)

  /** The placeholder text both processes write to mean "slot has no content". */
  const EmptyDocument: string := "{}"

  const EmptyObject: Json := JObj(map[])

  /** A JSON library: `parse` answers None where the library throws or yields no value. */
  datatype Wire = Wire(parse: string -> Option<Json>, render: Json -> string)

  /** 2 to the power `e`. */
  function Pow2(e: nat): (r: nat)
    ensures r >= 1
  {
    if e == 0 then 1 else 2 * Pow2(e - 1)
  }

  predicate IsWhole(x: real) {
    x.Floor as real == x
  }

  /** The reals a `double` can hold are among the dyadic rationals m / 2^e. */
  ghost predicate Dyadic(n: real) {
    exists e: nat :: IsWhole(n * Pow2(e) as real)
  }

  /** A whole number is dyadic: prices and ratings in whole units qualify. */
  lemma DyadicWhole(n: real)
    requires IsWhole(n)
    ensures Dyadic(n)
  {
    assert Pow2(0) == 1;
    assert n * Pow2(0) as real == n;
  }

  /** A document whose every number a `double` can hold: the documents both
      programs exchange, since each side keeps its numbers in `double`s. */
  ghost predicate Representable(j: Json) {
    match j
    case JNum(n) => Dyadic(n)
    case JArr(items) => forall i :: 0 <= i < |items| ==> Representable(items[i])
    case JObj(fields) => forall k :: k in fields ==> Representable(fields[k])
    case _ => true
  }

  /** What the model needs of a JSON library: rendering a representable
      document is undone by parsing, also after the line breaks of
      pretty-printed output are dropped (JSON strings never hold a raw line
      break); the placeholder parses to the empty object and empty text does
      not parse. No text format can round-trip every real, so the round trip
      is asked only of representable documents. */
  ghost predicate Faithful(w: Wire) {
    && (forall j :: Representable(j) ==> w.parse(w.render(j)) == Some(j))
    && (forall j :: Representable(j) ==> w.parse(StripLineBreaks(w.render(j))) == Some(j))
    && w.parse(EmptyDocument) == Some(EmptyObject)
    && w.parse("") == None
  }

  /** Rendering a non-empty object never yields the placeholder or empty text. */
  lemma RenderNonEmpty(w: Wire, m: map<string, Json>)
    requires Faithful(w) && Representable(JObj(m))
    requires m != map[]
    ensures w.render(JObj(m)) != EmptyDocument
    ensures w.render(JObj(m)) != ""
  {
    assert w.parse(w.render(JObj(m))) == Some(JObj(m));
  }

  /** The same holds for the text a line-by-line reader sees. */
  lemma RenderNonEmptyStripped(w: Wire, m: map<string, Json>)
    requires Faithful(w) && Representable(JObj(m))
    requires m != map[]
    ensures StripLineBreaks(w.render(JObj(m))) != EmptyDocument
    ensures StripLineBreaks(w.render(JObj(m))) != ""
    ensures w.render(JObj(m)) != ""
  {
    assert w.parse(StripLineBreaks(w.render(JObj(m)))) == Some(JObj(m));
    RenderNonEmpty(w, m);
  }

  /** `nlohmann::json::type_error`, thrown by `value()` on a non-object or on a
      key holding a value of the wrong type; `key` names the offending key. */
  datatype Fault = TypeError(key: string)

  function Describe(f: Fault): string {
    "type_error at key " + f.key
  }

  /** A key's value in a Gson map: `Map.get`, with None for a missing key. */
  function Get(m: map<string, Json>, key: string): Option<Json> {
    if key in m then Some(m[key]) else None
  }

  /** `j.value(key, default)` for a string default. */
  function ValueStr(j: Json, key: string, default: string): (r: Result<string, Fault>)
    ensures r.Ok? <==> j.JObj? && (key in j.fields ==> j.fields[key].JStr?)
    ensures r.Ok? && key !in j.fields ==> r.value == default
    ensures r.Ok? && key in j.fields ==> j.fields[key] == JStr(r.value)
  {
    if !j.JObj? then Err(TypeError(key))
    else if key !in j.fields then Ok(default)
    else match j.fields[key]
      case JStr(s) => Ok(s)
      case _ => Err(TypeError(key))
  }

  /** `j.value(key, default)` for a `double` default. */
  function ValueNum(j: Json, key: string, default: real): (r: Result<real, Fault>)
    ensures r.Ok? <==> j.JObj? && (key in j.fields ==> j.fields[key].JNum?)
    ensures r.Ok? && key !in j.fields ==> r.value == default
    ensures r.Ok? && key in j.fields ==> j.fields[key] == JNum(r.value)
  {
    if !j.JObj? then Err(TypeError(key))
    else if key !in j.fields then Ok(default)
    else match j.fields[key]
      case JNum(n) => Ok(n)
      case _ => Err(TypeError(key))
  }

  /** `j.value(key, default)` for a `bool` default. */
  function ValueBool(j: Json, key: string, default: bool): (r: Result<bool, Fault>)
    ensures r.Ok? <==> j.JObj? && (key in j.fields ==> j.fields[key].JBool?)
    ensures r.Ok? && key !in j.fields ==> r.value == default
    ensures r.Ok? && key in j.fields ==> j.fields[key] == JBool(r.value)
  {
    if !j.JObj? then Err(TypeError(key))
    else if key !in j.fields then Ok(default)
    else match j.fields[key]
      case JBool(b) => Ok(b)
      case _ => Err(TypeError(key))
  }
}
