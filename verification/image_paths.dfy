/** The three spellings of a car's image path: the worker stores
    `src/Images/x.jpg`, the client rewrites it on receipt to the classpath
    form `/Images/x.jpg`, and the admin dialog turns the classpath form back
    into the stored one before sending a car. The pages that show an image
    make any other path absolute before the classpath lookup. */
module ImagePaths {
  import opened Wrappers
  import opened Text
  import opened Cars

  const StorePrefix: string := "src/Images/"
  const ClassPathPrefix: string := "/Images/"
  const SourceDir: string := "src/"

  /** `CarService.parseResponseData`'s fix: a path starting with `src/Images/`
      has every occurrence of that text replaced by `/Images/`; others are kept. */
  function ReceivedPath(p: string): (r: string)
    ensures StartsWith(p, StorePrefix) ==> StartsWith(r, ClassPathPrefix)
    ensures StartsWith(p, StorePrefix) ==>
      r == ClassPathPrefix + ReplaceAll(p[|StorePrefix|..], StorePrefix, ClassPathPrefix)
    ensures !StartsWith(p, StorePrefix) ==> r == p
  {
    if StartsWith(p, StorePrefix) then
      assert p == StorePrefix + p[|StorePrefix|..];
      ReplaceAllAtPrefix(StorePrefix, p[|StorePrefix|..], ClassPathPrefix);
      ReplaceAll(p, StorePrefix, ClassPathPrefix)
    else p
  }

  /** Every occurrence is rewritten, not just the leading one: a stored path
      made of pieces joined by `src/Images/`, with the prefix starting
      inside none of them, comes back with every joint turned into `/Images/`. */
  lemma ReceivedPathPieces(ps: seq<string>)
    requires |ps| >= 1 && SeparatedBy(ps, StorePrefix)
    ensures ReceivedPath(StorePrefix + JoinWith(ps, StorePrefix)) == ClassPathPrefix + JoinWith(ps, ClassPathPrefix)
  {
    var p := StorePrefix + JoinWith(ps, StorePrefix);
    assert p[..|StorePrefix|] == StorePrefix;
    assert p[|StorePrefix|..] == JoinWith(ps, StorePrefix);
    ReplaceAllJoin(ps, StorePrefix, ClassPathPrefix);
  }

  /** The fix applied to every received car; only image paths change. */
  function RewriteCars(cars: seq<Car>): (r: seq<Car>)
    ensures |r| == |cars|
    ensures forall i :: 0 <= i < |cars| ==> r[i] == cars[i].(imagePath := ReceivedPath(cars[i].imagePath))
    decreases |cars|
  {
    if |cars| == 0 then []
    else [cars[0].(imagePath := ReceivedPath(cars[0].imagePath))] + RewriteCars(cars[1..])
  }

  /** The admin dialog's `pathForCpp`: a classpath-form path gets `src` in front. */
  function StorePath(p: string): (r: string)
    ensures StartsWith(p, ClassPathPrefix) ==> StartsWith(r, StorePrefix) && r[|StorePrefix|..] == p[|ClassPathPrefix|..]
    ensures !StartsWith(p, ClassPathPrefix) ==> r == p
  {
    if StartsWith(p, ClassPathPrefix) then "src" + p else p
  }

  /** A classpath path the admin enters comes back from the worker as the
      same path, provided the stored prefix does not occur again in its tail. */
  lemma StoreThenReceive(p: string)
    requires StartsWith(p, ClassPathPrefix)
    requires forall i :: !OccursAt(p[|ClassPathPrefix|..], StorePrefix, i)
    ensures ReceivedPath(StorePath(p)) == p
  {
    var tail := p[|ClassPathPrefix|..];
    assert StorePath(p) == StorePrefix + tail;
    ReplaceAllAtPrefix(StorePrefix, tail, ClassPathPrefix);
    ReplaceAllNoOccurrence(tail, StorePrefix, ClassPathPrefix);
    assert p == ClassPathPrefix + tail;
  }

  /** A stored path survives the trip to the client and back to the worker. */
  lemma ReceiveThenStore(p: string)
    requires StartsWith(p, StorePrefix)
    requires forall i :: !OccursAt(p[|StorePrefix|..], StorePrefix, i)
    ensures StorePath(ReceivedPath(p)) == p
  {
    var tail := p[|StorePrefix|..];
    assert p == StorePrefix + tail;
    ReplaceAllAtPrefix(StorePrefix, tail, ClassPathPrefix);
    ReplaceAllNoOccurrence(tail, StorePrefix, ClassPathPrefix);
    assert ReceivedPath(p) == ClassPathPrefix + tail;
    assert (ClassPathPrefix + tail)[..|ClassPathPrefix|] == ClassPathPrefix;
  }

  /** The received form is stable: rewriting a rewritten path changes nothing. */
  lemma ReceivedPathIdempotent(p: string)
    ensures ReceivedPath(ReceivedPath(p)) == ReceivedPath(p)
  {
    var r := ReceivedPath(p);
    if StartsWith(p, StorePrefix) {
      assert StartsWith(r, ClassPathPrefix);
      assert r[0] == ClassPathPrefix[0] != StorePrefix[0];
      assert !StartsWith(r, StorePrefix);
    }
  }

  /** The path handed to `getResource` by `CarListPage` and `CarDetailPage`,
      as written: null and absolute paths are kept; a `src/` prefix loses only
      three characters, so `src/x` becomes `//x`. */
  function ResourcePathAsWritten(p: Option<string>): (r: Option<string>)
    ensures p.None? <==> r.None?
    ensures p.Some? && StartsWith(p.value, "/") ==> r == p
    ensures p.Some? && !StartsWith(p.value, "/") && StartsWith(p.value, SourceDir) ==> r == Some("/" + p.value[3..])
    ensures p.Some? && !StartsWith(p.value, "/") && !StartsWith(p.value, SourceDir) ==> r == Some("/" + p.value)
  {
    match p
    case None => None
    case Some(s) =>
      if StartsWith(s, "/") then p
      else if StartsWith(s, SourceDir) then Some("/" + s[3..])
      else Some("/" + s)
  }

  /** The same normalisation with the whole `src/` directory dropped. */
  function ResourcePath(p: Option<string>): (r: Option<string>)
    ensures p.None? <==> r.None?
    ensures r.Some? ==> StartsWith(r.value, "/")
    ensures p.Some? && StartsWith(p.value, "/") ==> r == p
    ensures p.Some? && StartsWith(p.value, SourceDir) ==> r == Some("/" + p.value[|SourceDir|..])
    ensures p.Some? && !StartsWith(p.value, "/") && !StartsWith(p.value, SourceDir) ==> r == Some("/" + p.value)
  {
    match p
    case None => None
    case Some(s) =>
      SourceDirNotAbsolute(s);
      if StartsWith(s, "/") then p
      else if StartsWith(s, SourceDir) then Some("/" + s[|SourceDir|..])
      else Some("/" + s)
  }

  lemma SourceDirNotAbsolute(s: string)
    ensures StartsWith(s, SourceDir) ==> !StartsWith(s, "/")
  {
    if StartsWith(s, SourceDir) {
      assert s[0] == s[..|SourceDir|][0] == 's';
    }
  }

  /** Normalising twice is normalising once. */
  lemma ResourcePathIdempotent(p: Option<string>)
    ensures ResourcePath(ResourcePath(p)) == ResourcePath(p)
  {
  }

  /** A stored path resolves to its classpath form, the same resource the
      client's receive-time rewrite points at. */
  lemma ResourcePathOfStored(p: string)
    requires StartsWith(p, StorePrefix)
    ensures ResourcePath(Some(p)) == Some(ClassPathPrefix + p[|StorePrefix|..])
  {
    SourceDirNotAbsolute(p);
    assert p[..|SourceDir|] == p[..|StorePrefix|][..|SourceDir|];
    assert p[|SourceDir|..] == "Images/" + p[|StorePrefix|..];
    assert "/" + ("Images/" + p[|StorePrefix|..]) == ClassPathPrefix + p[|StorePrefix|..];
  }

  /** As written, a stored path resolves to a doubled slash: `src/Images/a.jpg`
      becomes `//Images/a.jpg`, which the class loader does not find. */
  lemma ResourcePathAsWrittenDoublesSlash()
    ensures ResourcePathAsWritten(Some("src/Images/a.jpg")) == Some("//Images/a.jpg")
    ensures ResourcePath(Some("src/Images/a.jpg")) == Some("/Images/a.jpg")
  {
    var p := "src/Images/a.jpg";
    assert p[..|SourceDir|] == SourceDir;
    SourceDirNotAbsolute(p);
    assert p[3..] == "/Images/a.jpg";
    assert p[|SourceDir|..] == "Images/a.jpg";
    assert "/" + p[3..] == "//Images/a.jpg";
    assert "/" + p[|SourceDir|..] == "/Images/a.jpg";
  }

  /** The two agree on everything except `src/`-prefixed paths. */
  lemma ResourcePathAgreement(p: Option<string>)
    requires p.Some? ==> StartsWith(p.value, "/") || !StartsWith(p.value, SourceDir)
    ensures ResourcePathAsWritten(p) == ResourcePath(p)
  {
  }
}
