/** `shp.parseZip`: classifies the members of an unzipped archive by the last
    characters of their names, writes canonical (lower-cased extension) keys
    back into the member dictionary, collects layer names, and assembles one
    result per layer name. */
module Archive {
  import opened Wrappers
  import opened Interop
  import JsString
  import opened Buffers
  import opened Projections
  import opened Features

  /** `key.slice(-3).toLowerCase()`: the classifier's view of a name's extension
      (no dot is required). */
  function Ext3(key: string): string {
    JsString.ToLower(JsString.SliceFrom(key, -3))
  }

  /** `key.slice(0, -3) + key.slice(-3).toLowerCase()`: the name with its last
      three characters lower-cased. */
  function Canonical(key: string): string {
    JsString.Slice(key, 0, -3) + Ext3(key)
  }

  /** The canonical key keeps all but the last three characters of the name and
      lower-cases those three (the whole name when it is shorter); it has the
      name's `Ext3` view and is its own canonical key. */
  lemma CanonicalKey(key: string)
    ensures |key| >= 3 ==> Canonical(key) == key[..|key| - 3] + JsString.ToLower(key[|key| - 3..])
    ensures |key| < 3 ==> Canonical(key) == JsString.ToLower(key)
    ensures |Canonical(key)| == |key|
    ensures JsString.ToLower(Canonical(key)) == JsString.ToLower(key)
    ensures Ext3(Canonical(key)) == Ext3(key)
    ensures Canonical(Canonical(key)) == Canonical(key)
    ensures Ext3(key) == JsString.SliceFrom(key, -3) ==> Canonical(key) == key
  {
    var head, tail := JsString.Slice(key, 0, -3), JsString.SliceFrom(key, -3);
    JsString.SliceHeadTail(key, 3);
    JsString.ToLowerConcat(head, tail);
    JsString.ToLowerConcat(head, Ext3(key));
    JsString.ToLowerIdempotent(tail);
    var c := Canonical(key);
    JsString.SliceFromEnd(key, 3);
    JsString.SliceFromEnd(c, 3);
    assert JsString.SliceFrom(c, -3) == Ext3(key);
    JsString.ToLowerIdempotent(Ext3(key));
    assert JsString.Slice(c, 0, -3) == head;
  }

  /** Members under the `__MACOSX` folder are metadata, not data. */
  predicate IsMetadata(key: string) {
    JsString.IndexOf(key, "__MACOSX") != -1
  }

  /** `key.slice(-4).toLowerCase() === 'json' || whiteList.indexOf(key.split('.').pop()) > -1`. */
  predicate IsJsonOrListed(key: string, whiteList: seq<string>) {
    var parts := JsString.Split(key, '.');
    JsString.ToLower(JsString.SliceFrom(key, -4)) == "json" || parts[|parts| - 1] in whiteList
  }

  /** The options `parseZip` receives: the whitelist (already defaulted to `[]`)
      and the caller's spatial-reference identifier. */
  datatype Options = Options(whiteList: seq<string>, epsg: Option<Wkid>)

  /** The loop's state: the layer names so far and the member dictionary. */
  datatype Classified = Classified(names: seq<string>, zip: map<string, Entry>)

  /** One iteration of the `for...in` loop, for the member name `key`. */
  function Step<G, R, D>(st: Classified, key: string, opts: Options, tables: Tables, env: Collaborators<G, R, D>)
    : Result<Classified, Error>
  {
    if IsMetadata(key) then Success(st)
    else if Ext3(key) == "shp" then
      Success(Classified(st.names + [JsString.Slice(key, 0, -4)], st.zip[Canonical(key) := Lookup(st.zip, key)]))
    else if Ext3(key) == "prj" then
      match ResolvedPrj(opts.epsg, Lookup(st.zip, key), tables, env)
      case Failure(e) => Failure(e)
      case Success(p) => Success(Classified(st.names, st.zip[Canonical(key) := Crs(p)]))
    else if IsJsonOrListed(key, opts.whiteList) then
      Success(Classified(st.names + [Canonical(key)], st.zip))
    else if Ext3(key) == "dbf" || Ext3(key) == "cpg" then
      Success(Classified(st.names, st.zip[Canonical(key) := Lookup(st.zip, key)]))
    else Success(st)
  }

  /** The layer name a member contributes, if any. */
  function LayerName(key: string, whiteList: seq<string>): Option<string> {
    if IsMetadata(key) then None
    else if Ext3(key) == "shp" then Some(JsString.Slice(key, 0, -4))
    else if Ext3(key) == "prj" then None
    else if IsJsonOrListed(key, whiteList) then Some(Canonical(key))
    else None
  }

  /** The layer names of a sequence of members, in order. */
  function LayerNames(keys: seq<string>, whiteList: seq<string>): seq<string>
    decreases |keys|
  {
    if keys == [] then []
    else
      var last := keys[|keys| - 1];
      LayerNames(keys[..|keys| - 1], whiteList) + (match LayerName(last, whiteList) case Some(n) => [n] case None => [])
  }

  /** Members whose canonical key the loop writes: `.shp`, `.prj`, and `.dbf` or
      `.cpg` unless the JSON/whitelist test claimed them first. */
  predicate WritesCanonical(key: string, whiteList: seq<string>) {
    !IsMetadata(key) &&
    (Ext3(key) == "shp" || Ext3(key) == "prj" ||
     (!IsJsonOrListed(key, whiteList) && (Ext3(key) == "dbf" || Ext3(key) == "cpg")))
  }

  /** The whole loop over the snapshot `keys` of the member names, starting from
      the extracted dictionary `zip0`. Its outcome: the names are exactly the
      layer names of the members in order; no key is ever removed; every
      canonical key the loop writes is present at the end; and it can only fail
      on a `.prj` member, and only through `getPrj` when the caller gave an
      identifier. */
  function ClassifyKeys<G, R, D>(keys: seq<string>, zip0: map<string, Entry>, opts: Options, tables: Tables, env: Collaborators<G, R, D>)
    : (r: Result<Classified, Error>)
    ensures r.Success? ==> r.value.names == LayerNames(keys, opts.whiteList)
    ensures r.Success? ==> zip0.Keys <= r.value.zip.Keys
    ensures r.Success? ==> forall k :: k in keys && WritesCanonical(k, opts.whiteList) ==> Canonical(k) in r.value.zip
    ensures r.Failure? ==> (exists k :: k in keys && !IsMetadata(k) && Ext3(k) == "prj")
                           && (Given(opts.epsg) ==> GetPrj(opts.epsg, tables, env).Failure?)
    decreases |keys|
  {
    if keys == [] then Success(Classified([], zip0))
    else
      var init := keys[..|keys| - 1];
      match ClassifyKeys(init, zip0, opts, tables, env)
      case Failure(e) => Failure(e)
      case Success(st) =>
        var last := keys[|keys| - 1];
        assert forall k :: k in keys ==> k in init || k == last;
        Step(st, last, opts, tables, env)
  }

  /** A failure in a prefix of the keys is the failure of the whole loop: the
      loop throws out of the iteration that failed. */
  lemma {:induction false} FailureSticks<G, R, D>(keys: seq<string>, n: nat, zip0: map<string, Entry>, opts: Options, tables: Tables, env: Collaborators<G, R, D>)
    requires n <= |keys|
    requires ClassifyKeys(keys[..n], zip0, opts, tables, env).Failure?
    ensures ClassifyKeys(keys, zip0, opts, tables, env) == ClassifyKeys(keys[..n], zip0, opts, tables, env)
    decreases |keys| - n
  {
    if n < |keys| {
      assert keys[..n + 1][..n] == keys[..n];
      FailureSticks(keys, n + 1, zip0, opts, tables, env);
    } else {
      assert keys[..n] == keys;
    }
  }

  /** The `for...in` loop of `parseZip` over the snapshot `keys`. */
  method Classify<G, R, D>(keys: seq<string>, zip0: map<string, Entry>, opts: Options, tables: Tables, env: Collaborators<G, R, D>)
    returns (r: Result<Classified, Error>)
    ensures r == ClassifyKeys(keys, zip0, opts, tables, env)
    ensures r.Success? ==> r.value.names == LayerNames(keys, opts.whiteList) && zip0.Keys <= r.value.zip.Keys
  {
    var names: seq<string> := [];
    var zip := zip0;
    var i := 0;
    while i < |keys|
      invariant 0 <= i <= |keys|
      invariant ClassifyKeys(keys[..i], zip0, opts, tables, env) == Success(Classified(names, zip))
    {
      var key := keys[i];
      assert keys[..i + 1][..i] == keys[..i];
      ghost var next := Step(Classified(names, zip), key, opts, tables, env);
      assert ClassifyKeys(keys[..i + 1], zip0, opts, tables, env) == next;
      if JsString.IndexOf(key, "__MACOSX") != -1 {
        i := i + 1;
        continue;
      }
      var ext := JsString.ToLower(JsString.SliceFrom(key, -3));
      var canonical := JsString.Slice(key, 0, -3) + ext;
      if ext == "shp" {
        names := names + [JsString.Slice(key, 0, -4)];
        zip := zip[canonical := Lookup(zip, key)];
      } else if ext == "prj" {
        var p := ResolvePrj(opts.epsg, Lookup(zip, key), tables, env);
        if p.Failure? {
          FailureSticks(keys, i + 1, zip0, opts, tables, env);
          return Failure(p.error);
        }
        zip := zip[canonical := Crs(p.value)];
      } else if IsJsonOrListed(key, opts.whiteList) {
        names := names + [canonical];
      } else if ext == "dbf" || ext == "cpg" {
        zip := zip[canonical := Lookup(zip, key)];
      }
      assert next == Success(Classified(names, zip));
      i := i + 1;
    }
    assert keys[..|keys|] == keys;
    r := Success(Classified(names, zip));
  }

  /** A metadata member leaves the state exactly as it was. */
  lemma MetadataStep<G, R, D>(st: Classified, key: string, opts: Options, tables: Tables, env: Collaborators<G, R, D>)
    requires JsString.Contains(key, "__MACOSX")
    ensures Step(st, key, opts, tables, env) == Success(st)
  {
  }

  function WithoutMetadata(keys: seq<string>): (r: seq<string>)
    ensures forall k :: k in r ==> k in keys && !IsMetadata(k)
    decreases |keys|
  {
    if keys == [] then []
    else
      var last := keys[|keys| - 1];
      WithoutMetadata(keys[..|keys| - 1]) + (if IsMetadata(last) then [] else [last])
  }

  /** Dropping every `__MACOSX` member beforehand changes nothing: such members
      add no layer name, no canonical key and no failure. */
  lemma {:induction false} MetadataIgnored<G, R, D>(keys: seq<string>, zip0: map<string, Entry>, opts: Options, tables: Tables, env: Collaborators<G, R, D>)
    ensures ClassifyKeys(keys, zip0, opts, tables, env) == ClassifyKeys(WithoutMetadata(keys), zip0, opts, tables, env)
    decreases |keys|
  {
    if keys != [] {
      var init, last := keys[..|keys| - 1], keys[|keys| - 1];
      MetadataIgnored(init, zip0, opts, tables, env);
      var w := WithoutMetadata(init);
      if !IsMetadata(last) {
        assert WithoutMetadata(keys) == w + [last];
        assert (w + [last])[..|w + [last]| - 1] == w;
      } else {
        assert WithoutMetadata(keys) == w;
      }
    }
  }

  /** A `.shp` member (any case): its stem `key.slice(0, -4)` becomes a layer
      name, its canonical key gets the member's value, and every other key,
      the original one included, keeps its value. */
  lemma ShpStep<G, R, D>(st: Classified, key: string, opts: Options, tables: Tables, env: Collaborators<G, R, D>)
    requires !IsMetadata(key) && Ext3(key) == "shp" && key in st.zip
    ensures Step(st, key, opts, tables, env).Success?
    ensures var next := Step(st, key, opts, tables, env).value;
            && next.names == st.names + [JsString.Slice(key, 0, -4)]
            && next.zip.Keys == st.zip.Keys + {Canonical(key)}
            && next.zip[Canonical(key)] == st.zip[key]
            && next.zip[key] == st.zip[key]
            && forall k :: k in st.zip && k != Canonical(key) ==> next.zip[k] == st.zip[k]
  {
  }

  /** A `.dbf` or `.cpg` member the whitelist does not claim: copied to its
      canonical key, no layer name added. */
  lemma CompanionStep<G, R, D>(st: Classified, key: string, opts: Options, tables: Tables, env: Collaborators<G, R, D>)
    requires !IsMetadata(key) && (Ext3(key) == "dbf" || Ext3(key) == "cpg") && !IsJsonOrListed(key, opts.whiteList)
    requires key in st.zip
    ensures Step(st, key, opts, tables, env).Success?
    ensures var next := Step(st, key, opts, tables, env).value;
            && next.names == st.names
            && next.zip.Keys == st.zip.Keys + {Canonical(key)}
            && next.zip[Canonical(key)] == st.zip[key]
            && next.zip[key] == st.zip[key]
            && forall k :: k in st.zip && k != Canonical(key) ==> next.zip[k] == st.zip[k]
  {
    assert Ext3(key) != "shp" && Ext3(key) != "prj";
    assert Step(st, key, opts, tables, env) == Success(Classified(st.names, st.zip[Canonical(key) := st.zip[key]]));
  }

  /** A member the JSON/whitelist test claims (and that is neither `.shp` nor
      `.prj`): its canonical key becomes a layer name, and the dictionary is
      left as it was, so no canonical key is written for it. */
  lemma ListedStep<G, R, D>(st: Classified, key: string, opts: Options, tables: Tables, env: Collaborators<G, R, D>)
    requires !IsMetadata(key) && Ext3(key) != "shp" && Ext3(key) != "prj" && IsJsonOrListed(key, opts.whiteList)
    ensures Step(st, key, opts, tables, env) == Success(Classified(st.names + [Canonical(key)], st.zip))
  {
  }

  /** The canonical keys the loop writes for a sequence of members. */
  function WrittenKeys(keys: seq<string>, whiteList: seq<string>): set<string> {
    set k | k in keys && WritesCanonical(k, whiteList) :: Canonical(k)
  }

  /** The keys one iteration adds: the member's canonical key when it writes
      one, nothing otherwise. */
  function AddedKeys(key: string, whiteList: seq<string>): set<string> {
    if WritesCanonical(key, whiteList) then {Canonical(key)} else {}
  }

  /** One iteration adds exactly the keys `AddedKeys` names. */
  lemma StepKeys<G, R, D>(st: Classified, key: string, opts: Options, tables: Tables, env: Collaborators<G, R, D>)
    ensures var next := Step(st, key, opts, tables, env);
            next.Success? ==> next.value.zip.Keys == st.zip.Keys + AddedKeys(key, opts.whiteList)
  {
  }

  lemma WrittenKeysSnoc(init: seq<string>, last: string, whiteList: seq<string>)
    ensures WrittenKeys(init + [last], whiteList) == WrittenKeys(init, whiteList) + AddedKeys(last, whiteList)
  {
    assert forall k :: k in init + [last] <==> k in init || k == last;
  }

  /** The loop adds no key but the canonical keys it writes: on success the
      final dictionary's keys are exactly the original keys plus the canonical
      keys of the `.shp`, `.prj` and unclaimed `.dbf`/`.cpg` members. */
  lemma {:induction false} ClassifiedKeys<G, R, D>(keys: seq<string>, zip0: map<string, Entry>, opts: Options, tables: Tables, env: Collaborators<G, R, D>)
    ensures var r := ClassifyKeys(keys, zip0, opts, tables, env);
            r.Success? ==> r.value.zip.Keys == zip0.Keys + WrittenKeys(keys, opts.whiteList)
    decreases |keys|
  {
    if keys == [] {
      assert WrittenKeys(keys, opts.whiteList) == {};
    } else {
      var init, last := keys[..|keys| - 1], keys[|keys| - 1];
      ClassifiedKeys(init, zip0, opts, tables, env);
      var before := ClassifyKeys(init, zip0, opts, tables, env);
      if before.Success? {
        StepKeys(before.value, last, opts, tables, env);
      }
      assert keys == init + [last];
      WrittenKeysSnoc(init, last, opts.whiteList);
    }
  }

  /** A `.prj` member: no layer name; its canonical key holds the transform
      chosen by priority (caller's identifier, table match, `proj4` parse), and
      every other key keeps its value. With an identifier given, the step
      succeeds exactly when `getPrj` does and stores what it built. */
  lemma PrjStep<G, R, D>(st: Classified, key: string, opts: Options, tables: Tables, env: Collaborators<G, R, D>)
    requires !IsMetadata(key) && Ext3(key) == "prj"
    ensures var next := Step(st, key, opts, tables, env);
            && (next.Success? <==> ResolvedPrj(opts.epsg, Lookup(st.zip, key), tables, env).Success?)
            && (next.Success? ==>
                  && next.value.names == st.names
                  && next.value.zip.Keys == st.zip.Keys + {Canonical(key)}
                  && next.value.zip[Canonical(key)] == Crs(ResolvedPrj(opts.epsg, Lookup(st.zip, key), tables, env).value)
                  && forall k :: k in st.zip && k != Canonical(key) ==> next.value.zip[k] == st.zip[k])
            && (Given(opts.epsg) ==>
                  && (next.Success? <==> GetPrj(opts.epsg, tables, env).Success?)
                  && (next.Success? ==> next.value.zip[Canonical(key)] == Crs(GetPrj(opts.epsg, tables, env).value.value)))
  {
  }

  // ---------------------------------------------------------------------------
  // Assembly: the `names.map` callback and the single-versus-array return.

  /** Which branch of the `names.map` callback handles a name. */
  datatype Branch = JsonBranch | ListedBranch | ShapefileBranch

  function BranchOf(name: string, whiteList: seq<string>): (b: Branch)
    ensures b == JsonBranch ==> JsString.LastIndexOf(name, '.') >= 0
  {
    var lastDot := JsString.LastIndexOf(name, '.');
    if lastDot > -1 && JsString.IndexOf(JsString.SliceFrom(name, lastDot), "json") > -1 then JsonBranch
    else if JsString.SliceFrom(name, lastDot + 1) in whiteList then ListedBranch
    else ShapefileBranch
  }

  /** The `fileName` a layer is tagged with: a JSON layer's name up to its last
      dot, any other layer's full name. */
  function FileNameOf(name: string, whiteList: seq<string>): (f: string)
    ensures BranchOf(name, whiteList) != JsonBranch ==> f == name
    ensures BranchOf(name, whiteList) == JsonBranch ==>
              && |f| < |name| && name[..|f|] == f && name[|f|] == '.'
              && forall i :: |f| < i < |name| ==> name[i] != '.'
  {
    if BranchOf(name, whiteList) == JsonBranch then name[..JsString.LastIndexOf(name, '.')] else name
  }

  /** One result of `parseZip`, tagged with its `fileName`. */
  datatype Layer<G, R, D> =
    | JsonLayer(doc: D, fileName: string)
    | ListedLayer(value: Entry, fileName: string)
    | ShapeLayer(collection: FeatureCollection<G, R>, fileName: string)

  /** The attribute records of a shapefile layer: decoded only when the
      `.dbf` member is truthy, absent otherwise. */
  function Attributes<G, R, D>(name: string, zip: map<string, Entry>, env: Collaborators<G, R, D>): (r: Result<Option<seq<R>>, Error>)
    ensures !Truthy(Lookup(zip, name + ".dbf")) ==> r == Success(None)
    ensures Truthy(Lookup(zip, name + ".dbf")) ==>
              var p := env.parseDbf(Lookup(zip, name + ".dbf"), Lookup(zip, name + ".cpg"));
              && (r.Success? <==> p.Success?)
              && (r.Success? ==> r.value == Some(p.value))
              && (r.Failure? ==> r.error == Foreign(p.error))
  {
    var dbf := Lookup(zip, name + ".dbf");
    if !Truthy(dbf) then Success(None)
    else
      match env.parseDbf(dbf, Lookup(zip, name + ".cpg"))
      case Failure(msg) => Failure(Foreign(msg))
      case Success(records) => Success(Some(records))
  }

  /** The `names.map` callback for one name. A whitelisted member is tagged in
      place, which strict-mode JavaScript refuses for `undefined` and for a
      primitive string. */
  function AssembleLayer<G, R, D>(name: string, zip: map<string, Entry>, whiteList: seq<string>, env: Collaborators<G, R, D>)
    : (r: Result<Layer<G, R, D>, Error>)
    ensures r.Success? ==> r.value.fileName == FileNameOf(name, whiteList)
    ensures r.Failure? ==> r.error.Foreign? || r.error.TypeError?
  {
    match BranchOf(name, whiteList)
    case JsonBranch =>
      (match env.jsonParse(Lookup(zip, name))
       case Failure(msg) => Failure(Foreign(msg))
       case Success(doc) => Success(JsonLayer(doc, JsString.Slice(name, 0, JsString.LastIndexOf(name, '.')))))
    case ListedBranch =>
      var value := Lookup(zip, name);
      if value.Buffer? || value.Crs? then Success(ListedLayer(value, name))
      else Failure(TypeError("cannot set fileName on this member"))
    case ShapefileBranch =>
      match Attributes(name, zip, env)
      case Failure(e) => Failure(e)
      case Success(attrs) =>
        match env.parseShp(Lookup(zip, name + ".shp"), Lookup(zip, name + ".prj"))
        case Failure(msg) => Failure(Foreign(msg))
        case Success(geoms) =>
          match Combined(geoms, attrs)
          case Failure(e) => Failure(e)
          case Success(fc) => Success(ShapeLayer(fc, name))
  }

  /** The callback's result by branch: its kind follows the branch; a
      whitelisted member is returned itself, and tagging it succeeds exactly for
      an object value; a JSON layer holds `JSON.parse` of the member, and
      fails exactly when that throws; a
      shapefile layer is `combine` of the geometries decoded from `name.shp`
      (with `name.prj`) and the records decoded from `name.dbf` (with
      `name.cpg`), so it has one feature per decoded geometry, and none when
      the `.dbf` member is falsy. */
  lemma AssembleLayerByBranch<G, R, D>(name: string, zip: map<string, Entry>, whiteList: seq<string>, env: Collaborators<G, R, D>)
    ensures var r := AssembleLayer(name, zip, whiteList, env);
            && (r.Success? ==> (r.value.JsonLayer? <==> BranchOf(name, whiteList) == JsonBranch))
            && (r.Success? ==> (r.value.ListedLayer? <==> BranchOf(name, whiteList) == ListedBranch))
            && (BranchOf(name, whiteList) == ListedBranch ==>
                  (r.Success? <==> Lookup(zip, name).Buffer? || Lookup(zip, name).Crs?)
                  && (r.Success? ==> r.value.value == zip[name]))
            && (r.Success? && r.value.ShapeLayer? ==>
                  env.parseShp(Lookup(zip, name + ".shp"), Lookup(zip, name + ".prj")).Success?
                  && |r.value.collection.features| == |env.parseShp(Lookup(zip, name + ".shp"), Lookup(zip, name + ".prj")).value|)
            && (r.Success? && r.value.ShapeLayer? && !Truthy(Lookup(zip, name + ".dbf")) ==> r.value.collection.features == [])
            && (r.Success? && r.value.ShapeLayer? ==>
                  && Attributes(name, zip, env).Success?
                  && Combined(env.parseShp(Lookup(zip, name + ".shp"), Lookup(zip, name + ".prj")).value,
                              Attributes(name, zip, env).value) == Success(r.value.collection))
            && (r.Success? && r.value.JsonLayer? ==> env.jsonParse(Lookup(zip, name)) == Success(r.value.doc))
            && (BranchOf(name, whiteList) == JsonBranch ==>
                  && (r.Success? <==> env.jsonParse(Lookup(zip, name)).Success?)
                  && (r.Failure? ==> r.error == Foreign(env.jsonParse(Lookup(zip, name)).error)))
            && (BranchOf(name, whiteList) == ShapefileBranch ==>
                  var attrs := Attributes(name, zip, env);
                  var shp := env.parseShp(Lookup(zip, name + ".shp"), Lookup(zip, name + ".prj"));
                  && (attrs.Failure? ==> r == Failure(attrs.error))
                  && (attrs.Success? && shp.Failure? ==> r == Failure(Foreign(shp.error)))
                  && (attrs.Success? && shp.Success? ==> (r.Success? <==> Combined(shp.value, attrs.value).Success?)))
  {
  }

  /** `names.map(callback)` for a callback that may throw: one result per
      name, in order, or the exception of the first call that throws. */
  function MapAll<T>(names: seq<string>, callback: string -> Result<T, Error>): (r: Result<seq<T>, Error>)
    ensures r.Success? ==> |r.value| == |names|
    decreases |names|
  {
    if names == [] then Success([])
    else
      match callback(names[0])
      case Failure(e) => Failure(e)
      case Success(first) =>
        match MapAll(names[1..], callback)
        case Failure(e) => Failure(e)
        case Success(rest) => Success([first] + rest)
  }

  /** `map` succeeds exactly when every call of the callback does, and then its
      i-th result is the callback's result for the i-th name. */
  lemma {:induction false} MapAllInOrder<T>(names: seq<string>, callback: string -> Result<T, Error>)
    ensures var r := MapAll(names, callback);
            && (r.Success? <==> forall i :: 0 <= i < |names| ==> callback(names[i]).Success?)
            && (r.Success? ==> forall i :: 0 <= i < |names| ==> callback(names[i]) == Success(r.value[i]))
    decreases |names|
  {
    if names != [] {
      var tail := names[1..];
      MapAllInOrder(tail, callback);
      var first := callback(names[0]);
      var rest := MapAll(tail, callback);
      var r := MapAll(names, callback);
      if first.Failure? {
        assert r.Failure?;
      } else if rest.Failure? {
        assert r.Failure?;
        var k :| 0 <= k < |tail| && callback(tail[k]).Failure?;
        assert names[k + 1] == tail[k];
      } else {
        assert r.value == [first.value] + rest.value;
        forall i | 0 <= i < |names| ensures callback(names[i]) == Success(r.value[i]) {
          if i > 0 {
            assert names[i] == tail[i - 1];
          }
        }
      }
    }
  }

  /** When `map` fails, it fails with the exception of the first name, in
      order, whose callback throws; the calls before it all succeed. */
  lemma {:induction false} MapAllFirstFailure<T>(names: seq<string>, callback: string -> Result<T, Error>)
    requires MapAll(names, callback).Failure?
    ensures exists i :: 0 <= i < |names| && callback(names[i]) == Failure(MapAll(names, callback).error)
                        && forall j :: 0 <= j < i ==> callback(names[j]).Success?
    decreases |names|
  {
    var e := MapAll(names, callback).error;
    if callback(names[0]).Failure? {
      assert callback(names[0]) == Failure(e);
    } else {
      var tail := names[1..];
      MapAllFirstFailure(tail, callback);
      var k :| 0 <= k < |tail| && callback(tail[k]) == Failure(e)
               && forall j :: 0 <= j < k ==> callback(tail[j]).Success?;
      assert names[k + 1] == tail[k];
      assert forall j :: 0 < j < k + 1 ==> names[j] == tail[j - 1];
    }
  }

  /** The `names.map` of `parseZip`, with the per-name callback. */
  function AssembleAll<G, R, D>(names: seq<string>, zip: map<string, Entry>, whiteList: seq<string>, env: Collaborators<G, R, D>)
    : Result<seq<Layer<G, R, D>>, Error>
  {
    MapAll(names, name => AssembleLayer(name, zip, whiteList, env))
  }

  /** What `parseZip` and `getShapefile` resolve to: a bare layer, an array of
      layers, or (from the remote-parts path) a bare feature collection. */
  datatype Output<G, R, D> =
    | One(layer: Layer<G, R, D>)
    | Several(layers: seq<Layer<G, R, D>>)
    | Merged(collection: FeatureCollection<G, R>)

  /** The results an output carries, in order. */
  function Results<G, R, D>(out: Output<G, R, D>): seq<Layer<G, R, D>> {
    match out
    case One(l) => [l]
    case Several(ls) => ls
    case Merged(_) => []
  }

  /** `geojson.length === 1 ? geojson[0] : geojson`. */
  function Package<G, R, D>(layers: seq<Layer<G, R, D>>): (out: Output<G, R, D>)
    ensures out.One? <==> |layers| == 1
    ensures !out.Merged?
    ensures Results(out) == layers
  {
    if |layers| == 1 then One(layers[0]) else Several(layers)
  }

  /** `whiteList || []`. */
  function WhiteListOrEmpty(whiteList: Option<seq<string>>): seq<string> {
    if whiteList.Some? then whiteList.value else []
  }

  /** What `parseZip(buffer, whiteList, epsg)` resolves to. */
  function ParsedZip<G, R, D>(input: RawInput, whiteList: Option<seq<string>>, epsg: Option<Wkid>, tables: Tables, env: Collaborators<G, R, D>)
    : Result<Output<G, R, D>, Error>
    requires WellFormed(input)
  {
    var wl := WhiteListOrEmpty(whiteList);
    match ToBuffer(input)
    case Failure(e) => Failure(e)
    case Success(buf) =>
      match env.unzip(buf)
      case Failure(msg) => Failure(Foreign(msg))
      case Success(archive) =>
        match ClassifyKeys(archive.keys, archive.members, Options(wl, epsg), tables, env)
        case Failure(e) => Failure(e)
        case Success(c) =>
          if |c.names| == 0 then Failure(NoLayersFound)
          else
            match AssembleAll(c.names, c.zip, wl, env)
            case Failure(e) => Failure(e)
            case Success(layers) => Success(Package(layers))
  }

  /** `shp.parseZip`. */
  method ParseZip<G, R, D>(input: RawInput, whiteList: Option<seq<string>>, epsg: Option<Wkid>, tables: Tables, env: Collaborators<G, R, D>)
    returns (r: Result<Output<G, R, D>, Error>)
    requires WellFormed(input)
    ensures r == ParsedZip(input, whiteList, epsg, tables, env)
    ensures input.Falsy? ==> r == Failure(ForgotBuffer)
    ensures r.Success? ==> !r.value.Merged? && |Results(r.value)| >= 1
  {
    var wl := WhiteListOrEmpty(whiteList);
    var buf :- ToBuffer(input);
    var archive :- Rethrow(env.unzip(buf));
    var c :- Classify(archive.keys, archive.members, Options(wl, epsg), tables, env);
    if |c.names| == 0 {
      return Failure(NoLayersFound);
    }
    var layers :- AssembleAll(c.names, c.zip, wl, env);
    r := Success(Package(layers));
  }

  /** End to end: once the archive is extracted, `parseZip` fails with "no
      layers" exactly when no member yields a layer name; otherwise it returns
      one result per layer name, in member order, each tagged with the
      `fileName` of its branch, bare when there is exactly one. */
  lemma ParsedZipLayers<G, R, D>(input: RawInput, whiteList: Option<seq<string>>, epsg: Option<Wkid>, tables: Tables, env: Collaborators<G, R, D>,
                                 archive: Archive)
    requires WellFormed(input) && ToBuffer(input).Success? && env.unzip(ToBuffer(input).value) == Success(archive)
    requires ClassifyKeys(archive.keys, archive.members, Options(WhiteListOrEmpty(whiteList), epsg), tables, env).Success?
    ensures var names := LayerNames(archive.keys, WhiteListOrEmpty(whiteList));
            var r := ParsedZip(input, whiteList, epsg, tables, env);
            && (names == [] <==> r == Failure(NoLayersFound))
            && (r.Success? ==>
                  && |Results(r.value)| == |names|
                  && (r.value.One? <==> |names| == 1)
                  && forall i :: 0 <= i < |names| ==> Results(r.value)[i].fileName == FileNameOf(names[i], WhiteListOrEmpty(whiteList)))
  {
    var wl := WhiteListOrEmpty(whiteList);
    var c := ClassifyKeys(archive.keys, archive.members, Options(wl, epsg), tables, env).value;
    var r := ParsedZip(input, whiteList, epsg, tables, env);
    assert c.names == LayerNames(archive.keys, wl);
    if c.names == [] {
      assert r == Failure(NoLayersFound);
    } else {
      var all := AssembleAll(c.names, c.zip, wl, env);
      if all.Failure? {
        assert r == Failure(all.error);
        var callback := name => AssembleLayer(name, c.zip, wl, env);
        MapAllFirstFailure(c.names, callback);
        var i :| 0 <= i < |c.names| && callback(c.names[i]) == Failure(all.error);
      } else {
        assert r == Success(Package(all.value));
        AssembledFileNames(c.names, c.zip, wl, env);
      }
    }
  }

  /** Each assembled result carries the `fileName` of its name's branch. */
  lemma AssembledFileNames<G, R, D>(names: seq<string>, zip: map<string, Entry>, whiteList: seq<string>, env: Collaborators<G, R, D>)
    requires AssembleAll(names, zip, whiteList, env).Success?
    ensures forall i :: 0 <= i < |names| ==> AssembleAll(names, zip, whiteList, env).value[i].fileName == FileNameOf(names[i], whiteList)
  {
    var layers := AssembleAll(names, zip, whiteList, env).value;
    var callback := name => AssembleLayer(name, zip, whiteList, env);
    MapAllInOrder(names, callback);
    forall i | 0 <= i < |names| ensures layers[i].fileName == FileNameOf(names[i], whiteList) {
      assert callback(names[i]) == Success(layers[i]);
    }
  }

  // ---------------------------------------------------------------------------
  // Behaviour of the classifier on particular names.

  /** An upper-case `.JSON` member is pushed as `x.Json` (only the last three
      characters are lower-cased), which the later test for `json` after the
      last dot misses: it is assembled as a shapefile. A lower-case `.json`
      member takes the JSON branch. */
  lemma UpperCaseJsonIsAssembledAsShapefile()
    ensures LayerName("x.JSON", []) == Some("x.Json")
    ensures BranchOf("x.Json", []) == ShapefileBranch
    ensures LayerName("x.json", []) == Some("x.json") && BranchOf("x.json", []) == JsonBranch
  {
    UpperJsonName();
    UpperJsonBranch();
    LowerJsonName();
    LowerJsonBranch();
  }

  /** The classifier's view of a name made of `head` and a three-character
      extension. */
  lemma Ext3Of(head: string, ext: string)
    requires |ext| == 3
    ensures Ext3(head + ext) == JsString.ToLower(ext)
    ensures Canonical(head + ext) == head + JsString.ToLower(ext)
  {
    JsString.SliceSuffix(head, ext);
  }

  lemma UpperJsonName()
    ensures LayerName("x.JSON", []) == Some("x.Json")
  {
    UpperJsonView();
    UpperJsonListed();
  }

  lemma UpperJsonView()
    ensures !IsMetadata("x.JSON")
    ensures Ext3("x.JSON") == "son"
    ensures Canonical("x.JSON") == "x.Json"
  {
    assert JsString.IndexOf("x.JSON", "__MACOSX") == -1;
    assert "x.JSON" == "x.J" + "SON";
    Ext3Of("x.J", "SON");
    assert JsString.ToLower("SON") == "son";
    assert "x.J" + "son" == "x.Json";
  }

  lemma UpperJsonListed()
    ensures IsJsonOrListed("x.JSON", [])
  {
    assert "x.JSON" == "x." + "JSON";
    JsString.SliceSuffix("x.", "JSON");
    assert JsString.ToLower("JSON") == "json";
  }

  lemma UpperJsonBranch()
    ensures BranchOf("x.Json", []) == ShapefileBranch
  {
    assert "x.Json"[1] == '.' && forall i :: 0 <= i < 6 && i != 1 ==> "x.Json"[i] != '.';
    assert JsString.LastIndexOf("x.Json", '.') == 1;
    assert JsString.SliceFrom("x.Json", 1) == ".Json";
    assert ".Json"[1..5] == "Json";
    assert !JsString.OccursAt(".Json", "json", 0) && !JsString.OccursAt(".Json", "json", 1);
    assert JsString.IndexOf(".Json", "json") == -1;
  }

  lemma LowerJsonName()
    ensures LayerName("x.json", []) == Some("x.json")
  {
    LowerJsonView();
    LowerJsonListed();
  }

  lemma LowerJsonView()
    ensures !IsMetadata("x.json")
    ensures Ext3("x.json") == "son"
    ensures Canonical("x.json") == "x.json"
  {
    assert JsString.IndexOf("x.json", "__MACOSX") == -1;
    assert "x.json" == "x.j" + "son";
    Ext3Of("x.j", "son");
    assert JsString.ToLower("son") == "son";
  }

  lemma LowerJsonListed()
    ensures IsJsonOrListed("x.json", [])
  {
    assert "x.json" == "x." + "json";
    JsString.SliceSuffix("x.", "json");
    assert JsString.ToLower("json") == "json";
  }

  lemma LowerJsonBranch()
    ensures BranchOf("x.json", []) == JsonBranch
  {
    assert "x.json"[1] == '.' && forall i :: 0 <= i < 6 && i != 1 ==> "x.json"[i] != '.';
    assert JsString.LastIndexOf("x.json", '.') == 1;
    assert JsString.SliceFrom("x.json", 1) == ".json";
    assert ".json"[1..5] == "json";
    assert JsString.OccursAt(".json", "json", 1);
  }

  /** Any member `<stem>.shp` outside the metadata folder yields the layer
      name `<stem>`. */
  lemma ShpLayerName(stem: string, whiteList: seq<string>)
    requires !IsMetadata(stem + ".shp")
    ensures LayerName(stem + ".shp", whiteList) == Some(stem)
  {
    assert stem + ".shp" == (stem + ".") + "shp";
    Ext3Of(stem + ".", "shp");
    JsString.SliceSuffix(stem, ".shp");
    assert JsString.ToLower("shp") == "shp";
  }

  /** The `shp` test reads the last three characters only: a member named
      `datashp` yields the layer name `dat`. */
  lemma ShpWithoutDot(whiteList: seq<string>)
    ensures LayerName("datashp", whiteList) == Some("dat")
  {
    assert "datashp" == "data" + "shp" == "dat" + "ashp";
    Ext3Of("data", "shp");
    JsString.SliceSuffix("dat", "ashp");
    assert JsString.ToLower("shp") == "shp";
    assert JsString.IndexOf("datashp", "__MACOSX") == -1;
  }

  /** The whitelist is compared case-sensitively: `a.TXT` is not a layer under
      the whitelist `["txt"]`, and is one under `["TXT"]`. */
  lemma WhiteListIsCaseSensitive()
    ensures LayerName("a.TXT", ["txt"]) == None
    ensures LayerName("a.TXT", ["TXT"]) == Some("a.txt")
  {
    var parts := JsString.Split("a.TXT", '.');
    TxtClassifierView();
    assert parts[|parts| - 1] !in ["txt"];
    assert !IsJsonOrListed("a.TXT", ["txt"]);
    assert IsJsonOrListed("a.TXT", ["TXT"]);
  }

  lemma TxtClassifierView()
    ensures !IsMetadata("a.TXT")
    ensures Ext3("a.TXT") == "txt"
    ensures JsString.ToLower(JsString.SliceFrom("a.TXT", -4)) == ".txt"
    ensures JsString.Split("a.TXT", '.')[|JsString.Split("a.TXT", '.')| - 1] == "TXT"
    ensures Canonical("a.TXT") == "a.txt"
  {
    TxtExtension();
    TxtLastFour();
    TxtLastPart();
  }

  lemma TxtExtension()
    ensures !IsMetadata("a.TXT")
    ensures Ext3("a.TXT") == "txt"
    ensures Canonical("a.TXT") == "a.txt"
  {
    assert JsString.IndexOf("a.TXT", "__MACOSX") == -1;
    assert "a.TXT" == "a." + "TXT";
    Ext3Of("a.", "TXT");
    assert JsString.ToLower("TXT") == "txt";
    assert "a." + "txt" == "a.txt";
  }

  lemma TxtLastFour()
    ensures JsString.ToLower(JsString.SliceFrom("a.TXT", -4)) == ".txt"
  {
    assert "a.TXT" == "a" + ".TXT";
    JsString.SliceSuffix("a", ".TXT");
    assert JsString.ToLower(".TXT") == ".txt";
  }

  lemma TxtLastPart()
    ensures JsString.Split("a.TXT", '.')[|JsString.Split("a.TXT", '.')| - 1] == "TXT"
  {
    assert "a.TXT"[1] == '.' && forall i :: 0 <= i < 5 && i != 1 ==> "a.TXT"[i] != '.';
    assert JsString.LastIndexOf("a.TXT", '.') == 1;
    JsString.SplitLastPart("a.TXT", '.');
    assert "a.TXT"[2..] == "TXT";
  }

  /** Two `.shp` members with distinct stems give two layers, tagged with their stems. */
  lemma TwoShapefileLayers()
    ensures LayerNames(["a.shp", "b.shp"], []) == ["a", "b"]
    ensures FileNameOf("a", []) == "a" && FileNameOf("b", []) == "b"
  {
    assert JsString.IndexOf("a.shp", "__MACOSX") == -1 && JsString.IndexOf("b.shp", "__MACOSX") == -1;
    assert "a.shp" == "a" + ".shp" && "b.shp" == "b" + ".shp";
    ShpLayerName("a", []);
    ShpLayerName("b", []);
    assert ["a.shp", "b.shp"][..1] == ["a.shp"] && ["a.shp"][..0] == [];
  }
}
