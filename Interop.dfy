/** The JavaScript values that flow between the loader and the code it calls:
    spatial-reference identifiers, projection objects, archive members, the
    errors it throws, and the record of foreign collaborators (archive
    extraction, the geometry and attribute decoders, `JSON.parse`, `proj4`'s
    parser, byte decoding, URL parsing and network fetches), which this model
    takes as parameters because their code is not part of it. */
module Interop {
  import opened Wrappers
  import JsString

  type Bytes = seq<bv8>

  /** A spatial-reference identifier as the caller or the projection table
      gives it: a number or a string. */
  datatype Wkid = Num(n: int) | Str(s: string)

  /** JavaScript truthiness of an identifier: `0` and `""` are falsy. */
  predicate TruthyWkid(w: Wkid) {
    match w
    case Num(n) => n != 0
    case Str(s) => s != ""
  }

  /** `undefined`/`null` (None) or a falsy identifier count as absent. */
  predicate Given(w: Option<Wkid>) {
    w.Some? && TruthyWkid(w.value)
  }

  /** The property name under which an identifier is stored in a table, which is
      also how the template `${wkid}` prints it. */
  function PropertyKey(w: Wkid): (k: string)
    ensures w.Num? ==> |k| >= 1
    ensures w.Num? && w.n >= 0 ==>
              (forall i :: 0 <= i < |k| ==> '0' <= k[i] <= '9') && JsString.DecimalValue(k) == w.n
    ensures w.Num? ==> (w.n < 0 <==> k[0] == '-')
    ensures w.Num? && w.n >= 0 ==> (k[0] == '0' <==> k == "0")
  {
    match w
    case Num(n) => JsString.IntToString(n)
    case Str(s) => s
  }

  /** A coordinate transform built by `proj4`, kept opaque: either one built
      from a registered name (`proj4.defs(name, def)` then `proj4(name)`), or
      one parsed from a member's content. */
  datatype Proj = Named(name: string, def: Option<string>) | Parsed(definition: Entry)

  /** A value of the member dictionary: `undefined` for a missing key, a binary
      buffer or a text as the archive extractor produced it, or a projection
      object written back by the classifier. */
  datatype Entry = Undefined | Buffer(bytes: Bytes) | Text(text: string) | Crs(proj: Proj)

  /** JavaScript truthiness of a member value: only `undefined` and the empty
      string are falsy (a buffer is an object, hence truthy even when empty). */
  predicate Truthy(e: Entry) {
    match e
    case Undefined => false
    case Text(t) => t != ""
    case _ => true
  }

  /** `zip[key]`: `undefined` when the key is absent. */
  function Lookup(zip: map<string, Entry>, key: string): (e: Entry)
    ensures key !in zip ==> e == Undefined
    ensures key in zip ==> e == zip[key]
  {
    if key in zip then zip[key] else Undefined
  }

  /** An archive as the extractor returns it: the members, and the order in
      which `for...in` visits their names. */
  datatype Archive = Archive(keys: seq<string>, members: map<string, Entry>)

  /** One row of the projection table: an identifier and the substrings of a
      projection text that select it. */
  datatype ProjEntry = ProjEntry(wkid: Wkid, value: seq<string>)

  /** The static tables: identifier (as a property name) to projection
      definition, and the ordered projection table. */
  datatype Tables = Tables(epsg: map<string, string>, projection: seq<ProjEntry>)

  datatype Error =
    | ForgotBuffer                  // toBuffer on a falsy value
    | NoLayersFound                 // parseZip found no layer name
    | TypeError(what: string)       // a property read or write on undefined, or a write on a primitive
    | InvalidUrl(base: string)      // `new URL(base)` threw
    | Foreign(message: string)      // thrown by a collaborator and propagated unchanged

  /** The code the loader calls but does not contain. `G` is the geometry the
      shapefile decoder yields, `R` an attribute record, `D` a parsed JSON
      document. A `Result` field either returns or throws with a message:
      `proj4Named(name, def)` is `proj4.defs(name, def)` followed by
      `proj4(name)`, and `proj4Parse(value)` is `proj4(value)`; only whether
      they throw is modelled, the transforms themselves are `Proj` values.
      `decodeUtf8` (`Buffer.prototype.toString`) never throws, and
      `urlPathname` is None where `new URL(base)` throws. */
  datatype Collaborators<G, R, D> = Collaborators(
    unzip: Option<Bytes> -> Result<Archive, string>,
    parseShp: (Entry, Entry) -> Result<seq<G>, string>,
    parseDbf: (Entry, Entry) -> Result<seq<R>, string>,
    jsonParse: Entry -> Result<D, string>,
    proj4Named: (string, Option<string>) -> Result<(), string>,
    proj4Parse: Entry -> Result<(), string>,
    decodeUtf8: Bytes -> string,
    urlPathname: string -> Option<string>,
    fetch: string -> Result<Bytes, string>,
    fetchParts: string -> Result<(seq<G>, seq<R>), string>
  )

  /** A collaborator's outcome, its exception propagated unchanged as `Foreign`. */
  function Rethrow<T>(r: Result<T, string>): (o: Result<T, Error>)
    ensures o.Success? <==> r.Success?
    ensures o.Success? ==> o.value == r.value
    ensures o.Failure? ==> o.error == Foreign(r.error)
  {
    match r
    case Success(v) => Success(v)
    case Failure(msg) => Failure(Foreign(msg))
  }

  /** `value.toString()` for a member value. */
  function ToText<G, R, D>(e: Entry, env: Collaborators<G, R, D>): string {
    match e
    case Undefined => "undefined"
    case Buffer(b) => env.decodeUtf8(b)
    case Text(t) => t
    case Crs(_) => "[object Object]"
  }
}
