/** The entry points: `shp.getShapefile`, which picks one of three paths from
    the kind of source it is given, and `shp`, which memoises it per URL. */
module Loader {
  import opened Wrappers
  import opened Interop
  import JsString
  import opened Buffers
  import opened Features
  import opened Archive

  /** The `base` a caller passes: a string (a URL, possibly without its
      extension) or any other value, which is taken for archive contents. */
  datatype Base = Url(url: string) | Value(input: RawInput)

  predicate WellFormedBase(base: Base) {
    base.Value? ==> WellFormed(base.input)
  }

  /** `checkSuffix`, once `new URL(base)` has given the pathname: do its last
      four characters, lower-cased, equal `suffix`? */
  function CheckSuffix(pathname: string, suffix: string): (b: bool)
    ensures |suffix| == 4 ==> (b <==> |pathname| >= 4 && JsString.ToLower(pathname[|pathname| - 4..]) == suffix)
  {
    JsString.SliceFromEnd(pathname, 4);
    JsString.ToLower(JsString.SliceFrom(pathname, -4)) == suffix
  }

  /** The suffix test ignores case: any spelling of `.zip` selects the archive
      path, whatever precedes it. */
  lemma ZipSuffixAnyCase(stem: string, ext: string)
    requires |ext| == 4 && JsString.ToLower(ext) == ".zip"
    ensures CheckSuffix(stem + ext, ".zip")
  {
    assert (stem + ext)[|stem + ext| - 4..] == ext;
  }

  /** A pathname shorter than the suffix never matches it, even when it is a
      tail of the suffix (`slice(-4)` then returns the whole, shorter, name). */
  lemma ShortPathnameNeverMatches(pathname: string)
    requires |pathname| < 4
    ensures !CheckSuffix(pathname, ".zip")
  {
  }

  /** The path `getShapefile` takes for a source. */
  datatype Route = ArchiveValue | RemoteArchive | RemoteParts | BadUrl

  function RouteOf<G, R, D>(base: Base, env: Collaborators<G, R, D>): (route: Route)
    ensures route == ArchiveValue <==> base.Value?
    ensures route == BadUrl <==> base.Url? && env.urlPathname(base.url).None?
    ensures route == RemoteArchive <==> base.Url? && env.urlPathname(base.url).Some? && CheckSuffix(env.urlPathname(base.url).value, ".zip")
  {
    match base
    case Value(_) => ArchiveValue
    case Url(u) =>
      match env.urlPathname(u)
      case None => BadUrl
      case Some(pathname) => if CheckSuffix(pathname, ".zip") then RemoteArchive else RemoteParts
  }

  /** What `getShapefile(base, whiteList, epsg)` resolves to. The archive is
      fetched whole and parsed from its bytes; the parts are fetched and decoded
      (geometries and attribute records) and merged by `combine`. */
  function Shapefile<G, R, D>(base: Base, whiteList: Option<seq<string>>, epsg: Option<Wkid>, tables: Tables, env: Collaborators<G, R, D>)
    : Result<Output<G, R, D>, Error>
    requires WellFormedBase(base)
  {
    match RouteOf(base, env)
    case ArchiveValue => ParsedZip(base.input, whiteList, epsg, tables, env)
    case BadUrl => Failure(InvalidUrl(base.url))
    case RemoteArchive =>
      (match env.fetch(base.url)
       case Failure(msg) => Failure(Foreign(msg))
       case Success(bytes) => ParsedZip(NodeBuffer(bytes), whiteList, epsg, tables, env))
    case RemoteParts =>
      match env.fetchParts(base.url)
      case Failure(msg) => Failure(Foreign(msg))
      case Success(parts) => Success(Merged(Combined(parts.0, Some(parts.1)).value))
  }

  /** `shp.getShapefile`. */
  method GetShapefile<G, R, D>(base: Base, whiteList: Option<seq<string>>, epsg: Option<Wkid>, tables: Tables, env: Collaborators<G, R, D>)
    returns (r: Result<Output<G, R, D>, Error>)
    requires WellFormedBase(base)
    ensures r == Shapefile(base, whiteList, epsg, tables, env)
    ensures base.Value? ==> r == ParsedZip(base.input, whiteList, epsg, tables, env)
    ensures RouteOf(base, env) == BadUrl ==> r == Failure(InvalidUrl(base.url))
    ensures RouteOf(base, env) == RemoteArchive ==>
              (r.Success? ==> !r.value.Merged?) && (env.fetch(base.url).Failure? ==> r == Failure(Foreign(env.fetch(base.url).error)))
    ensures RouteOf(base, env) == RemoteArchive && env.fetch(base.url).Success? ==>
              r == ParsedZip(NodeBuffer(env.fetch(base.url).value), whiteList, epsg, tables, env)
    ensures RouteOf(base, env) == RemoteParts ==>
              (r.Success? <==> env.fetchParts(base.url).Success?)
              && (r.Success? ==> r.value.Merged? && |r.value.collection.features| == |env.fetchParts(base.url).value.0|)
  {
    if base.Value? {
      r := ParseZip(base.input, whiteList, epsg, tables, env);
      return;
    }
    var pathname := env.urlPathname(base.url);
    if pathname.None? {
      return Failure(InvalidUrl(base.url));
    }
    if CheckSuffix(pathname.value, ".zip") {
      var bytes :- Rethrow(env.fetch(base.url));
      r := ParseZip(NodeBuffer(bytes), whiteList, epsg, tables, env);
      return;
    }
    var parts :- Rethrow(env.fetchParts(base.url));
    var collection := Combine(parts.0, Some(parts.1));
    r := Success(Merged(collection.value));
  }

  /** The options a result was computed with. */
  datatype Request = Request(whiteList: Option<seq<string>>, epsg: Option<Wkid>)

  /** The memoising entry point `shp(props)` together with the module-level
      cache it reads and writes. */
  class Loader<G, R, D> {
    const env: Collaborators<G, R, D>
    const tables: Tables
    /** The cache: URL to the result `getShapefile` resolved to for it. */
    var cache: map<string, Output<G, R, D>>
    /** The options of the call that filled each cache entry. */
    ghost var requests: map<string, Request>
    /** The sources `getShapefile` was actually run for, in order. */
    ghost var calls: seq<Base>

    /** Every cached result is what `getShapefile` resolved to for that URL,
        under the options of the call that cached it. */
    ghost predicate Valid()
      reads this
    {
      && cache.Keys == requests.Keys
      && forall u :: u in cache ==>
           Shapefile(Url(u), requests[u].whiteList, requests[u].epsg, tables, env) == Success(cache[u])
    }

    constructor (env: Collaborators<G, R, D>, tables: Tables)
      ensures Valid()
      ensures this.env == env && this.tables == tables
      ensures cache == map[] && calls == []
    {
      this.env := env;
      this.tables := tables;
      cache := map[];
      requests := map[];
      calls := [];
    }

    /** `shp({base, whiteList, epsg})`. A URL already in the cache is answered
        from it, without running `getShapefile`, whatever the options; otherwise
        `getShapefile` runs, and a successful result for a URL is cached. A
        non-string source never touches the cache. */
    method Shp(base: Base, whiteList: Option<seq<string>>, epsg: Option<Wkid>) returns (r: Result<Output<G, R, D>, Error>)
      requires Valid() && WellFormedBase(base)
      modifies this
      ensures Valid()
      ensures base.Url? && base.url in old(cache) ==>
                && r == Success(old(cache)[base.url])
                && r == Shapefile(base, old(requests)[base.url].whiteList, old(requests)[base.url].epsg, tables, env)
                && cache == old(cache) && requests == old(requests) && calls == old(calls)
      ensures !(base.Url? && base.url in old(cache)) ==>
                && r == Shapefile(base, whiteList, epsg, tables, env)
                && calls == old(calls) + [base]
                && cache == (if base.Url? && r.Success? then old(cache)[base.url := r.value] else old(cache))
    {
      if base.Url? && base.url in cache {
        return Success(cache[base.url]);
      }
      r := GetShapefile(base, whiteList, epsg, tables, env);
      calls := calls + [base];
      if base.Url? && r.Success? {
        cache := cache[base.url := r.value];
        requests := requests[base.url := Request(whiteList, epsg)];
      }
    }
  }

  /** Asking twice for the same URL: when the first call succeeds, the second
      returns the same result and `getShapefile` runs only once. */
  method ShpTwice<G, R, D>(loader: Loader<G, R, D>, url: string, whiteList: Option<seq<string>>, epsg: Option<Wkid>)
    returns (first: Result<Output<G, R, D>, Error>, second: Result<Output<G, R, D>, Error>)
    requires loader.Valid() && url !in loader.cache
    modifies loader
    ensures loader.Valid()
    ensures first == Shapefile(Url(url), whiteList, epsg, loader.tables, loader.env)
    ensures first.Success? ==> second == first && loader.calls == old(loader.calls) + [Url(url)]
    ensures first.Failure? ==> second == first && loader.calls == old(loader.calls) + [Url(url), Url(url)]
  {
    first := loader.Shp(Url(url), whiteList, epsg);
    second := loader.Shp(Url(url), whiteList, epsg);
  }
}
