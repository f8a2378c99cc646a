/** Spatial-reference resolution: `getPrj` (by identifier), `conversionPrj`
    (by scanning the projection table for a substring of the projection text)
    and the three-way fallback the archive classifier applies to a `.prj` member. */
module Projections {
  import opened Wrappers
  import opened Interop
  import JsString

  /** The transform name `getPrj` registers and builds for an identifier. */
  function EpsgName(w: Wkid): string {
    "EPSG:" + PropertyKey(w)
  }

  /** `epsg[wkid]`: the table's definition for an identifier, if it has one. */
  function EpsgDef(w: Wkid, tables: Tables): (def: Option<string>)
    ensures def.Some? <==> PropertyKey(w) in tables.epsg
  {
    if PropertyKey(w) in tables.epsg then Some(tables.epsg[PropertyKey(w)]) else None
  }

  /** `getPrj(wkid)`: nothing for a falsy identifier; otherwise the transform
      `proj4` builds for the name `EPSG:<wkid>` after registering the table's
      definition of that identifier under it, which throws when `proj4`
      cannot build it (for instance with no definition registered). */
  function GetPrj<G, R, D>(wkid: Option<Wkid>, tables: Tables, env: Collaborators<G, R, D>): (r: Result<Option<Proj>, Error>)
    ensures !Given(wkid) ==> r == Success(None)
    ensures Given(wkid) ==>
              (r.Success? <==> env.proj4Named(EpsgName(wkid.value), EpsgDef(wkid.value, tables)).Success?)
              && (r.Failure? ==> r.error == Foreign(env.proj4Named(EpsgName(wkid.value), EpsgDef(wkid.value, tables)).error))
              && (r.Success? ==> r.value.Some? && r.value.value == Named(EpsgName(wkid.value), EpsgDef(wkid.value, tables)))
  {
    if !Given(wkid) then Success(None)
    else
      var name, def := EpsgName(wkid.value), EpsgDef(wkid.value, tables);
      match env.proj4Named(name, def)
      case Failure(msg) => Failure(Foreign(msg))
      case Success(_) => Success(Some(Named(name, def)))
  }

  /** Distinct identifiers yield distinct transforms. */
  lemma GetPrjDistinct<G, R, D>(a: Wkid, b: Wkid, tables: Tables, env: Collaborators<G, R, D>)
    requires TruthyWkid(a) && TruthyWkid(b) && PropertyKey(a) != PropertyKey(b)
    requires GetPrj(Some(a), tables, env).Success? && GetPrj(Some(b), tables, env).Success?
    ensures GetPrj(Some(a), tables, env).value != GetPrj(Some(b), tables, env).value
  {
    var na, nb := EpsgName(a), EpsgName(b);
    assert na[5..] == PropertyKey(a) && nb[5..] == PropertyKey(b);
  }

  /** Some substring of the entry occurs in the projection text. */
  predicate Matches(text: string, e: ProjEntry) {
    exists d :: d in e.value && JsString.IndexOf(text, d) > -1
  }

  /** An entry that `conversionPrj` stops at: it matches and its identifier is
      truthy (a matching entry with a falsy identifier is recorded but does not
      end the scan, and is reported as no match unless a later entry matches). */
  predicate Hit(text: string, e: ProjEntry) {
    Matches(text, e) && TruthyWkid(e.wkid)
  }

  /** The identifier of the first entry, in table order, that `hit` accepts. */
  function FirstWkid(table: seq<ProjEntry>, hit: ProjEntry -> bool): Option<Wkid>
    decreases |table|
  {
    if table == [] then None
    else if hit(table[0]) then Some(table[0].wkid)
    else FirstWkid(table[1..], hit)
  }

  /** The scan finds nothing exactly when no entry is accepted, and otherwise
      the identifier of an accepted entry with no accepted entry before it. */
  lemma {:induction false} FirstWkidIsFirst(table: seq<ProjEntry>, hit: ProjEntry -> bool)
    ensures FirstWkid(table, hit).None? <==> forall k :: 0 <= k < |table| ==> !hit(table[k])
    ensures FirstWkid(table, hit).Some? ==>
              exists k :: 0 <= k < |table| && hit(table[k]) && table[k].wkid == FirstWkid(table, hit).value
                          && forall j :: 0 <= j < k ==> !hit(table[j])
    decreases |table|
  {
    if table != [] && !hit(table[0]) {
      var tail := table[1..];
      FirstWkidIsFirst(tail, hit);
      if FirstWkid(tail, hit).Some? {
        var k :| 0 <= k < |tail| && hit(tail[k]) && tail[k].wkid == FirstWkid(tail, hit).value
                 && forall j :: 0 <= j < k ==> !hit(tail[j]);
        assert table[k + 1] == tail[k];
        forall j | 0 <= j < k + 1 ensures !hit(table[j]) {
          if j > 0 { assert table[j] == tail[j - 1]; }
        }
      } else {
        forall k | 0 <= k < |table| ensures !hit(table[k]) {
          if k > 0 { assert table[k] == tail[k - 1]; }
        }
      }
    }
  }

  /** The identifier `conversionPrj` settles on for `text`. */
  function FirstMatch(text: string, table: seq<ProjEntry>): Option<Wkid> {
    FirstWkid(table, e => Hit(text, e))
  }

  /** The identifier found is that of the first entry, in table order, that
      matches the text with a truthy identifier, and nothing is found exactly
      when no entry does. */
  lemma FirstMatchIsFirstHit(text: string, table: seq<ProjEntry>)
    ensures FirstMatch(text, table).None? <==> forall k :: 0 <= k < |table| ==> !Hit(text, table[k])
    ensures FirstMatch(text, table).Some? ==>
              exists k :: 0 <= k < |table| && Hit(text, table[k]) && table[k].wkid == FirstMatch(text, table).value
                          && forall j :: 0 <= j < k ==> !Hit(text, table[j])
  {
    FirstWkidIsFirst(table, e => Hit(text, e));
  }

  /** What `conversionPrj(prj)` returns: nothing for a falsy value, else the
      transform of the identifier the table scan settles on, if any (whose
      construction may throw). */
  function Converted<G, R, D>(prj: Entry, tables: Tables, env: Collaborators<G, R, D>): Result<Option<Proj>, Error> {
    if !Truthy(prj) then Success(None)
    else
      match FirstMatch(ToText(prj, env), tables.projection)
      case None => Success(None)
      case Some(w) => GetPrj(Some(w), tables, env)
  }

  /** `conversionPrj` gives null exactly for a falsy value or when no entry of
      the table is a hit; otherwise it gives `getPrj` of the identifier of the
      first hit in table order. */
  lemma ConvertedIsFirstHit<G, R, D>(prj: Entry, tables: Tables, env: Collaborators<G, R, D>)
    ensures var r := Converted(prj, tables, env);
            && (r == Success(None) <==> !Truthy(prj) || forall k :: 0 <= k < |tables.projection| ==> !Hit(ToText(prj, env), tables.projection[k]))
            && (r != Success(None) ==>
                  exists k :: 0 <= k < |tables.projection| && Hit(ToText(prj, env), tables.projection[k])
                              && r == GetPrj(Some(tables.projection[k].wkid), tables, env)
                              && forall j :: 0 <= j < k ==> !Hit(ToText(prj, env), tables.projection[j]))
  {
    FirstMatchIsFirstHit(ToText(prj, env), tables.projection);
  }

  /** `conversionPrj(prj)`, with the scan over the table and the `forEach` over
      each entry's substrings written as the loops they are. */
  method ConversionPrj<G, R, D>(prj: Entry, tables: Tables, env: Collaborators<G, R, D>) returns (r: Result<Option<Proj>, Error>)
    ensures r == Converted(prj, tables, env)
  {
    if !Truthy(prj) {
      return Success(None);
    }
    var text := ToText(prj, env);
    var table := tables.projection;
    var fileWkid: Option<Wkid> := None;
    var i := 0;
    while i < |table|
      invariant 0 <= i <= |table|
      invariant !Given(fileWkid)
      invariant FirstMatch(text, table) == FirstMatch(text, table[i..])
    {
      var entry := table[i];
      ghost var before := fileWkid;
      var j := 0;
      while j < |entry.value|
        invariant 0 <= j <= |entry.value|
        invariant (exists m :: 0 <= m < j && JsString.IndexOf(text, entry.value[m]) > -1) ==> fileWkid == Some(entry.wkid)
        invariant (forall m :: 0 <= m < j ==> JsString.IndexOf(text, entry.value[m]) == -1) ==> fileWkid == before
      {
        if JsString.IndexOf(text, entry.value[j]) > -1 {
          fileWkid := Some(entry.wkid);
        }
        j := j + 1;
      }
      assert Matches(text, entry) ==> fileWkid == Some(entry.wkid);
      assert !Matches(text, entry) ==> fileWkid == before;
      if Given(fileWkid) {
        assert FirstMatch(text, table[i..]) == fileWkid;
        r := GetPrj(fileWkid, tables, env);
        return;
      }
      assert table[i..][1..] == table[i + 1..];
      i := i + 1;
    }
    r := Success(None);
  }

  /** `getPrj(epsg) || conversionPrj(content) || proj4(content)`: the first
      that yields a transform wins, and an exception thrown by any of them
      propagates. */
  function ResolvedPrj<G, R, D>(epsg: Option<Wkid>, content: Entry, tables: Tables, env: Collaborators<G, R, D>): Result<Proj, Error> {
    match GetPrj(epsg, tables, env)
    case Failure(e) => Failure(e)
    case Success(Some(p)) => Success(p)
    case Success(None) =>
      match Converted(content, tables, env)
      case Failure(e) => Failure(e)
      case Success(Some(p)) => Success(p)
      case Success(None) =>
        match env.proj4Parse(content)
        case Failure(msg) => Failure(Foreign(msg))
        case Success(_) => Success(Parsed(content))
  }

  /** The transform stored for a `.prj` member: the caller's identifier wins,
      then a table match on the member's text, then `proj4` on the member
      itself. */
  method ResolvePrj<G, R, D>(epsg: Option<Wkid>, content: Entry, tables: Tables, env: Collaborators<G, R, D>)
    returns (r: Result<Proj, Error>)
    ensures r == ResolvedPrj(epsg, content, tables, env)
    ensures Given(epsg) ==>
              (r.Success? <==> env.proj4Named(EpsgName(epsg.value), EpsgDef(epsg.value, tables)).Success?)
              && (r.Success? ==> r.value == Named(EpsgName(epsg.value), EpsgDef(epsg.value, tables)))
    ensures !Given(epsg) && Converted(content, tables, env) != Success(None) ==>
              (r.Success? <==> Converted(content, tables, env).Success?)
              && (r.Success? ==> Converted(content, tables, env) == Success(Some(r.value)))
    ensures !Given(epsg) && Converted(content, tables, env) == Success(None) ==>
              (r.Success? <==> env.proj4Parse(content).Success?)
              && (r.Success? ==> r.value == Parsed(content))
              && (r.Failure? ==> r.error == Foreign(env.proj4Parse(content).error))
  {
    var byId := GetPrj(epsg, tables, env);
    if byId.Failure? {
      return Failure(byId.error);
    }
    if byId.value.Some? {
      return Success(byId.value.value);
    }
    var byTable := ConversionPrj(content, tables, env);
    if byTable.Failure? {
      return Failure(byTable.error);
    }
    if byTable.value.Some? {
      return Success(byTable.value.value);
    }
    var parsed := env.proj4Parse(content);
    if parsed.Failure? {
      return Failure(Foreign(parsed.error));
    }
    return Success(Parsed(content));
  }
}
