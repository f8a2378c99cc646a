/** `shp.combine`: pairs decoded geometries with attribute records, by position,
    into a GeoJSON FeatureCollection. */
module Features {
  import opened Wrappers
  import opened Interop

  /** A GeoJSON feature; `properties` is None where the source reads past the
      end of the attribute list and gets `undefined`. */
  datatype Feature<G, R> = Feature(typ: string, geometry: G, properties: Option<R>)

  datatype FeatureCollection<G, R> = FeatureCollection(typ: string, features: seq<Feature<G, R>>)

  /** `arr[1][i]` for an attribute list that is present: `undefined` past its end. */
  function PropertyAt<R>(attrs: seq<R>, i: nat): Option<R> {
    if i < |attrs| then Some(attrs[i]) else None
  }

  /** The collection `combine([geoms, attrs])` builds. The attribute list is
      absent (`undefined`) when the layer has no `.dbf`; reading `arr[1][0]`
      then throws unless there is no geometry at all. */
  function Combined<G, R>(geoms: seq<G>, attrs: Option<seq<R>>): Result<FeatureCollection<G, R>, Error> {
    if attrs.None? then
      if |geoms| == 0 then Success(FeatureCollection("FeatureCollection", []))
      else Failure(TypeError("reading a property of an undefined attribute list"))
    else
      Success(FeatureCollection("FeatureCollection",
        seq(|geoms|, i requires 0 <= i < |geoms| => Feature("Feature", geoms[i], PropertyAt(attrs.value, i)))))
  }

  /** `shp.combine`: one feature per geometry, in order, whatever the number of
      attribute records (the loop bound is the geometry count alone). */
  method Combine<G, R>(geoms: seq<G>, attrs: Option<seq<R>>) returns (r: Result<FeatureCollection<G, R>, Error>)
    ensures r == Combined(geoms, attrs)
    ensures r.Failure? <==> attrs.None? && |geoms| > 0
    ensures r.Success? ==> r.value.typ == "FeatureCollection" && |r.value.features| == |geoms|
    ensures r.Success? ==> forall i :: 0 <= i < |geoms| ==>
              && r.value.features[i].typ == "Feature"
              && r.value.features[i].geometry == geoms[i]
              && r.value.features[i].properties == PropertyAt(attrs.value, i)
  {
    var features: seq<Feature<G, R>> := [];
    var i := 0;
    var len := |geoms|;
    while i < len
      invariant 0 <= i <= len
      invariant attrs.None? ==> i == 0
      invariant |features| == i
      invariant forall k :: 0 <= k < i ==> features[k] == Feature("Feature", geoms[k], PropertyAt(attrs.value, k))
    {
      if attrs.None? {
        return Failure(TypeError("reading a property of an undefined attribute list"));
      }
      features := features + [Feature("Feature", geoms[i], PropertyAt(attrs.value, i))];
      i := i + 1;
    }
    if attrs.Some? {
      assert features == seq(len, k requires 0 <= k < len => Feature("Feature", geoms[k], PropertyAt(attrs.value, k)));
    }
    r := Success(FeatureCollection("FeatureCollection", features));
  }

  /** The collection is not truncated to the attribute count: it has one
      feature per geometry, and every feature beyond the last record has
      `undefined` properties. */
  lemma CombinedBeyondAttributes<G, R>(geoms: seq<G>, attrs: seq<R>, i: nat)
    requires |attrs| <= i < |geoms|
    ensures Combined(geoms, Some(attrs)).Success?
    ensures |Combined(geoms, Some(attrs)).value.features| == |geoms|
    ensures Combined(geoms, Some(attrs)).value.features[i].properties.None?
  {
  }
}
