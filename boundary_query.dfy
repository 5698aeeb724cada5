/** Interpretation of a polygon layer's decoded query reply
    (`query_polygon_layer_point`). */
module BoundaryQuery {
  import opened Wrappers
  import opened Attributes

  /** One returned polygon; `attributes` is None when the field is null. */
  datatype Feature = Feature(attributes: Option<Record>)

  /** The decoded reply; `features` is None when the field is absent or null. */
  datatype QueryBody = QueryBody(features: Option<seq<Feature>>)

  /** The attributes of the first returned polygon, or None when no polygon
      came back. */
  function FirstFeatureAttributes(body: QueryBody): (attrs: Option<Record>)
    ensures attrs.Some? ==> body.features.Some? && |body.features.value| > 0
  {
    var feats := body.features.GetOr([]);
    if feats != [] then feats[0].attributes else None
  }

  /** Absent, null or empty feature lists all mean "no containing polygon". */
  lemma NoFeaturesNoMatch(body: QueryBody)
    requires body.features.None? || body.features == Some([])
    ensures FirstFeatureAttributes(body) == None
  {
  }

  /** A point inside several polygons is resolved by the first one alone. */
  lemma OnlyFirstFeatureUsed(f: Feature, others: seq<Feature>)
    ensures FirstFeatureAttributes(QueryBody(Some([f] + others))) == f.attributes
  {
  }
}
