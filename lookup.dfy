/** The lookup orchestrator `get_city_county`: geocode, project, query the
    county layer, query the city layer, reconcile the names. The remote
    services are parameters; the method reports every request it issued. */
module Lookup {
  import opened Wrappers
  import opened Attributes
  import opened Geocoder
  import opened Projection
  import opened BoundaryQuery

  datatype Layer = CountyLayer | CityLayer

  /** A request sent to a remote service. */
  datatype Request =
    | GeocodeRequest(address: string)
    | BoundaryRequest(layer: Layer, x: real, y: real, outFields: string)

  /** The record handed back to the user interface. */
  datatype LookupResult = LookupResult(
    address: string,
    latitude: real,
    longitude: real,
    postalCity: Option<string>,
    county: Option<Value>,
    city: Value)

  /** Resolved; not geocoded (returned as None); or a transport error raised
      by the named request. */
  datatype Outcome = Resolved(result: LookupResult) | NotGeocoded | Raised(failed: Request)

  /** Candidate county fields, primary first. */
  const CountyFields: seq<string> := ["County", "POLYGON_NM"]

  /** Candidate city fields. */
  const CityFields: seq<string> := ["NAME"]

  const CountyOutFields: string := "County,POLYGON_NM"

  const CityOutFields: string := "NAME"

  /** The label for a point inside no incorporated city. */
  const Unincorporated: string := "Unincorporated"

  /** Python truthiness of a coordinate: not None and not zero. */
  predicate Truthy(c: Option<real>) {
    c.Some? && c.value != 0.0
  }

  /** The geocoder produced a usable point (`not lat or not lon` is false). */
  predicate Located(g: Geocode) {
    Truthy(g.lat) && Truthy(g.lon)
  }

  /** The boundary request for `layer` at the projection of a located point. */
  function QueryAt(g: Geocode, layer: Layer, mercatorY: real -> real): Request
    requires Located(g)
  {
    var (x, y) := ToWebMercator(g.lat.value, g.lon.value, mercatorY);
    BoundaryRequest(layer, x, y, if layer == CountyLayer then CountyOutFields else CityOutFields)
  }

  /** get_city_county. `geocoder` and `boundary` answer the requests;
      `mercatorY` is the projection's y formula. */
  method GetCityCounty(address: string, geocoder: string -> Reply<GeocodeBody>,
                       boundary: Request -> Reply<QueryBody>, mercatorY: real -> real)
    returns (outcome: Outcome, issued: seq<Request>)
    // The geocoder is always asked first, and at most three requests go out.
    ensures 1 <= |issued| <= 3 && issued[0] == GeocodeRequest(address)
    // A raised transport error comes from the last request issued.
    ensures outcome.Raised? ==> outcome.failed == issued[|issued| - 1]
    ensures outcome == Raised(GeocodeRequest(address)) <==> geocoder(address).TransportError?
    // Not geocoded exactly when the geocoder answered without a usable point.
    ensures outcome == NotGeocoded <==>
              geocoder(address).Received? && !Located(InterpretGeocode(geocoder(address).body))
    // A null or zero latitude or longitude stops the lookup after the geocoder.
    ensures geocoder(address).Received? &&
            (InterpretGeocode(geocoder(address).body).lat in {None, Some(0.0)} ||
             InterpretGeocode(geocoder(address).body).lon in {None, Some(0.0)}) ==>
              outcome == NotGeocoded && |issued| == 1
    // No boundary query is issued unless the point is usable; then the county
    // layer is queried first and the city layer second, at the same point.
    ensures |issued| > 1 <==>
              geocoder(address).Received? && Located(InterpretGeocode(geocoder(address).body))
    ensures |issued| > 1 ==>
              var g := InterpretGeocode(geocoder(address).body);
              && issued[1] == QueryAt(g, CountyLayer, mercatorY)
              && (|issued| > 2 <==> boundary(issued[1]).Received?)
              && (|issued| > 2 ==> issued[2] == QueryAt(g, CityLayer, mercatorY))
    // Resolved exactly when all three requests succeeded and the point was
    // usable; the result echoes the geocode and reconciles the two layers.
    ensures outcome.Resolved? <==> |issued| == 3 && boundary(issued[2]).Received?
    ensures outcome.Resolved? ==>
              var g := InterpretGeocode(geocoder(address).body);
              var countyAttrs := FirstFeatureAttributes(boundary(issued[1]).body);
              var cityName := Reconcile(FirstFeatureAttributes(boundary(issued[2]).body), CityFields);
              var r := outcome.result;
              && r.address == address
              && Some(r.latitude) == g.lat && Some(r.longitude) == g.lon
              && r.postalCity == g.postalCity
              && r.county == Reconcile(countyAttrs, CountyFields)
              && (cityName.None? ==> r.city == Str(Unincorporated))
              && (cityName.Some? ==> r.city == cityName.value)
  {
    var geoRequest := GeocodeRequest(address);
    issued := [geoRequest];
    var geoReply := geocoder(address);
    if geoReply.TransportError? {
      return Raised(geoRequest), issued;
    }
    var g := InterpretGeocode(geoReply.body);
    if !Truthy(g.lat) || !Truthy(g.lon) {
      return NotGeocoded, issued;
    }
    var lat, lon := g.lat.value, g.lon.value;
    var (x, y) := ToWebMercator(lat, lon, mercatorY);

    var countyRequest := BoundaryRequest(CountyLayer, x, y, CountyOutFields);
    issued := issued + [countyRequest];
    var countyReply := boundary(countyRequest);
    if countyReply.TransportError? {
      return Raised(countyRequest), issued;
    }
    var countyAttrs := FirstFeatureAttributes(countyReply.body);
    var countyName := ExtractFirst(countyAttrs, CountyFields);

    var cityRequest := BoundaryRequest(CityLayer, x, y, CityOutFields);
    issued := issued + [cityRequest];
    var cityReply := boundary(cityRequest);
    if cityReply.TransportError? {
      return Raised(cityRequest), issued;
    }
    var cityAttrs := FirstFeatureAttributes(cityReply.body);
    var cityName := ExtractFirst(cityAttrs, CityFields);

    var cityLabel;
    if cityName.None? {
      cityLabel := Str(Unincorporated);
    } else {
      cityLabel := cityName.value;
    }
    outcome := Resolved(LookupResult(address, lat, lon, g.postalCity, countyName, cityLabel));
  }
}
