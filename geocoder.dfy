/** Interpretation of the geocoding service's decoded reply
    (`geocode_address`), including the postal-city heuristic. */
module Geocoder {
  import opened Wrappers
  import opened Text

  /** A candidate's `location`; a JSON null coordinate reads as None. */
  datatype Location = Location(x: Option<real>, y: Option<real>)

  /** One match; `address` is None when the field is absent. */
  datatype Candidate = Candidate(location: Location, address: Option<string>)

  /** The decoded reply; `candidates` is None when the field is absent or null. */
  datatype GeocodeBody = GeocodeBody(candidates: Option<seq<Candidate>>)

  /** What `geocode_address` returns: latitude, longitude, postal city. */
  datatype Geocode = Geocode(lat: Option<real>, lon: Option<real>, postalCity: Option<string>)

  /** The mailing city: the second comma-separated segment of the matched
      address, stripped; None when the address has no comma. */
  function PostalCity(matchedAddress: string): (city: Option<string>)
    ensures city.None? <==> ',' !in matchedAddress
    ensures city.Some? ==> ',' !in city.value && Trimmed(city.value)
  {
    if ',' in matchedAddress then
      var segment := Split(matchedAddress, ',')[1];
      assert ',' !in segment;
      assert ',' !in Strip(segment) by {
        if ',' in Strip(segment) {
          StripOnlyRemoves(segment, ',');
        }
      }
      Some(Strip(segment))
    else None
  }

  /** The reply holds no candidate (field absent, null or an empty list). */
  predicate NoCandidates(body: GeocodeBody) {
    body.candidates.None? || body.candidates.value == []
  }

  /** geocode_address after the HTTP round trip: only the first candidate is
      used; latitude comes from `location.y`, longitude from `location.x`, and a
      missing `address` reads as "". */
  function InterpretGeocode(body: GeocodeBody): (g: Geocode)
    ensures NoCandidates(body) ==> g == Geocode(None, None, None)
    ensures !NoCandidates(body) ==>
              var c := body.candidates.value[0];
              && g.lat == c.location.y && g.lon == c.location.x
              && (g.postalCity.Some? <==> c.address.Some? && ',' in c.address.value)
    ensures !NoCandidates(body) && body.candidates.value[0].address.Some? ==>
              g.postalCity == PostalCity(body.candidates.value[0].address.value)
  {
    if NoCandidates(body) then Geocode(None, None, None)
    else
      var c := body.candidates.value[0];
      Geocode(c.location.y, c.location.x, PostalCity(c.address.GetOr("")))
  }

  /** The first piece of `x + y` is `x` when `x` holds no separator and `y`
      is empty or starts with one. */
  lemma FirstPiece(x: string, y: string, sep: char)
    requires sep !in x
    requires y == [] || y[0] == sep
    ensures Split(x + y, sep)[0] == x
  {
    IndexOfAfter(x, y, sep);
    assert IndexOf(x + y, sep) == |x|;
    assert (x + y)[..|x|] == x;
  }

  /** The postal city is the text between the first comma and the next comma
      (or the end), stripped. */
  lemma PostalCityIsSecondSegment(head: string, segment: string, tail: string)
    requires ',' !in head && ',' !in segment
    requires tail == [] || tail[0] == ','
    ensures PostalCity(head + [','] + segment + tail) == Some(Strip(segment))
  {
    var rest := segment + tail;
    var a := head + ([','] + rest);
    assert a == head + [','] + segment + tail;
    FirstPiece(head, [','] + rest, ',');
    assert IndexOf(a, ',') == |head|;
    assert a[|head| + 1..] == rest;
    var parts := Split(a, ',');
    assert parts == [a[..|head|]] + Split(rest, ',');
    FirstPiece(segment, tail, ',');
    assert parts[1] == segment;
  }

  /** A candidate without an `address` field has no postal city. */
  lemma MissingAddressHasNoPostalCity(loc: Location, others: seq<Candidate>)
    ensures InterpretGeocode(GeocodeBody(Some([Candidate(loc, None)] + others))).postalCity == None
  {
  }

  /** Only the first candidate is consulted, with its y as the latitude and
      its x as the longitude. */
  lemma OnlyFirstCandidateUsed(c: Candidate, others: seq<Candidate>)
    ensures InterpretGeocode(GeocodeBody(Some([c] + others))) == InterpretGeocode(GeocodeBody(Some([c])))
    ensures InterpretGeocode(GeocodeBody(Some([c]))).lat == c.location.y
    ensures InterpretGeocode(GeocodeBody(Some([c]))).lon == c.location.x
  {
  }
}
