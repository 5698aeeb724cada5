# California city/county lookup — verified model of the lookup pipeline

The repository resolves a free-text California address into coordinates, a
county, and either the incorporated city containing it or the label
"Unincorporated". It does so in `All_CA_Streamlit.py`: it geocodes the address
with a remote geocoder, projects the point to Web Mercator, queries a county
polygon layer and a city polygon layer at that point, and picks the name out of
each matched polygon's attributes.

This project models the deterministic logic of that pipeline in Dafny. The
HTTP replies are treated as already-decoded input data.

- `wrappers.dfy`, module `Wrappers`: `Option` (Python's None) and `Reply`. A
  `Reply` is either a decoded body or a transport error, which is what
  `raise_for_status` or a timeout raises.
- `attributes.dfy`, module `Attributes`: attribute values and records.
  - `extract_first` is the loop method `ExtractFirst`, proved equal to the
    recursive specification `FirstUsable`.
  - Lemmas characterise `FirstUsable`: the earliest usable key wins, nothing
    is found exactly when no key is usable, later keys are never consulted,
    and only the candidate fields are read.
- `text.dfy`, module `Text`: Python's `str.split` and `str.strip()`.
  - `split` comes with its inverse `Join` and a round-trip lemma.
  - `strip` comes with a characterisation that fixes its result uniquely.
- `geocoder.dfy`, module `Geocoder`: the geocoder reply (candidate list,
  location, matched address) and the postal-city heuristic.
- `projection.dfy`, module `Projection`: the latitude clamp and the x formula
  of `wgs84_to_web_mercator`. The y formula (log and tan) is a caller-supplied
  function of the clamped latitude.
- `boundary_query.dfy`, module `BoundaryQuery`: the polygon-query reply and
  the choice of its first feature.
- `lookup.dfy`, module `Lookup`: `get_city_county` as a method.
  - The two remote services are function parameters.
  - The method returns every request it issued, so the short-circuit on a
    failed geocode and the county-then-city order are part of its contract.

Three details of the code that the model keeps:
- "Blank" means exactly null, `""` or `" "` (`All_CA_Streamlit.py:71`), not
  any whitespace-only string. `"  "` and `"\t"` are returned as names
  (`Attributes.ReconcilerExamples`).
- The geocode-failure test `not lat or not lon` (`All_CA_Streamlit.py:79`)
  also rejects a latitude or longitude of exactly 0, or a null coordinate.
  `Lookup.Located` models this.
- A feature whose `attributes` is null yields no match, the same as an empty
  feature list.

## Model

| member | source | states |
|---|---|---|
| Attributes.FirstUsable | All_CA_Streamlit.py:69-73 | a value is found only if it is non-blank and stored under one of the candidate keys |
| Attributes.ExtractFirst | All_CA_Streamlit.py:65-73 | the early-exit loop returns nothing for an absent or empty record, and otherwise the value at the earliest usable candidate key |
| Attributes.Reconcile | All_CA_Streamlit.py:67-73 | an absent record yields nothing; a value found is non-blank and stored under one of the candidate keys |
| Attributes.EmptyRecordHasNoUsableField | All_CA_Streamlit.py:67-68 | an empty record yields nothing whatever the candidate keys |
| Attributes.FirstUsableIsEarliest | All_CA_Streamlit.py:69-72 | when key i is usable and no earlier key is, the result is the value at key i |
| Attributes.FirstUsableFoundAtEarliest | All_CA_Streamlit.py:69-72 | any value found sits at the earliest usable candidate |
| Attributes.FirstUsableSomeIff | All_CA_Streamlit.py:69-73 | the result is v exactly when v is the value at the earliest usable candidate |
| Attributes.FirstUsableNoneIff | All_CA_Streamlit.py:69-73 | nothing is found exactly when no candidate key is present with a non-blank value, including an empty key list |
| Attributes.LaterKeysNotConsulted | All_CA_Streamlit.py:69-72 | the keys after the first usable one can be replaced by anything without changing the result |
| Attributes.OnlyCandidateFieldsRead | All_CA_Streamlit.py:69-72 | two records that agree on the candidate keys give the same result |
| Attributes.ReconcilerExamples | All_CA_Streamlit.py:69-73 | Alameda, Kern and Placer cases; `" "` and null skipped; `"  "`, tab and 0 are real values |
| Text.IndexOf | All_CA_Streamlit.py:32 | the position returned is the first occurrence of the character, or the length when it is absent |
| Text.Split | All_CA_Streamlit.py:32 | split yields at least one piece, no piece holds the separator, and there is a single piece exactly when the separator is absent |
| Text.JoinSplit | All_CA_Streamlit.py:32 | joining the split pieces with the separator gives back the input |
| Text.LeadingSpaces | All_CA_Streamlit.py:32 | the count covers exactly the maximal whitespace prefix |
| Text.TrailingSpaces | All_CA_Streamlit.py:32 | the count covers exactly the maximal whitespace suffix |
| Text.Strip | All_CA_Streamlit.py:32 | strip's result has no whitespace at either end and is the input with only whitespace removed at the ends |
| Text.StripIsUnique | All_CA_Streamlit.py:32 | any trimmed string obtained by removing only end whitespace equals strip's result |
| Text.StripTrimmed | All_CA_Streamlit.py:32 | strip leaves an already-trimmed string unchanged, so stripping is idempotent |
| Text.StripOnlyRemoves | All_CA_Streamlit.py:32 | every character of the stripped string occurs in the input |
| Geocoder.PostalCity | All_CA_Streamlit.py:32 | the postal city is the stripped second comma-separated segment; it is absent exactly when the matched address has no comma, and when present it holds no comma and no surrounding whitespace |
| Geocoder.PostalCityIsSecondSegment | All_CA_Streamlit.py:32 | for head + "," + segment + tail, with no comma in head or segment and tail empty or starting with a comma, the postal city is the stripped segment |
| Geocoder.MissingAddressHasNoPostalCity | All_CA_Streamlit.py:31-32 | a first candidate without an address field gives no postal city |
| Geocoder.InterpretGeocode | All_CA_Streamlit.py:27-33 | an absent, null or empty candidate list gives (None, None, None); otherwise the first candidate gives latitude location.y, longitude location.x, and a postal city exactly when its address is present and holds a comma, namely PostalCity of that address |
| Geocoder.OnlyFirstCandidateUsed | All_CA_Streamlit.py:29-33 | candidates after the first are ignored; the latitude is location.y and the longitude is location.x |
| Projection.ClampLatitude | All_CA_Streamlit.py:38-39 | the clamped latitude lies in [-85.05112878, 85.05112878], equals the input inside the band, and equals the nearer edge outside it |
| Projection.ClampIdempotent | All_CA_Streamlit.py:39 | clamping an already clamped latitude changes nothing |
| Projection.ClampMonotone | All_CA_Streamlit.py:39 | clamping preserves the order of latitudes |
| Projection.ProjectX | All_CA_Streamlit.py:40-41 | x is zero exactly at longitude 0, has the sign of the longitude, and stays within ±20037508.342789244 for longitudes in [-180, 180] |
| Projection.ProjectXFacts | All_CA_Streamlit.py:40-41 | x is linear and monotone in the longitude; 0 maps to 0 and ±180 to ±20037508.342789244; longitudes in [-180, 180] stay within that width |
| Projection.ToWebMercator | All_CA_Streamlit.py:36-43 | x is ProjectX(lon), within the world width for longitudes in [-180, 180]; y is the y formula at the latitude itself inside the band and at the nearer band edge outside it |
| Projection.ProjectionSeesClampedLatitude | All_CA_Streamlit.py:38-43 | the projected point depends on the latitude only through its clamp, so out-of-band latitudes project as the band edge |
| BoundaryQuery.FirstFeatureAttributes | All_CA_Streamlit.py:61-62 | attributes are returned only when the feature list is present and non-empty |
| BoundaryQuery.NoFeaturesNoMatch | All_CA_Streamlit.py:61-62 | an absent, null or empty feature list means no match |
| BoundaryQuery.OnlyFirstFeatureUsed | All_CA_Streamlit.py:62 | with several features only the first one's attributes are returned |
| Lookup.GetCityCounty | All_CA_Streamlit.py:76-106 | no boundary query unless the geocoded latitude and longitude are both non-null and non-zero (`Located`, built from `Truthy`, stands for `not lat or not lon`); otherwise county then city at one point; the result echoes the geocode, reconciles the county, and labels a missing city "Unincorporated" (details below) |

`Lookup.GetCityCounty` states the following:
- The geocoder is asked first, and at most three requests are issued.
- No boundary query is issued unless the geocoded latitude and longitude are
  both non-null and non-zero; otherwise the result is "not geocoded".
- When the point is usable, the county layer is queried before the city
  layer, at the same projected point.
- A transport error stops the pipeline at the failing request.
- On success the result echoes the address, latitude, longitude and postal
  city.
- The county is the reconciled `County`/`POLYGON_NM` value.
- The city is the reconciled `NAME`, or "Unincorporated" when there is none.

## Left out

- HTTP transport is not modelled: the request parameters, the 15-second
  timeout and JSON decoding are absent. Each reply is an input value, and any
  transport failure is the single outcome `TransportError`.
- The endpoint URLs are not modelled; requests name a layer (county or city)
  instead of a URL.
- The query geometry string and the fixed request fields (`f`, `where`,
  `geometryType`, `inSR`, `spatialRel`, `returnGeometry`, `maxLocations`,
  `outFields` of the geocoder) are not modelled. They are serialisation
  details of a foreign API.
- Projection.ToWebMercator: the y formula `log(tan(...))` is transcendental.
  It is a parameter `mercatorY` of the clamped latitude, so the model does not
  state that latitude 0 maps to y = 0.
- Floating point is not modelled: coordinates are exact reals, so rounding,
  NaN and negative zero are absent.
- Replies missing a key the code indexes directly are not modelled. This
  covers a candidate without `location`, a location without `x` or `y`, and a
  feature without `attributes`, each of which raises KeyError in the code.
  The types make these keys present. A null `x`, `y` or `attributes` is
  modelled, as None.
- A null `location` is not modelled: `loc["y"]` raises TypeError in the code.
  `Candidate.location` is always a `Location`.
- A null element of the candidate list is not modelled: `None["location"]`
  raises TypeError in the code. `GeocodeBody` holds candidates only.
- A null element of the feature list is not modelled: `None["attributes"]`
  raises TypeError in the code. `QueryBody` holds features only.
- A candidate whose `address` is present but null is not modelled. It raises
  TypeError in the code; the model admits only a string or an absent field.
- The Streamlit user interface is not modelled: the input box, spinner,
  result rendering, the error display that catches exceptions, and the footer
  are presentation only.
