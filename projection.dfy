/** WGS84 latitude/longitude to Web Mercator (`wgs84_to_web_mercator`). The
    y formula uses log and tan, so it is supplied by the caller as a function
    of the clamped latitude. */
module Projection {

  /** Latitude limit of the projection, in degrees. */
  const MaxLatitude: real := 85.05112878

  /** Half the projection's world width, in metres. */
  const OriginShift: real := 20037508.342789244

  function Min(a: real, b: real): real { if a <= b then a else b }

  function Max(a: real, b: real): real { if a >= b then a else b }

  /** The latitude pushed into [-MaxLatitude, MaxLatitude]. */
  function ClampLatitude(lat: real): (r: real)
    ensures -MaxLatitude <= r <= MaxLatitude
    ensures -MaxLatitude <= lat <= MaxLatitude ==> r == lat
    ensures lat > MaxLatitude ==> r == MaxLatitude
    ensures lat < -MaxLatitude ==> r == -MaxLatitude
  {
    Max(Min(lat, MaxLatitude), -MaxLatitude)
  }

  /** Clamping twice is clamping once. */
  lemma ClampIdempotent(lat: real)
    ensures ClampLatitude(ClampLatitude(lat)) == ClampLatitude(lat)
  {
  }

  /** Clamping never reverses the order of two latitudes. */
  lemma ClampMonotone(a: real, b: real)
    requires a <= b
    ensures ClampLatitude(a) <= ClampLatitude(b)
  {
  }

  /** The projected x of a longitude. */
  function ProjectX(lon: real): (x: real)
    ensures x == 0.0 <==> lon == 0.0
    ensures x > 0.0 <==> lon > 0.0
    ensures -180.0 <= lon <= 180.0 ==> -OriginShift <= x <= OriginShift
  {
    lon * OriginShift / 180.0
  }

  /** x is linear in the longitude: 0 maps to 0, ±180 to ±OriginShift, and
      longitudes in [-180, 180] stay within the world width. */
  lemma ProjectXFacts(lon: real, other: real)
    ensures ProjectX(0.0) == 0.0
    ensures ProjectX(180.0) == OriginShift && ProjectX(-180.0) == -OriginShift
    ensures ProjectX(lon + other) == ProjectX(lon) + ProjectX(other)
    ensures ProjectX(-lon) == -ProjectX(lon)
    ensures lon <= other ==> ProjectX(lon) <= ProjectX(other)
    ensures -180.0 <= lon <= 180.0 ==> -OriginShift <= ProjectX(lon) <= OriginShift
  {
  }

  /** The projected point; `mercatorY` stands for the formula
      ln(tan((90 + lat)·π/360))·OriginShift/π. */
  function ToWebMercator(lat: real, lon: real, mercatorY: real -> real): (p: (real, real))
    ensures p.0 == ProjectX(lon)
    ensures -180.0 <= lon <= 180.0 ==> -OriginShift <= p.0 <= OriginShift
    ensures -MaxLatitude <= lat <= MaxLatitude ==> p.1 == mercatorY(lat)
    ensures lat > MaxLatitude ==> p.1 == mercatorY(MaxLatitude)
    ensures lat < -MaxLatitude ==> p.1 == mercatorY(-MaxLatitude)
  {
    (ProjectX(lon), mercatorY(ClampLatitude(lat)))
  }

  /** A latitude beyond the band projects exactly as the band's edge does. */
  lemma ProjectionSeesClampedLatitude(lat: real, lon: real, mercatorY: real -> real)
    ensures ToWebMercator(lat, lon, mercatorY) == ToWebMercator(ClampLatitude(lat), lon, mercatorY)
    ensures lat >= MaxLatitude ==> ToWebMercator(lat, lon, mercatorY) == ToWebMercator(MaxLatitude, lon, mercatorY)
    ensures lat <= -MaxLatitude ==> ToWebMercator(lat, lon, mercatorY) == ToWebMercator(-MaxLatitude, lon, mercatorY)
  {
    ClampIdempotent(lat);
  }
}
