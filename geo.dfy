/** `is_latitude` and `is_longitude`: inclusive range checks on coordinates. */
module Geo {
  import opened Common

  /** `is_latitude`: raises TypeError on a non-number, otherwise says whether
      the value lies in [-90, 90], both ends included. */
  function IsLatitude(v: Value): (r: Result<bool>)
    ensures r.Failure? <==> v.NotNumber?
    ensures r.Failure? ==> r.error == NotNumeric
    ensures r == Success(true) <==> v.Number? && -90.0 <= v.x <= 90.0
  {
    if !v.Number? then Failure(NotNumeric)
    else Success(-90.0 <= v.x && v.x <= 90.0)
  }

  /** `is_longitude`: raises TypeError on a non-number, otherwise says whether
      the value lies in [-180, 180], both ends included. */
  function IsLongitude(v: Value): (r: Result<bool>)
    ensures r.Failure? <==> v.NotNumber?
    ensures r.Failure? ==> r.error == NotNumeric
    ensures r == Success(true) <==> v.Number? && -180.0 <= v.x <= 180.0
  {
    if !v.Number? then Failure(NotNumeric)
    else Success(-180.0 <= v.x && v.x <= 180.0)
  }

  /** The latitude checks the source runs under `__main__`. */
  lemma LatitudeChecks()
    ensures IsLatitude(Number(45.678)) == Success(true)
    ensures IsLatitude(Number(-90.0)) == Success(true)
    ensures IsLatitude(Number(90.0)) == Success(true)
    ensures IsLatitude(Number(91.0)) == Success(false)
    ensures IsLatitude(NotNumber) == Failure(NotNumeric)
  {
  }

  /** The longitude checks the source runs under `__main__`. */
  lemma LongitudeChecks()
    ensures IsLongitude(Number(45.678)) == Success(true)
    ensures IsLongitude(Number(-180.0)) == Success(true)
    ensures IsLongitude(Number(180.0)) == Success(true)
    ensures IsLongitude(Number(181.0)) == Success(false)
    ensures IsLongitude(NotNumber) == Failure(NotNumeric)
  {
  }
}
