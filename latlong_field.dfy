/** The latitude/longitude field type: a value is `None` or a dict with
    numeric `lat` in [-90, 90] and numeric `long` in [-180, 180]. */
module LatLongFieldType {
  import opened Common
  import opened PyValue
  import opened SchemaBase

  const NotAPoint: Message := [Lit(" must be a dict with 'lat' and 'long'.")]
  const NotNumeric: Message := [Lit(" lat/long must be numeric.")]
  const LatitudeRange: Message := [Lit(" latitude must be between -90 and 90.")]
  const LongitudeRange: Message := [Lit(" longitude must be between -180 and 180.")]

  /** A point on the globe: both coordinates numeric and in range. */
  predicate ValidPoint(m: Dict)
  {
    && "lat" in m && "long" in m
    && IsNumber(m["lat"]) && IsNumber(m["long"])
    && -90.0 <= NumberValue(m["lat"]) <= 90.0
    && -180.0 <= NumberValue(m["long"]) <= 180.0
  }

  /** `LatLongField.validate`: shape, then types, then latitude, then
      longitude. */
  function Validate(value: Value, fd: Dict): (r: Result<(), Error>)
    ensures r.Success? <==> value.Null? || (value.Dict? && ValidPoint(value.entries))
    ensures !value.Null? && !(value.Dict? && "lat" in value.entries && "long" in value.entries) ==>
              r == Reject(fd, NotAPoint)
    ensures value.Dict? && "lat" in value.entries && "long" in value.entries
            && IsNumber(value.entries["lat"]) && IsNumber(value.entries["long"])
            && !(-90.0 <= NumberValue(value.entries["lat"]) <= 90.0) ==>
              r == Reject(fd, LatitudeRange)
    ensures value.Dict? && "lat" in value.entries && "long" in value.entries
            && !(IsNumber(value.entries["lat"]) && IsNumber(value.entries["long"])) ==>
              r == Reject(fd, NotNumeric)
    ensures value.Dict? && "lat" in value.entries && "long" in value.entries
            && IsNumber(value.entries["lat"]) && IsNumber(value.entries["long"])
            && -90.0 <= NumberValue(value.entries["lat"]) <= 90.0
            && !(-180.0 <= NumberValue(value.entries["long"]) <= 180.0) ==>
              r == Reject(fd, LongitudeRange)
  {
    if value.Null? then Success(())
    else if !(value.Dict? && "lat" in value.entries && "long" in value.entries) then Reject(fd, NotAPoint)
    else
      var lat := value.entries["lat"];
      var long := value.entries["long"];
      if !IsNumber(lat) || !IsNumber(long) then Reject(fd, NotNumeric)
      else if !(-90.0 <= NumberValue(lat) <= 90.0) then Reject(fd, LatitudeRange)
      else if !(-180.0 <= NumberValue(long) <= 180.0) then Reject(fd, LongitudeRange)
      else Success(())
  }

  /** The range ends are included, a bool counts as the number 0 or 1, and a
      point out of range in both coordinates is reported for its latitude. */
  lemma ValidateExamples(fd: Dict)
    requires "name" in fd
    ensures Validate(Dict(map["lat" := Int(90), "long" := Float(-180.0)]), fd).Success?
    ensures Validate(Dict(map["lat" := Bool(true), "long" := Int(0)]), fd).Success?
    ensures Validate(Dict(map["lat" := Int(91), "long" := Int(200)]), fd) == Reject(fd, LatitudeRange)
    ensures Validate(Dict(map["lat" := Str("1"), "long" := Int(0)]), fd) == Reject(fd, NotNumeric)
  {
    var p := map["lat" := Int(91), "long" := Int(200)];
    assert p["lat"] == Int(91) && p["long"] == Int(200);
    var q := map["lat" := Str("1"), "long" := Int(0)];
    assert q["lat"] == Str("1");
  }
}
