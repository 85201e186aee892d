/**
 * The Exif GPS encoding of one decimal-degree coordinate (`to_deg` in app.py):
 * three RATIONALs (degrees/1, minutes/1, seconds*10000/10000) and a reference
 * letter, as GPSLatitude/GPSLatitudeRef and GPSLongitude/GPSLongitudeRef are
 * laid out in section 4.6.6 of Exif 2.3 (CIPA DC-008).
 *
 * The arithmetic is exact (`real`); Python's `int()` of a non-negative float
 * truncates, which is `Floor` here.
 */
module Coordinates {
  import opened Wrappers

  /** An Exif RATIONAL: numerator over denominator. */
  datatype Rational = Rational(num: int, den: int)

  /** The `loc` argument of `to_deg`: the letter for values >= 0, then the one for values < 0. */
  datatype HemispherePair = HemispherePair(positive: string, negative: string)

  const LatitudeRefs := HemispherePair("N", "S")
  const LongitudeRefs := HemispherePair("E", "W")

  /** Denominator of the seconds rational. */
  const SecondsScale := 10000

  /** Degrees, minutes, seconds and the reference letter, in the order `to_deg` returns them. */
  datatype GpsAngle = GpsAngle(degrees: Rational, minutes: Rational, seconds: Rational, ref: string)

  /** 1/10000 of an arc second, in degrees: what the truncated seconds may lose. */
  const Precision: real := 1.0 / 36000000.0

  function Abs(x: real): (r: real)
    ensures r >= 0.0 && (r == x || r == -x)
  {
    if x < 0.0 then -x else x
  }

  /** `to_deg(value, loc)`. */
  function ToDeg(value: real, loc: HemispherePair): (a: GpsAngle)
    ensures a.ref == (if value < 0.0 then loc.negative else loc.positive)
    ensures a.degrees.den == 1 && a.degrees.num >= 0
    ensures a.degrees.num as real <= Abs(value) < a.degrees.num as real + 1.0
    ensures a.minutes.den == 1 && 0 <= a.minutes.num < 60
    ensures a.seconds.den == SecondsScale && 0 <= a.seconds.num < 60 * SecondsScale
  {
    var ref := if value < 0.0 then loc.negative else loc.positive;
    var absValue := Abs(value);
    var deg := absValue.Floor;
    var t1 := (absValue - deg as real) * 60.0;
    var min := t1.Floor;
    // round(x, 10000) keeps every digit of x, so only the truncation below loses precision
    var sec := (t1 - min as real) * 60.0;
    GpsAngle(Rational(deg, 1), Rational(min, 1), Rational((sec * SecondsScale as real).Floor, SecondsScale), ref)
  }

  predicate HasDenominators(a: GpsAngle) {
    a.degrees.den != 0 && a.minutes.den != 0 && a.seconds.den != 0
  }

  function Quotient(q: Rational): real
    requires q.den != 0
  {
    q.num as real / q.den as real
  }

  /** The unsigned value in degrees that a degrees/minutes/seconds triple stands for. */
  function Magnitude(a: GpsAngle): real
    requires HasDenominators(a)
  {
    Quotient(a.degrees) + Quotient(a.minutes) / 60.0 + Quotient(a.seconds) / 3600.0
  }

  /**
   * The inverse a reader of the tags applies: the magnitude, negated for the
   * negative reference letter; no value for a zero denominator or a letter of
   * neither hemisphere.
   */
  function ToDecimal(a: GpsAngle, loc: HemispherePair): (r: Option<real>)
    ensures r.Some? <==> HasDenominators(a) && (a.ref == loc.positive || a.ref == loc.negative)
    ensures r.Some? && a.ref == loc.positive ==> r.value == Magnitude(a)
    ensures r.Some? && a.ref != loc.positive ==> r.value == -Magnitude(a)
  {
    if !HasDenominators(a) then None
    else if a.ref == loc.positive then Some(Magnitude(a))
    else if a.ref == loc.negative then Some(-Magnitude(a))
    else None
  }

  /** The encoded triple never exceeds |value| and falls short of it by less than `Precision`. */
  lemma ToDegPrecision(value: real, loc: HemispherePair)
    ensures HasDenominators(ToDeg(value, loc))
    ensures Magnitude(ToDeg(value, loc)) <= Abs(value) < Magnitude(ToDeg(value, loc)) + Precision
  {
    var a := ToDeg(value, loc);
    var absValue := Abs(value);
    var deg := absValue.Floor;
    var t1 := (absValue - deg as real) * 60.0;
    var min := t1.Floor;
    var sec := (t1 - min as real) * 60.0;
    var num := (sec * 10000.0).Floor;
    assert a.seconds.num == num;
    assert Quotient(a.degrees) == deg as real;
    assert Quotient(a.minutes) == min as real;
    assert Quotient(a.seconds) == num as real / 10000.0;
    assert absValue == deg as real + min as real / 60.0 + (sec * 10000.0) / 36000000.0;
    assert num as real <= sec * 10000.0 < num as real + 1.0;
  }

  /**
   * Decoding the encoding recovers the value to within `Precision`, rounded
   * toward zero; it needs two distinct letters, as ["N","S"] and ["E","W"] are.
   */
  lemma RoundTrip(value: real, loc: HemispherePair)
    requires loc.positive != loc.negative
    ensures ToDecimal(ToDeg(value, loc), loc).Some?
    ensures value >= 0.0 ==> value - Precision < ToDecimal(ToDeg(value, loc), loc).value <= value
    ensures value < 0.0 ==> value <= ToDecimal(ToDeg(value, loc), loc).value < value + Precision
  {
    ToDegPrecision(value, loc);
  }

  /** Zero is encoded in the positive hemisphere: "N" for latitude, "E" for longitude. */
  lemma ZeroIsPositiveHemisphere()
    ensures ToDeg(0.0, LatitudeRefs).ref == "N" && ToDeg(0.0, LongitudeRefs).ref == "E"
    ensures ToDeg(0.0, LatitudeRefs) == GpsAngle(Rational(0, 1), Rational(0, 1), Rational(0, SecondsScale), "N")
  {
  }
}
