/**
 * The metadata record `set_image_metadata` builds (app.py:43-56) before it
 * hands it to the Exif serialiser: four IFDs keyed by tag number and an
 * absent thumbnail. The tag numbers are those of Exif 2.3.
 */
module Exif {
  import opened Wrappers
  import opened Coordinates
  import opened Calendar
  import opened TimestampFormat

  /** 0th IFD, DateTime (0x0132). */
  const TagDateTime := 306
  /** Exif IFD, DateTimeOriginal (0x9003). */
  const TagDateTimeOriginal := 36867
  /** Exif IFD, DateTimeDigitized (0x9004). */
  const TagDateTimeDigitized := 36868
  /** GPS IFD, GPSLatitudeRef, GPSLatitude, GPSLongitudeRef, GPSLongitude. */
  const TagGpsLatitudeRef := 1
  const TagGpsLatitude := 2
  const TagGpsLongitudeRef := 3
  const TagGpsLongitude := 4

  /** A tag value: an ASCII string or a list of RATIONALs. */
  datatype ExifValue = Ascii(text: string) | Rationals(values: seq<Rational>)

  /** `exif_dict`: the "0th", "Exif", "GPS" and "1st" IFDs and the thumbnail. */
  datatype ExifDict = ExifDict(
    zeroth: map<int, ExifValue>,
    exif: map<int, ExifValue>,
    gps: map<int, ExifValue>,
    first: map<int, ExifValue>,
    thumbnail: Option<seq<bv8>>)

  /** The capture time and position a record carries, as a reader recovers them. */
  datatype Metadata = Metadata(taken: Option<DateTime>, position: Option<(real, real)>)

  predicate ValidTime(t: Option<DateTime>) {
    t.Some? ==> t.value.Valid()
  }

  /** `to_deg(...)[0:3]`: the three rationals as one tag value. */
  function AngleValue(a: GpsAngle): ExifValue {
    Rationals([a.degrees, a.minutes, a.seconds])
  }

  /** The record `set_image_metadata(image_bytes, lat, lng, date_time)` hands to the serialiser. */
  function ExifFor(lat: Option<real>, lng: Option<real>, dateTime: Option<DateTime>): (d: ExifDict)
    requires ValidTime(dateTime)
    ensures d.zeroth.Keys <= {TagDateTime}
    ensures d.exif.Keys <= {TagDateTimeOriginal, TagDateTimeDigitized}
    ensures d.gps.Keys <= {TagGpsLatitudeRef, TagGpsLatitude, TagGpsLongitudeRef, TagGpsLongitude}
    ensures d.first == map[] && d.thumbnail.None?
  {
    var stamp := if dateTime.Some? then Format(dateTime.value) else "";
    var zeroth := if dateTime.Some? then map[TagDateTime := Ascii(stamp)] else map[];
    var exif := if dateTime.Some? then map[TagDateTimeOriginal := Ascii(stamp), TagDateTimeDigitized := Ascii(stamp)] else map[];
    var gps :=
      if lat.Some? && lng.Some? then
        var latDeg, lngDeg := ToDeg(lat.value, LatitudeRefs), ToDeg(lng.value, LongitudeRefs);
        map[TagGpsLatitudeRef := Ascii(latDeg.ref), TagGpsLatitude := AngleValue(latDeg),
            TagGpsLongitudeRef := Ascii(lngDeg.ref), TagGpsLongitude := AngleValue(lngDeg)]
      else map[];
    ExifDict(zeroth, exif, gps, map[], None)
  }

  /**
   * `set_image_metadata` up to `piexif.dump`: start from empty IFDs and fill
   * them in place, the timestamp tags when a date-time is given and the GPS
   * tags when both coordinates are.
   */
  method BuildExifDict(lat: Option<real>, lng: Option<real>, dateTime: Option<DateTime>) returns (d: ExifDict)
    requires ValidTime(dateTime)
    ensures d == ExifFor(lat, lng, dateTime)
  {
    d := ExifDict(map[], map[], map[], map[], None);
    if dateTime.Some? {
      var stamp := Format(dateTime.value);
      d := d.(zeroth := d.zeroth[TagDateTime := Ascii(stamp)]);
      d := d.(exif := d.exif[TagDateTimeOriginal := Ascii(stamp)]);
      d := d.(exif := d.exif[TagDateTimeDigitized := Ascii(stamp)]);
    }
    if lat.Some? && lng.Some? {
      var latDeg := ToDeg(lat.value, LatitudeRefs);
      var lngDeg := ToDeg(lng.value, LongitudeRefs);
      d := d.(gps := d.gps[TagGpsLatitudeRef := Ascii(latDeg.ref)]);
      d := d.(gps := d.gps[TagGpsLatitude := AngleValue(latDeg)]);
      d := d.(gps := d.gps[TagGpsLongitudeRef := Ascii(lngDeg.ref)]);
      d := d.(gps := d.gps[TagGpsLongitude := AngleValue(lngDeg)]);
    }
  }

  /**
   * The three timestamp tags are set together or not at all, all to the same
   * "YYYY:MM:DD HH:MM:SS" string, and no other 0th or Exif tag is set.
   */
  lemma TimestampTags(lat: Option<real>, lng: Option<real>, dateTime: Option<DateTime>)
    requires ValidTime(dateTime)
    ensures var d := ExifFor(lat, lng, dateTime);
      (dateTime.None? ==> d.zeroth == map[] && d.exif == map[]) &&
      (dateTime.Some? ==>
        d.zeroth.Keys == {TagDateTime} &&
        d.exif.Keys == {TagDateTimeOriginal, TagDateTimeDigitized} &&
        d.zeroth[TagDateTime] == d.exif[TagDateTimeOriginal] == d.exif[TagDateTimeDigitized] &&
        d.zeroth[TagDateTime].Ascii? && WellShaped(d.zeroth[TagDateTime].text))
  {
  }

  /**
   * The GPS IFD holds the four tags exactly when both coordinates are given,
   * and is empty otherwise; the references are drawn from ["N","S"] and
   * ["E","W"] by the sign of each coordinate.
   */
  lemma GpsTags(lat: Option<real>, lng: Option<real>, dateTime: Option<DateTime>)
    requires ValidTime(dateTime)
    ensures var d := ExifFor(lat, lng, dateTime);
      (d.gps != map[] <==> lat.Some? && lng.Some?) &&
      (lat.Some? && lng.Some? ==>
        d.gps.Keys == {TagGpsLatitudeRef, TagGpsLatitude, TagGpsLongitudeRef, TagGpsLongitude} &&
        d.gps[TagGpsLatitudeRef] == Ascii(if lat.value < 0.0 then "S" else "N") &&
        d.gps[TagGpsLongitudeRef] == Ascii(if lng.value < 0.0 then "W" else "E") &&
        d.gps[TagGpsLatitude] == AngleValue(ToDeg(lat.value, LatitudeRefs)) &&
        d.gps[TagGpsLongitude] == AngleValue(ToDeg(lng.value, LongitudeRefs)))
  {
    var d := ExifFor(lat, lng, dateTime);
    if lat.Some? && lng.Some? {
      assert TagGpsLatitudeRef in d.gps;
    }
  }

  /** The coordinate a reader takes from one reference tag and one triple tag. */
  function ReadCoordinate(gps: map<int, ExifValue>, refTag: int, angleTag: int, loc: HemispherePair): Option<real> {
    if refTag in gps && angleTag in gps && gps[refTag].Ascii? && gps[angleTag].Rationals? &&
       |gps[angleTag].values| == 3
    then
      var v := gps[angleTag].values;
      ToDecimal(GpsAngle(v[0], v[1], v[2], gps[refTag].text), loc)
    else None
  }

  /**
   * What a reader of the record recovers: the DateTimeOriginal string parsed,
   * and both coordinates when both are readable. A missing or malformed part
   * gives nothing rather than an error.
   */
  function ReadMetadata(d: ExifDict): (m: Metadata)
    ensures m.taken.Some? ==> TagDateTimeOriginal in d.exif && m.taken.value.Valid()
    ensures m.position.Some? ==> d.gps.Keys >= {TagGpsLatitudeRef, TagGpsLatitude, TagGpsLongitudeRef, TagGpsLongitude}
  {
    var taken :=
      if TagDateTimeOriginal in d.exif && d.exif[TagDateTimeOriginal].Ascii?
      then Parse(d.exif[TagDateTimeOriginal].text) else None;
    var lat := ReadCoordinate(d.gps, TagGpsLatitudeRef, TagGpsLatitude, LatitudeRefs);
    var lng := ReadCoordinate(d.gps, TagGpsLongitudeRef, TagGpsLongitude, LongitudeRefs);
    Metadata(taken, if lat.Some? && lng.Some? then Some((lat.value, lng.value)) else None)
  }

  /** `x` approximates `v` as the encoding does: toward zero, by less than `Precision`. */
  predicate Approximates(x: real, v: real) {
    if v >= 0.0 then v - Precision < x <= v else v <= x < v + Precision
  }

  /** A triple written by `to_deg` reads back as an approximation of the value encoded. */
  lemma ReadCoordinateOfEncoding(gps: map<int, ExifValue>, refTag: int, angleTag: int, value: real, loc: HemispherePair)
    requires loc.positive != loc.negative
    requires refTag in gps && gps[refTag] == Ascii(ToDeg(value, loc).ref)
    requires angleTag in gps && gps[angleTag] == AngleValue(ToDeg(value, loc))
    ensures ReadCoordinate(gps, refTag, angleTag, loc).Some?
    ensures Approximates(ReadCoordinate(gps, refTag, angleTag, loc).value, value)
  {
    var a := ToDeg(value, loc);
    var v := gps[angleTag].values;
    assert GpsAngle(v[0], v[1], v[2], gps[refTag].text) == a;
    RoundTrip(value, loc);
  }

  /** The DateTimeOriginal tag reads back as exactly the date-time written. */
  lemma ReadBackTime(lat: Option<real>, lng: Option<real>, dateTime: Option<DateTime>)
    requires ValidTime(dateTime)
    ensures ReadMetadata(ExifFor(lat, lng, dateTime)).taken == dateTime
  {
    if dateTime.Some? {
      ParseFormat(dateTime.value);
    }
  }

  /** The GPS tags read back as a position exactly when both coordinates were written, each approximated. */
  lemma ReadBackPosition(lat: Option<real>, lng: Option<real>, dateTime: Option<DateTime>)
    requires ValidTime(dateTime)
    ensures var m := ReadMetadata(ExifFor(lat, lng, dateTime));
      (m.position.Some? <==> lat.Some? && lng.Some?) &&
      (m.position.Some? ==> Approximates(m.position.value.0, lat.value) && Approximates(m.position.value.1, lng.value))
  {
    var d := ExifFor(lat, lng, dateTime);
    if lat.Some? && lng.Some? {
      ReadCoordinateOfEncoding(d.gps, TagGpsLatitudeRef, TagGpsLatitude, lat.value, LatitudeRefs);
      ReadCoordinateOfEncoding(d.gps, TagGpsLongitudeRef, TagGpsLongitude, lng.value, LongitudeRefs);
    } else {
      assert d.gps == map[];
    }
  }

  /**
   * Reading the record back recovers the date-time exactly, and the position
   * (present exactly when both coordinates were given) to within the
   * precision of the seconds rational.
   */
  lemma ReadBack(lat: Option<real>, lng: Option<real>, dateTime: Option<DateTime>)
    requires ValidTime(dateTime)
    ensures var m := ReadMetadata(ExifFor(lat, lng, dateTime));
      m.taken == dateTime &&
      (m.position.Some? <==> lat.Some? && lng.Some?) &&
      (m.position.Some? ==> Approximates(m.position.value.0, lat.value) && Approximates(m.position.value.1, lng.value))
  {
    ReadBackTime(lat, lng, dateTime);
    ReadBackPosition(lat, lng, dateTime);
  }
}
