/**
 * `date_time.strftime("%Y:%m:%d %H:%M:%S")`: the Exif 2.3 date-time string
 * (sections 4.6.4 and 4.6.5), fields zero-padded to fixed width. `Parse` is
 * its inverse, the way a reader of the DateTime tags takes the string apart.
 */
module TimestampFormat {
  import opened Wrappers
  import opened Calendar

  predicate IsDigit(c: char) {
    '0' <= c <= '9'
  }

  function Digit(n: int): (c: char)
    requires 0 <= n < 10
    ensures IsDigit(c)
  {
    ('0' as int + n) as char
  }

  function DigitValue(c: char): int {
    c as int - '0' as int
  }

  /** `%m`, `%d`, `%H`, `%M`, `%S`: two digits, a leading zero below ten. */
  function Pad2(n: int): (s: string)
    requires 0 <= n < 100
    ensures |s| == 2 && IsDigit(s[0]) && IsDigit(s[1])
  {
    [Digit(n / 10), Digit(n % 10)]
  }

  /** `%Y`: four digits, zero-padded. */
  function Pad4(n: int): (s: string)
    requires 0 <= n < 10000
    ensures |s| == 4 && IsDigit(s[0]) && IsDigit(s[1]) && IsDigit(s[2]) && IsDigit(s[3])
  {
    Pad2(n / 100) + Pad2(n % 100)
  }

  function Read2(s: string): int
    requires |s| == 2
  {
    10 * DigitValue(s[0]) + DigitValue(s[1])
  }

  function Read4(s: string): int
    requires |s| == 4
  {
    100 * Read2(s[0..2]) + Read2(s[2..4])
  }

  /** Positions of the separators in "YYYY:MM:DD HH:MM:SS". */
  predicate IsSeparatorPosition(i: int) {
    i == 4 || i == 7 || i == 10 || i == 13 || i == 16
  }

  /** The shape of an Exif date-time string: 19 characters, digits except the five separators. */
  predicate WellShaped(s: string) {
    |s| == 19 && s[4] == ':' && s[7] == ':' && s[10] == ' ' && s[13] == ':' && s[16] == ':' &&
    forall i :: 0 <= i < 19 && !IsSeparatorPosition(i) ==> IsDigit(s[i])
  }

  /** `strftime("%Y:%m:%d %H:%M:%S")`. */
  function Format(t: DateTime): (s: string)
    requires t.Valid()
    ensures WellShaped(s)
  {
    Pad4(t.date.year) + ":" + Pad2(t.date.month) + ":" + Pad2(t.date.day) + " " +
    Pad2(t.hour) + ":" + Pad2(t.minute) + ":" + Pad2(t.second)
  }

  /** Reading a date-time string back; nothing for a malformed string or an impossible date. */
  function Parse(s: string): (r: Option<DateTime>)
    ensures r.Some? ==> r.value.Valid() && WellShaped(s)
  {
    if !WellShaped(s) then None
    else
      var t := DateTime(Date(Read4(s[0..4]), Read2(s[5..7]), Read2(s[8..10])),
                        Read2(s[11..13]), Read2(s[14..16]), Read2(s[17..19]));
      if t.Valid() then Some(t) else None
  }

  lemma Read2Pad2(n: int)
    requires 0 <= n < 100
    ensures Read2(Pad2(n)) == n
  {
  }

  lemma Read4Pad4(n: int)
    requires 0 <= n < 10000
    ensures Read4(Pad4(n)) == n
  {
    var s := Pad4(n);
    assert s[0..2] == Pad2(n / 100) && s[2..4] == Pad2(n % 100);
    Read2Pad2(n / 100);
    Read2Pad2(n % 100);
  }

  lemma Pad2Read2(s: string)
    requires |s| == 2 && IsDigit(s[0]) && IsDigit(s[1])
    ensures 0 <= Read2(s) < 100 && Pad2(Read2(s)) == s
  {
    var n := Read2(s);
    assert n / 10 == DigitValue(s[0]) && n % 10 == DigitValue(s[1]);
  }

  lemma Pad4Read4(s: string)
    requires |s| == 4 && IsDigit(s[0]) && IsDigit(s[1]) && IsDigit(s[2]) && IsDigit(s[3])
    ensures 0 <= Read4(s) < 10000 && Pad4(Read4(s)) == s
  {
    var hi, lo := s[0..2], s[2..4];
    Pad2Read2(hi);
    Pad2Read2(lo);
    var n := Read4(s);
    assert n / 100 == Read2(hi) && n % 100 == Read2(lo);
    assert s == hi + lo;
  }

  /** Every valid date-time survives formatting and parsing unchanged. */
  lemma ParseFormat(t: DateTime)
    requires t.Valid()
    ensures Parse(Format(t)) == Some(t)
  {
    var s := Format(t);
    assert s[0..4] == Pad4(t.date.year);
    assert s[5..7] == Pad2(t.date.month);
    assert s[8..10] == Pad2(t.date.day);
    assert s[11..13] == Pad2(t.hour);
    assert s[14..16] == Pad2(t.minute);
    assert s[17..19] == Pad2(t.second);
    Read4Pad4(t.date.year);
    Read2Pad2(t.date.month);
    Read2Pad2(t.date.day);
    Read2Pad2(t.hour);
    Read2Pad2(t.minute);
    Read2Pad2(t.second);
  }

  /** Every string `Parse` accepts is exactly the formatting of what it returns. */
  lemma FormatParse(s: string)
    requires Parse(s).Some?
    ensures Format(Parse(s).value) == s
  {
    assert IsDigit(s[0]) && IsDigit(s[1]) && IsDigit(s[2]) && IsDigit(s[3]);
    assert IsDigit(s[5]) && IsDigit(s[6]) && IsDigit(s[8]) && IsDigit(s[9]);
    assert IsDigit(s[11]) && IsDigit(s[12]) && IsDigit(s[14]) && IsDigit(s[15]);
    assert IsDigit(s[17]) && IsDigit(s[18]);
    Pad4Read4(s[0..4]);
    Pad2Read2(s[5..7]);
    Pad2Read2(s[8..10]);
    Pad2Read2(s[11..13]);
    Pad2Read2(s[14..16]);
    Pad2Read2(s[17..19]);
    assert s == s[0..4] + ":" + s[5..7] + ":" + s[8..10] + " " + s[11..13] + ":" + s[14..16] + ":" + s[17..19];
  }

  /** Distinct date-times never share a string. */
  lemma FormatInjective(t1: DateTime, t2: DateTime)
    requires t1.Valid() && t2.Valid() && Format(t1) == Format(t2)
    ensures t1 == t2
  {
    ParseFormat(t1);
    ParseFormat(t2);
  }
}
