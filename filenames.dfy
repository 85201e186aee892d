/**
 * The name each sampled photo is saved under (app.py:159-162):
 * `f"{seo_filename.replace(' ', '-').lower()}-{i+1:02d}-{suffix}.jpg"`.
 */
module FileNames {
  import opened TimestampFormat

  /** `str.lower()` on one character, for the ASCII letters. */
  function LowerChar(c: char): (r: char)
    ensures !('A' <= r <= 'Z')
    ensures ('A' <= c <= 'Z') == (r != c)
    ensures 'A' <= c <= 'Z' ==> r as int == c as int - 'A' as int + 'a' as int
  {
    if 'A' <= c <= 'Z' then (c as int - 'A' as int + 'a' as int) as char else c
  }

  /** `s.replace(' ', '-').lower()`: the keyword part of every name. */
  function Slug(s: string): (r: string)
    ensures |r| == |s|
    ensures forall k :: 0 <= k < |s| ==> r[k] == LowerChar(if s[k] == ' ' then '-' else s[k])
    ensures forall k :: 0 <= k < |r| ==> r[k] != ' ' && !('A' <= r[k] <= 'Z')
  {
    seq(|s|, k requires 0 <= k < |s| => LowerChar(if s[k] == ' ' then '-' else s[k]))
  }

  /** The number a string of decimal digits spells, most significant digit first. */
  function DecimalValue(s: string): int
    requires forall k :: 0 <= k < |s| ==> IsDigit(s[k])
  {
    if |s| == 0 then 0 else 10 * DecimalValue(s[..|s| - 1]) + DigitValue(s[|s| - 1])
  }

  /** `str(n)` for a natural number: its digits, with no leading zero. */
  function Decimal(n: nat): (s: string)
    ensures 1 <= |s| && forall k :: 0 <= k < |s| ==> IsDigit(s[k])
    ensures n < 10 <==> |s| == 1
    ensures |s| > 1 ==> s[0] != '0'
    ensures DecimalValue(s) == n
    decreases n
  {
    if n < 10 then [Digit(n)]
    else
      var s := Decimal(n / 10) + [Digit(n % 10)];
      assert s[..|s| - 1] == Decimal(n / 10);
      s
  }

  /** `f"{n:02d}"`: at least two digits, a leading zero below ten. */
  function TwoDigits(n: nat): (s: string)
    ensures |s| >= 2 && forall k :: 0 <= k < |s| ==> IsDigit(s[k])
    ensures n < 100 ==> |s| == 2 && Read2(s) == n
  {
    if n < 10 then "0" + Decimal(n)
    else
      assert Decimal(n) == Decimal(n / 10) + [Digit(n % 10)];
      Decimal(n)
  }

  /** "before" for the first photo, "after" for the tenth, "action-i" in between. */
  function Suffix(i: nat): string {
    if i == 0 then "before"
    else if i == 9 then "after"
    else "action-" + Decimal(i)
  }

  /** The name photo `i` (0-based) of a video is saved under. */
  function FileName(seo: string, i: nat): (name: string)
    ensures |name| > |seo| + 4 && name[|name| - 4..] == ".jpg"
    ensures name[..|seo| + 1] == Slug(seo) + "-"
    ensures i < 10 ==> name[|seo| + 3..] == "-" + Suffix(i) + ".jpg"
  {
    var p := Slug(seo) + "-" + TwoDigits(i + 1);
    assert i < 10 ==> |p| == |seo| + 3;
    p + ("-" + Suffix(i) + ".jpg")
  }

  /** Lower-casing and hyphenating a second time changes nothing. */
  lemma SlugIdempotent(s: string)
    ensures Slug(Slug(s)) == Slug(s)
  {
  }

  /** The three kinds of suffix are told apart by the position alone. */
  lemma SuffixCases(i: nat)
    ensures Suffix(i) == "before" <==> i == 0
    ensures Suffix(i) == "after" <==> i == 9
    ensures i != 0 && i != 9 ==> Suffix(i) == "action-" + Decimal(i)
  {
    if i != 0 && i != 9 {
      assert Suffix(i)[1] == 'c';
    }
  }

  lemma DecimalSingle(n: nat)
    requires n < 10
    ensures Decimal(n) == [Digit(n)]
  {
  }

  /** `f"{n:02d}"` for 1..10 is exactly two characters, different for different n. */
  lemma TwoDigitsInjective(a: nat, b: nat)
    requires 1 <= a <= 10 && 1 <= b <= 10 && a != b
    ensures |TwoDigits(a)| == 2 && |TwoDigits(b)| == 2 && TwoDigits(a) != TwoDigits(b)
  {
    assert Decimal(10) == Decimal(1) + [Digit(0)];
    if a < 10 && b < 10 {
      assert TwoDigits(a)[1] == Digit(a) && TwoDigits(b)[1] == Digit(b);
    } else {
      assert TwoDigits(a)[0] != TwoDigits(b)[0];
    }
  }

  /** The two index characters sit right after the keyword part and its hyphen. */
  lemma IndexInName(seo: string, i: nat)
    requires i < 10
    ensures |FileName(seo, i)| >= |seo| + 3
    ensures FileName(seo, i)[|seo| + 1..|seo| + 3] == TwoDigits(i + 1)
  {
    var p := Slug(seo) + "-";
    var rest := TwoDigits(i + 1) + "-" + Suffix(i) + ".jpg";
    assert FileName(seo, i) == p + rest;
    assert (p + rest)[|p|..|p| + 2] == rest[..2];
  }

  /** The ten photos of one video never share a name, so none overwrites another in the ZIP. */
  lemma FileNamesDistinct(seo: string, i: nat, j: nat)
    requires i < 10 && j < 10 && i != j
    ensures FileName(seo, i) != FileName(seo, j)
  {
    TwoDigitsInjective(i + 1, j + 1);
    IndexInName(seo, i);
    IndexInName(seo, j);
  }
}
