/** ISO 8601 calendar-date text, "YYYY-MM-DD": what `date.isoformat()`
    writes, and the canonical form of what `strptime("%Y-%m-%d")` reads. */
module IsoDates {
  import opened Wrappers
  import opened Calendar

  function Pow10(n: nat): (p: nat)
    ensures p >= 1
  {
    if n == 0 then 1 else 10 * Pow10(n - 1)
  }

  predicate IsDigit(c: char) {
    '0' <= c <= '9'
  }

  function DigitChar(v: int): (c: char)
    requires 0 <= v <= 9
    ensures IsDigit(c)
  {
    ('0' as int + v) as char
  }

  function DigitValue(c: char): (v: int)
    requires IsDigit(c)
    ensures 0 <= v <= 9
    ensures DigitChar(v) == c
  {
    c as int - '0' as int
  }

  /** `v` in exactly `width` decimal digits, zero-padded on the left. */
  function Digits(v: int, width: nat): (s: string)
    requires 0 <= v < Pow10(width)
    ensures |s| == width
    ensures forall i :: 0 <= i < |s| ==> IsDigit(s[i])
    decreases width
  {
    if width == 0 then []
    else Digits(v / 10, width - 1) + [DigitChar(v % 10)]
  }

  /** The value of a string of decimal digits; None if any character is
      not a digit. */
  function ReadDigits(s: string): (r: Option<int>)
    ensures r.Some? <==> forall i :: 0 <= i < |s| ==> IsDigit(s[i])
    ensures r.Some? ==> 0 <= r.value < Pow10(|s|)
    decreases |s|
  {
    if s == [] then Some(0)
    else
      var last := s[|s| - 1];
      match ReadDigits(s[..|s| - 1])
      case None => None
      case Some(v) =>
        if IsDigit(last) then Some(10 * v + DigitValue(last)) else None
  }

  lemma {:induction false} ReadDigitsOfDigits(v: int, width: nat)
    requires 0 <= v < Pow10(width)
    ensures ReadDigits(Digits(v, width)) == Some(v)
    decreases width
  {
    if width > 0 {
      var s := Digits(v, width);
      ReadDigitsOfDigits(v / 10, width - 1);
      assert s[..|s| - 1] == Digits(v / 10, width - 1);
      assert DigitValue(DigitChar(v % 10)) == v % 10;
    }
  }

  lemma {:induction false} DigitsOfReadDigits(s: string)
    requires ReadDigits(s).Some?
    ensures Digits(ReadDigits(s).value, |s|) == s
    decreases |s|
  {
    if s != [] {
      var init := s[..|s| - 1];
      var v := ReadDigits(init).value;
      var d := DigitValue(s[|s| - 1]);
      DigitsOfReadDigits(init);
      assert (10 * v + d) / 10 == v && (10 * v + d) % 10 == d;
      assert s == init + [s[|s| - 1]];
    }
  }

  /** `date.isoformat()`. */
  function IsoFormat(d: Date): (s: string)
    requires Valid(d)
    ensures |s| == 10 && s[4] == '-' && s[7] == '-'
    ensures forall i :: 0 <= i < 10 && i != 4 && i != 7 ==> IsDigit(s[i])
  {
    assert Pow10(4) == 10000 && Pow10(2) == 100;
    Digits(d.year, 4) + "-" + Digits(d.month, 2) + "-" + Digits(d.day, 2)
  }

  /** Strict "YYYY-MM-DD": four, two and two digits naming a valid date. */
  function ParseIso(s: string): (r: Option<Date>)
    ensures r.Some? ==> Valid(r.value)
  {
    if |s| == 10 && s[4] == '-' && s[7] == '-' then
      match (ReadDigits(s[..4]), ReadDigits(s[5..7]), ReadDigits(s[8..]))
      case (Some(y), Some(m), Some(d)) =>
        if Valid(Date(y, m, d)) then Some(Date(y, m, d)) else None
      case _ => None
    else
      None
  }

  /** Every valid date reads back from its ISO text. */
  lemma ParseIsoFormat(d: Date)
    requires Valid(d)
    ensures ParseIso(IsoFormat(d)) == Some(d)
  {
    assert Pow10(4) == 10000 && Pow10(2) == 100;
    var s := IsoFormat(d);
    assert s[..4] == Digits(d.year, 4);
    assert s[5..7] == Digits(d.month, 2);
    assert s[8..] == Digits(d.day, 2);
    ReadDigitsOfDigits(d.year, 4);
    ReadDigitsOfDigits(d.month, 2);
    ReadDigitsOfDigits(d.day, 2);
  }

  /** A parsed text holds the date's fields at the ISO positions. */
  lemma ParsedFields(s: string)
    requires ParseIso(s).Some?
    ensures |s| == 10 && s[4] == '-' && s[7] == '-'
    ensures ReadDigits(s[..4]) == Some(ParseIso(s).value.year)
    ensures ReadDigits(s[5..7]) == Some(ParseIso(s).value.month)
    ensures ReadDigits(s[8..]) == Some(ParseIso(s).value.day)
  {
  }

  /** A ten-character text with dashes at the ISO positions is its three
      fields joined by dashes. */
  lemma IsoPieces(s: string)
    requires |s| == 10 && s[4] == '-' && s[7] == '-'
    ensures s == s[..4] + "-" + s[5..7] + "-" + s[8..]
  {
  }

  /** Every text that parses is the ISO text of the date it names: no two
      texts name the same date. */
  lemma FormatParseIso(s: string)
    requires ParseIso(s).Some?
    ensures IsoFormat(ParseIso(s).value) == s
  {
    var d := ParseIso(s).value;
    ParsedFields(s);
    DigitsOfReadDigits(s[..4]);
    DigitsOfReadDigits(s[5..7]);
    DigitsOfReadDigits(s[8..]);
    IsoPieces(s);
  }
}
