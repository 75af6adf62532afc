/** Calendar dates as the scripts use them, in place of Python's `datetime`:
    the archive listing's publication date ("%d-%m-%Y | %H:%M"), the
    day key the archive output is partitioned by ("%Y-%m-%d"), and the
    open-data API's `lastmodified` timestamp ("%Y-%m-%dT%H:%M:%S.%fZ")
    reduced to the resume date ("%Y%m%d"). */
module Dates {
  import opened Wrappers
  import opened Text

  /** A moment to the minute; the listing format carries no seconds. */
  datatype DateTime = DateTime(year: int, month: int, day: int, hour: int, minute: int)

  /** `y % d`, by repeated subtraction: a recursive definition, which the
      verifier unfolds only where a proof needs it, while `%` would bring
      division into every proof that holds a date. */
  function Rem(y: nat, d: nat): (r: nat)
    requires d > 0
    ensures r < d
    decreases y
  {
    if y < d then y else Rem(y - d, d)
  }

  /** `Rem` is the remainder of division, for the divisors the calendar
      uses. */
  lemma {:induction false} RemIsMod(y: nat, d: nat)
    requires d == 4 || d == 100 || d == 400
    ensures Rem(y, d) == y % d
    decreases y
  {
    if y >= d {
      RemIsMod(y - d, d);
      ModSubtract(y, d);
    }
  }

  /** Taking the divisor off leaves the remainder alone. */
  lemma ModSubtract(y: nat, d: nat)
    requires d == 4 || d == 100 || d == 400
    requires y >= d
    ensures (y - d) % d == y % d
  {
    if d == 4 {
      assert (y - 4) % 4 == y % 4;
    } else if d == 100 {
      assert (y - 100) % 100 == y % 100;
    } else {
      assert (y - 400) % 400 == y % 400;
    }
  }

  /** The Gregorian rule, with `Rem` for `%`. */
  predicate IsLeapYear(y: nat) {
    Rem(y, 4) == 0 && (Rem(y, 100) != 0 || Rem(y, 400) == 0)
  }

  function DaysInMonth(y: nat, m: int): int {
    if m == 2 then (if IsLeapYear(y) then 29 else 28)
    else if m == 4 || m == 6 || m == 9 || m == 11 then 30
    else 31
  }

  /** What Python's `datetime` constructor accepts: a four-digit year from 1,
      a real day of a real month, an hour and a minute of the day. */
  predicate Valid(t: DateTime) {
    1 <= t.year <= 9999 && 1 <= t.month <= 12 && 1 <= t.day <= DaysInMonth(t.year, t.month)
    && 0 <= t.hour < 24 && 0 <= t.minute < 60
  }

  /** February 29th exists exactly in the years the Gregorian rule makes
      leap years, so `strptime` rejects it in any other year. */
  lemma LeapDay(y: int)
    requires 1 <= y <= 9999
    ensures Valid(DateTime(y, 2, 29, 0, 0)) <==> y % 4 == 0 && (y % 100 != 0 || y % 400 == 0)
  {
    RemIsMod(y, 4);
    RemIsMod(y, 100);
    RemIsMod(y, 400);
  }

  /** A `datetime` object can only hold a valid date. */
  type ValidDateTime = t: DateTime | Valid(t) witness DateTime(1970, 1, 1, 0, 0)

  // ---------------------------------------------------------------------
  // The listing's publication date: "%d-%m-%Y | %H:%M"
  // ---------------------------------------------------------------------

  /** The text of a publication date for `t`, e.g. "01-03-2018 | 09:30". */
  function FormatPublDate(t: ValidDateTime): string {
    PadDec(t.day, 2) + "-" + PadDec(t.month, 2) + "-" + PadDec(t.year, 4)
    + " | " + PadDec(t.hour, 2) + ":" + PadDec(t.minute, 2)
  }

  predicate PublDateShape(s: string) {
    |s| == 18 && s[2] == '-' && s[5] == '-' && s[10..13] == " | " && s[15] == ':'
    && AllDigits(s[..2]) && AllDigits(s[3..5]) && AllDigits(s[6..10])
    && AllDigits(s[13..15]) && AllDigits(s[16..])
  }

  /** `datetime.strptime(s, "%d-%m-%Y | %H:%M")`; `None` stands for the
      `ValueError` it raises on text of another shape or an impossible date. */
  function ParsePublDate(s: string): (r: Option<ValidDateTime>)
    ensures r.Some? ==> PublDateShape(s)
  {
    if !PublDateShape(s) then None
    else
      var t := DateTime(DecValue(s[6..10]), DecValue(s[3..5]), DecValue(s[..2]),
                        DecValue(s[13..15]), DecValue(s[16..]));
      if Valid(t) then Some(t) else None
  }

  /** Every date reads back from its own publication-date text. */
  lemma ParseFormatPublDate(t: ValidDateTime)
    ensures ParsePublDate(FormatPublDate(t)) == Some(t)
  {
    var s := FormatPublDate(t);
    assert s[..2] == PadDec(t.day, 2);
    assert s[3..5] == PadDec(t.month, 2);
    assert s[6..10] == PadDec(t.year, 4);
    assert s[10..13] == " | ";
    assert s[13..15] == PadDec(t.hour, 2);
    assert s[16..] == PadDec(t.minute, 2);
  }

  /** Text that parses is exactly the rendering of the date it parses to, so
      the parse loses nothing and two different texts never give one date. */
  lemma FormatParsePublDate(s: string)
    requires ParsePublDate(s).Some?
    ensures FormatPublDate(ParsePublDate(s).value) == s
  {
    var t := ParsePublDate(s).value;
    ParsedPublDateFields(s);
    PublDatePieces(s);
    assert [s[2]] == "-" && [s[5]] == "-" && [s[15]] == ":";
  }

  /** An 18-character text is the concatenation of the pieces of the
      publication-date layout. */
  lemma PublDatePieces(s: string)
    requires |s| == 18
    ensures s == s[..2] + [s[2]] + s[3..5] + [s[5]] + s[6..10] + s[10..13] + s[13..15] + [s[15]] + s[16..]
  {
  }

  /** Each digit field of text that parses is the padded rendering of the
      number it gives. */
  lemma ParsedPublDateFields(s: string)
    requires ParsePublDate(s).Some?
    ensures var t := ParsePublDate(s).value;
      && PadDec(t.day, 2) == s[..2] && PadDec(t.month, 2) == s[3..5] && PadDec(t.year, 4) == s[6..10]
      && PadDec(t.hour, 2) == s[13..15] && PadDec(t.minute, 2) == s[16..]
  {
    var t := ParsePublDate(s).value;
    PadDecValue(s[..2]);
    PadDecValue(s[3..5]);
    PadDecValue(s[6..10]);
    PadDecValue(s[13..15]);
    PadDecValue(s[16..]);
    assert PadDec(t.day, 2) == s[..2] && PadDec(t.month, 2) == s[3..5];
    assert PadDec(t.year, 4) == s[6..10];
    assert PadDec(t.hour, 2) == s[13..15] && PadDec(t.minute, 2) == s[16..];
  }

  // ---------------------------------------------------------------------
  // The day key: "%Y-%m-%d"
  // ---------------------------------------------------------------------

  /** `t.strftime("%Y-%m-%d")`. */
  function DateKey(t: ValidDateTime): (r: string)
    ensures |r| == 10 && r[4] == '-' && r[7] == '-'
    ensures AllDigits(r[..4]) && AllDigits(r[5..7]) && AllDigits(r[8..])
    ensures DecValue(r[..4]) == t.year && DecValue(r[5..7]) == t.month && DecValue(r[8..]) == t.day
  {
    var r := PadDec(t.year, 4) + "-" + PadDec(t.month, 2) + "-" + PadDec(t.day, 2);
    assert r[..4] == PadDec(t.year, 4) && r[5..7] == PadDec(t.month, 2) && r[8..] == PadDec(t.day, 2);
    r
  }

  /** Two dates share a key exactly when they fall on the same calendar day,
      whatever their time of day. */
  lemma DateKeySameDay(a: ValidDateTime, b: ValidDateTime)
    ensures DateKey(a) == DateKey(b) <==> (a.year == b.year && a.month == b.month && a.day == b.day)
  {
    if DateKey(a) == DateKey(b) {
      var ka, kb := DateKey(a), DateKey(b);
      assert ka[..4] == PadDec(a.year, 4) && kb[..4] == PadDec(b.year, 4);
      assert ka[5..7] == PadDec(a.month, 2) && kb[5..7] == PadDec(b.month, 2);
      assert ka[8..] == PadDec(a.day, 2) && kb[8..] == PadDec(b.day, 2);
    }
  }

  // ---------------------------------------------------------------------
  // The API's lastmodified timestamp: "%Y-%m-%dT%H:%M:%S.%fZ"
  // ---------------------------------------------------------------------

  /** "YYYY-MM-DDTHH:MM:SS." followed by one to six fraction digits and "Z". */
  predicate IsoTimestampShape(s: string) {
    22 <= |s| <= 27
    && s[4] == '-' && s[7] == '-' && s[10] == 'T' && s[13] == ':' && s[16] == ':'
    && s[19] == '.' && s[|s| - 1] == 'Z'
    && AllDigits(s[..4]) && AllDigits(s[5..7]) && AllDigits(s[8..10])
    && AllDigits(s[11..13]) && AllDigits(s[14..16]) && AllDigits(s[17..19])
    && AllDigits(s[20..|s| - 1])
  }

  /** `datetime.strptime(s, "%Y-%m-%dT%H:%M:%S.%fZ")` to the minute; `None`
      stands for the `ValueError` it raises. Seconds must name a second of
      a minute even though the result does not keep them. */
  function ParseIsoTimestamp(s: string): (r: Option<ValidDateTime>)
    ensures r.Some? ==> IsoTimestampShape(s) && DecValue(s[17..19]) < 60
  {
    if !IsoTimestampShape(s) || DecValue(s[17..19]) >= 60 then None
    else
      var t := DateTime(DecValue(s[..4]), DecValue(s[5..7]), DecValue(s[8..10]),
                        DecValue(s[11..13]), DecValue(s[14..16]));
      if Valid(t) then Some(t) else None
  }

  /** A `lastmodified` text for `t`, with `sec` seconds and the fraction
      digits `frac`, e.g. "2018-03-01T09:30:00.000Z". */
  function FormatIsoTimestamp(t: ValidDateTime, sec: nat, frac: string): string
    requires sec < 60
  {
    PadDec(t.year, 4) + "-" + PadDec(t.month, 2) + "-" + PadDec(t.day, 2)
    + "T" + PadDec(t.hour, 2) + ":" + PadDec(t.minute, 2) + ":" + PadDec(sec, 2)
    + "." + frac + "Z"
  }

  /** Every date, with any second and any one to six fraction digits, reads
      back from its timestamp text. */
  lemma ParseFormatIsoTimestamp(t: ValidDateTime, sec: nat, frac: string)
    requires sec < 60 && 1 <= |frac| <= 6 && AllDigits(frac)
    ensures ParseIsoTimestamp(FormatIsoTimestamp(t, sec, frac)) == Some(t)
  {
    var s := FormatIsoTimestamp(t, sec, frac);
    IsoTimestampPieces(t, sec, frac);
    assert s[..4] == PadDec(t.year, 4);
    assert s[5..7] == PadDec(t.month, 2);
    assert s[8..10] == PadDec(t.day, 2);
    assert s[11..13] == PadDec(t.hour, 2);
    assert s[14..16] == PadDec(t.minute, 2);
    assert s[17..19] == PadDec(sec, 2);
    assert s[20..|s| - 1] == frac;
  }

  /** Where each field of a timestamp text lies. */
  lemma IsoTimestampPieces(t: ValidDateTime, sec: nat, frac: string)
    requires sec < 60
    ensures var s := FormatIsoTimestamp(t, sec, frac);
      && |s| == 21 + |frac|
      && s[4] == '-' && s[7] == '-' && s[10] == 'T' && s[13] == ':' && s[16] == ':'
      && s[19] == '.' && s[|s| - 1] == 'Z'
  {
  }

  /** Text that parses is the rendering of the date it parses to, with its
      own seconds and fraction digits. */
  lemma FormatParseIsoTimestamp(s: string)
    requires ParseIsoTimestamp(s).Some?
    ensures FormatIsoTimestamp(ParseIsoTimestamp(s).value, DecValue(s[17..19]), s[20..|s| - 1]) == s
  {
    ParsedIsoTimestampFields(s);
    IsoTimestampTextPieces(s);
    assert [s[4]] == "-" && [s[7]] == "-" && [s[10]] == "T" && [s[13]] == ":" && [s[16]] == ":";
    assert [s[19]] == "." && [s[|s| - 1]] == "Z";
  }

  /** A timestamp-length text is the concatenation of the pieces of the
      timestamp layout. */
  lemma IsoTimestampTextPieces(s: string)
    requires 22 <= |s|
    ensures s == s[..4] + [s[4]] + s[5..7] + [s[7]] + s[8..10] + [s[10]] + s[11..13] + [s[13]]
                 + s[14..16] + [s[16]] + s[17..19] + [s[19]] + s[20..|s| - 1] + [s[|s| - 1]]
  {
  }

  /** Each digit field of a timestamp that parses is the padded rendering of
      the number it gives. */
  lemma ParsedIsoTimestampFields(s: string)
    requires ParseIsoTimestamp(s).Some?
    ensures var t := ParseIsoTimestamp(s).value;
      && PadDec(t.year, 4) == s[..4] && PadDec(t.month, 2) == s[5..7] && PadDec(t.day, 2) == s[8..10]
      && PadDec(t.hour, 2) == s[11..13] && PadDec(t.minute, 2) == s[14..16]
      && PadDec(DecValue(s[17..19]), 2) == s[17..19]
  {
    PadDecValue(s[..4]);
    PadDecValue(s[5..7]);
    PadDecValue(s[8..10]);
    PadDecValue(s[11..13]);
    PadDecValue(s[14..16]);
    PadDecValue(s[17..19]);
  }

  /** `t.strftime("%Y%m%d")`. */
  function CompactDay(t: ValidDateTime): (r: string)
    ensures |r| == 8 && AllDigits(r)
    ensures DecValue(r[..4]) == t.year && DecValue(r[4..6]) == t.month && DecValue(r[6..]) == t.day
  {
    var r := PadDec(t.year, 4) + PadDec(t.month, 2) + PadDec(t.day, 2);
    assert r[..4] == PadDec(t.year, 4) && r[4..6] == PadDec(t.month, 2) && r[6..] == PadDec(t.day, 2);
    r
  }

  /** Reducing a timestamp that parses to "%Y%m%d" is the same as cutting the
      year, month and day digits out of its text. */
  lemma CompactDayOfIsoTimestamp(s: string)
    requires ParseIsoTimestamp(s).Some?
    ensures CompactDay(ParseIsoTimestamp(s).value) == s[..4] + s[5..7] + s[8..10]
    ensures |CompactDay(ParseIsoTimestamp(s).value)| == 8
  {
    PadDecValue(s[..4]);
    PadDecValue(s[5..7]);
    PadDecValue(s[8..10]);
  }
}
