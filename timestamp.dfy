/** The `processed_at` timestamp of an article record: parsing it with the
    format `%Y-%m-%d %H:%M:%S`, rendering it as `%a, %d %b %Y %H:%M:%S GMT`
    (the date-time form of RFC 822 section 5, as refined by RFC 2822 section
    3.3), and the ISO text of the current time used when the record has
    none. */
module Timestamp {
  import opened Wrappers
  import opened Calendar

  datatype DateTime = DateTime(date: Date, hour: nat, minute: nat, second: nat)

  /** A value Python's `datetime` class accepts. */
  predicate ValidDateTime(t: DateTime) {
    ValidDate(t.date) && t.hour <= 23 && t.minute <= 59 && t.second <= 59
  }

  /** Why `strptime` raised `ValueError`: the text does not match the format,
      or it matches but names no valid `datetime` (year 0, a day past the end
      of its month, second 60 or 61). */
  datatype DateError = Mismatch | OutOfRange

  // Decimal digits

  predicate IsDigit(c: char) {
    '0' <= c <= '9'
  }

  predicate AllDigits(s: string) {
    forall i | 0 <= i < |s| :: IsDigit(s[i])
  }

  function Pow10(n: nat): (p: nat)
    ensures p >= 1
  {
    if n == 0 then 1 else 10 * Pow10(n - 1)
  }

  function DigitChar(v: nat): (c: char)
    requires v < 10
    ensures IsDigit(c) && c as int - '0' as int == v
  {
    ('0' as int + v) as char
  }

  /** The number a string of decimal digits denotes. */
  function DigitsValue(s: string): (n: nat)
    requires AllDigits(s)
    ensures n < Pow10(|s|)
  {
    if s == [] then 0 else DigitsValue(s[..|s| - 1]) * 10 + (s[|s| - 1] as int - '0' as int)
  }

  /** `n` written in exactly `width` decimal digits, with leading zeros
      (`%02d`, `%04d`); for `n` of more digits, its last `width` digits. */
  function Pad(n: nat, width: nat): (s: string)
    ensures |s| == width && AllDigits(s)
  {
    if width == 0 then "" else Pad(n / 10, width - 1) + [DigitChar(n % 10)]
  }

  /** Reading back a padded number gives the number. */
  lemma {:induction false} DigitsValuePad(n: nat, width: nat)
    requires n < Pow10(width)
    ensures DigitsValue(Pad(n, width)) == n
  {
    if width > 0 {
      var s := Pad(n, width);
      assert s[..|s| - 1] == Pad(n / 10, width - 1);
      DigitsValuePad(n / 10, width - 1);
    }
  }

  /** Padding the value of a digit string to its length gives the string back. */
  lemma {:induction false} PadDigitsValue(s: string)
    requires AllDigits(s)
    ensures Pad(DigitsValue(s), |s|) == s
  {
    if s != [] {
      var init := s[..|s| - 1];
      assert AllDigits(init);
      PadDigitsValue(init);
      assert s == init + [s[|s| - 1]];
    }
  }

  // Parsing with '%Y-%m-%d %H:%M:%S'

  /** Four digits, '-', two, '-', two, ' ', two, ':', two, ':', two. */
  predicate Shaped(s: string) {
    && |s| == 19
    && AllDigits(s[0..4]) && s[4] == '-'
    && AllDigits(s[5..7]) && s[7] == '-'
    && AllDigits(s[8..10]) && s[10] == ' '
    && AllDigits(s[11..13]) && s[13] == ':'
    && AllDigits(s[14..16]) && s[16] == ':'
    && AllDigits(s[17..19])
  }

  /** `HH:MM:SS`, the same in the input, the output and the ISO format. */
  function TimeOfDay(t: DateTime): string {
    Pad(t.hour, 2) + ":" + Pad(t.minute, 2) + ":" + Pad(t.second, 2)
  }

  lemma TimeOfDaySlices(t: DateTime)
    ensures var x := TimeOfDay(t);
      && |x| == 8
      && x[0..2] == Pad(t.hour, 2) && x[2] == ':'
      && x[3..5] == Pad(t.minute, 2) && x[5] == ':'
      && x[6..8] == Pad(t.second, 2)
  {
  }

  /** `YYYY-MM-DD`, the same in the input format and the ISO format. */
  function DateText(d: Date): string {
    Pad(d.year, 4) + "-" + Pad(d.month, 2) + "-" + Pad(d.day, 2)
  }

  lemma DateTextSlices(d: Date)
    ensures var x := DateText(d);
      && |x| == 10
      && x[0..4] == Pad(d.year, 4) && x[4] == '-'
      && x[5..7] == Pad(d.month, 2) && x[7] == '-'
      && x[8..10] == Pad(d.day, 2)
  {
  }

  /** The text of `t` in the input format, every field zero-padded. */
  function Canonical(t: DateTime): string {
    DateText(t.date) + " " + TimeOfDay(t)
  }

  /** Python's `strptime` with the input format, for the two-digit spelling
      of the fields. The pattern of each field already bounds it (month 01-12,
      day 01-31, hour 00-23, minute 00-59, second 00-61); building the
      `datetime` then refuses year 0, a day past the end of its month and a
      second of 60 or 61. */
  function Parse(s: string): (r: Result<DateTime, DateError>)
    ensures r.Ok? ==> ValidDateTime(r.value)
  {
    if !Shaped(s) then Err(Mismatch)
    else
      var year, month, day := DigitsValue(s[0..4]), DigitsValue(s[5..7]), DigitsValue(s[8..10]);
      var hour, minute, second := DigitsValue(s[11..13]), DigitsValue(s[14..16]), DigitsValue(s[17..19]);
      if !(1 <= month <= 12 && 1 <= day <= 31 && hour <= 23 && minute <= 59 && second <= 61) then
        Err(Mismatch)
      else if year < MIN_YEAR || day > DaysInMonth(year, month) || second > 59 then
        Err(OutOfRange)
      else
        Ok(DateTime(Date(year, month, day), hour, minute, second))
  }

  /** The slices of a canonical text are the padded fields. */
  lemma CanonicalSlices(t: DateTime)
    ensures var s := Canonical(t);
      && |s| == 19
      && s[0..4] == Pad(t.date.year, 4) && s[4] == '-'
      && s[5..7] == Pad(t.date.month, 2) && s[7] == '-'
      && s[8..10] == Pad(t.date.day, 2) && s[10] == ' '
      && s[11..13] == Pad(t.hour, 2) && s[13] == ':'
      && s[14..16] == Pad(t.minute, 2) && s[16] == ':'
      && s[17..19] == Pad(t.second, 2)
  {
    var d, x, s := DateText(t.date), TimeOfDay(t), Canonical(t);
    DateTextSlices(t.date);
    TimeOfDaySlices(t);
    assert s[..10] == d && s[10] == ' ' && s[11..] == x;
    assert s[0..4] == d[0..4] && s[5..7] == d[5..7] && s[8..10] == d[8..10] by {
      assert s[0..4] == s[..10][0..4] && s[5..7] == s[..10][5..7] && s[8..10] == s[..10][8..10];
    }
    assert s[11..13] == x[0..2] && s[14..16] == x[3..5] && s[17..19] == x[6..8] by {
      assert s[11..13] == s[11..][0..2] && s[14..16] == s[11..][3..5] && s[17..19] == s[11..][6..8];
    }
  }

  /** Two texts of the format's length that agree field by field and
      separator by separator are the same text. */
  lemma SameFields(s: string, c: string)
    requires |s| == 19 && |c| == 19
    requires s[0..4] == c[0..4] && s[4] == c[4] && s[5..7] == c[5..7] && s[7] == c[7]
    requires s[8..10] == c[8..10] && s[10] == c[10] && s[11..13] == c[11..13] && s[13] == c[13]
    requires s[14..16] == c[14..16] && s[16] == c[16] && s[17..19] == c[17..19]
    ensures s == c
  {
    forall i | 0 <= i < 19 ensures s[i] == c[i] {
      if i < 4 { assert s[i] == s[0..4][i] && c[i] == c[0..4][i]; }
      else if 5 <= i < 7 { assert s[i] == s[5..7][i - 5] && c[i] == c[5..7][i - 5]; }
      else if 8 <= i < 10 { assert s[i] == s[8..10][i - 8] && c[i] == c[8..10][i - 8]; }
      else if 11 <= i < 13 { assert s[i] == s[11..13][i - 11] && c[i] == c[11..13][i - 11]; }
      else if 14 <= i < 16 { assert s[i] == s[14..16][i - 14] && c[i] == c[14..16][i - 14]; }
      else if 17 <= i { assert s[i] == s[17..19][i - 17] && c[i] == c[17..19][i - 17]; }
    }
  }

  /** An accepted text is the canonical text of the value it denotes. */
  lemma ParseSound(s: string)
    requires Parse(s).Ok?
    ensures s == Canonical(Parse(s).value)
  {
    var t := Parse(s).value;
    PadDigitsValue(s[0..4]);
    PadDigitsValue(s[5..7]);
    PadDigitsValue(s[8..10]);
    PadDigitsValue(s[11..13]);
    PadDigitsValue(s[14..16]);
    PadDigitsValue(s[17..19]);
    CanonicalSlices(t);
    SameFields(s, Canonical(t));
  }

  /** Every valid date-time is accepted in its canonical text. */
  lemma ParseComplete(t: DateTime)
    requires ValidDateTime(t)
    ensures Parse(Canonical(t)) == Ok(t)
  {
    CanonicalFields(t);
  }

  /** The canonical text of any fields that fit their widths has the shape
      of the format, and its fields read back as those values. */
  lemma CanonicalFields(t: DateTime)
    requires t.date.year < 10000 && t.date.month < 100 && t.date.day < 100
    requires t.hour < 100 && t.minute < 100 && t.second < 100
    ensures var s := Canonical(t);
      && Shaped(s)
      && DigitsValue(s[0..4]) == t.date.year && DigitsValue(s[5..7]) == t.date.month
      && DigitsValue(s[8..10]) == t.date.day && DigitsValue(s[11..13]) == t.hour
      && DigitsValue(s[14..16]) == t.minute && DigitsValue(s[17..19]) == t.second
  {
    CanonicalSlices(t);
    DigitsValuePad(t.date.year, 4);
    DigitsValuePad(t.date.month, 2);
    DigitsValuePad(t.date.day, 2);
    DigitsValuePad(t.hour, 2);
    DigitsValuePad(t.minute, 2);
    DigitsValuePad(t.second, 2);
  }

  /** On the canonical text of fields that fit their widths, parsing judges
      the fields themselves: the pattern's bounds first, then the calendar's. */
  lemma ParseFields(t: DateTime)
    requires t.date.year < 10000 && t.date.month < 100 && t.date.day < 100
    requires t.hour < 100 && t.minute < 100 && t.second < 100
    ensures var d := t.date;
      Parse(Canonical(t)) ==
        if !(1 <= d.month <= 12 && 1 <= d.day <= 31 && t.hour <= 23 && t.minute <= 59 && t.second <= 61)
        then Err(Mismatch)
        else if d.year < MIN_YEAR || d.day > DaysInMonth(d.year, d.month) || t.second > 59
        then Err(OutOfRange)
        else Ok(t)
  {
    CanonicalFields(t);
  }

  /** "2024-13-01 00:00:00", "2024-01-01 24:00:00" and "2024-01-01 00:60:00"
      do not match the format. */
  lemma ParseRejectsPattern()
    ensures Parse(Canonical(DateTime(Date(2024, 13, 1), 0, 0, 0))) == Err(Mismatch)
    ensures Parse(Canonical(DateTime(Date(2024, 1, 1), 24, 0, 0))) == Err(Mismatch)
    ensures Parse(Canonical(DateTime(Date(2024, 1, 1), 0, 60, 0))) == Err(Mismatch)
  {
    ParseFields(DateTime(Date(2024, 13, 1), 0, 0, 0));
    ParseFields(DateTime(Date(2024, 1, 1), 24, 0, 0));
    ParseFields(DateTime(Date(2024, 1, 1), 0, 60, 0));
  }

  /** Where this parser is narrower than `strptime`: the one-digit month of
      "2024-1-01 00:00:00", which `strptime` reads as 1 January 2024, is
      refused here, because only the zero-padded spelling is accepted. */
  lemma ParseNarrowerOneDigitMonth()
    ensures Parse("2024-1-01 00:00:00") == Err(Mismatch)
    ensures !Shaped("2024-1-01 00:00:00")
  {
  }

  /** "2024-02-29 12:00:00" is accepted; "2023-02-29 12:00:00" and
      "2024-04-31 12:00:00" name no date. */
  lemma ParseLeapDay()
    ensures Parse(Canonical(DateTime(Date(2024, 2, 29), 12, 0, 0))) == Ok(DateTime(Date(2024, 2, 29), 12, 0, 0))
    ensures Parse(Canonical(DateTime(Date(2023, 2, 29), 12, 0, 0))) == Err(OutOfRange)
    ensures Parse(Canonical(DateTime(Date(2024, 4, 31), 12, 0, 0))) == Err(OutOfRange)
  {
    ParseComplete(DateTime(Date(2024, 2, 29), 12, 0, 0));
    ParseFields(DateTime(Date(2023, 2, 29), 12, 0, 0));
    ParseFields(DateTime(Date(2024, 4, 31), 12, 0, 0));
  }

  /** "2024-01-01 23:59:60" and "0000-01-01 00:00:00" match the format but
      name no `datetime`. */
  lemma ParseRejectsRange()
    ensures Parse(Canonical(DateTime(Date(2024, 1, 1), 23, 59, 60))) == Err(OutOfRange)
    ensures Parse(Canonical(DateTime(Date(0, 1, 1), 0, 0, 0))) == Err(OutOfRange)
  {
    ParseFields(DateTime(Date(2024, 1, 1), 23, 59, 60));
    ParseFields(DateTime(Date(0, 1, 1), 0, 0, 0));
  }

  // Rendering with '%a, %d %b %Y %H:%M:%S GMT' in the C locale

  const DAY_NAMES: seq<string> := ["Mon", "Tue", "Wed", "Thu", "Fri", "Sat", "Sun"]
  const MONTH_NAMES: seq<string> :=
    ["Jan", "Feb", "Mar", "Apr", "May", "Jun", "Jul", "Aug", "Sep", "Oct", "Nov", "Dec"]

  function Rfc822(t: DateTime): (r: string)
    requires ValidDateTime(t)
  {
    DAY_NAMES[Weekday(t.date)] + ", " + Pad(t.date.day, 2) + " " + MONTH_NAMES[t.date.month - 1] + " "
    + Pad(t.date.year, 4) + " " + TimeOfDay(t) + " GMT"
  }

  /** Where the pieces of the RFC 822 form stand, whatever their text. */
  lemma Rfc822Layout(w: string, dd: string, mon: string, yyyy: string, x: string)
    requires |w| == 3 && |dd| == 2 && |mon| == 3 && |yyyy| == 4 && |x| == 8
    ensures var r := w + ", " + dd + " " + mon + " " + yyyy + " " + x + " GMT";
      && |r| == 29
      && r[0..3] == w && r[3..5] == ", "
      && r[5..7] == dd && r[7] == ' '
      && r[8..11] == mon && r[11] == ' '
      && r[12..16] == yyyy && r[16] == ' '
      && r[17..25] == x
      && r[25..] == " GMT"
  {
    var p1 := w + ", ";
    var p2 := p1 + dd + " ";
    var p3 := p2 + mon + " ";
    var p4 := p3 + yyyy + " ";
    var p5 := p4 + x;
    var r := p5 + " GMT";
    assert r[..25] == p5 && p5[..17] == p4 && p4[..12] == p3 && p3[..8] == p2 && p2[..5] == p1;
  }

  lemma Rfc822Slices(t: DateTime)
    requires ValidDateTime(t)
    ensures var r := Rfc822(t);
      && |r| == 29
      && r[0..3] == DAY_NAMES[Weekday(t.date)] && r[3..5] == ", "
      && r[5..7] == Pad(t.date.day, 2) && r[7] == ' '
      && r[8..11] == MONTH_NAMES[t.date.month - 1] && r[11] == ' '
      && r[12..16] == Pad(t.date.year, 4) && r[16] == ' '
      && r[17..25] == TimeOfDay(t)
      && r[25..] == " GMT"
  {
    TimeOfDaySlices(t);
    Rfc822Layout(DAY_NAMES[Weekday(t.date)], Pad(t.date.day, 2), MONTH_NAMES[t.date.month - 1],
      Pad(t.date.year, 4), TimeOfDay(t));
  }

  /** The rendered text is `Www, DD Mon YYYY HH:MM:SS GMT`: its fields read
      back as the weekday of the date, its day, month, year and time. */
  lemma Rfc822Fields(t: DateTime)
    requires ValidDateTime(t)
    ensures var r := Rfc822(t);
      && |r| == 29
      && r[0..3] == DAY_NAMES[Weekday(t.date)] && r[3..5] == ", "
      && AllDigits(r[5..7]) && DigitsValue(r[5..7]) == t.date.day && r[7] == ' '
      && r[8..11] == MONTH_NAMES[t.date.month - 1] && r[11] == ' '
      && AllDigits(r[12..16]) && DigitsValue(r[12..16]) == t.date.year && r[16] == ' '
      && AllDigits(r[17..19]) && DigitsValue(r[17..19]) == t.hour && r[19] == ':'
      && AllDigits(r[20..22]) && DigitsValue(r[20..22]) == t.minute && r[22] == ':'
      && AllDigits(r[23..25]) && DigitsValue(r[23..25]) == t.second
      && r[25..] == " GMT"
  {
    Rfc822Slices(t);
    TimeOfDaySlices(t);
    var r, x := Rfc822(t), TimeOfDay(t);
    assert r[17..19] == x[0..2] && r[19] == x[2] && r[20..22] == x[3..5] && r[22] == x[5] && r[23..25] == x[6..8];
    DigitsValuePad(t.date.day, 2);
    DigitsValuePad(t.date.year, 4);
    DigitsValuePad(t.hour, 2);
    DigitsValuePad(t.minute, 2);
    DigitsValuePad(t.second, 2);
  }

  /** `pubDate` of an accepted timestamp: the day, the year and the time of
      day are copied digit for digit, the month becomes its English
      abbreviation and the weekday is the one that falls on that date. */
  lemma PubDateOfStamp(s: string)
    requires Parse(s).Ok?
    ensures var t := Parse(s).value; var r := Rfc822(t);
      && r[0..3] == DAY_NAMES[Weekday(t.date)]
      && r[5..7] == s[8..10]
      && r[8..11] == MONTH_NAMES[DigitsValue(s[5..7]) - 1]
      && r[12..16] == s[0..4]
      && r[17..25] == s[11..19]
      && r[25..] == " GMT"
  {
    var t := Parse(s).value;
    ParseSound(s);
    CanonicalSlices(t);
    Rfc822Slices(t);
    assert s[11..19] == TimeOfDay(t);
  }

  // The default timestamp

  /** A reading of the clock: a date-time and its microseconds. */
  datatype Clock = Clock(at: DateTime, microsecond: nat)

  /** Python's ISO format of a date-time: the date, 'T', the time, and '.ffffff' when the
      microseconds are not zero. */
  function IsoFormat(c: Clock): string {
    var t := c.at;
    DateText(t.date) + "T" + TimeOfDay(t) + (if c.microsecond != 0 then "." + Pad(c.microsecond, 6) else "")
  }

  /** The ISO text separates date and time by 'T', so the input format never
      matches it, whatever the clock says. */
  lemma IsoFormatNeverParses(c: Clock)
    ensures Parse(IsoFormat(c)) == Err(Mismatch)
  {
    var s := IsoFormat(c);
    if |s| == 19 {
      assert s[10] == 'T';
    }
  }
}
