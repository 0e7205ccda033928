/**
 * A fixed-width subset of the `date-time` production of section 5.6 of
 * RFC 3339 (no `time-secfrac`, upper-case `T` and `Z` only), as the connectors
 * receive it in `updated_at`, `updated_on` and `completed_at` fields, and its
 * conversion to an absolute instant (`PullRequestLastUpdateStore.parseStringToDate`).
 *
 * The text form is fixed-width: `YYYY-MM-DDThh:mm:ss` followed by `Z` or by
 * `+hh:mm` / `-hh:mm`. An instant is a count of seconds since
 * 1970-01-01T00:00:00Z, the second-precision content of a `java.util.Date`.
 */
module Rfc3339 {
  import opened Wrappers
  import opened Calendar

  /** `Z`, or a numeric offset; `behind` is the `-` sign (local time is behind UTC). */
  datatype Offset = Zulu | Numeric(behind: bool, hours: int, minutes: int)

  datatype DateTime = DateTime(date: Date, hour: int, minute: int, second: int, offset: Offset)

  predicate ValidOffset(o: Offset) {
    o.Zulu? || (0 <= o.hours <= 23 && 0 <= o.minutes <= 59)
  }

  /** Clock fields in range and the date a real calendar day; the year may be any integer. */
  predicate ValidFields(t: DateTime) {
    ValidDate(t.date)
    && 0 <= t.hour <= 23 && 0 <= t.minute <= 59 && 0 <= t.second <= 59
    && ValidOffset(t.offset)
  }

  /** What a four-digit year can write. */
  predicate Valid(t: DateTime) {
    0 <= t.date.year <= 9999 && ValidFields(t)
  }

  function OffsetMinutes(o: Offset): int {
    match o
    case Zulu => 0
    case Numeric(behind, h, m) => if behind then -(h * 60 + m) else h * 60 + m
  }

  function SecondOfDay(t: DateTime): int {
    t.hour * 3600 + t.minute * 60 + t.second
  }

  /** The absolute instant, in seconds since the Unix epoch: the local clock minus the offset. */
  function EpochSeconds(t: DateTime): (r: int)
    requires ValidDate(t.date)
    ensures ValidFields(t) ==>
      DayNumber(t.date) * 86400 <= r + OffsetMinutes(t.offset) * 60 < DayNumber(t.date) * 86400 + 86400
  {
    DayNumber(t.date) * 86400 + SecondOfDay(t) - OffsetMinutes(t.offset) * 60
  }

  // ---------------------------------------------------------------------------
  // Fixed-width decimal fields

  predicate IsDigit(c: char) {
    '0' <= c <= '9'
  }

  predicate AllDigits(s: seq<char>) {
    forall i :: 0 <= i < |s| ==> IsDigit(s[i])
  }

  function DigitChar(n: int): (c: char)
    requires 0 <= n <= 9
    ensures IsDigit(c) && c as int - '0' as int == n
  {
    ('0' as int + n) as char
  }

  function Pow10(w: nat): (p: nat)
    ensures p >= 1
  {
    if w == 0 then 1 else 10 * Pow10(w - 1)
  }

  /** The value of a decimal numeral, most significant digit first. */
  function Decimal(s: seq<char>): nat
    requires AllDigits(s)
  {
    if s == [] then 0 else 10 * Decimal(s[..|s| - 1]) + (s[|s| - 1] as int - '0' as int)
  }

  /** `n` written with exactly `width` digits, zero-padded on the left. */
  function Digits(n: nat, width: nat): (r: seq<char>)
    requires n < Pow10(width)
    ensures |r| == width && AllDigits(r)
  {
    if width == 0 then [] else Digits(n / 10, width - 1) + [DigitChar(n % 10)]
  }

  /** Reading back a zero-padded numeral gives the number written. */
  lemma {:induction false} DecimalOfDigits(n: nat, width: nat)
    requires n < Pow10(width)
    ensures Decimal(Digits(n, width)) == n
  {
    if width > 0 {
      var r := Digits(n, width);
      assert r[..width - 1] == Digits(n / 10, width - 1);
      DecimalOfDigits(n / 10, width - 1);
    }
  }

  /** Every numeral is the zero-padded writing of its value at its own width. */
  lemma {:induction false} DigitsOfDecimal(s: seq<char>)
    requires AllDigits(s)
    ensures Decimal(s) < Pow10(|s|)
    ensures Digits(Decimal(s), |s|) == s
  {
    if s != [] {
      var init := s[..|s| - 1];
      DigitsOfDecimal(init);
      var n := Decimal(s);
      assert n / 10 == Decimal(init) && n % 10 == s[|s| - 1] as int - '0' as int;
      assert s == init + [s[|s| - 1]];
    }
  }

  predicate DigitsAt(s: string, i: nat, width: nat) {
    i + width <= |s| && AllDigits(s[i..i + width])
  }

  function Field(s: string, i: nat, width: nat): nat
    requires DigitsAt(s, i, width)
  {
    Decimal(s[i..i + width])
  }

  // ---------------------------------------------------------------------------
  // Text form

  function FormatOffset(o: Offset): (r: string)
    requires ValidOffset(o)
  {
    match o
    case Zulu => "Z"
    case Numeric(behind, h, m) => [if behind then '-' else '+'] + Digits(h, 2) + ":" + Digits(m, 2)
  }

  /**
   * The RFC 3339 text of a date-time, seconds precision, offset as written in
   * `t`: `YYYY-MM-DDThh:mm:ss` in fixed width, then `Z` or `+hh:mm`/`-hh:mm`.
   */
  function Format(t: DateTime): (r: string)
    requires Valid(t)
    ensures |r| == (if t.offset.Zulu? then 20 else 25)
    ensures r[4] == '-' && r[7] == '-' && r[10] == 'T' && r[13] == ':' && r[16] == ':'
  {
    Digits(t.date.year, 4) + "-" + Digits(t.date.month, 2) + "-" + Digits(t.date.day, 2)
    + "T" + Digits(t.hour, 2) + ":" + Digits(t.minute, 2) + ":" + Digits(t.second, 2)
    + FormatOffset(t.offset)
  }

  function ParseOffset(z: string): Option<Offset> {
    if z == "Z" then Some(Zulu)
    else if |z| == 6 && (z[0] == '+' || z[0] == '-') && DigitsAt(z, 1, 2) && z[3] == ':' && DigitsAt(z, 4, 2)
    then Some(Numeric(z[0] == '-', Field(z, 1, 2), Field(z, 4, 2)))
    else None
  }

  /** The punctuation and digit positions of `YYYY-MM-DDThh:mm:ss`. */
  predicate Shaped(s: string) {
    |s| >= 20
    && DigitsAt(s, 0, 4) && s[4] == '-' && DigitsAt(s, 5, 2) && s[7] == '-' && DigitsAt(s, 8, 2)
    && s[10] == 'T' && DigitsAt(s, 11, 2) && s[13] == ':' && DigitsAt(s, 14, 2) && s[16] == ':'
    && DigitsAt(s, 17, 2)
  }

  /** Reads an RFC 3339 date-time; anything else, including an impossible date, is an error. */
  function Parse(s: string): (r: Result<DateTime>)
    ensures r.Ok? ==> Valid(r.value) && |s| >= 20
    ensures r.Err? ==> r.error == MalformedTimestamp(s)
  {
    if !Shaped(s) then Err(MalformedTimestamp(s))
    else
      match ParseOffset(s[19..])
      case None => Err(MalformedTimestamp(s))
      case Some(o) =>
        var t := DateTime(Date(Field(s, 0, 4), Field(s, 5, 2), Field(s, 8, 2)),
                          Field(s, 11, 2), Field(s, 14, 2), Field(s, 17, 2), o);
        if Valid(t) then Ok(t) else Err(MalformedTimestamp(s))
  }

  /**
   * `parseStringToDate`: the absolute instant a timestamp denotes, or the
   * error for text that is not a date-time.
   */
  function ParseInstant(s: string): (r: Result<int>)
    ensures r.Ok? <==> Parse(s).Ok?
    ensures r.Ok? ==> r.value == EpochSeconds(Parse(s).value)
  {
    var t :- Parse(s);
    Ok(EpochSeconds(t))
  }

  /** Every text read as an instant, in order; reading stops at the first text that is not a date-time. */
  function ParseInstants(texts: seq<string>): (r: Result<seq<int>>)
    ensures r.Ok? <==> forall i :: 0 <= i < |texts| ==> ParseInstant(texts[i]).Ok?
    ensures r.Ok? ==> |r.value| == |texts| && forall i :: 0 <= i < |texts| ==> ParseInstant(texts[i]) == Ok(r.value[i])
  {
    if texts == [] then Ok([])
    else
      var t :- ParseInstant(texts[0]);
      var rest :- ParseInstants(texts[1..]);
      assert forall i :: 1 <= i < |texts| ==> texts[i] == texts[1..][i - 1];
      Ok([t] + rest)
  }

  /** The error names the first text that is not a date-time. */
  lemma {:induction false} FirstMalformed(texts: seq<string>)
    requires ParseInstants(texts).Err?
    ensures exists i :: 0 <= i < |texts| && ParseInstant(texts[i]).Err?
                        && ParseInstants(texts).error == MalformedTimestamp(texts[i])
                        && (forall j :: 0 <= j < i ==> ParseInstant(texts[j]).Ok?)
  {
    if ParseInstant(texts[0]).Err? {
      assert ParseInstants(texts).error == MalformedTimestamp(texts[0]);
    } else {
      FirstMalformed(texts[1..]);
      var i :| 0 <= i < |texts[1..]| && ParseInstant(texts[1..][i]).Err?
               && ParseInstants(texts[1..]).error == MalformedTimestamp(texts[1..][i])
               && (forall j :: 0 <= j < i ==> ParseInstant(texts[1..][j]).Ok?);
      assert forall j :: 1 <= j < i + 1 ==> texts[j] == texts[1..][j - 1];
      assert ParseInstant(texts[i + 1]).Err?;
    }
  }

  /** A field holding the zero-padded writing of `n` reads as `n`. */
  lemma FieldOfDigits(s: string, i: nat, width: nat, n: nat)
    requires n < Pow10(width) && i + width <= |s| && s[i..i + width] == Digits(n, width)
    ensures DigitsAt(s, i, width) && Field(s, i, width) == n
  {
    DecimalOfDigits(n, width);
  }

  lemma FormatOffsetParses(o: Offset)
    requires ValidOffset(o)
    ensures ParseOffset(FormatOffset(o)) == Some(o)
  {
    if o.Numeric? {
      var z := FormatOffset(o);
      assert |z| == 6 && z[3] == ':';
      assert z[1..3] == Digits(o.hours, 2);
      assert z[4..6] == Digits(o.minutes, 2);
      FieldOfDigits(z, 1, 2, o.hours);
      FieldOfDigits(z, 4, 2, o.minutes);
    }
  }

  /** Where each field of a printed date-time sits. */
  lemma FormatFields(t: DateTime)
    requires Valid(t)
    ensures Shaped(Format(t))
    ensures Format(t)[0..4] == Digits(t.date.year, 4)
    ensures Format(t)[5..7] == Digits(t.date.month, 2)
    ensures Format(t)[8..10] == Digits(t.date.day, 2)
    ensures Format(t)[11..13] == Digits(t.hour, 2)
    ensures Format(t)[14..16] == Digits(t.minute, 2)
    ensures Format(t)[17..19] == Digits(t.second, 2)
    ensures Format(t)[19..] == FormatOffset(t.offset)
  {
    var s := Format(t);
    assert s[0..4] == Digits(t.date.year, 4);
    assert s[5..7] == Digits(t.date.month, 2);
    assert s[8..10] == Digits(t.date.day, 2);
    assert s[11..13] == Digits(t.hour, 2);
    assert s[14..16] == Digits(t.minute, 2);
    assert s[17..19] == Digits(t.second, 2);
  }

  /** The date fields of a printed date-time read back as its date. */
  lemma FormatDateFields(t: DateTime)
    requires Valid(t)
    ensures DigitsAt(Format(t), 0, 4) && DigitsAt(Format(t), 5, 2) && DigitsAt(Format(t), 8, 2)
    ensures Field(Format(t), 0, 4) == t.date.year && Field(Format(t), 5, 2) == t.date.month
    ensures Field(Format(t), 8, 2) == t.date.day
  {
    var s := Format(t);
    assert s[0..4] == Digits(t.date.year, 4);
    assert s[5..7] == Digits(t.date.month, 2);
    assert s[8..10] == Digits(t.date.day, 2);
    FieldOfDigits(s, 0, 4, t.date.year);
    FieldOfDigits(s, 5, 2, t.date.month);
    FieldOfDigits(s, 8, 2, t.date.day);
  }

  /** The clock fields and the offset of a printed date-time read back as its own. */
  lemma FormatClockFields(t: DateTime)
    requires Valid(t)
    ensures DigitsAt(Format(t), 11, 2) && DigitsAt(Format(t), 14, 2) && DigitsAt(Format(t), 17, 2)
    ensures Field(Format(t), 11, 2) == t.hour && Field(Format(t), 14, 2) == t.minute
    ensures Field(Format(t), 17, 2) == t.second && ParseOffset(Format(t)[19..]) == Some(t.offset)
  {
    var s := Format(t);
    assert s[11..13] == Digits(t.hour, 2);
    assert s[14..16] == Digits(t.minute, 2);
    assert s[17..19] == Digits(t.second, 2);
    assert s[19..] == FormatOffset(t.offset);
    FieldOfDigits(s, 11, 2, t.hour);
    FieldOfDigits(s, 14, 2, t.minute);
    FieldOfDigits(s, 17, 2, t.second);
    FormatOffsetParses(t.offset);
  }

  /** A shaped text whose fields and offset read as those of a valid `t` parses as `t`. */
  lemma ParseFromFields(s: string, t: DateTime)
    requires Shaped(s) && Valid(t) && ParseOffset(s[19..]) == Some(t.offset)
    requires Field(s, 0, 4) == t.date.year && Field(s, 5, 2) == t.date.month && Field(s, 8, 2) == t.date.day
    requires Field(s, 11, 2) == t.hour && Field(s, 14, 2) == t.minute && Field(s, 17, 2) == t.second
    ensures Parse(s) == Ok(t)
  {
  }

  /** Printing a date-time and reading it back gives the same date-time. */
  lemma ParseFormat(t: DateTime)
    requires Valid(t)
    ensures Parse(Format(t)) == Ok(t)
  {
    FormatFields(t);
    FormatDateFields(t);
    FormatClockFields(t);
    ParseFromFields(Format(t), t);
  }

  lemma ParseOffsetFormats(z: string)
    requires ParseOffset(z).Some? && ValidOffset(ParseOffset(z).value)
    ensures FormatOffset(ParseOffset(z).value) == z
  {
    if z != "Z" {
      DigitsOfDecimal(z[1..3]);
      DigitsOfDecimal(z[4..6]);
      assert z == [z[0]] + z[1..3] + [z[3]] + z[4..6];
    }
  }

  /** What an accepted text holds at each position. */
  lemma ParsedFields(s: string)
    requires Parse(s).Ok?
    ensures Shaped(s) && ParseOffset(s[19..]) == Some(Parse(s).value.offset)
    ensures var t := Parse(s).value;
      t.date == Date(Field(s, 0, 4), Field(s, 5, 2), Field(s, 8, 2))
      && t.hour == Field(s, 11, 2) && t.minute == Field(s, 14, 2) && t.second == Field(s, 17, 2)
  {
  }

  /** A text cut at the separator positions of `YYYY-MM-DDThh:mm:ss` is the concatenation of its pieces. */
  lemma Assemble(s: string, y: string, mo: string, d: string, h: string, mi: string, sec: string, z: string)
    requires |s| >= 19 && s[0..4] == y && s[5..7] == mo && s[8..10] == d
    requires s[11..13] == h && s[14..16] == mi && s[17..19] == sec && s[19..] == z
    requires s[4] == '-' && s[7] == '-' && s[10] == 'T' && s[13] == ':' && s[16] == ':'
    ensures s == y + "-" + mo + "-" + d + "T" + h + ":" + mi + ":" + sec + z
  {
    assert s == s[0..4] + [s[4]] + s[5..7] + [s[7]] + s[8..10] + [s[10]] + s[11..13] + [s[13]]
                + s[14..16] + [s[16]] + s[17..19] + s[19..];
  }

  /** Text the parser accepts is exactly the printing of what it read: the form is canonical. */
  lemma FormatParse(s: string)
    requires Parse(s).Ok?
    ensures Format(Parse(s).value) == s
  {
    var t := Parse(s).value;
    ParsedFields(s);
    DigitsOfDecimal(s[0..4]);
    DigitsOfDecimal(s[5..7]);
    DigitsOfDecimal(s[8..10]);
    DigitsOfDecimal(s[11..13]);
    DigitsOfDecimal(s[14..16]);
    DigitsOfDecimal(s[17..19]);
    ParseOffsetFormats(s[19..]);
    Assemble(s, Digits(t.date.year, 4), Digits(t.date.month, 2), Digits(t.date.day, 2),
             Digits(t.hour, 2), Digits(t.minute, 2), Digits(t.second, 2), FormatOffset(t.offset));
  }

  // ---------------------------------------------------------------------------
  // Offset normalisation and ordering

  /** Same clock reading in UTC: the offset is `Z` and every field is in range. */
  predicate IsUtc(t: DateTime) {
    ValidFields(t) && t.offset == Zulu
  }

  /**
   * The same instant written in UTC: the offset is subtracted from the local
   * clock, moving to the previous or next calendar day when that crosses midnight.
   */
  function ToUtc(t: DateTime): (r: DateTime)
    requires ValidFields(t)
    ensures IsUtc(r) && r.second == t.second
    ensures EpochSeconds(r) == EpochSeconds(t)
  {
    var m := t.hour * 60 + t.minute - OffsetMinutes(t.offset);
    if m < 0 then
      DateTime(PreviousDate(t.date), (m + 1440) / 60, (m + 1440) % 60, t.second, Zulu)
    else if m >= 1440 then
      DateTime(NextDate(t.date), (m - 1440) / 60, (m - 1440) % 60, t.second, Zulu)
    else
      DateTime(t.date, m / 60, m % 60, t.second, Zulu)
  }

  /** Lexicographic order of the fields, i.e. the order of the printed texts. */
  predicate ClockBefore(a: DateTime, b: DateTime) {
    DateBefore(a.date, b.date)
    || (a.date == b.date && a.hour < b.hour)
    || (a.date == b.date && a.hour == b.hour && a.minute < b.minute)
    || (a.date == b.date && a.hour == b.hour && a.minute == b.minute && a.second < b.second)
  }

  /** For UTC date-times, instant order is field order, and equal instants are equal date-times. */
  lemma UtcInstantOrder(a: DateTime, b: DateTime)
    requires IsUtc(a) && IsUtc(b)
    ensures EpochSeconds(a) < EpochSeconds(b) <==> ClockBefore(a, b)
    ensures EpochSeconds(a) == EpochSeconds(b) <==> a == b
  {
    DayNumberOrder(a.date, b.date);
  }

  /**
   * Any two date-times, whatever their offsets, compare as instants exactly as
   * their UTC forms compare field by field; they denote the same instant
   * exactly when their UTC forms coincide, however different their texts.
   */
  lemma InstantOrder(a: DateTime, b: DateTime)
    requires ValidFields(a) && ValidFields(b)
    ensures EpochSeconds(a) < EpochSeconds(b) <==> ClockBefore(ToUtc(a), ToUtc(b))
    ensures EpochSeconds(a) == EpochSeconds(b) <==> ToUtc(a) == ToUtc(b)
  {
    UtcInstantOrder(ToUtc(a), ToUtc(b));
  }

  // ---------------------------------------------------------------------------
  // Worked examples of offset normalisation

  /** `2019-02-04T20:18:44-04:00` is `2019-02-05T00:18:44Z`: the offset moves the date forward. */
  lemma OffsetRollsOverDate()
    ensures ToUtc(DateTime(Date(2019, 2, 4), 20, 18, 44, Numeric(true, 4, 0)))
            == DateTime(Date(2019, 2, 5), 0, 18, 44, Zulu)
  {
  }

  /**
   * Clock faces mislead when offsets differ: `2019-02-04T20:18:44-04:00` is
   * later than `2019-02-04T16:19:00Z`; `2019-02-04T16:18:44-04:00` reads
   * earlier than `2019-02-04T20:17:55Z` but is later; and
   * `2019-02-04T16:18:44+01:00` is the same instant as `2019-02-04T15:18:44Z`.
   */
  lemma OffsetExamples()
    ensures EpochSeconds(DateTime(Date(2019, 2, 4), 16, 19, 0, Zulu))
            < EpochSeconds(DateTime(Date(2019, 2, 4), 20, 18, 44, Numeric(true, 4, 0)))
    ensures EpochSeconds(DateTime(Date(2019, 2, 4), 20, 17, 55, Zulu))
            < EpochSeconds(DateTime(Date(2019, 2, 4), 16, 18, 44, Numeric(true, 4, 0)))
    ensures EpochSeconds(DateTime(Date(2019, 2, 4), 16, 18, 44, Numeric(false, 1, 0)))
            == EpochSeconds(DateTime(Date(2019, 2, 4), 15, 18, 44, Zulu))
  {
    OffsetRollsOverDate();
    InstantOrder(DateTime(Date(2019, 2, 4), 16, 19, 0, Zulu), DateTime(Date(2019, 2, 4), 20, 18, 44, Numeric(true, 4, 0)));
    InstantOrder(DateTime(Date(2019, 2, 4), 20, 17, 55, Zulu), DateTime(Date(2019, 2, 4), 16, 18, 44, Numeric(true, 4, 0)));
    InstantOrder(DateTime(Date(2019, 2, 4), 16, 18, 44, Numeric(false, 1, 0)), DateTime(Date(2019, 2, 4), 15, 18, 44, Zulu));
  }
}
