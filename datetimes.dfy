/**
  The datetime serializer: the date and time in the layout of the `date-time`
  production of section 5.6 of RFC 3339 (`YYYY-MM-DDTHH:MM:SS`), then a
  `.ffffff` fraction only when the microsecond is non-zero, then the offset.
  The offset is `Z` for a naive value or a zone named `UTC`; otherwise it is
  the piece after the first `UTC` in the zone's name, as `tzname.split('UTC')[1]`.
 */
module DateTimes {
  import opened Wrappers
  import opened Values
  import opened Errors
  import opened Strings

  const UTC := "UTC"

  function Pow10(w: nat): nat
  {
    if w == 0 then 1 else 10 * Pow10(w - 1)
  }

  predicate IsDigit(c: char)
  {
    '0' <= c <= '9'
  }

  /** The number a string of decimal digits denotes. */
  function DigitsValue(s: string): int
  {
    if |s| == 0 then 0 else 10 * DigitsValue(s[..|s| - 1]) + (s[|s| - 1] as int - '0' as int)
  }

  /** `n` in decimal, zero-padded on the left to `width` digits, as `%04d` / `%02d` / `%06d`. */
  function Pad(n: nat, width: nat): (r: string)
    ensures |r| == width
    ensures forall i | 0 <= i < |r| :: IsDigit(r[i])
  {
    if width == 0 then "" else Pad(n / 10, width - 1) + [('0' as int + n % 10) as char]
  }

  /** Reading the padded digits back gives the number, whenever it fits the width. */
  lemma {:induction false} PadRoundTrip(n: nat, width: nat)
    requires n < Pow10(width)
    ensures DigitsValue(Pad(n, width)) == n
  {
    if width > 0 {
      var s := Pad(n, width);
      assert s[..|s| - 1] == Pad(n / 10, width - 1);
      assert n / 10 < Pow10(width - 1);
      PadRoundTrip(n / 10, width - 1);
    }
  }

  /** `strftime('%Y-%m-%dT%H:%M:%S')`. */
  function Base(dt: DateTimeRec): string
  {
    Pad(dt.year, 4) + "-" + Pad(dt.month, 2) + "-" + Pad(dt.day, 2) + "T"
    + Pad(dt.hour, 2) + ":" + Pad(dt.minute, 2) + ":" + Pad(dt.second, 2)
  }

  /** `.%f` when the microsecond is non-zero, nothing otherwise. */
  function Fraction(dt: DateTimeRec): string
  {
    if dt.microsecond != 0 then "." + Pad(dt.microsecond, 6) else ""
  }

  /** The suffix, lines 97-102 of the datetime serializer; the failing cases raise. */
  function Offset(tz: Option<TzInfo>): Result<string, Error>
  {
    match tz
    case None => Ok("Z")
    case Some(TzInfo(name)) =>
      match name
      case None => Err(AttributeError("split"))
      case Some(n) =>
        if n == UTC then Ok("Z")
        else
          var parts := Split(n, UTC);
          if |parts| < 2 then Err(IndexError) else Ok(parts[1])
  }

  /** `default_datetime_serializer`. */
  function DatetimeSerialize(dt: DateTimeRec): Result<Value, Error>
  {
    match Offset(dt.tzinfo)
    case Err(e) => Err(e)
    case Ok(offset) => Ok(Str(Base(dt) + Fraction(dt) + offset))
  }

  /** The suffix is `Z` exactly for a naive value or a zone named `UTC`; a zone without a name raises. */
  lemma OffsetZ(tz: Option<TzInfo>)
    ensures tz.None? ==> Offset(tz) == Ok("Z")
    ensures tz.Some? && tz.value.tzname == Some(UTC) ==> Offset(tz) == Ok("Z")
    ensures tz.Some? && tz.value.tzname.None? ==> Offset(tz) == Err(AttributeError("split"))
  {
  }

  /**
    For a zone name other than `UTC`, the offset exists exactly when the name
    contains `UTC`, and it is the text from the end of the first `UTC` up to the
    next `UTC` or the end of the name.
   */
  lemma OffsetOfZoneName(n: string)
    requires n != UTC
    ensures Offset(Some(TzInfo(Some(n)))).Ok? <==> Contains(n, UTC)
    ensures Offset(Some(TzInfo(Some(n)))).Err? ==> Offset(Some(TzInfo(Some(n)))) == Err(IndexError)
    ensures Contains(n, UTC) ==>
      var i := Find(n, UTC).value;
      var off := Offset(Some(TzInfo(Some(n)))).value;
      && off <= n[i + 3..]
      && !Contains(off, UTC)
      && (off == n[i + 3..] || OccursAt(n, UTC, i + 3 + |off|))
  {
    SplitSingleIff(n, UTC);
    if Contains(n, UTC) {
      var i := Find(n, UTC).value;
      var rest := n[i + 3..];
      assert Split(n, UTC) == [n[..i]] + Split(rest, UTC);
      var off := Split(rest, UTC)[0];
      SplitFirstIsPrefix(rest, UTC);
      SplitPiecesAvoidSep(rest, UTC);
      SplitSingleIff(rest, UTC);
      match Find(rest, UTC)
      case None =>
      case Some(j) =>
        assert off == rest[..j];
        assert n[i + 3 + j..i + 3 + j + 3] == rest[j..j + 3];
    }
  }

  /** The usual zone names of fixed offsets, `UTC+05:30`, give the text after `UTC`. */
  lemma OffsetOfUtcPrefixedName(t: string)
    requires t != "" && !Contains(t, UTC)
    ensures Offset(Some(TzInfo(Some(UTC + t)))) == Ok(t)
  {
    var n := UTC + t;
    assert OccursAt(n, UTC, 0) by { assert n[0..3] == UTC; }
    FindIsLeast(n, UTC, 0);
    assert n[3..] == t;
    SplitSingleIff(t, UTC);
  }

  /** A zone named `UTC` followed by an offset text gives that text as the suffix. */
  lemma FixedOffsetLayout(dt: DateTimeRec, t: string)
    requires t != "" && !Contains(t, UTC)
    requires dt.tzinfo == Some(TzInfo(Some(UTC + t)))
    ensures DatetimeSerialize(dt) == Ok(Str(Base(dt) + Fraction(dt) + t))
  {
    OffsetOfUtcPrefixedName(t);
  }

  /** Reading the fixed positions of the base text back gives the fields of the datetime. */
  lemma BaseReadsBack(dt: DateTimeRec)
    ensures var b := Base(dt);
      && |b| == 19
      && DigitsValue(b[0..4]) == dt.year && b[4] == '-'
      && DigitsValue(b[5..7]) == dt.month && b[7] == '-'
      && DigitsValue(b[8..10]) == dt.day && b[10] == 'T'
      && DigitsValue(b[11..13]) == dt.hour && b[13] == ':'
      && DigitsValue(b[14..16]) == dt.minute && b[16] == ':'
      && DigitsValue(b[17..19]) == dt.second
  {
    var b := Base(dt);
    assert b[0..4] == Pad(dt.year, 4);
    assert b[5..7] == Pad(dt.month, 2);
    assert b[8..10] == Pad(dt.day, 2);
    assert b[11..13] == Pad(dt.hour, 2);
    assert b[14..16] == Pad(dt.minute, 2);
    assert b[17..19] == Pad(dt.second, 2);
    assert Pow10(2) == 100 && Pow10(4) == 10000;
    PadRoundTrip(dt.year, 4);
    PadRoundTrip(dt.month, 2);
    PadRoundTrip(dt.day, 2);
    PadRoundTrip(dt.hour, 2);
    PadRoundTrip(dt.minute, 2);
    PadRoundTrip(dt.second, 2);
  }

  /**
    The serialized text is the base, then the fraction, then the offset; the
    fraction (a dot and six digits reading back to the microsecond) is there
    if and only if the microsecond is non-zero; the only failures are the
    offset's.
   */
  lemma DatetimeLayout(dt: DateTimeRec)
    ensures DatetimeSerialize(dt).Ok? <==> Offset(dt.tzinfo).Ok?
    ensures DatetimeSerialize(dt).Err? ==> DatetimeSerialize(dt).error == Offset(dt.tzinfo).error
    ensures DatetimeSerialize(dt).Ok? ==>
      var s := DatetimeSerialize(dt).value;
      var off := Offset(dt.tzinfo).value;
      && s.Str?
      && |s.s| >= 19 + |off|
      && s.s[..19] == Base(dt)
      && s.s[|s.s| - |off|..] == off
      && (|s.s| == 26 + |off| <==> dt.microsecond != 0)
      && (|s.s| == 19 + |off| <==> dt.microsecond == 0)
      && (dt.microsecond != 0 ==> s.s[19] == '.' && DigitsValue(s.s[20..26]) == dt.microsecond)
  {
    BaseReadsBack(dt);
    if Offset(dt.tzinfo).Ok? {
      var off := Offset(dt.tzinfo).value;
      var s := Base(dt) + Fraction(dt) + off;
      assert s[..19] == Base(dt);
      assert s[|s| - |off|..] == off;
      if dt.microsecond != 0 {
        assert s[20..26] == Pad(dt.microsecond, 6);
        assert Pow10(6) == 1000000;
        PadRoundTrip(dt.microsecond, 6);
      }
    }
  }
}
