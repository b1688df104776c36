/**
 * `to_hhmmss` of lib.py: a duration in milliseconds written as `h:mm:ss`,
 * or as `m:ss` when it is under an hour.
 */
module Clock {
  import opened Wrappers
  import opened Text

  /**
   * `round(ms / 1000)`: the whole number of seconds nearest to `ms`
   * milliseconds, a tie going to the even neighbour (Python 3's `round`).
   * The float quotient is replaced by the exact one, which it equals
   * whenever `ms` is within the range of exactly represented floats.
   */
  function RoundedSeconds(ms: int): (s: int)
    ensures -500 <= 1000 * s - ms <= 500
    ensures (1000 * s - ms == 500 || ms - 1000 * s == 500) ==> s % 2 == 0
  {
    // Dafny's / and % by a positive divisor floor, as Python's do
    var q, r := ms / 1000, ms % 1000;
    if r < 500 then q
    else if r > 500 then q + 1
    else if q % 2 == 0 then q else q + 1
  }

  /** The two properties of `RoundedSeconds` single out one integer. */
  lemma RoundedSecondsUnique(ms: int, t: int)
    requires -500 <= 1000 * t - ms <= 500
    requires (1000 * t - ms == 500 || ms - 1000 * t == 500) ==> t % 2 == 0
    ensures t == RoundedSeconds(ms)
  {
  }

  /**
   * The two `divmod(_, 60)` steps: hours, minutes and seconds of `total`
   * seconds. Python's `divmod` floors, so minutes and seconds are never
   * negative and only the hours carry the sign.
   */
  function ClockParts(total: int): (p: (int, int, int))
    ensures p.0 * 3600 + p.1 * 60 + p.2 == total
    ensures 0 <= p.1 < 60 && 0 <= p.2 < 60
    ensures total >= 0 ==> p.0 >= 0
  {
    var m, s := total / 60, total % 60;
    var h, m' := m / 60, m % 60;
    (h, m', s)
  }

  /** Hours, minutes below 60 and seconds below 60 that add up to `total` are `ClockParts(total)`. */
  lemma ClockPartsUnique(total: int, h: int, m: int, s: int)
    requires h * 3600 + m * 60 + s == total
    requires 0 <= m < 60 && 0 <= s < 60
    ensures ClockParts(total) == (h, m, s)
  {
  }

  /** `to_hhmmss(ms)`. */
  function ToHhmmss(ms: int): string {
    var p := ClockParts(RoundedSeconds(ms));
    if p.0 != 0 then FormatInt(p.0) + ":" + Pad2(p.1) + ":" + Pad2(p.2)
    else FormatInt(p.1) + ":" + Pad2(p.2)
  }

  /** A field of exactly two digits that reads as `v`. */
  predicate TwoDigitField(f: string, v: int) {
    |f| == 2 && AllDigits(f) && DigitsValue(f) == v
  }

  /** A field as `%d` writes `v`: unpadded, with a sign only when negative. */
  predicate NumeralField(f: string, v: int) {
    IsIntNumeral(f) && IntValue(f) == v
  }

  /** Reads back a clock string: `m:ss` or `h:mm:ss`, as a number of seconds. */
  function ParseClock(text: string): Option<int> {
    var f := Split(text, ':');
    if |f| == 2 && IsIntNumeral(f[0]) && |f[1]| == 2 && AllDigits(f[1]) then
      Some(60 * IntValue(f[0]) + DigitsValue(f[1]))
    else if |f| == 3 && IsIntNumeral(f[0]) && |f[1]| == 2 && AllDigits(f[1])
                     && |f[2]| == 2 && AllDigits(f[2]) then
      Some(3600 * IntValue(f[0]) + 60 * DigitsValue(f[1]) + DigitsValue(f[2]))
    else None
  }

  lemma NumeralHasNoColon(n: int)
    ensures ':' !in FormatInt(n)
  {
    FormatIntRoundTrip(n);
  }

  /**
   * The fields of `to_hhmmss(ms)`: with `(h, m, s)` the clock parts of the
   * rounded seconds, the output is `m:ss` when `h == 0` (minutes unpadded)
   * and `h:mm:ss` otherwise; the padded fields are exactly two digits.
   */
  lemma ToHhmmssFields(ms: int)
    ensures var p := ClockParts(RoundedSeconds(ms));
            var f := Split(ToHhmmss(ms), ':');
            if p.0 == 0 then
              |f| == 2 && NumeralField(f[0], p.1) && TwoDigitField(f[1], p.2)
            else
              |f| == 3 && NumeralField(f[0], p.0) && TwoDigitField(f[1], p.1)
              && TwoDigitField(f[2], p.2)
  {
    var p := ClockParts(RoundedSeconds(ms));
    Pad2TwoDigits(p.1);
    Pad2TwoDigits(p.2);
    assert ':' !in Pad2(p.1) && ':' !in Pad2(p.2);
    SplitWithoutSep(Pad2(p.2), ':');
    if p.0 == 0 {
      FormatIntRoundTrip(p.1);
      NumeralHasNoColon(p.1);
      SplitAfter(FormatInt(p.1), ':', Pad2(p.2));
    } else {
      FormatIntRoundTrip(p.0);
      NumeralHasNoColon(p.0);
      SplitAfter(Pad2(p.1), ':', Pad2(p.2));
      SplitAfter(FormatInt(p.0), ':', Pad2(p.1) + ":" + Pad2(p.2));
      assert FormatInt(p.0) + ":" + Pad2(p.1) + ":" + Pad2(p.2)
          == FormatInt(p.0) + [':'] + (Pad2(p.1) + [':'] + Pad2(p.2));
    }
  }

  /** Reading the clock string back gives the rounded number of seconds. */
  lemma ToHhmmssRoundTrip(ms: int)
    ensures ParseClock(ToHhmmss(ms)) == Some(RoundedSeconds(ms))
  {
    ToHhmmssFields(ms);
  }

  // Worked values.

  lemma ToHhmmssZero()
    ensures ToHhmmss(0) == "0:00"
  {
  }

  lemma ToHhmmssMinute()
    ensures ToHhmmss(61000) == "1:01"
  {
  }

  lemma ToHhmmssHour()
    ensures ToHhmmss(3661000) == "1:01:01"
  {
  }

  /** Half a second rounds to the even neighbour: 1.5 s and 2.5 s both show as 2 s. */
  lemma ToHhmmssTiesToEven()
    ensures ToHhmmss(1500) == "0:02" && ToHhmmss(2500) == "0:02"
  {
  }

  /** A negative duration keeps its sign in the hours only. */
  lemma ToHhmmssNegative()
    ensures ToHhmmss(-1000) == "-1:59:59"
  {
  }
}
