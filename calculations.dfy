/** The display arithmetic of Calculations.kt: a drift measurement (azimuth,
    distance, two timestamped fixes with accuracy radii) turned into the heading
    text, the direction-error text, speeds in metres per minute, metres per second
    and knots, and the worst-case speed error. The magnetic declination is a plain
    parameter; distances and azimuths come from geodesic code outside this model. */
module Calculations {
  import opened JavaNumerics
  import opened JavaFormat

  /** The two fields of an Android `Location` fix that the calculations read: the
      accuracy radius in metres and the timestamp in milliseconds. */
  datatype Location = Location(accuracy: real, time: Long)

  // ---------------------------------------------------------------------------
  // Heading: declination, "from" notation, the single wrap, rounding, text
  // ---------------------------------------------------------------------------

  /** The heading before wrapping: the azimuth, plus the declination when a
      magnetic heading is asked for, minus 180 in "from" notation. */
  function Unwrapped(dir: real, magnetic: bool, fromNotation: bool, declination: real): (r: real)
    ensures r + (if fromNotation then 180.0 else 0.0) - (if magnetic then declination else 0.0) == dir
  {
    (if magnetic then dir + declination else dir) - (if fromNotation then 180.0 else 0.0)
  }

  /** The wrap applied to a heading: 360 is added once to a negative value; nothing
      is ever subtracted. */
  function Wrap(x: real): (r: real)
    ensures Mod360(r) == Mod360(x)
    ensures x >= 0.0 ==> r == x
    ensures -360.0 <= x ==> r >= 0.0
    ensures x < -360.0 ==> r < 0.0
  {
    if x < 0.0 then
      Mod360Shift(x, 1);
      x + 360.0
    else x
  }

  /** The heading value that is rounded for display. */
  function HeadingValue(dir: real, magnetic: bool, fromNotation: bool, declination: real): (r: real)
    ensures Mod360(r) == Mod360(Unwrapped(dir, magnetic, fromNotation, declination))
    ensures -360.0 <= Unwrapped(dir, magnetic, fromNotation, declination) < 360.0 ==> 0.0 <= r < 360.0
  {
    Wrap(Unwrapped(dir, magnetic, fromNotation, declination))
  }

  /** The true reduction of an angle into [0, 360), the reference the single wrap
      is compared against. */
  function Mod360(x: real): (r: real)
    ensures 0.0 <= r < 360.0
  {
    x - 360.0 * ((x / 360.0).Floor as real)
  }

  /** Angles that differ by whole turns reduce to the same direction. */
  lemma Mod360Shift(x: real, k: int)
    ensures Mod360(x + 360.0 * k as real) == Mod360(x)
  {
    var f := (x / 360.0).Floor;
    assert (x + 360.0 * k as real) / 360.0 == x / 360.0 + k as real;
    assert ((x + 360.0 * k as real) / 360.0).Floor == f + k;
  }

  /** An angle already in [0, 360) is its own reduction. */
  lemma Mod360OfNormal(x: real)
    requires 0.0 <= x < 360.0
    ensures Mod360(x) == x
  {
    assert (x / 360.0).Floor == 0;
  }

  /** On [-360, 360) the single wrap is the true reduction into [0, 360). */
  lemma WrapIsModuloOnOneTurn(x: real)
    requires -360.0 <= x < 360.0
    ensures 0.0 <= Wrap(x) < 360.0
    ensures Wrap(x) == Mod360(x)
  {
    Mod360OfNormal(Wrap(x));
  }

  /** A non-negative value is left as it is, even when it is 360 or more: 370
      stays 370 where the true reduction is 10. */
  lemma WrapNeverReduces(x: real)
    requires x >= 0.0
    ensures Wrap(x) == x
    ensures Wrap(370.0) == 370.0 && Mod360(370.0) == 10.0
  {
    Mod360Shift(10.0, 1);
    Mod360OfNormal(10.0);
  }

  /** A value below -360, reachable only through a declination, is still negative
      after the single wrap. */
  lemma WrapBelowMinusTurnStaysNegative(x: real)
    requires x < -360.0
    ensures Wrap(x) < 0.0
    ensures Wrap(x) != Mod360(x)
  {
  }

  /** The wrap is one upward correction: -v becomes 360 - v (-10 becomes 350) and a
      non-negative value is untouched (10 stays 10). */
  lemma WrapExamples(v: real)
    requires v > 0.0
    ensures Wrap(-v) == 360.0 - v
    ensures Wrap(-10.0) == 350.0 && Wrap(10.0) == 10.0
  {
  }

  /** With the pre-wrap azimuth (plus declination, when magnetic) in (-180, 180], the
      wrapped heading lies in [0, 360) in both the "to" and the "from" notation. */
  lemma HeadingValueInRange(dir: real, magnetic: bool, fromNotation: bool, declination: real)
    requires -180.0 < (if magnetic then dir + declination else dir) <= 180.0
    ensures 0.0 <= HeadingValue(dir, magnetic, fromNotation, declination) < 360.0
  {
  }

  /** Without a declination the true heading is always in [0, 360) for an azimuth
      in (-180, 180]. */
  lemma TrueHeadingInRange(dir: real, fromNotation: bool)
    requires -180.0 < dir <= 180.0
    ensures 0.0 <= HeadingValue(dir, false, fromNotation, 0.0) < 360.0
  {
    HeadingValueInRange(dir, false, fromNotation, 0.0);
  }

  /** The magnetic correction is additive and reversible up to whole turns:
      subtracting the declination from the magnetic heading gives the direction of
      the true heading. */
  lemma DeclinationReversible(dir: real, fromNotation: bool, declination: real)
    ensures Mod360(HeadingValue(dir, true, fromNotation, declination) - declination)
         == Mod360(HeadingValue(dir, false, fromNotation, declination))
  {
    var m := Unwrapped(dir, true, fromNotation, declination);
    var t := Unwrapped(dir, false, fromNotation, declination);
    assert m - declination == t;
    if m < 0.0 {
      Mod360Shift(t, 1);
    }
  }

  /** "From" notation reports the opposite direction of "to" notation. */
  lemma FromNotationIsOpposite(dir: real, magnetic: bool, declination: real)
    ensures Mod360(HeadingValue(dir, magnetic, true, declination) + 180.0)
         == Mod360(HeadingValue(dir, magnetic, false, declination))
  {
    var f := Unwrapped(dir, magnetic, true, declination);
    var t := Unwrapped(dir, magnetic, false, declination);
    assert f + 180.0 == t;
    if f < 0.0 {
      Mod360Shift(t, 1);
    }
  }

  /** A whole number of degrees read off the heading text, and whether it carried
      the magnetic mark. */
  datatype HeadingReading = HeadingReading(degrees: int, magnetic: bool)

  predicate HasMagneticSuffix(s: string)
  {
    |s| >= 2 && s[|s| - 2..] == " M"
  }

  /** The text shown for a rounded heading: zero-padded to three characters, then
      " M" when the heading is magnetic. It ends with " M" exactly when the heading
      is magnetic, and reads back as the heading and its mark. */
  function HeadingText(heading: int, magnetic: bool): (s: string)
    ensures HasMagneticSuffix(s) <==> magnetic
    ensures ParseHeadingText(s) == Some(HeadingReading(heading, magnetic))
  {
    var digits := FormatZeroPadded(heading, 3);
    var s := digits + (if magnetic then " M" else "");
    ParseFormatZeroPadded(heading, 3);
    assert magnetic ==> s[|s| - 2..] == " M" && s[..|s| - 2] == digits;
    assert !magnetic ==> s == digits && s[|s| - 1] != 'M';
    s
  }

  /** Reading the heading text back: the inverse of HeadingText. */
  function ParseHeadingText(s: string): Option<HeadingReading>
  {
    var magnetic := HasMagneticSuffix(s);
    match ParseDecimal(if magnetic then s[..|s| - 2] else s)
    case Some(n) => Some(HeadingReading(n, magnetic))
    case None => None
  }

  /** A heading in [0, 1000) is shown as exactly three digits, then the mark. */
  lemma HeadingTextThreeDigits(heading: int, magnetic: bool)
    requires 0 <= heading < 1000
    ensures |HeadingText(heading, magnetic)| == if magnetic then 5 else 3
    ensures AllDigits(HeadingText(heading, magnetic)[..3])
  {
    ThreeDigitPadding(heading);
    assert HeadingText(heading, magnetic)[..3] == FormatZeroPadded(heading, 3);
  }

  /** `getDirString` with the declination passed in: the azimuth is adjusted step
      by step in one local variable, then rounded half-up and rendered. */
  method GetDirString(dir: real, magnetic: bool, fromNotation: bool, declination: real)
    returns (s: string)
    ensures s == HeadingText(MathRound(HeadingValue(dir, magnetic, fromNotation, declination)), magnetic)
  {
    var calcDir := dir;
    if magnetic {
      calcDir := calcDir + declination;
    }
    if fromNotation {
      calcDir := calcDir - 180.0;
    }
    if calcDir < 0.0 {
      calcDir := calcDir + 360.0;
    }
    assert calcDir == HeadingValue(dir, magnetic, fromNotation, declination);
    var rounded := MathRound(calcDir);
    s := FormatZeroPadded(rounded, 3) + (if magnetic then " M" else "");
    assert s == HeadingText(rounded, magnetic);
  }

  /** A wrapped heading in [0, 360) rounds to a whole degree in [0, 360]; it rounds
      to 360 exactly when it is at least 359.5. */
  lemma RoundedHeadingRange(w: real)
    requires 0.0 <= w < 360.0
    ensures 0 <= MathRound(w) <= 360
    ensures MathRound(w) == 360 <==> w >= 359.5
  {
  }

  /** The displayed heading text is three digits for every azimuth in (-180, 180]
      (plus declination, when magnetic), and it is "360" rather than "000" when the
      wrapped value lies in [359.5, 360). */
  lemma DisplayedHeadingShape(dir: real, magnetic: bool, fromNotation: bool, declination: real)
    requires -180.0 < (if magnetic then dir + declination else dir) <= 180.0
    ensures var w := HeadingValue(dir, magnetic, fromNotation, declination);
            var s := HeadingText(MathRound(w), magnetic);
            |s| == (if magnetic then 5 else 3) && AllDigits(s[..3])
            && (w >= 359.5 ==> s[..3] == "360")
  {
    var w := HeadingValue(dir, magnetic, fromNotation, declination);
    HeadingValueInRange(dir, magnetic, fromNotation, declination);
    RoundedHeadingRange(w);
    HeadingTextThreeDigits(MathRound(w), magnetic);
    if w >= 359.5 {
      assert HeadingText(360, magnetic)[..3] == FormatZeroPadded(360, 3);
      assert FormatZeroPadded(360, 3) == "360";
    }
  }

  /** Concrete renderings: 7 as "007", a magnetic 7 as "007 M", and an azimuth of
      -0.3 in "to" notation as "360". */
  lemma HeadingTextExamples()
    ensures HeadingText(7, false) == "007"
    ensures HeadingText(7, true) == "007 M"
    ensures HeadingText(MathRound(HeadingValue(-0.3, false, false, 0.0)), false) == "360"
  {
    MathRoundIs(359.7, 360);
    assert FormatZeroPadded(7, 3) == "007";
    assert FormatZeroPadded(360, 3) == "360";
  }

  // ---------------------------------------------------------------------------
  // Direction error text
  // ---------------------------------------------------------------------------

  /** `getDirErrorString`: the error rounded half-up, printed with no padding and
      no suffix. */
  function GetDirErrorString(dir: real): (s: string)
    ensures ParseDecimal(s) == Some(MathRound(dir))
    ensures s[0] == '-' <==> MathRound(dir) < 0
    ensures AllDigits(s[|Sign(MathRound(dir))|..])
    ensures s[|Sign(MathRound(dir))|] == '0' ==> s == "0"
  {
    ParseFormatDecimal(MathRound(dir));
    FormatDecimal(MathRound(dir))
  }

  // ---------------------------------------------------------------------------
  // Unit conversions
  // ---------------------------------------------------------------------------

  /** Metres per minute to knots. A knot is one 1852 m nautical mile per hour, so
      the exact factor is 60/1852; the source's factor 0.0323974 is within a
      relative error of 3 * 10^-7 of it (about 2.5 * 10^-7). */
  function ToKnots(speed: real): (r: real)
    ensures Abs(r - speed * 60.0 / 1852.0) <= Abs(speed * 60.0 / 1852.0) * 0.0000003
  {
    speed * 0.0323974
  }

  /** Metres per minute to metres per second. */
  function ToMPerSec(speed: real): (r: real)
    ensures r * 60.0 == speed
  {
    speed / 60.0
  }

  /** Both conversions are linear, so they map 0 to 0. */
  lemma ConversionsLinear(a: real, b: real, k: real)
    ensures ToKnots(a + b) == ToKnots(a) + ToKnots(b) && ToKnots(k * a) == k * ToKnots(a)
    ensures ToMPerSec(a + b) == ToMPerSec(a) + ToMPerSec(b) && ToMPerSec(k * a) == k * ToMPerSec(a)
    ensures ToKnots(0.0) == 0.0 && ToMPerSec(0.0) == 0.0
  {
  }

  /** Both conversions are monotone and preserve the sign of a speed. */
  lemma ConversionsMonotone(a: real, b: real)
    requires a <= b
    ensures ToKnots(a) <= ToKnots(b) && ToMPerSec(a) <= ToMPerSec(b)
    ensures a >= 0.0 ==> ToKnots(a) >= 0.0 && ToMPerSec(a) >= 0.0
  {
  }

  /** The two conversions agree: knots are metres per second times 1.943844. */
  lemma KnotsFromMPerSec(speed: real)
    ensures ToKnots(speed) == ToMPerSec(speed) * 1.943844
  {
  }

  // ---------------------------------------------------------------------------
  // Speed and speed error
  // ---------------------------------------------------------------------------

  /** The minutes between two millisecond timestamps as the source computes them:
      a `Long` subtraction, then a division by 1000 * 60. */
  function MinutesBetween(firstTime: Long, secondTime: Long): (m: real)
    ensures m == 0.0 <==> firstTime == secondTime
    ensures NoOverflow(firstTime, secondTime) ==> m * 60000.0 == (secondTime - firstTime) as real
    ensures !NoOverflow(firstTime, secondTime) ==> (m < 0.0 <==> firstTime < secondTime)
  {
    LongSub(secondTime, firstTime) as real / 60000.0
  }

  /** `getSpeed`: the distance in metres divided by the elapsed minutes. There is no
      guard: equal timestamps give an infinity or NaN, reversed ones a negative speed. */
  function GetSpeed(dist: real, firstTime: Long, secondTime: Long): (r: Double)
    ensures r.Finite? <==> firstTime != secondTime
    ensures r.Finite? ==> r.value * MinutesBetween(firstTime, secondTime) == dist
  {
    Divide(dist, MinutesBetween(firstTime, secondTime))
  }

  /** `getSpdError`: the sum of the two accuracy radii divided by the elapsed minutes. */
  function GetSpdError(firstLocation: Location, secondLocation: Location): (r: Double)
    ensures r.Finite? <==> firstLocation.time != secondLocation.time
    ensures r.Finite? ==> r.value * MinutesBetween(firstLocation.time, secondLocation.time)
                          == firstLocation.accuracy + secondLocation.accuracy
  {
    Divide(firstLocation.accuracy + secondLocation.accuracy,
           MinutesBetween(firstLocation.time, secondLocation.time))
  }

  /** Times whose difference fits in a `Long`. */
  predicate NoOverflow(firstTime: Long, secondTime: Long)
  {
    MinLong <= secondTime - firstTime <= MaxLong
  }

  /** For distinct times whose difference fits in a `Long`, the speed is
      dist * 60000 / (secondTime - firstTime) metres per minute. */
  lemma SpeedFormula(dist: real, firstTime: Long, secondTime: Long)
    requires firstTime != secondTime && NoOverflow(firstTime, secondTime)
    ensures GetSpeed(dist, firstTime, secondTime)
         == Finite(dist * 60000.0 / (secondTime - firstTime) as real)
  {
    var e := (secondTime - firstTime) as real;
    var v := GetSpeed(dist, firstTime, secondTime).value;
    assert MinutesBetween(firstTime, secondTime) == e / 60000.0;
    assert v * (e / 60000.0) == dist;
    calc {
      v;
      v * (e / 60000.0) * (60000.0 / e);
      dist * 60000.0 / e;
    }
  }

  /** The speed of a non-negative distance over forward time is non-negative; a
      zero distance gives speed 0. */
  lemma SpeedSign(dist: real, firstTime: Long, secondTime: Long)
    requires firstTime < secondTime && NoOverflow(firstTime, secondTime)
    ensures dist >= 0.0 ==> GetSpeed(dist, firstTime, secondTime).value >= 0.0
    ensures dist == 0.0 ==> GetSpeed(dist, firstTime, secondTime) == Finite(0.0)
  {
    SpeedFormula(dist, firstTime, secondTime);
  }

  /** With the timestamps reversed, a positive distance gives a negative speed. */
  lemma SpeedReversedTimes(dist: real, firstTime: Long, secondTime: Long)
    requires secondTime < firstTime && NoOverflow(firstTime, secondTime) && dist > 0.0
    ensures GetSpeed(dist, firstTime, secondTime).Finite?
    ensures GetSpeed(dist, firstTime, secondTime).value < 0.0
  {
    SpeedFormula(dist, firstTime, secondTime);
  }

  /** Forward timestamps more than 2^63 - 1 ms apart wrap around in the `Long`
      subtraction, so a positive distance then gives a negative speed. */
  lemma SpeedOverflowQuirk(dist: real, firstTime: Long, secondTime: Long)
    requires firstTime < secondTime && !NoOverflow(firstTime, secondTime) && dist > 0.0
    ensures GetSpeed(dist, firstTime, secondTime).Finite?
    ensures GetSpeed(dist, firstTime, secondTime).value < 0.0
    ensures GetSpeed(1.0, MinLong, MaxLong).value < 0.0
  {
    var m := MinutesBetween(firstTime, secondTime);
    var v := GetSpeed(dist, firstTime, secondTime).value;
    assert m < 0.0 && v * m == dist;
    assert MinutesBetween(MinLong, MaxLong) < 0.0;
  }

  /** Equal timestamps give no finite speed: +Infinity for a positive distance,
      -Infinity for a negative one and NaN for zero. */
  lemma SpeedAtEqualTimes(dist: real, t: Long)
    ensures GetSpeed(dist, t, t) == if dist > 0.0 then PositiveInfinity
                                    else if dist < 0.0 then NegativeInfinity
                                    else NaN
  {
  }

  /** 1852 m in one minute is 1852 m/min (60 knots to within 10^-4); over one hour
      it is 1852/60 m/min, about 30.87 m/min or one knot. */
  lemma NauticalMileExamples(t: Long)
    requires t <= MaxLong - 3600000
    ensures GetSpeed(1852.0, t, t + 60000) == Finite(1852.0)
    ensures Abs(ToKnots(1852.0) - 60.0) < 0.0001
    ensures GetSpeed(1852.0, t, t + 3600000) == Finite(1852.0 / 60.0)
    ensures Abs(ToKnots(1852.0 / 60.0) - 1.0) < 0.000001
  {
    SpeedFormula(1852.0, t, t + 60000);
    SpeedFormula(1852.0, t, t + 3600000);
  }

  /** The speed error is the speed formula applied to the sum of the two accuracy
      radii. */
  lemma SpdErrorIsSpeedOfAccuracies(firstLocation: Location, secondLocation: Location)
    ensures GetSpdError(firstLocation, secondLocation)
         == GetSpeed(firstLocation.accuracy + secondLocation.accuracy,
                     firstLocation.time, secondLocation.time)
  {
  }

  /** Over forward time the speed error is non-negative for non-negative accuracies
      and exactly 0 when both accuracies are 0. */
  lemma SpdErrorSign(firstLocation: Location, secondLocation: Location)
    requires firstLocation.time < secondLocation.time
    requires NoOverflow(firstLocation.time, secondLocation.time)
    ensures firstLocation.accuracy >= 0.0 && secondLocation.accuracy >= 0.0 ==>
              GetSpdError(firstLocation, secondLocation).value >= 0.0
    ensures firstLocation.accuracy == 0.0 && secondLocation.accuracy == 0.0 ==>
              GetSpdError(firstLocation, secondLocation) == Finite(0.0)
  {
    SpdErrorIsSpeedOfAccuracies(firstLocation, secondLocation);
    SpeedSign(firstLocation.accuracy + secondLocation.accuracy,
              firstLocation.time, secondLocation.time);
  }
}
