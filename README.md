# EZCurrentMeasure display arithmetic in Dafny

EZCurrentMeasure estimates a sea-water current from two GPS fixes of a drifting
object. `Calculations.kt` turns one drift measurement into what the app shows:
the heading text (true or magnetic, "to" or "from" notation), the direction-error
text, the drift speed in metres per minute (and its conversions to metres per
second and knots) and the worst-case speed error from the two fixes' accuracy
radii. This project models that arithmetic and proves what it promises.

- `java_numerics.dfy` (module `JavaNumerics`): the Kotlin/Java primitives the file
  leans on. `Long` is a 64-bit subset of `int` with wrap-around subtraction.
  `Math.round(double)` is half-up rounding clamped to the `Long` range. A `Double`
  result is a finite real or `+Infinity`, `-Infinity` or `NaN`, as a division by
  zero produces.
- `java_format.dfy` (module `JavaFormat`): `String.format("%d", n)` and
  `String.format("%03d", n)`. For a negative value Java puts the zeros after the
  sign, so `-5` renders as `"-05"`. A decimal parser serves as the inverse that the
  renderings are proved against.
- `calculations.dfy` (module `Calculations`): the functions of `Calculations.kt`.
  `getDirString` is a method that updates one local variable in three conditional
  steps, as the source does, and is proved against the specification function
  `HeadingValue`. The other operations are functions.

Finite doubles are exact `real`s. The magnetic declination, which the source takes
from Android's `GeomagneticField`, is a `real` parameter of `GetDirString`.

Behaviour of the code that the model keeps and proves:
- `getSpeed` and `getSpdError` have no guard on the timestamps. Equal timestamps
  give `+Infinity`, `-Infinity` or `NaN` (`SpeedAtEqualTimes`). Reversed timestamps
  whose difference fits in a `Long` give a positive distance a negative speed
  (`SpeedReversedTimes`).
- The time difference is a `Long` subtraction. Forward timestamps more than
  2^63 - 1 ms apart wrap around, and the speed of a positive distance comes out
  negative (`SpeedOverflowQuirk`).
- 1852 m over one minute is 1852 m/min, about 60 knots. 1852 m over one hour is
  about 30.87 m/min, about one knot (`NauticalMileExamples`).
- A wrapped value in [359.5, 360) shows as "360" (`DisplayedHeadingShape`,
  `HeadingTextExamples`). A value of 360 or more is never reduced
  (`WrapNeverReduces`). A value below -360 stays negative
  (`WrapBelowMinusTurnStaysNegative`).

## Model

| member | source | states |
|---|---|---|
| JavaNumerics.LongSub | app/src/main/java/in/avimarine/seawatercurrentmeasure/Calculations.kt:67 | `secondTime - firstTime` on `Long`s is the exact difference when it fits in 64 bits, and is off by exactly 2^64 when it overflows |
| JavaNumerics.Divide | app/src/main/java/in/avimarine/seawatercurrentmeasure/Calculations.kt:68 | a double division is finite exactly when the divisor is non-zero, and then the quotient times the divisor gives back the dividend; by zero it is +Infinity, -Infinity or NaN according to the sign of the dividend |
| JavaNumerics.MathRound | app/src/main/java/in/avimarine/seawatercurrentmeasure/Calculations.kt:42 | `Math.round` returns the integer r with r - 1/2 <= x < r + 1/2 (half-up), clamped to the `Long` range |
| JavaNumerics.MathRoundIs | app/src/main/java/in/avimarine/seawatercurrentmeasure/Calculations.kt:42 | any integer whose half-open unit interval holds x is the rounding of x |
| JavaNumerics.MathRoundNearest | app/src/main/java/in/avimarine/seawatercurrentmeasure/Calculations.kt:46 | for a value in the `Long` range, rounding moves it by at most 1/2, and a tie goes upward |
| JavaNumerics.MathRoundMonotone | app/src/main/java/in/avimarine/seawatercurrentmeasure/Calculations.kt:42 | rounding is monotone |
| JavaFormat.Digits | app/src/main/java/in/avimarine/seawatercurrentmeasure/Calculations.kt:42 | the decimal digits of a number are non-empty, all digits, and start with '0' only for 0 |
| JavaFormat.DigitsValueOfDigits | app/src/main/java/in/avimarine/seawatercurrentmeasure/Calculations.kt:42 | reading back the digits of n gives n |
| JavaFormat.DigitsLength | app/src/main/java/in/avimarine/seawatercurrentmeasure/Calculations.kt:42 | a number below 10^k has at most k digits |
| JavaFormat.LeadingZerosIgnored | app/src/main/java/in/avimarine/seawatercurrentmeasure/Calculations.kt:42 | zeros put in front of a digit string do not change its value |
| JavaFormat.FormatDecimal | app/src/main/java/in/avimarine/seawatercurrentmeasure/Calculations.kt:46 | `%d` text starts with '-' exactly for a negative value, is digits after the sign, has no leading zero except for "0", and ends in a digit |
| JavaFormat.FormatZeroPadded | app/src/main/java/in/avimarine/seawatercurrentmeasure/Calculations.kt:42 | `%0Nd` text is as long as the larger of N and the `%d` text, has the sign first, and after it only digits whose value is the magnitude (the zeros go after the sign) |
| JavaFormat.NoPaddingWhenWide | app/src/main/java/in/avimarine/seawatercurrentmeasure/Calculations.kt:42 | a value whose `%d` text is already N wide is not padded or cut by `%0Nd` |
| JavaFormat.ParseFormatZeroPadded | app/src/main/java/in/avimarine/seawatercurrentmeasure/Calculations.kt:42 | the zero-padded text of any integer parses back to that integer |
| JavaFormat.ParseFormatDecimal | app/src/main/java/in/avimarine/seawatercurrentmeasure/Calculations.kt:46 | the `%d` text of any integer parses back to that integer |
| JavaFormat.ThreeDigitPadding | app/src/main/java/in/avimarine/seawatercurrentmeasure/Calculations.kt:42 | an integer in [0, 1000) is rendered by `%03d` as exactly three digits |
| JavaFormat.PaddingExamples | app/src/main/java/in/avimarine/seawatercurrentmeasure/Calculations.kt:42 | 7 renders as "007", -5 as "-05", 1234 as "1234", and -12 under `%d` as "-12" |
| Calculations.Mod360 | app/src/main/java/in/avimarine/seawatercurrentmeasure/Calculations.kt:39-41 | the reference reduction of an angle lies in [0, 360) |
| Calculations.Unwrapped | app/src/main/java/in/avimarine/seawatercurrentmeasure/Calculations.kt:25-38 | the pre-wrap heading gives back the azimuth once the 180 of "from" notation is added back and the declination of a magnetic heading is taken off |
| Calculations.Wrap | app/src/main/java/in/avimarine/seawatercurrentmeasure/Calculations.kt:39-41 | the single wrap keeps the angle modulo 360, leaves a non-negative value unchanged, makes any value from -360 up non-negative, and leaves a value below -360 negative |
| Calculations.HeadingValue | app/src/main/java/in/avimarine/seawatercurrentmeasure/Calculations.kt:25-41 | the heading that is rounded has the direction (modulo 360) of the pre-wrap value, and lies in [0, 360) when the pre-wrap value lies in [-360, 360) |
| Calculations.WrapIsModuloOnOneTurn | app/src/main/java/in/avimarine/seawatercurrentmeasure/Calculations.kt:39-41 | on [-360, 360) the wrap lands in [0, 360) and equals the true reduction modulo 360 |
| Calculations.WrapNeverReduces | app/src/main/java/in/avimarine/seawatercurrentmeasure/Calculations.kt:39-41 | a non-negative value, including one of 360 or more, is returned unchanged: 370 stays 370 where modulo 360 gives 10 |
| Calculations.WrapBelowMinusTurnStaysNegative | app/src/main/java/in/avimarine/seawatercurrentmeasure/Calculations.kt:34-41 | a pre-wrap value below -360 is still negative after the single wrap and differs from the true reduction |
| Calculations.WrapExamples | app/src/main/java/in/avimarine/seawatercurrentmeasure/Calculations.kt:39-41 | -v becomes 360 - v; -10 becomes 350 and 10 stays 10 |
| Calculations.HeadingValueInRange | app/src/main/java/in/avimarine/seawatercurrentmeasure/Calculations.kt:25-41 | if the azimuth, plus the declination when magnetic, lies in (-180, 180], the wrapped heading lies in [0, 360) in both notations |
| Calculations.TrueHeadingInRange | app/src/main/java/in/avimarine/seawatercurrentmeasure/Calculations.kt:36-41 | with no declination, an azimuth in (-180, 180] gives a wrapped heading in [0, 360) under "to" and "from" |
| Calculations.DeclinationReversible | app/src/main/java/in/avimarine/seawatercurrentmeasure/Calculations.kt:26-41 | subtracting the declination from the wrapped magnetic heading gives the direction of the wrapped true heading, modulo 360 |
| Calculations.FromNotationIsOpposite | app/src/main/java/in/avimarine/seawatercurrentmeasure/Calculations.kt:36-41 | the "from" heading plus 180 is the "to" heading, modulo 360 |
| Calculations.HeadingText | app/src/main/java/in/avimarine/seawatercurrentmeasure/Calculations.kt:42 | the `%03d` text plus " M" ends with " M" if and only if the heading is magnetic, and parses back to the rounded heading and its magnetic flag |
| Calculations.HeadingTextThreeDigits | app/src/main/java/in/avimarine/seawatercurrentmeasure/Calculations.kt:42 | a rounded heading in [0, 1000) shows as three digits, followed by " M" when magnetic |
| Calculations.GetDirString | app/src/main/java/in/avimarine/seawatercurrentmeasure/Calculations.kt:24-42 | the step-by-step local-variable updates produce `HeadingText` of the half-up rounded `HeadingValue`, so by `HeadingText`'s contract the text parses back to the rounded heading and carries " M" exactly when magnetic |
| Calculations.RoundedHeadingRange | app/src/main/java/in/avimarine/seawatercurrentmeasure/Calculations.kt:39-42 | a wrapped heading in [0, 360) rounds to a whole degree in [0, 360], and to 360 exactly when it is at least 359.5 |
| Calculations.DisplayedHeadingShape | app/src/main/java/in/avimarine/seawatercurrentmeasure/Calculations.kt:25-42 | for an azimuth (plus declination when magnetic) in (-180, 180], the text is three digits plus the mark, and reads "360" when the wrapped value is at least 359.5 |
| Calculations.HeadingTextExamples | app/src/main/java/in/avimarine/seawatercurrentmeasure/Calculations.kt:39-42 | heading 7 shows as "007" and "007 M"; a true azimuth of -0.3 in "to" notation shows as "360" |
| Calculations.GetDirErrorString | app/src/main/java/in/avimarine/seawatercurrentmeasure/Calculations.kt:45-47 | the error text parses back to the half-up rounded error, has '-' only for a negative rounding, and has no padding and no suffix |
| Calculations.ToKnots | app/src/main/java/in/avimarine/seawatercurrentmeasure/Calculations.kt:51-53 | metres per minute times 0.0323974 is within a relative error of 3·10^-7 (about 2.5·10^-7) of the exact conversion, metres per minute times 60/1852 |
| Calculations.ToMPerSec | app/src/main/java/in/avimarine/seawatercurrentmeasure/Calculations.kt:55-57 | metres per second times 60 gives back the metres per minute |
| Calculations.ConversionsLinear | app/src/main/java/in/avimarine/seawatercurrentmeasure/Calculations.kt:51-57 | both conversions are additive and homogeneous, and map 0 to 0 |
| Calculations.ConversionsMonotone | app/src/main/java/in/avimarine/seawatercurrentmeasure/Calculations.kt:51-57 | both conversions are monotone non-decreasing and keep a non-negative speed non-negative |
| Calculations.KnotsFromMPerSec | app/src/main/java/in/avimarine/seawatercurrentmeasure/Calculations.kt:51-57 | the knots value is the metres-per-second value times 1.943844, so the two conversions agree |
| Calculations.MinutesBetween | app/src/main/java/in/avimarine/seawatercurrentmeasure/Calculations.kt:67 | the elapsed minutes are zero exactly for equal timestamps; times 60000 they are the millisecond difference when it fits in a `Long`, and on overflow their sign is the opposite of the time order |
| Calculations.GetSpeed | app/src/main/java/in/avimarine/seawatercurrentmeasure/Calculations.kt:59-69 | the speed is finite exactly when the timestamps differ, and then the speed times the elapsed minutes is the distance |
| Calculations.SpeedFormula | app/src/main/java/in/avimarine/seawatercurrentmeasure/Calculations.kt:66-69 | for distinct times without overflow the speed is dist * 60000 / (secondTime - firstTime) |
| Calculations.SpeedSign | app/src/main/java/in/avimarine/seawatercurrentmeasure/Calculations.kt:66-69 | over forward time whose difference fits in a `Long`, a non-negative distance gives a non-negative speed, and distance 0 gives speed 0 |
| Calculations.SpeedReversedTimes | app/src/main/java/in/avimarine/seawatercurrentmeasure/Calculations.kt:66-69 | with reversed timestamps whose difference fits in a `Long`, a positive distance gives a finite negative speed |
| Calculations.SpeedOverflowQuirk | app/src/main/java/in/avimarine/seawatercurrentmeasure/Calculations.kt:66-69 | forward timestamps whose difference overflows a `Long` give a positive distance a finite negative speed, for example from the smallest to the largest `Long` |
| Calculations.SpeedAtEqualTimes | app/src/main/java/in/avimarine/seawatercurrentmeasure/Calculations.kt:66-69 | equal timestamps give +Infinity, -Infinity or NaN according to the sign of the distance |
| Calculations.NauticalMileExamples | app/src/main/java/in/avimarine/seawatercurrentmeasure/Calculations.kt:51-69 | 1852 m in one minute is 1852 m/min, about 60 knots; 1852 m in one hour is 1852/60 m/min, about one knot |
| Calculations.GetSpdError | app/src/main/java/in/avimarine/seawatercurrentmeasure/Calculations.kt:143-150 | the speed error is finite exactly when the timestamps differ, and then times the elapsed minutes it gives the sum of the two accuracy radii |
| Calculations.SpdErrorIsSpeedOfAccuracies | app/src/main/java/in/avimarine/seawatercurrentmeasure/Calculations.kt:146-150 | the speed error is `getSpeed` applied to the sum of the two accuracies over the same two times |
| Calculations.SpdErrorSign | app/src/main/java/in/avimarine/seawatercurrentmeasure/Calculations.kt:146-150 | over forward time whose difference fits in a `Long`, the speed error is non-negative for non-negative accuracies, and exactly 0 when both accuracies are 0 |

## Left out

- `getDistance` and `getDirection` (Calculations.kt:71-116): thin wrappers over GeographicLib's WGS84 inverse geodesic, a foreign library. Their results enter the model as the plain `dist` and `dir` inputs.
- `getDirError` (Calculations.kt:128-141): it needs Turf's spherical `destination` and `bearing`, foreign code. No contract can be stated without them.
- `timeStamptoDateString` (Calculations.kt:118-122): it needs the system time zone and `java.time` formatting.
- `Location.toPoint` (Calculations.kt:124-126): an adapter to a Mapbox type.
- `GeomagneticField` and `Log.d` in `getDirString` (Calculations.kt:27-33): the Android geomagnetic model and logging. The declination is a parameter instead.
- IEEE 754 rounding: finite doubles and the `Float` accuracy and declination are exact reals. The `Long`-to-`Double` conversion of a time difference is taken as exact, although above 2^53 it would round.
- JavaNumerics.MathRound: `Math.round(NaN) == 0` is not modelled, because the inputs are reals and cannot be NaN.
- JavaFormat.FormatZeroPadded: the digits and minus sign of the default locale are taken to be ASCII. Some locales render other digits.
- JavaFormat.FormatDecimal: the same locale assumption applies to `%d`, and so to the text of `getDirErrorString`.
- Calculations.GetSpeed: a distance or accuracy that is itself infinite or NaN is not modelled. The inputs are finite reals, so `GetSpeed` never returns a `NaN` from a non-zero duration.
