/** `calcKcal` and `calcPointsBasedPolicy` of src/exercise/utils/calculator.ts, over exact reals.
    The current year, read from the clock by the source, is a parameter. */
module Calculator {
  import opened Errors
  import opened Decimal

  /** Metabolic equivalent of running at `v` km/h: linear below 7.0, quadratic from 7.0 on. */
  function Met(v: real): real {
    if v < 7.0 then 1.2 + 0.9 * v else 0.6 * v * v - 1.5 * v + 8.0
  }

  /** `Math.ceil` on a real. */
  function CeilInt(x: real): (n: int)
    ensures x <= n as real < x + 1.0
  {
    -((-x).Floor)
  }

  /** `Math.ceil(x * 100) / 100`: the least multiple of 0.01 that is not below `x`. */
  function CeilHundredths(x: real): (r: real)
    ensures x <= r < x + 0.01
    ensures IsHundredths(r)
  {
    var n := CeilInt(x * 100.0);
    ScaleDownHundredths(x, n);
    n as real / 100.0
  }

  /** Dividing the rounded-up count of hundredths by 100 brackets `x` again. */
  lemma ScaleDownHundredths(x: real, n: int)
    requires x * 100.0 <= n as real < x * 100.0 + 1.0
    ensures x <= n as real / 100.0 < x + 0.01
    ensures IsHundredths(n as real / 100.0)
  {
    var r := n as real / 100.0;
    assert r * 100.0 == n as real;
    assert (r * 100.0).Floor == n;
  }

  /** `r` is a whole number of hundredths. */
  predicate IsHundredths(r: real) {
    (r * 100.0).Floor as real == r * 100.0
  }

  /** The calories of `movetime` seconds at `velocity` for a body of `weight` kg, before rounding. */
  function ExactKcal(velocity: real, weight: real, movetime: real): real {
    Met(velocity) * weight * (movetime / 3600.0)
  }

  /** `calcKcal`: the exact calories rounded up to a multiple of 0.01. */
  function CalcKcal(velocity: real, weight: real, movetime: real): (r: real)
    ensures ExactKcal(velocity, weight, movetime) <= r < ExactKcal(velocity, weight, movetime) + 0.01
    ensures IsHundredths(r)
  {
    CeilHundredths(ExactKcal(velocity, weight, movetime))
  }

  /** At any non-negative speed the MET is positive. */
  lemma MetPositive(v: real)
    requires v >= 0.0
    ensures Met(v) > 0.0
  {
    if v >= 7.0 {
      assert 0.6 * v * v >= 0.6 * 7.0 * v;
    }
  }

  /** Faster never burns less: the MET is non-decreasing from 0 on (with a jump up at 7.0). */
  lemma MetMonotone(v: real, w: real)
    requires 0.0 <= v <= w
    ensures Met(v) <= Met(w)
  {
    if v >= 7.0 {
      assert Met(w) - Met(v) == (w - v) * (0.6 * (v + w) - 1.5);
      MulNonNegative(w - v, 0.6 * (v + w) - 1.5);
    } else if w >= 7.0 {
      assert 0.6 * w * w >= 0.6 * 7.0 * w;
    }
  }

  lemma MulNonNegative(a: real, b: real)
    requires a >= 0.0 && b >= 0.0
    ensures a * b >= 0.0
  {
  }

  lemma MulMonotoneReal(a: real, x: real, y: real)
    requires a >= 0.0 && x <= y
    ensures a * x <= a * y
  {
    MulNonNegative(a, y - x);
  }

  lemma MulMonotoneRight(a: real, x: real, y: real)
    requires a >= 0.0 && x <= y
    ensures x * a <= y * a
  {
    MulNonNegative(a, y - x);
  }

  /** The least multiple of 0.01 above is monotone. */
  lemma CeilHundredthsMonotone(x: real, y: real)
    requires x <= y
    ensures CeilHundredths(x) <= CeilHundredths(y)
  {
    MulMonotoneReal(100.0, x, y);
    CeilIntMonotone(x * 100.0, y * 100.0);
  }

  lemma CeilIntMonotone(x: real, y: real)
    requires x <= y
    ensures CeilInt(x) <= CeilInt(y)
  {
    var n, m := CeilInt(x), CeilInt(y);
    assert m as real > n as real - 1.0;
  }

  /** A workout of no time burns nothing: 0 is already a multiple of 0.01. */
  lemma KcalOfNoTime(velocity: real, weight: real)
    ensures CalcKcal(velocity, weight, 0.0) == 0.0
  {
    var r := CalcKcal(velocity, weight, 0.0);
    assert ExactKcal(velocity, weight, 0.0) == 0.0;
    var k := (r * 100.0).Floor;
    assert 0.0 <= k as real < 1.0;
    assert k == 0;
  }

  /** For a non-negative speed and duration, a heavier body never burns less. */
  lemma KcalMonotoneInWeight(velocity: real, w1: real, w2: real, movetime: real)
    requires velocity >= 0.0 && movetime >= 0.0 && w1 <= w2
    ensures CalcKcal(velocity, w1, movetime) <= CalcKcal(velocity, w2, movetime)
  {
    MetPositive(velocity);
    MulMonotoneReal(Met(velocity), w1, w2);
    MulMonotoneRight(movetime / 3600.0, Met(velocity) * w1, Met(velocity) * w2);
    CeilHundredthsMonotone(ExactKcal(velocity, w1, movetime), ExactKcal(velocity, w2, movetime));
  }

  /** For a non-negative speed and weight, a longer workout never burns less. */
  lemma KcalMonotoneInMovetime(velocity: real, weight: real, m1: real, m2: real)
    requires velocity >= 0.0 && weight >= 0.0 && m1 <= m2
    ensures CalcKcal(velocity, weight, m1) <= CalcKcal(velocity, weight, m2)
  {
    MetPositive(velocity);
    MulNonNegative(Met(velocity), weight);
    MulMonotoneReal(Met(velocity) * weight, m1 / 3600.0, m2 / 3600.0);
    CeilHundredthsMonotone(ExactKcal(velocity, weight, m1), ExactKcal(velocity, weight, m2));
  }

  /** For a non-negative weight and duration, a faster workout never burns less. */
  lemma KcalMonotoneInVelocity(v1: real, v2: real, weight: real, movetime: real)
    requires 0.0 <= v1 <= v2 && weight >= 0.0 && movetime >= 0.0
    ensures CalcKcal(v1, weight, movetime) <= CalcKcal(v2, weight, movetime)
  {
    MetMonotone(v1, v2);
    MulMonotoneRight(weight, Met(v1), Met(v2));
    MulMonotoneRight(movetime / 3600.0, Met(v1) * weight, Met(v2) * weight);
    CeilHundredthsMonotone(ExactKcal(v1, weight, movetime), ExactKcal(v2, weight, movetime));
  }

  // ---------------------------------------------------------------------------------------
  // `parseInt(s)` with no radix, as the age band reads the birth year.

  /** The white space and line terminators `parseInt` skips in front of a number. */
  predicate IsSpace(c: char) {
    c == '\t' || c == '\n' || c == '\U{000B}' || c == '\U{000C}' || c == '\r' || c == ' '
    || c == '\U{00A0}' || c == '\U{1680}' || ('\U{2000}' <= c <= '\U{200A}')
    || c == '\U{2028}' || c == '\U{2029}' || c == '\U{202F}' || c == '\U{205F}'
    || c == '\U{3000}' || c == '\U{FEFF}'
  }

  function TrimStart(s: string): (r: string)
    ensures |r| <= |s| && r == s[|s| - |r|..]
    ensures r == [] || !IsSpace(r[0])
    ensures forall i :: 0 <= i < |s| - |r| ==> IsSpace(s[i])
  {
    if s != [] && IsSpace(s[0]) then TrimStart(s[1..]) else s
  }

  /** The number of leading characters of `s` that satisfy `IsDigit`. */
  function DigitRun(s: string): (n: nat)
    ensures n <= |s| && AllDigits(s[..n])
    ensures n < |s| ==> !IsDigit(s[n])
  {
    if s != [] && IsDigit(s[0]) then
      var n := 1 + DigitRun(s[1..]);
      assert s[..n] == [s[0]] + s[1..][..n - 1];
      n
    else 0
  }

  predicate IsHexDigit(c: char) {
    IsDigit(c) || 'a' <= c <= 'f' || 'A' <= c <= 'F'
  }

  function HexDigitValue(c: char): nat
    requires IsHexDigit(c)
  {
    if IsDigit(c) then DigitValue(c)
    else if 'a' <= c <= 'f' then c as int - 'a' as int + 10
    else c as int - 'A' as int + 10
  }

  function HexRun(s: string): (n: nat)
    ensures n <= |s| && forall i :: 0 <= i < n ==> IsHexDigit(s[i])
    ensures n < |s| ==> !IsHexDigit(s[n])
  {
    if s != [] && IsHexDigit(s[0]) then 1 + HexRun(s[1..]) else 0
  }

  function HexValue(s: string): nat
    requires forall i :: 0 <= i < |s| ==> IsHexDigit(s[i])
    decreases |s|
  {
    if s == [] then 0 else HexValue(s[..|s| - 1]) * 16 + HexDigitValue(s[|s| - 1])
  }

  /** The magnitude `parseInt` reads after an optional sign: a "0x"/"0X" prefix selects base 16,
      otherwise base 10; the longest run of valid digits counts, and an empty run is NaN. */
  function ParseMagnitude(s: string): (r: Option<nat>)
    ensures r.Some? ==> s != [] && IsDigit(s[0])
    ensures s != [] && IsDigit(s[0]) && !(|s| >= 2 && s[0] == '0' && (s[1] == 'x' || s[1] == 'X')) ==> r.Some?
  {
    if |s| >= 2 && s[0] == '0' && (s[1] == 'x' || s[1] == 'X') then
      var n := HexRun(s[2..]);
      if n == 0 then None else Some(HexValue(s[2..][..n]))
    else
      var n := DigitRun(s);
      if n == 0 then None else Some(Value(s[..n]))
  }

  /** What follows one leading sign, if there is one. */
  function Unsigned(t: string): string {
    if t != [] && (t[0] == '-' || t[0] == '+') then t[1..] else t
  }

  /** `parseInt(s)`: `None` is NaN. A number is read exactly when, after the white space and
      the sign, a digit comes first and, behind a "0x" prefix, a hex digit; a negative result
      needs a '-' sign, and a '-' sign never gives a positive one. */
  function ParseInt(s: string): (r: Option<int>)
    ensures var u := Unsigned(TrimStart(s));
      && (r.Some? ==> u != [] && IsDigit(u[0]))
      && (u != [] && IsDigit(u[0]) && !(|u| >= 2 && u[0] == '0' && (u[1] == 'x' || u[1] == 'X'))
          ==> r.Some?)
      && (|u| >= 2 && u[0] == '0' && (u[1] == 'x' || u[1] == 'X') ==> (r.Some? <==> HexRun(u[2..]) > 0))
    ensures r.Some? && r.value < 0 ==> TrimStart(s)[0] == '-'
    ensures r.Some? && TrimStart(s)[0] == '-' ==> r.value <= 0
  {
    ParseTrimmed(TrimStart(s))
  }

  /** What `parseInt` reads once the white space is behind it. */
  function ParseTrimmed(t: string): Option<int> {
    match ParseMagnitude(Unsigned(t))
    case Some(m) => Some(Signed(t[0] == '-', m))
    case None => None
  }

  /** A magnitude under a sign. */
  function Signed(negative: bool, m: nat): int {
    if negative then -(m as int) else m as int
  }

  /** A string of decimal digits parses as the number it denotes. */
  lemma ParseIntOfDigits(s: string)
    requires |s| >= 1 && AllDigits(s)
    ensures ParseInt(s) == Some(Value(s))
  {
    ParseIntStopsAtNonDigit(s, []);
    assert s + [] == s;
  }

  /** Digits after the first non-digit are ignored: "1990-05-01" reads as 1990. */
  lemma ParseIntStopsAtNonDigit(s: string, rest: string)
    requires |s| >= 1 && AllDigits(s) && (rest == [] || !IsDigit(rest[0]))
    requires |s| >= 2 || rest == [] || (rest[0] != 'x' && rest[0] != 'X') || s[0] != '0'
    ensures ParseInt(s + rest) == Some(Value(s))
  {
    var w := s + rest;
    MagnitudeStops(s, rest);
    assert [] + w == w;
    ParseIntOfSign([], w, Value(s));
  }

  lemma MagnitudeStops(s: string, rest: string)
    requires |s| >= 1 && AllDigits(s) && (rest == [] || !IsDigit(rest[0]))
    requires |s| >= 2 || rest == [] || (rest[0] != 'x' && rest[0] != 'X') || s[0] != '0'
    ensures ParseMagnitude(s + rest) == Some(Value(s))
  {
    var w := s + rest;
    if |w| >= 2 {
      assert w[1] == if |s| >= 2 then s[1] else rest[0];
    }
    DigitRunStops(s, rest);
    assert w[..|s|] == s;
  }

  lemma {:induction false} DigitRunStops(s: string, rest: string)
    requires AllDigits(s) && (rest == [] || !IsDigit(rest[0]))
    ensures DigitRun(s + rest) == |s|
    decreases |s|
  {
    if s != [] {
      assert (s + rest)[1..] == s[1..] + rest;
      DigitRunStops(s[1..], rest);
    } else {
      assert s + rest == rest;
    }
  }

  /** Leading white space is skipped up to the first other character. */
  lemma {:induction false} TrimSpaces(ws: string, t: string)
    requires forall i :: 0 <= i < |ws| ==> IsSpace(ws[i])
    requires t == [] || !IsSpace(t[0])
    ensures TrimStart(ws + t) == t
    decreases |ws|
  {
    if ws == [] {
      assert ws + t == t;
    } else {
      assert (ws + t)[1..] == ws[1..] + t;
      TrimSpaces(ws[1..], t);
    }
  }

  /** Leading white space does not change what `parseInt` reads. */
  lemma ParseIntSkipsSpace(ws: string, t: string)
    requires forall i :: 0 <= i < |ws| ==> IsSpace(ws[i])
    requires t == [] || !IsSpace(t[0])
    ensures ParseInt(ws + t) == ParseInt(t)
  {
    TrimSpaces(ws, t);
    TrimSpaces([], t);
    assert [] + t == t;
  }

  /** An optional sign, then decimal digits up to the first non-digit: the sign applied to the
      value of the digits. */
  lemma ParseIntSigned(sign: string, digits: string, rest: string)
    requires sign == "" || sign == "+" || sign == "-"
    requires |digits| >= 1 && AllDigits(digits) && (rest == [] || !IsDigit(rest[0]))
    requires |digits| >= 2 || rest == [] || (rest[0] != 'x' && rest[0] != 'X') || digits[0] != '0'
    ensures ParseInt(sign + (digits + rest)) == Some(Signed(sign == "-", Value(digits)))
  {
    MagnitudeStops(digits, rest);
    ParseIntOfSign(sign, digits + rest, Value(digits));
  }

  /** A sign, then a number whose magnitude is `m`. */
  lemma ParseIntOfSign(sign: string, w: string, m: nat)
    requires sign == "" || sign == "+" || sign == "-"
    requires w != [] && IsDigit(w[0]) && ParseMagnitude(w) == Some(m)
    ensures ParseInt(sign + w) == Some(Signed(sign == "-", m))
  {
    SignThenNumber(sign, w);
    TrimSpaces([], sign + w);
    assert [] + (sign + w) == sign + w;
    ParseIntOfTrimmed(sign + w, sign + w, m);
  }

  /** An optional sign, "0x" or "0X", then hex digits up to the first other character: the
      sign applied to the base-16 value of the digits. */
  lemma ParseIntHex(sign: string, x: char, hex: string, rest: string)
    requires sign == "" || sign == "+" || sign == "-"
    requires x == 'x' || x == 'X'
    requires |hex| >= 1 && (forall i :: 0 <= i < |hex| ==> IsHexDigit(hex[i]))
    requires rest == [] || !IsHexDigit(rest[0])
    ensures ParseInt(sign + (['0', x] + (hex + rest))) == Some(Signed(sign == "-", HexValue(hex)))
  {
    HexMagnitude(x, hex, rest);
    ParseIntOfSign(sign, ['0', x] + (hex + rest), HexValue(hex));
  }

  /** A sign in front of a digit is read as the sign, and white space stops before it. */
  lemma SignThenNumber(sign: string, w: string)
    requires sign == "" || sign == "+" || sign == "-"
    requires w != [] && IsDigit(w[0])
    ensures sign + w != [] && !IsSpace((sign + w)[0])
    ensures Unsigned(sign + w) == w
    ensures ((sign + w)[0] == '-') == (sign == "-")
  {
    if sign != "" {
      assert (sign + w)[1..] == w;
    }
  }

  lemma HexMagnitude(x: char, hex: string, rest: string)
    requires x == 'x' || x == 'X'
    requires |hex| >= 1 && (forall i :: 0 <= i < |hex| ==> IsHexDigit(hex[i]))
    requires rest == [] || !IsHexDigit(rest[0])
    ensures ParseMagnitude(['0', x] + (hex + rest)) == Some(HexValue(hex))
  {
    var w := ['0', x] + (hex + rest);
    assert w[2..] == hex + rest;
    HexRunStops(hex, rest);
    assert (hex + rest)[..|hex|] == hex;
  }

  /** Once white space and sign are known, the result is the signed magnitude. */
  lemma ParseIntOfTrimmed(s: string, t: string, m: nat)
    requires TrimStart(s) == t && t != [] && ParseMagnitude(Unsigned(t)) == Some(m)
    ensures ParseInt(s) == Some(Signed(t[0] == '-', m))
  {
  }

  lemma {:induction false} HexRunStops(s: string, rest: string)
    requires forall i :: 0 <= i < |s| ==> IsHexDigit(s[i])
    requires rest == [] || !IsHexDigit(rest[0])
    ensures HexRun(s + rest) == |s|
    decreases |s|
  {
    if s != [] {
      assert (s + rest)[1..] == s[1..] + rest;
      HexRunStops(s[1..], rest);
    } else {
      assert s + rest == rest;
    }
  }

  // ---------------------------------------------------------------------------------------
  // The age band and the policy lookup.

  /** `birth.substring(0, 4)`. */
  function Prefix4(s: string): (r: string)
    ensures |r| == if |s| < 4 then |s| else 4
    ensures r == s[..|r|]
  {
    if |s| < 4 then s else s[..4]
  }

  /** The age bands of the points policy. */
  type Band = b: int | b == 20 || b == 30 || b == 40 || b == 50 || b == 60 || b == 70 witness 20

  /** `Math.floor((currentYear - year) / 10) * 10`: the age rounded down to its decade. */
  function DecadeAge(year: int, currentYear: int): (age: int)
    ensures age % 10 == 0 && age <= currentYear - year < age + 10
  {
    ((currentYear - year) / 10) * 10
  }

  /** `age >= 70 ? 70 : age <= 20 ? 20 : age`. */
  function ClampBand(age: int): (b: int)
    ensures age >= 70 ==> b == 70
    ensures age <= 20 ==> b == 20
    ensures 20 < age < 70 ==> b == age
  {
    if age >= 70 then 70 else if age <= 20 then 20 else age
  }

  /** A clamped decade is one of the six bands. */
  lemma ClampedDecadeIsBand(age: int)
    requires age % 10 == 0
    ensures var b := ClampBand(age); b == 20 || b == 30 || b == 40 || b == 50 || b == 60 || b == 70
  {
  }

  /** The band of a birth date: `None` when its first four characters do not parse (NaN), in
      which case the table lookup throws. */
  function AgeBand(birth: string, currentYear: int): (r: Option<Band>)
    ensures r.Some? <==> ParseInt(Prefix4(birth)).Some?
    ensures r.Some? ==> r.value == ClampBand(DecadeAge(ParseInt(Prefix4(birth)).value, currentYear))
  {
    match ParseInt(Prefix4(birth))
    case None => None
    case Some(y) =>
      var age := DecadeAge(y, currentYear);
      ClampedDecadeIsBand(age);
      Some(ClampBand(age))
  }

  /** A birth date that starts with a four-digit year falls in the band of its age in decades. */
  lemma AgeBandOfYear(birth: string, currentYear: int)
    requires |birth| >= 4 && AllDigits(birth[..4])
    ensures AgeBand(birth, currentYear) == Some(ClampBand(DecadeAge(Value(birth[..4]), currentYear)))
  {
    ParseIntOfDigits(birth[..4]);
  }

  /** Only the first four characters of the birth date matter. */
  lemma AgeBandReadsYearOnly(b1: string, b2: string, currentYear: int)
    requires Prefix4(b1) == Prefix4(b2)
    ensures AgeBand(b1, currentYear) == AgeBand(b2, currentYear)
  {
  }

  datatype Sex = M | W

  /** `policy[band][sex]` has an entry only for "M" and "W". */
  function SexKey(s: string): (r: Option<Sex>)
    ensures r == Some(M) <==> s == "M"
    ensures r == Some(W) <==> s == "W"
  {
    if s == "M" then Some(M) else if s == "W" then Some(W) else None
  }

  /** `[minVelo, maxVelo]` of one band and sex. */
  datatype Thresholds = Thresholds(minVelo: real, maxVelo: real)

  /** The points policy table: thresholds for every band and sex. */
  type PointsPolicy = (Band, Sex) -> Thresholds

  /** No minimum threshold is 0 (a division by it would give Infinity). */
  ghost predicate NonZeroMinimums(policy: PointsPolicy) {
    forall b: Band, s: Sex :: policy(b, s).minVelo != 0.0
  }

  /** The tier before rounding: 2 at or above the maximum, 1 at or below the minimum, else the
      ratio to the minimum. */
  function SavedPoints(velocity: real, th: Thresholds): real
    requires th.minVelo != 0.0
  {
    if velocity >= th.maxVelo then 2.0
    else if velocity <= th.minVelo then 1.0
    else velocity / th.minVelo
  }

  /** `calcPointsBasedPolicy`: `None` is the TypeError of a lookup with an unparsable birth year
      or a sex other than "M" and "W". */
  function CalcPoints(velocity: real, policy: PointsPolicy, birth: string, sex: string, currentYear: int): (r: Option<real>)
    requires NonZeroMinimums(policy)
    ensures r.Some? <==> AgeBand(birth, currentYear).Some? && SexKey(sex).Some?
    ensures r.Some? ==> var th := policy(AgeBand(birth, currentYear).value, SexKey(sex).value);
      && IsHundredths(r.value)
      && (velocity >= th.maxVelo ==> r.value == 2.0)
      && (velocity < th.maxVelo && velocity <= th.minVelo ==> r.value == 1.0)
      && (th.minVelo < velocity < th.maxVelo ==>
            velocity / th.minVelo <= r.value < velocity / th.minVelo + 0.01)
  {
    match (AgeBand(birth, currentYear), SexKey(sex))
    case (Some(band), Some(s)) =>
      var th := policy(band, s);
      var p := CeilHundredths(SavedPoints(velocity, th));
      CeilOfWhole(SavedPoints(velocity, th));
      Some(p)
    case _ => None
  }

  lemma RatioAboveOne(a: real, b: real)
    requires 0.0 < b < a
    ensures a / b > 1.0
  {
    var q := a / b;
    assert q * b == a;
    if q <= 1.0 {
      MulMonotoneReal(b, q, 1.0);
    }
  }

  lemma RatioBelowTwo(a: real, b: real)
    requires 0.0 < b && a < 2.0 * b
    ensures a / b < 2.0
  {
    var q := a / b;
    assert q * b == a;
    if q >= 2.0 {
      MulMonotoneReal(b, 2.0, q);
    }
  }

  /** Rounding leaves the tiers 1 and 2 as they are. */
  lemma CeilOfWhole(x: real)
    ensures x == 1.0 ==> CeilHundredths(x) == 1.0
    ensures x == 2.0 ==> CeilHundredths(x) == 2.0
  {
  }

  /** Between the thresholds, with a positive minimum, the points are more than 1. */
  lemma MiddleTierAboveOne(velocity: real, policy: PointsPolicy, birth: string, sex: string, currentYear: int)
    requires NonZeroMinimums(policy)
    requires CalcPoints(velocity, policy, birth, sex, currentYear).Some?
    requires var th := policy(AgeBand(birth, currentYear).value, SexKey(sex).value);
      0.0 < th.minVelo < velocity < th.maxVelo
    ensures CalcPoints(velocity, policy, birth, sex, currentYear).value > 1.0
  {
    var th := policy(AgeBand(birth, currentYear).value, SexKey(sex).value);
    RatioAboveOne(velocity, th.minVelo);
  }

  /** When the maximum is at most twice a positive minimum, the points never exceed 2. */
  lemma PointsAtMostTwo(velocity: real, policy: PointsPolicy, birth: string, sex: string, currentYear: int)
    requires NonZeroMinimums(policy)
    requires CalcPoints(velocity, policy, birth, sex, currentYear).Some?
    requires var th := policy(AgeBand(birth, currentYear).value, SexKey(sex).value);
      0.0 < th.minVelo && th.maxVelo <= 2.0 * th.minVelo
    ensures CalcPoints(velocity, policy, birth, sex, currentYear).value <= 2.0
  {
    var th := policy(AgeBand(birth, currentYear).value, SexKey(sex).value);
    var r := CalcPoints(velocity, policy, birth, sex, currentYear).value;
    if th.minVelo < velocity < th.maxVelo {
      RatioBelowTwo(velocity, th.minVelo);
      var k := (r * 100.0).Floor;
      assert (k as real) < 201.0;
      assert k <= 200;
    }
  }
}
