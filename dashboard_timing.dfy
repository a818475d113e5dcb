/**
 * The dashboard's green-time suggestion: 20 s plus one second per 300 vehicles,
 * clamped to [min_green, max_green] and rounded the way Python's `round` does, and
 * the 60/40 split of a location's traffic between its NS and EW approaches.
 * Python floats are modelled as exact reals.
 */
module DashboardTiming {

  const BaseGreen: int := 20
  const ScalingFactor: real := 300.0
  const DefaultMinGreen: int := 10
  const DefaultMaxGreen: int := 120

  /** Python's `round(x)`: the nearest integer, and the even one of two equally near. */
  function RoundHalfEven(x: real): (r: int)
    ensures r as real - 0.5 <= x <= r as real + 0.5
    ensures (x == r as real - 0.5 || x == r as real + 0.5) ==> r % 2 == 0
  {
    var f := x.Floor;
    var frac := x - f as real;
    if frac < 0.5 then f
    else if frac > 0.5 then f + 1
    else if f % 2 == 0 then f else f + 1
  }

  lemma RoundHalfEvenMonotone(x: real, y: real)
    requires x <= y
    ensures RoundHalfEven(x) <= RoundHalfEven(y)
  {
  }

  lemma RoundHalfEvenOfInteger(n: int)
    ensures RoundHalfEven(n as real) == n
  {
  }

  /** Python's `int(x)` on a float: the integer part, truncated toward zero. */
  function Trunc(x: real): (n: int)
    ensures 0.0 <= x ==> 0 <= n && n as real <= x < n as real + 1.0
    ensures x < 0.0 ==> n <= 0 && n as real - 1.0 < x <= n as real
  {
    if x >= 0.0 then x.Floor else -((-x).Floor)
  }

  /** `BASE_GREEN + count / SCALING_FACTOR`. */
  function RawGreen(count: int): real {
    BaseGreen as real + count as real / ScalingFactor
  }

  /** `max(min_green, min(max_green, g))`. */
  function Clamp(g: real, minGreen: int, maxGreen: int): (c: real)
    ensures minGreen <= maxGreen ==> minGreen as real <= c <= maxGreen as real
    ensures maxGreen < minGreen ==> c == minGreen as real
    ensures minGreen as real <= g <= maxGreen as real ==> c == g
    ensures minGreen <= maxGreen && maxGreen as real <= g ==> c == maxGreen as real
    ensures g <= minGreen as real ==> c == minGreen as real
  {
    var upper := if g < maxGreen as real then g else maxGreen as real;
    if upper > minGreen as real then upper else minGreen as real
  }

  lemma ClampMonotone(g: real, h: real, minGreen: int, maxGreen: int)
    requires g <= h
    ensures Clamp(g, minGreen, maxGreen) <= Clamp(h, minGreen, maxGreen)
  {
  }

  /** `compute_green_time_from_count(count, min_green, max_green)`. */
  function ComputeGreenTimeFromCount(count: int, minGreen: int, maxGreen: int): (seconds: int)
    ensures minGreen <= maxGreen ==> minGreen <= seconds <= maxGreen
    ensures maxGreen < minGreen ==> seconds == minGreen
    ensures minGreen as real <= RawGreen(count) <= maxGreen as real ==>
              -0.5 <= seconds as real - RawGreen(count) <= 0.5
    ensures minGreen <= maxGreen && maxGreen as real <= RawGreen(count) ==> seconds == maxGreen
    ensures RawGreen(count) <= minGreen as real ==> seconds == minGreen
  {
    RoundHalfEven(Clamp(RawGreen(count), minGreen, maxGreen))
  }

  /** The suggestion with the default bounds [10, 120], as the summary calls it. */
  function DefaultGreenTime(count: int): int {
    ComputeGreenTimeFromCount(count, DefaultMinGreen, DefaultMaxGreen)
  }

  /** More traffic never shortens the suggested green, whatever the bounds. */
  lemma ComputeGreenTimeMonotone(a: int, b: int, minGreen: int, maxGreen: int)
    requires a <= b
    ensures ComputeGreenTimeFromCount(a, minGreen, maxGreen) <= ComputeGreenTimeFromCount(b, minGreen, maxGreen)
  {
    assert RawGreen(a) <= RawGreen(b);
    ClampMonotone(RawGreen(a), RawGreen(b), minGreen, maxGreen);
    RoundHalfEvenMonotone(Clamp(RawGreen(a), minGreen, maxGreen), Clamp(RawGreen(b), minGreen, maxGreen));
  }

  /**
   * With the default bounds the suggestion starts at 20 s for no traffic (the floor
   * of 10 s is never reached by a non-negative count) and stays at 120 s from 30000
   * vehicles on.
   */
  lemma DefaultGreenTimeBounds(count: int)
    ensures DefaultGreenTime(0) == BaseGreen
    ensures count >= 0 ==> BaseGreen <= DefaultGreenTime(count) <= DefaultMaxGreen
    ensures count >= 30000 ==> DefaultGreenTime(count) == DefaultMaxGreen
  {
    RoundHalfEvenOfInteger(BaseGreen);
    RoundHalfEvenOfInteger(DefaultMaxGreen);
    if count >= 0 {
      ComputeGreenTimeMonotone(0, count, DefaultMinGreen, DefaultMaxGreen);
    }
  }

  /**
   * When `count % 300 == 150`, `20 + count / 300` is exactly halfway between two
   * integers and Python rounds it to the even one: 150 gives 20, 450 gives 22.
   */
  lemma DefaultGreenTimeAtHalves(count: int)
    requires 0 <= count < 29850 && count % 300 == 150
    ensures var k := BaseGreen + count / 300;
      DefaultGreenTime(count) == if k % 2 == 0 then k else k + 1
  {
    var q := count / 300;
    var k := BaseGreen + q;
    assert count as real == 300.0 * q as real + 150.0;
    assert RawGreen(count) == k as real + 0.5;
  }

  lemma DefaultGreenTimeExamples()
    ensures DefaultGreenTime(150) == 20 && DefaultGreenTime(450) == 22
    ensures DefaultGreenTime(300) == 21 && DefaultGreenTime(3000) == 30
  {
    DefaultGreenTimeAtHalves(150);
    DefaultGreenTimeAtHalves(450);
    assert RawGreen(300) == 21.0;
    RoundHalfEvenOfInteger(21);
    assert RawGreen(3000) == 30.0;
    RoundHalfEvenOfInteger(30);
  }

  /**
   * The NS/EW split of a location's total: `ns = int(tot * 0.6)` and
   * `ew = int(tot - ns)`. The two shares always add up to `int(tot)`.
   */
  function SplitTraffic(total: real): (split: (int, int))
    ensures split.0 + split.1 == Trunc(total)
    ensures 0.0 <= total ==> 0 <= split.0 && 0 <= split.1 && split.0 as real <= total
    ensures 0.0 <= total ==> split.0 as real <= total * 0.6 < split.0 as real + 1.0
  {
    var ns := Trunc(total * 0.6);
    var ew := Trunc(total - ns as real);
    TruncShift(total, ns);
    (ns, ew)
  }

  /** Removing a whole number `n` of the same sign as `x` commutes with truncation. */
  lemma TruncShift(x: real, n: int)
    requires (0.0 <= x ==> 0 <= n && n as real <= x) && (x < 0.0 ==> n <= 0 && x <= n as real)
    ensures Trunc(x - n as real) == Trunc(x) - n
  {
    if x >= 0.0 {
      assert (x - n as real).Floor == x.Floor - n;
    } else {
      assert (-(x - n as real)).Floor == (-x).Floor + n;
    }
  }

  /** pandas' `round(2)`: the nearest multiple of 0.01, halves to the even hundredth. */
  function RoundTo2(x: real): (r: real)
    ensures -0.005 <= r - x <= 0.005
    ensures (r * 100.0).Floor as real == r * 100.0
  {
    RoundHalfEven(x * 100.0) as real / 100.0
  }
}
