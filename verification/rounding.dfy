/** The payment stored in a result row: the amount printed with four decimals
    and read back as a number. ECMAScript's `toFixed` with four digits takes
    the magnitude, picks the integer n whose n / 10^4 is nearest to it (the
    larger n on a tie) and prints n / 10^4 with the sign in front; magnitudes
    of 10^21 or more are printed unchanged. Reading the text back with
    `parseFloat` returns that value. */
module Rounding {

  /** 10^21, the magnitude from which `toFixed` no longer rounds. */
  const Huge: real := 1_000_000_000_000_000_000_000.0

  function Abs(x: real): real {
    if x < 0.0 then -x else x
  }

  /** `x` has at most four decimal places. */
  predicate FourPlaces(x: real) {
    (x * 10000.0).Floor as real == x * 10000.0
  }

  /** Four decimal places do not depend on the sign. */
  lemma FourPlacesNegate(x: real)
    ensures FourPlaces(x) ==> FourPlaces(-x)
  {
    if FourPlaces(x) {
      var k := (x * 10000.0).Floor;
      assert -x * 10000.0 == (-k) as real;
      assert ((-k) as real).Floor == -k;
    }
  }

  /** Rounding of a non-negative magnitude, ties away from zero. */
  function RoundMagnitude(x: real): (r: real)
    requires x >= 0.0
    ensures r >= 0.0
    ensures x < Huge ==> FourPlaces(r)
    ensures Abs(r - x) <= 0.00005
  {
    if x >= Huge then x
    else
      var n := (x * 10000.0 + 0.5).Floor;
      var r := n as real / 10000.0;
      assert r * 10000.0 == n as real;
      assert (n as real).Floor == n;
      assert n as real <= x * 10000.0 + 0.5 < n as real + 1.0;
      assert -0.5 <= r * 10000.0 - x * 10000.0 <= 0.5;
      r
  }

  /** Printing with four decimals and reading back: never more than half a unit of the fourth
      decimal away from `x`, never of the opposite sign, and with four decimal
      places whenever `toFixed` rounds at all. */
  function Round4(x: real): (r: real)
    ensures Abs(r - x) <= 0.00005
    ensures x >= 0.0 ==> r >= 0.0
    ensures x <= 0.0 ==> r <= 0.0
    ensures Abs(x) < Huge ==> FourPlaces(r)
  {
    if x < 0.0 then
      var m := RoundMagnitude(-x);
      FourPlacesNegate(m);
      -m
    else RoundMagnitude(x)
  }

  /** A value that already has four decimal places is printed exactly. */
  lemma Round4Exact(x: real)
    requires FourPlaces(x)
    ensures Round4(x) == x
  {
    var m := Abs(x);
    if x < 0.0 { FourPlacesNegate(x); }
    var k := (m * 10000.0).Floor;
    assert m * 10000.0 + 0.5 == k as real + 0.5;
    assert (m * 10000.0 + 0.5).Floor == k;
  }

  /** Rounding twice is rounding once. */
  lemma Round4Idempotent(x: real)
    ensures Round4(Round4(x)) == Round4(x)
  {
    if Abs(x) < Huge {
      Round4Exact(Round4(x));
    } else {
      assert Round4(x) == x;
    }
  }

  /** Rounding a magnitude keeps the order of magnitudes. */
  lemma RoundMagnitudeMonotone(a: real, b: real)
    requires 0.0 <= a <= b
    ensures RoundMagnitude(a) <= RoundMagnitude(b)
  {
    if a < Huge {
      var n := (a * 10000.0 + 0.5).Floor;
      if b < Huge {
        var m := (b * 10000.0 + 0.5).Floor;
        assert n as real <= b * 10000.0 + 0.5;
        assert n <= m;
      } else {
        assert n as real < Huge * 10000.0 + 0.5;
        assert n as real <= Huge * 10000.0;
      }
    }
  }

  /** Rounding to four decimals never reverses the order of two amounts. */
  lemma Round4Monotone(x: real, y: real)
    requires x <= y
    ensures Round4(x) <= Round4(y)
  {
    if 0.0 <= x {
      RoundMagnitudeMonotone(x, y);
    } else if y < 0.0 {
      RoundMagnitudeMonotone(-y, -x);
    }
  }
}
