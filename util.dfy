/** src/util.rs: the time-of-use tariff and the energy-to-power conversion. */
module Util {
  import opened Outcomes
  import opened Calendar

  // ---------------------------------------------------------------------
  // Machine integers
  // ---------------------------------------------------------------------

  const MinI64: int := -0x8000_0000_0000_0000
  const MaxI64: int := 0x7FFF_FFFF_FFFF_FFFF

  type I64 = x: int | -0x8000_0000_0000_0000 <= x <= 0x7FFF_FFFF_FFFF_FFFF
  type U64 = x: int | 0 <= x <= 0xFFFF_FFFF_FFFF_FFFF

  function Abs(x: int): nat {
    if x < 0 then -x else x
  }

  /** Rust's `n as i64` for a `u64`: the same 64 bits read as two's complement,
      so periods above `i64::MAX` become negative. */
  function AsI64(n: U64): (r: I64)
    ensures (r - n) % 0x1_0000_0000_0000_0000 == 0
    ensures r == n <==> n <= MaxI64
    ensures r < 0 <==> n > MaxI64
  {
    if n <= MaxI64 then n else n - 0x1_0000_0000_0000_0000
  }

  /** Rust's `/` on signed integers, which rounds the quotient toward zero
      (Dafny's own `/` is Euclidean: -179 / 60 is -3 there, -2 in Rust). */
  function TruncDiv(a: int, b: int): (q: int)
    requires b != 0
    ensures a >= 0 && b > 0 ==> q == a / b
  {
    var q := Abs(a) / Abs(b);
    if (a < 0) == (b < 0) then q else -q
  }

  /** Multiplying by a factor of at least one does not shrink a natural. */
  lemma {:induction false} MulAtLeast(x: nat, y: int)
    requires y >= 1
    ensures x <= x * y
    decreases y
  {
    if y > 1 {
      MulAtLeast(x, y - 1);
      assert x * y == x * (y - 1) + x;
    }
  }

  /** Euclidean division on naturals, the core of both quotients. */
  lemma NatDivBounds(A: nat, B: nat)
    requires B > 0
    ensures (A / B) * B <= A < (A / B + 1) * B
    ensures 0 <= A / B <= A
    ensures A / B == 0 <==> A < B
  {
    var q, r := A / B, A % B;
    assert A == q * B + r && 0 <= r < B;
    assert (q + 1) * B == q * B + B;
    assert q >= 0;
    MulAtLeast(q, B);
  }

  /** The quotient's magnitude is the Euclidean quotient of the magnitudes. */
  lemma AbsTruncDiv(a: int, b: int)
    requires b != 0
    ensures Abs(TruncDiv(a, b)) == Abs(a) / Abs(b)
    ensures TruncDiv(a, b) == 0 || (TruncDiv(a, b) < 0 <==> (a < 0) != (b < 0))
  {
    var q := Abs(a) / Abs(b);
    NatDivBounds(Abs(a), Abs(b));
    if (a < 0) == (b < 0) {
      assert TruncDiv(a, b) == q;
    } else {
      assert TruncDiv(a, b) == -q;
    }
  }

  /** The defining property of truncating division: the remainder is smaller
      than the divisor in magnitude and is zero or has the dividend's sign. */
  lemma TruncDivRemainder(a: int, b: int)
    requires b != 0
    ensures var rem := a - TruncDiv(a, b) * b;
      Abs(rem) < Abs(b) && (rem == 0 || (rem < 0 <==> a < 0))
  {
    var A: int, B: int := Abs(a), Abs(b);
    var q0: int, r0: int := A / B, A % B;
    assert A == q0 * B + r0 && 0 <= r0 < B;
    var q := TruncDiv(a, b);
    if a >= 0 && b > 0 {
      assert a - q * b == r0;
    } else if a >= 0 {
      assert q * b == q0 * B;
      assert a - q * b == r0;
    } else if b > 0 {
      assert q * b == -(q0 * B);
      assert a - q * b == -r0;
    } else {
      assert q == q0 && b == -B && a == -A;
      assert q * b == -(q0 * B);
      assert a - q * b == -r0;
    }
  }

  /** The quotient is zero or has the sign of `a * b`, and never exceeds the
      dividend in magnitude: |q| * |b| <= |a| < (|q| + 1) * |b|. */
  lemma TruncDivSignAndMagnitude(a: int, b: int)
    requires b != 0
    ensures var q := TruncDiv(a, b);
      (q == 0 || (q < 0 <==> (a < 0) != (b < 0)))
      && Abs(q) * Abs(b) <= Abs(a) < (Abs(q) + 1) * Abs(b)
      && Abs(q) <= Abs(a)
      && (q == 0 <==> Abs(a) < Abs(b))
  {
    AbsTruncDiv(a, b);
    NatDivBounds(Abs(a), Abs(b));
  }

  /** The example that tells the two divisions apart. */
  lemma TruncDivDiffersFromEuclidean()
    ensures TruncDiv(-179, 60) == -2 && -179 / 60 == -3
    ensures TruncDiv(179, 60) == 2 && TruncDiv(-120, 60) == -2
  {
  }

  // ---------------------------------------------------------------------
  // joules_to_watts (src/util.rs:11-19)
  // ---------------------------------------------------------------------

  /** The two ways `joules_to_watts` can panic. */
  datatype ArithmeticPanic =
    | AbsOverflow     // `i64::MIN.abs()` overflows (overflow-checked build)
    | DivideByZero    // `value / 0`

  /** Average power in watts of `value` joules spread over `periodSeconds`:
      zero for no energy or for less than a joule per second, otherwise the
      quotient rounded toward zero. */
  function JoulesToWatts(value: I64, periodSeconds: U64): (r: Result<I64, ArithmeticPanic>)
    ensures r.Failure? <==> value != 0 && (value == MinI64 || periodSeconds == 0)
    ensures r.Failure? ==> r.error == (if value == MinI64 then AbsOverflow else DivideByZero)
    ensures value == 0 ==> r == Success(0)
  {
    var secs := AsI64(periodSeconds);
    if value == 0 then Success(0)
    else if value == MinI64 then Failure(AbsOverflow)
    else if Abs(value) < secs then Success(0)
    else if secs == 0 then Failure(DivideByZero)
    else
      TruncDivSignAndMagnitude(value, secs);
      Success(TruncDiv(value, secs))
  }

  /** Below one joule per second of the period the answer is zero. */
  lemma JoulesToWattsShortCircuit(value: I64, periodSeconds: U64)
    requires periodSeconds <= MaxI64
    requires value == 0 || (value != MinI64 && Abs(value) < periodSeconds)
    ensures JoulesToWatts(value, periodSeconds) == Success(0)
  {
  }

  /** The short-circuit agrees with plain truncating division: for every
      positive period that fits an i64 the result is `value / period`. */
  lemma JoulesToWattsIsTruncDiv(value: I64, periodSeconds: U64)
    requires 0 < periodSeconds <= MaxI64
    requires value != MinI64
    ensures JoulesToWatts(value, periodSeconds) == Success(TruncDiv(value, periodSeconds))
  {
    TruncDivSignAndMagnitude(value, periodSeconds);
  }

  /** Sign and magnitude are kept: the power is zero or has the energy's sign,
      and is the largest whole number of watts the energy covers. */
  lemma JoulesToWattsSignAndMagnitude(value: I64, periodSeconds: U64)
    requires 0 < periodSeconds <= MaxI64
    requires value != MinI64
    ensures var w := JoulesToWatts(value, periodSeconds).value;
      (w == 0 || (w < 0 <==> value < 0))
      && Abs(w) <= Abs(value)
      && Abs(w) * periodSeconds <= Abs(value) < (Abs(w) + 1) * periodSeconds
  {
    JoulesToWattsIsTruncDiv(value, periodSeconds);
    TruncDivSignAndMagnitude(value, periodSeconds);
  }

  /** A period above `i64::MAX` wraps to a negative divisor and flips the sign. */
  lemma JoulesToWattsWrappedPeriod()
    ensures JoulesToWatts(120, 0xFFFF_FFFF_FFFF_FFC4) == Success(-2)
  {
    assert AsI64(0xFFFF_FFFF_FFFF_FFC4) == -60;
  }

  /** For every period above `i64::MAX` the cast makes the divisor negative:
      no value is below it in magnitude, so the short-circuit never fires and
      the result is the truncating quotient by the wrapped, negative period. */
  lemma JoulesToWattsWrappedPeriodIsTruncDiv(value: I64, periodSeconds: U64)
    requires periodSeconds > MaxI64
    requires value != 0 && value != MinI64
    ensures AsI64(periodSeconds) < 0
    ensures JoulesToWatts(value, periodSeconds) == Success(TruncDiv(value, AsI64(periodSeconds)))
  {
  }

  /** Worked examples at the per-minute period. */
  lemma JoulesToWattsExamples()
    ensures JoulesToWatts(0, 60) == Success(0)
    ensures JoulesToWatts(30, 60) == Success(0)
    ensures JoulesToWatts(-30, 60) == Success(0)
    ensures JoulesToWatts(120, 60) == Success(2)
    ensures JoulesToWatts(-120, 60) == Success(-2)
    ensures JoulesToWatts(179, 60) == Success(2)
    ensures JoulesToWatts(-179, 60) == Success(-2)
    ensures JoulesToWatts(1800, 60) == Success(30)
    ensures JoulesToWatts(5, 0) == Failure(DivideByZero)
  {
  }

  // ---------------------------------------------------------------------
  // electricity_rate (src/util.rs:3-9)
  // ---------------------------------------------------------------------

  /** The two tariff tiers; the price is only ever one of two constants. */
  datatype Rate = OffPeak | Peak

  /** The tier's price (7.50 and 29.560) in thousandths. */
  function PriceThousandths(rate: Rate): (p: nat)
    ensures p == 7500 || p == 29560
    ensures (p == 7500) <==> rate == OffPeak
  {
    match rate
    case OffPeak => 7500
    case Peak => 29560
  }

  const OffPeakStart: nat := 23 * 3600 + 30 * 60   // 23:30:00
  const OffPeakEnd: nat := 5 * 3600 + 30 * 60      // 05:30:00

  /** The off-peak window [23:30, 24:00) together with [00:00, 05:30). */
  predicate InOffPeakWindow(time: TimeOfDay) {
    OffPeakStart <= time.SecondsFromMidnight() || time.SecondsFromMidnight() < OffPeakEnd
  }

  /** The tariff in force at a clock time, whatever the date. */
  function ElectricityRate(time: TimeOfDay): (r: Rate)
    requires time.Valid()
    ensures r == OffPeak <==> InOffPeakWindow(time)
    ensures r == Peak <==> OffPeakEnd <= time.SecondsFromMidnight() < OffPeakStart
  {
    if (time.hour == 23 && time.minute >= 30) || Before(time, TimeOfDay(5, 30, 0, 0)) then OffPeak
    else Peak
  }

  /** The window's edges, second by second. */
  lemma ElectricityRateBoundaries()
    ensures ElectricityRate(TimeOfDay(23, 29, 59, 0)) == Peak
    ensures ElectricityRate(TimeOfDay(23, 30, 0, 0)) == OffPeak
    ensures ElectricityRate(TimeOfDay(5, 29, 59, 0)) == OffPeak
    ensures ElectricityRate(TimeOfDay(5, 29, 59, 999_999_999)) == OffPeak
    ensures ElectricityRate(TimeOfDay(5, 30, 0, 0)) == Peak
    ensures ElectricityRate(TimeOfDay(0, 0, 0, 0)) == OffPeak
    ensures ElectricityRate(TimeOfDay(23, 59, 59, 0)) == OffPeak
  {
  }

  /** The tariff depends on the clock time only through its whole seconds. */
  lemma ElectricityRateIgnoresFraction(t: TimeOfDay, u: TimeOfDay)
    requires t.Valid() && u.Valid()
    requires t.SecondsFromMidnight() == u.SecondsFromMidnight()
    ensures ElectricityRate(t) == ElectricityRate(u)
  {
  }
}
