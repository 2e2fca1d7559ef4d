/** `time.Duration` arithmetic: signed 64-bit nanoseconds that wrap around on overflow. */
module Durations {
  const TWO63: int := 0x8000_0000_0000_0000
  const TWO64: int := 0x1_0000_0000_0000_0000
  const HOUR: int := 3_600_000_000_000
  const DAY: int := 24 * HOUR
  /** The largest number of days whose nanoseconds fit 64 signed bits. */
  const MAX_DAYS: int := 106751
  /** The largest number of hours whose nanoseconds fit 64 signed bits. */
  const MAX_HOURS: int := 2562047

  predicate IsInt64(x: int) {
    -TWO63 <= x < TWO63
  }

  type Int64 = x: int | IsInt64(x)

  /** Two's complement reduction, as every 64-bit product is reduced. */
  function Wrap64(x: int): (r: Int64)
    ensures IsInt64(x) ==> r == x
    ensures exists k: int {:trigger TWO64 * k} :: r == x + TWO64 * k
  {
    var r := (x + TWO63) % TWO64 - TWO63;
    assert r == x + TWO64 * -((x + TWO63) / TWO64);
    r
  }

  /** `time.Duration(days) * 24 * time.Hour`, each product wrapping. */
  function DaysDuration(days: Int64): Int64
  {
    Wrap64(Wrap64(days * 24) * HOUR)
  }

  /** `time.Duration(hours) * time.Hour`. */
  function HoursDuration(hours: Int64): Int64
  {
    Wrap64(hours * HOUR)
  }

  /** A day count becomes exactly that many days of nanoseconds if and only if it is at most 106751 either way. */
  lemma DaysExactIff(days: Int64)
    ensures DaysDuration(days) == days * DAY <==> -MAX_DAYS <= days <= MAX_DAYS
  {
  }

  lemma HoursExactIff(hours: Int64)
    ensures HoursDuration(hours) == hours * HOUR <==> -MAX_HOURS <= hours <= MAX_HOURS
  {
  }

  /** From 106752 days on the product is negative, for as many days again: the end of the validity period falls
      before its start. */
  lemma DaysWrapNegative(days: Int64)
    requires MAX_DAYS < days <= 2 * MAX_DAYS + 1
    ensures DaysDuration(days) == days * DAY - TWO64 < 0
  {
  }

  lemma HoursWrapNegative(hours: Int64)
    requires MAX_HOURS < hours <= 2 * MAX_HOURS + 1
    ensures HoursDuration(hours) == hours * HOUR - TWO64 < 0
  {
  }

  /** Both products wrapped one after the other are the whole product wrapped once. */
  lemma DaysBits(days: Int64)
    ensures DaysDuration(days) == Wrap64(days * DAY)
  {
    var inner := Wrap64(days * 24);
    var k: int :| inner == days * 24 + TWO64 * k;
    assert inner * HOUR == days * DAY + TWO64 * (k * HOUR);
    WrapTurns(days * DAY, k * HOUR);
  }

  lemma WrapTurns(x: int, k: int)
    ensures Wrap64(x + TWO64 * k) == Wrap64(x)
  {
    assert (x + TWO64 * k + TWO63) % TWO64 == (x + TWO63) % TWO64;
  }

  /** The wrapped value and the low 64 bits agree up to the sign bit. */
  lemma WrapBits(x: int)
    ensures Wrap64(x) == if x % TWO64 < TWO63 then x % TWO64 else x % TWO64 - TWO64
  {
    var q, r := x / TWO64, x % TWO64;
    assert (x + TWO63) / TWO64 == q + if r < TWO63 then 0 else 1;
  }
}
