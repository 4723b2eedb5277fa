/**
 * The part of Python's `uuid.UUID` the core uses: building a version-1 UUID
 * from its RFC 4122 fields (section 4.1.2 of RFC 4122) and reading back its
 * 60-bit `time` (section 4.1.4), the count of 100-ns intervals since
 * 1582-10-15 00:00:00.
 */
module Uuid {

  const TwoTo8: nat := 0x100
  const TwoTo12: nat := 0x1000
  const TwoTo14: nat := 0x4000
  const TwoTo16: nat := 0x1_0000
  const TwoTo32: nat := 0x1_0000_0000
  const TwoTo48: nat := 0x1_0000_0000_0000
  const TwoTo60: nat := 0x1000_0000_0000_0000

  /** The six integer fields of `UUID(fields=...)`. */
  datatype Uuid = Uuid(
    timeLow: nat,
    timeMid: nat,
    timeHiVersion: nat,
    clockSeqHiVariant: nat,
    clockSeqLow: nat,
    node: nat)

  /**
   * The field split done by `uuid_from_timestamp` (rehydrate.py:32-40): Python's
   * `&` with a mask and `>>` on a non-negative or negative int are Dafny's
   * Euclidean `%` and `/` by a power of two.
   */
  function FromTimestamp(timestamp: int, clockSeq: int, node: nat): (u: Uuid)
    ensures u.timeLow < TwoTo32 && u.timeMid < TwoTo16 && u.timeHiVersion < TwoTo12
    ensures u.clockSeqLow < TwoTo8 && u.clockSeqHiVariant < 0x40
    ensures u.node == node
  {
    Uuid(
      timestamp % TwoTo32,
      (timestamp / TwoTo32) % TwoTo16,
      (timestamp / TwoTo48) % TwoTo12,
      (clockSeq / TwoTo8) % 0x40,
      clockSeq % TwoTo8,
      node)
  }

  /** `UUID.time`: `((time_hi_version & 0x0fff) << 48) | (time_mid << 32) | time_low`. */
  function Time(u: Uuid): nat
    requires u.timeLow < TwoTo32 && u.timeMid < TwoTo16
  {
    (u.timeHiVersion % TwoTo12) * TwoTo48 + u.timeMid * TwoTo32 + u.timeLow
  }

  /** `UUID.clock_seq`: `((clock_seq_hi_variant & 0x3f) << 8) | clock_seq_low`. */
  function ClockSeq(u: Uuid): nat
    requires u.clockSeqLow < TwoTo8
  {
    (u.clockSeqHiVariant % 0x40) * TwoTo8 + u.clockSeqLow
  }

  // ---------------------------------------------------------------------
  // Euclidean division facts

  lemma DivModUnique(x: int, d: int, q: int, r: int)
    requires d > 0 && 0 <= r < d && x == q * d + r
    ensures x / d == q && x % d == r
  {
    var q0, r0 := x / d, x % d;
    assert x == q0 * d + r0;
    assert (q - q0) * d == r0 - r;
    if q > q0 {
      MulAtLeast(q - q0, d);
      assert false;
    } else if q < q0 {
      MulAtLeast(q0 - q, d);
      assert false;
    }
  }

  lemma MulAtLeast(k: int, d: int)
    requires k >= 1 && d > 0
    ensures k * d >= d
  {
  }

  /** Splitting a remainder by `a * b` into a remainder by `a` and the next digit. */
  lemma ModMul(x: int, a: int, b: int)
    requires a > 0 && b > 0
    ensures a * b > 0
    ensures x % (a * b) == x % a + a * ((x / a) % b)
    ensures x / (a * b) == (x / a) / b
  {
    var q, r := x / a, x % a;
    var q2, r2 := q / b, q % b;
    assert q == q2 * b + r2;
    assert x == q2 * (a * b) + (a * r2 + r) by {
      assert x == q * a + r;
      assert q * a == q2 * b * a + r2 * a;
    }
    assert a * r2 <= a * (b - 1);
    DivModUnique(x, a * b, q2, a * r2 + r);
  }

  // ---------------------------------------------------------------------
  // Properties

  /** The three time fields recompose to the timestamp modulo 2^60. */
  lemma TimeOfFromTimestamp(timestamp: int, clockSeq: int, node: nat)
    ensures Time(FromTimestamp(timestamp, clockSeq, node)) == timestamp % TwoTo60
  {
    ModMul(timestamp, TwoTo32, 0x1000_0000);
    assert TwoTo32 * 0x1000_0000 == TwoTo60;
    var hi := timestamp / TwoTo32;
    ModMul(hi, TwoTo16, TwoTo12);
    assert TwoTo16 * TwoTo12 == 0x1000_0000;
    ModMul(timestamp, TwoTo32, TwoTo16);
    assert TwoTo32 * TwoTo16 == TwoTo48;
  }

  /** The two clock-sequence fields recompose to a 14-bit clock sequence. */
  lemma ClockSeqOfFromTimestamp(timestamp: int, clockSeq: int, node: nat)
    requires 0 <= clockSeq < TwoTo14
    ensures ClockSeq(FromTimestamp(timestamp, clockSeq, node)) == clockSeq
  {
    DivModUnique(clockSeq, TwoTo8, clockSeq / TwoTo8, clockSeq % TwoTo8);
  }
}
