/** The expected-size arithmetic of include/netczar/schedule.h: the size
    enum, the conversion of an expected size to bytes, and the conversion of
    a byte count to an order of magnitude.  Both conversions work on uint64_t
    and are modelled with that width. */
module Schedule {

  const UINT64_LIMIT: nat := 0x1_0000_0000_0000_0000
  const ALL_ONES: nat := UINT64_LIMIT - 1

  /** enum netczar_schedule_expected_size (lines 137-158). */
  const EXPECTED_SIZE_UNKNOWN: int := -1
  const EXPECTED_SIZE_KB: int := 0
  const EXPECTED_SIZE_10_KB: int := 4
  const EXPECTED_SIZE_100_KB: int := 7
  const EXPECTED_SIZE_MB: int := 10
  const EXPECTED_SIZE_10_MB: int := 13
  const EXPECTED_SIZE_100_MB: int := 17
  const EXPECTED_SIZE_GB: int := 20
  const EXPECTED_SIZE_10_GB: int := 23
  const EXPECTED_SIZE_100_GB: int := 27
  const EXPECTED_SIZE_DEFAULT: int := EXPECTED_SIZE_UNKNOWN
  const EXPECTED_SIZE_SMALL: int := EXPECTED_SIZE_10_KB
  const EXPECTED_SIZE_MEDIUM: int := EXPECTED_SIZE_MB
  const EXPECTED_SIZE_LARGE: int := EXPECTED_SIZE_100_MB

  function Pow2(n: nat): (p: nat)
    ensures p >= 1
  {
    if n == 0 then 1 else 2 * Pow2(n - 1)
  }

  function Pow4(n: nat): (p: nat)
    ensures p >= 1
  {
    if n == 0 then 1 else 4 * Pow4(n - 1)
  }

  /** netczar_schedule_expected_size_to_bytes (lines 161-167).  A shift by
      64 or more is undefined in C, so the shift count must be below 64. */
  function ExpectedSizeToBytes(esize: int): (bytes: nat)
    requires esize == -1 || 0 <= esize < 64
    ensures bytes < UINT64_LIMIT
    ensures esize == -1 ==> bytes == ALL_ONES
    ensures esize >= 0 && 1024 * Pow2(esize) < UINT64_LIMIT ==> bytes == 1024 * Pow2(esize)
  {
    if esize == -1 then ALL_ONES
    else (1024 * Pow2(esize)) % UINT64_LIMIT
  }

  /** The number of base-4 digits of n (0 for 0): the reference reading of
      the loop at lines 181-186. */
  function Base4Digits(n: nat): nat {
    if n == 0 then 0 else 1 + Base4Digits(n / 4)
  }

  /** n has exactly d base-4 digits when 4^(d-1) <= n < 4^d. */
  lemma {:induction false} Base4DigitsBounds(n: nat)
    ensures n < Pow4(Base4Digits(n))
    ensures n > 0 ==> Pow4(Base4Digits(n) - 1) <= n
  {
    if n > 0 {
      Base4DigitsBounds(n / 4);
    }
  }

  lemma {:induction false} Base4DigitsMonotone(a: nat, b: nat)
    requires a <= b
    ensures Base4Digits(a) <= Base4Digits(b)
  {
    if a > 0 {
      Base4DigitsMonotone(a / 4, b / 4);
    }
  }

  /** netczar_schedule_bytes_to_expected_size (lines 171-189).  size +
      size / 2 wraps at 2^64 like the C expression. */
  method BytesToExpectedSize(size: nat) returns (r: nat)
    requires size < UINT64_LIMIT
    ensures size == ALL_ONES ==> r == ALL_ONES
    ensures size != ALL_ONES ==> r == Base4Digits((size + size / 2) % UINT64_LIMIT)
  {
    if size == ALL_ONES {
      return ALL_ONES;
    }
    var s: nat := (size + size / 2) % UINT64_LIMIT;
    var i: nat := 0;
    while s > 0
      invariant i + Base4Digits(s) == Base4Digits((size + size / 2) % UINT64_LIMIT)
    {
      i := i + 1;
      s := s / 4;
    }
    return i;
  }

  /** The order grows with the size while size + size / 2 does not wrap. */
  lemma ExpectedSizeMonotone(a: nat, b: nat)
    requires a <= b && b + b / 2 < UINT64_LIMIT
    ensures Base4Digits((a + a / 2) % UINT64_LIMIT) <= Base4Digits((b + b / 2) % UINT64_LIMIT)
  {
    assert a / 2 <= b / 2;
    var x, y := a + a / 2, b + b / 2;
    assert x % UINT64_LIMIT == x && y % UINT64_LIMIT == y;
    Base4DigitsMonotone(x, y);
  }

  /** The order of one kilobyte is 6, not EXPECTED_SIZE_KB: the two
      conversions are not inverse to each other. */
  lemma KilobyteOrder()
    ensures Base4Digits((ExpectedSizeToBytes(EXPECTED_SIZE_KB) + ExpectedSizeToBytes(EXPECTED_SIZE_KB) / 2) % UINT64_LIMIT) == 6
  {
    assert Pow2(0) == 1;
    var b := ExpectedSizeToBytes(EXPECTED_SIZE_KB);
    assert b == 1024;
    assert (b + b / 2) % UINT64_LIMIT == 1536;
    assert Base4Digits(0) == 0;
    assert Base4Digits(1) == 1;
    assert Base4Digits(6) == 2;
    assert Base4Digits(24) == 3;
    assert Base4Digits(96) == 4;
    assert Base4Digits(384) == 5;
    assert Base4Digits(1536) == 6;
  }
}
