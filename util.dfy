/** The helper macros of src/util.h: MAX and MIN, and the scaling of a
    duration (TIME_PRINTF) and of a byte count (BYTES_PRINTF) to a value and a
    unit for display.  Each display macro is a pair of statement-expressions,
    one for the value and one for the unit; both are modelled on unbounded
    integers. */
module Util {

  /** MAX (lines 9-18). */
  function Max(x: int, y: int): (m: int)
    ensures m >= x && m >= y
    ensures m == x || m == y
  {
    if x < y then y else x
  }

  /** MIN (lines 26-35). */
  function Min(x: int, y: int): (m: int)
    ensures m <= x && m <= y
    ensures m == x || m == y
  {
    if x > y then y else x
  }

  function Abs(x: int): (a: nat)
    ensures a == x || a == -x
  {
    if x < 0 then -x else x
  }

  /** Restoring the sign of x on a magnitude. */
  function WithSign(x: int, magnitude: nat): (r: int)
    ensures Abs(r) == magnitude
    ensures x >= 0 ==> r == magnitude
  {
    if x < 0 then 0 - magnitude as int else magnitude
  }

  const SEC_MS: nat := 1000
  const MIN_MS: nat := 60 * 1000
  const HOUR_MS: nat := 60 * 60 * 1000
  const DAY_MS: nat := 24 * 60 * 60 * 1000

  /** The unit half of TIME_PRINTF (lines 79-94): the largest unit of which
      |ms| is strictly more than ten. */
  function TimeUnit(ms: int): (unit: string)
    ensures unit in {"days", "hours", "mins", "secs", "ms"}
    ensures unit == "days" <==> Abs(ms) > 10 * DAY_MS
    ensures unit == "ms" <==> Abs(ms) <= 10 * SEC_MS
  {
    var a := Abs(ms);
    if a > 10 * DAY_MS then "days"
    else if a > 10 * HOUR_MS then "hours"
    else if a > 10 * MIN_MS then "mins"
    else if a > 10 * SEC_MS then "secs"
    else "ms"
  }

  /** The number of milliseconds in each unit name. */
  function TimeUnitMs(unit: string): (size: nat)
    ensures size >= 1
  {
    if unit == "days" then DAY_MS
    else if unit == "hours" then HOUR_MS
    else if unit == "mins" then MIN_MS
    else if unit == "secs" then SEC_MS
    else 1
  }

  /** The value half of TIME_PRINTF (lines 58-78). */
  function TimeValue(ms: int): int {
    var neg := ms < 0;
    var a := Abs(ms);
    var scaled :=
      if a > 10 * DAY_MS then a / DAY_MS
      else if a > 10 * HOUR_MS then a / HOUR_MS
      else if a > 10 * MIN_MS then a / MIN_MS
      else if a > 10 * SEC_MS then a / SEC_MS
      else a;
    if neg then -scaled else scaled
  }

  /** The value is the magnitude divided by the size of the unit
      TimeUnit picks, truncated, with the sign restored. */
  lemma TimeValueScales(ms: int)
    ensures TimeValue(ms) == WithSign(ms, Abs(ms) / TimeUnitMs(TimeUnit(ms)))
  {
    var a := Abs(ms);
    if a > 10 * DAY_MS {
      assert TimeUnitMs(TimeUnit(ms)) == DAY_MS;
    } else if a > 10 * HOUR_MS {
      assert TimeUnitMs(TimeUnit(ms)) == HOUR_MS;
    } else if a > 10 * MIN_MS {
      assert TimeUnitMs(TimeUnit(ms)) == MIN_MS;
    } else if a > 10 * SEC_MS {
      assert TimeUnitMs(TimeUnit(ms)) == SEC_MS;
    } else {
      assert TimeUnitMs(TimeUnit(ms)) == 1;
    }
  }

  /** The value and the unit agree: the value, times the unit's size, is
      |ms| rounded down to the unit, and a shown value is more than ten unless
      the unit is milliseconds. */
  lemma TimePrintfAgrees(ms: int)
    ensures Abs(TimeValue(ms)) * TimeUnitMs(TimeUnit(ms)) <= Abs(ms)
    ensures Abs(ms) < (Abs(TimeValue(ms)) + 1) * TimeUnitMs(TimeUnit(ms))
    ensures TimeUnit(ms) != "ms" ==> Abs(TimeValue(ms)) >= 10
    ensures TimeUnit(ms) == "ms" ==> TimeValue(ms) == ms
  {
    var a := Abs(ms);
    var u := TimeUnitMs(TimeUnit(ms));
    TimeValueScales(ms);
    assert Abs(TimeValue(ms)) == a / u;
    DivBounds(a, u);
    if TimeUnit(ms) != "ms" {
      DivAtLeastTen(a, u);
    }
  }

  /** Division truncates: the quotient times the divisor lies within one
      divisor below the dividend. */
  lemma DivBounds(a: nat, u: nat)
    requires u >= 1
    ensures (a / u) * u <= a < (a / u + 1) * u
  {
  }

  lemma DivAtLeastTen(a: nat, u: nat)
    requires u >= 1 && a > 10 * u
    ensures a / u >= 10
  {
    DivBounds(a, u);
  }

  const KIB: nat := 1024
  const MIB: nat := 1024 * 1024
  const GIB: nat := 1024 * 1024 * 1024

  /** The unit half of BYTES_PRINTF (lines 113-127). */
  function BytesUnit(bytes: int): (unit: string)
    ensures unit in {"gb", "mb", "kb", "bytes"}
    ensures unit == "gb" <==> Abs(bytes) > 10 * GIB
    ensures unit == "bytes" <==> Abs(bytes) <= 10 * KIB
  {
    var a := Abs(bytes);
    if a > 10 * GIB then "gb"
    else if a > 10 * MIB then "mb"
    else if a > 10 * KIB then "kb"
    else "bytes"
  }

  function BytesUnitSize(unit: string): (size: nat)
    ensures size >= 1
  {
    if unit == "gb" then GIB else if unit == "mb" then MIB else if unit == "kb" then KIB else 1
  }

  /** The value half of BYTES_PRINTF (lines 96-112). */
  function BytesValue(bytes: int): int {
    var neg := bytes < 0;
    var a := Abs(bytes);
    var scaled :=
      if a > 10 * GIB then a / GIB
      else if a > 10 * MIB then a / MIB
      else if a > 10 * KIB then a / KIB
      else a;
    if neg then -scaled else scaled
  }

  /** The value is the magnitude divided by the size of the unit
      BytesUnit picks, truncated, with the sign restored. */
  lemma BytesValueScales(bytes: int)
    ensures BytesValue(bytes) == WithSign(bytes, Abs(bytes) / BytesUnitSize(BytesUnit(bytes)))
  {
    var a := Abs(bytes);
    if a > 10 * GIB {
      assert BytesUnitSize(BytesUnit(bytes)) == GIB;
    } else if a > 10 * MIB {
      assert BytesUnitSize(BytesUnit(bytes)) == MIB;
    } else if a > 10 * KIB {
      assert BytesUnitSize(BytesUnit(bytes)) == KIB;
    } else {
      assert BytesUnitSize(BytesUnit(bytes)) == 1;
    }
  }

  lemma BytesPrintfAgrees(bytes: int)
    ensures Abs(BytesValue(bytes)) * BytesUnitSize(BytesUnit(bytes)) <= Abs(bytes)
    ensures Abs(bytes) < (Abs(BytesValue(bytes)) + 1) * BytesUnitSize(BytesUnit(bytes))
    ensures BytesUnit(bytes) != "bytes" ==> Abs(BytesValue(bytes)) >= 10
    ensures BytesUnit(bytes) == "bytes" ==> BytesValue(bytes) == bytes
  {
    var a := Abs(bytes);
    var u := BytesUnitSize(BytesUnit(bytes));
    BytesValueScales(bytes);
    assert Abs(BytesValue(bytes)) == a / u;
    DivBounds(a, u);
    if BytesUnit(bytes) != "bytes" {
      DivAtLeastTen(a, u);
    }
  }

  const UINT64_LIMIT: nat := 0x1_0000_0000_0000_0000

  /** uint64_t, the type of now () and of the times stored from it. */
  type U64 = x: int | 0 <= x < 0x1_0000_0000_0000_0000

  /** a - b computed in uint64_t: when b is larger (a clock that went back,
      a counter that was reset) the difference wraps around to a large one. */
  function Sub64(a: U64, b: U64): (d: U64)
    ensures b <= a ==> d == a - b
    ensures a < b ==> d == UINT64_LIMIT - (b - a)
  {
    (a - b) % UINT64_LIMIT
  }

  /** (int64_t) of a uint64_t: the same bits read as two's complement. */
  function ToInt64(x: U64): (r: int)
    ensures -0x8000_0000_0000_0000 <= r < 0x8000_0000_0000_0000
    ensures r % UINT64_LIMIT == x
  {
    if x < 0x8000_0000_0000_0000 then x else x - UINT64_LIMIT
  }

  const UINT32_LIMIT: nat := 0x1_0000_0000

  type U32 = x: int | 0 <= x < 0x1_0000_0000

  /** A uint32_t passed where printf expects an int (%d). */
  function ToInt32(x: U32): (r: int)
    ensures -0x8000_0000 <= r < 0x8000_0000
    ensures r % UINT32_LIMIT == x
  {
    if x < 0x8000_0000 then x else x - UINT32_LIMIT
  }
}
