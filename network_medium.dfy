/** The medium and device-information bit enums of src/network-monitor.h and
    nc_connection_medium_to_string, which names the mediums set in a mask. */
module NetworkMedium {
  import opened Wrappers

  const MEDIUM_UNKNOWN: bv32 := 0x01  // 1 << 0
  const MEDIUM_ETHERNET: bv32 := 0x02  // 1 << 1
  const MEDIUM_WIFI: bv32 := 0x04  // 1 << 2
  const MEDIUM_CELLULAR: bv32 := 0x08  // 1 << 3
  const MEDIUM_BLUETOOTH: bv32 := 0x10  // 1 << 4

  /** The five mediums, in the order the names are printed: UNKNOWN,
      ETHERNET, WIFI, CELLULAR, BLUETOOTH (MediumsInOrder). */
  const MEDIUMS: seq<bv32> := [0x01, 0x02, 0x04, 0x08, 0x10]
  const MEDIUM_NAMES: seq<string> := ["unknown", "ethernet", "wifi", "cellular", "bluetooth"]

  lemma MediumsInOrder()
    ensures MEDIUMS == [MEDIUM_UNKNOWN, MEDIUM_ETHERNET, MEDIUM_WIFI, MEDIUM_CELLULAR, MEDIUM_BLUETOOTH]
  {
  }

  /** Each medium is a single bit, and no two share it. */
  lemma MediumsAreDistinctBits()
    ensures forall i :: 0 <= i < |MEDIUMS| ==> MEDIUMS[i] != 0 && MEDIUMS[i] & (MEDIUMS[i] - 1) == 0
    ensures forall i, j :: 0 <= i < j < |MEDIUMS| ==> MEDIUMS[i] & MEDIUMS[j] == 0
  {
  }

  /** The names of the mediums of the first n in MEDIUMS that are set in
      mask, each followed by a space: what g_strdup_printf builds. */
  function Printed(mask: bv32, n: nat): string
    requires n <= |MEDIUMS|
  {
    if n == 0 then ""
    else Printed(mask, n - 1) + (if MEDIUMS[n - 1] & mask != 0 then MEDIUM_NAMES[n - 1] + " " else "")
  }

  /** The names of the set mediums joined by single spaces. */
  function Joined(mask: bv32, n: nat): string
    requires n <= |MEDIUMS|
  {
    if n == 0 then ""
    else
      var rest := Joined(mask, n - 1);
      if MEDIUMS[n - 1] & mask == 0 then rest
      else if rest == "" then MEDIUM_NAMES[n - 1]
      else rest + " " + MEDIUM_NAMES[n - 1]
  }

  /** Some of the first n mediums is set in mask. */
  predicate SomeKnown(mask: bv32, n: nat)
    requires n <= |MEDIUMS|
  {
    n > 0 && (SomeKnown(mask, n - 1) || MEDIUMS[n - 1] & mask != 0)
  }

  /** The printed text is empty exactly when no known medium is set;
      otherwise it is the joined names plus one trailing space. */
  lemma {:induction false} PrintedIsJoinedPlusSpace(mask: bv32, n: nat)
    requires n <= |MEDIUMS|
    ensures Printed(mask, n) == "" <==> !SomeKnown(mask, n)
    ensures Joined(mask, n) == "" <==> !SomeKnown(mask, n)
    ensures SomeKnown(mask, n) ==> Printed(mask, n) == Joined(mask, n) + " "
  {
    if n > 0 {
      PrintedIsJoinedPlusSpace(mask, n - 1);
      var name := MEDIUM_NAMES[n - 1];
      assert |name| > 0;
      if MEDIUMS[n - 1] & mask != 0 {
        if SomeKnown(mask, n - 1) {
          assert Printed(mask, n) == (Joined(mask, n - 1) + " ") + (name + " ");
          assert Joined(mask, n) == Joined(mask, n - 1) + " " + name;
        } else {
          assert Printed(mask, n) == "" + (name + " ");
        }
      }
    }
  }

  /** nc_connection_medium_to_string: None (NULL) for an empty mask,
      otherwise the printed names with the trailing space removed.  The code
      removes the last character unconditionally; this definition removes it
      only when there is one, so a mask holding only unnamed bits gives the
      empty string (see TruncationIndexAsWritten). */
  function MediumToString(mask: bv32): (s: Option<string>)
    ensures mask == 0 <==> s.None?
    ensures s.Some? ==> s.value == Joined(mask, |MEDIUMS|)
    ensures s.Some? ==> (s.value == "" <==> !SomeKnown(mask, |MEDIUMS|))
  {
    if mask == 0 then None
    else
      var p := Printed(mask, |MEDIUMS|);
      PrintedIsJoinedPlusSpace(mask, |MEDIUMS|);
      if p == "" then Some(p) else Some(p[..|p| - 1])
  }

  /** The index the code writes its terminating NUL at, strlen (s) - 1. */
  function TruncationIndexAsWritten(mask: bv32): int {
    |Printed(mask, |MEDIUMS|)| - 1
  }

  /** A mask with only an unnamed bit set prints nothing, so the code writes
      before the start of the string. */
  lemma UnnamedBitWritesBeforeString()
    ensures TruncationIndexAsWritten(1 << 5) == -1
  {
    var mask: bv32 := 1 << 5;
    assert forall i :: 0 <= i < |MEDIUMS| ==> MEDIUMS[i] & mask == 0;
    assert Printed(mask, 5) == "" by {
      assert Printed(mask, 1) == "";
      assert Printed(mask, 2) == "";
      assert Printed(mask, 3) == "";
      assert Printed(mask, 4) == "";
    }
  }

  lemma {:induction false} JoinedSingle(i: nat, n: nat)
    requires i < |MEDIUMS| && n <= |MEDIUMS|
    ensures Joined(MEDIUMS[i], n) == if n <= i then "" else MEDIUM_NAMES[i]
  {
    MediumsAreDistinctBits();
    if n > 0 {
      JoinedSingle(i, n - 1);
      if n - 1 != i {
        assert MEDIUMS[n - 1] & MEDIUMS[i] == 0 by {
          if n - 1 < i {
            assert MEDIUMS[n - 1] & MEDIUMS[i] == 0;
          } else {
            assert MEDIUMS[i] & MEDIUMS[n - 1] == 0;
            assert MEDIUMS[n - 1] & MEDIUMS[i] == MEDIUMS[i] & MEDIUMS[n - 1];
          }
        }
      }
    }
  }

  /** A mask holding one medium is printed as that medium's name alone. */
  lemma SingleMedium(i: nat)
    requires i < |MEDIUMS|
    ensures MediumToString(MEDIUMS[i]) == Some(MEDIUM_NAMES[i])
  {
    JoinedSingle(i, |MEDIUMS|);
  }

  /** The device-information flags (lines 222-246). */
  const DEVICE_INFO_IP_IP4_ADDR: bv32 := 1 << 0
  const DEVICE_INFO_IP_IP6_ADDR: bv32 := 1 << 1
  const DEVICE_INFO_IP_ADDR: bv32 := DEVICE_INFO_IP_IP4_ADDR | DEVICE_INFO_IP_IP6_ADDR
  const DEVICE_INFO_GATEWAY_IP4_ADDR: bv32 := 1 << 2
  const DEVICE_INFO_GATEWAY_IP6_ADDR: bv32 := 1 << 3
  const DEVICE_INFO_GATEWAY_IP_ADDR: bv32 := DEVICE_INFO_GATEWAY_IP4_ADDR | DEVICE_INFO_GATEWAY_IP6_ADDR
  const DEVICE_INFO_GATEWAY_MAC_ADDR: bv32 := 1 << 4
  const DEVICE_INFO_INTERFACE: bv32 := 1 << 5
  const DEVICE_INFO_ACCESS_POINT: bv32 := 1 << 6
  const DEVICE_INFO_STATS: bv32 := 1 << 7
  const DEVICE_INFO_MEDIUM: bv32 := 1 << 8
  /** -1 as an int: every bit. */
  const DEVICE_INFO_ALL: bv32 := 0xFFFF_FFFF

  const SINGLE_DEVICE_FLAGS: seq<bv32> := [DEVICE_INFO_IP_IP4_ADDR, DEVICE_INFO_IP_IP6_ADDR,
    DEVICE_INFO_GATEWAY_IP4_ADDR, DEVICE_INFO_GATEWAY_IP6_ADDR, DEVICE_INFO_GATEWAY_MAC_ADDR,
    DEVICE_INFO_INTERFACE, DEVICE_INFO_ACCESS_POINT, DEVICE_INFO_STATS, DEVICE_INFO_MEDIUM]

  /** The combined flags are the unions of their parts, the single flags are
      distinct bits, and ALL holds every one of them. */
  lemma DeviceInfoFlags()
    ensures DEVICE_INFO_IP_ADDR == 3 && DEVICE_INFO_GATEWAY_IP_ADDR == 12
    ensures forall i :: 0 <= i < |SINGLE_DEVICE_FLAGS| ==>
      SINGLE_DEVICE_FLAGS[i] != 0 && SINGLE_DEVICE_FLAGS[i] & (SINGLE_DEVICE_FLAGS[i] - 1) == 0
      && SINGLE_DEVICE_FLAGS[i] & DEVICE_INFO_ALL == SINGLE_DEVICE_FLAGS[i]
    ensures forall i, j :: 0 <= i < j < |SINGLE_DEVICE_FLAGS| ==> SINGLE_DEVICE_FLAGS[i] & SINGLE_DEVICE_FLAGS[j] == 0
  {
  }
}
