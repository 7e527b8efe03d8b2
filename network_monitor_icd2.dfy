/** The pure half of the ICD2 (Maemo 5) backend, src/network-monitor-icd2.c:
    the connection states and their names, the default-route test applied to
    a line of /proc/net/route, the medium inferred for a new device and the
    scan-status names.  The numbers are those of the icd/dbus_api.h
    enumerations icd_connection_state and icd_scan_status. */
module NetworkMonitorIcd2 {
  import opened Wrappers
  import NetworkMedium

  const STATE_DISCONNECTED: int := 0
  const STATE_CONNECTING: int := 1
  const STATE_CONNECTED: int := 2
  const STATE_DISCONNECTING: int := 3
  const STATE_LIMITED_CONN_ENABLED: int := 4
  const STATE_LIMITED_CONN_DISABLED: int := 5
  const STATE_SEARCH_START: int := 6
  const STATE_SEARCH_STOP: int := 7
  const STATE_INTERNAL_ADDRESS_ACQUIRED: int := 8

  const SCAN_NEW: int := 0
  const SCAN_UPDATE: int := 1
  const SCAN_NOTIFY: int := 2
  const SCAN_EXPIRE: int := 3
  const SCAN_COMPLETE: int := 4

  /** device_state_to_str (also used for connections): the nine ICD states
      are named, anything else is "unknown". */
  function DeviceStateToStr(state: int): (s: string)
    ensures s == "unknown" <==> !(STATE_DISCONNECTED <= state <= STATE_INTERNAL_ADDRESS_ACQUIRED)
  {
    if state == STATE_DISCONNECTED then "disconnected"
    else if state == STATE_CONNECTING then "connecting"
    else if state == STATE_CONNECTED then "connected"
    else if state == STATE_DISCONNECTING then "disconnecting"
    else if state == STATE_LIMITED_CONN_ENABLED then "limited connectivity enabled"
    else if state == STATE_LIMITED_CONN_DISABLED then "limited connectivity disabled"
    else if state == STATE_SEARCH_START then "search started"
    else if state == STATE_SEARCH_STOP then "search stopped"
    else if state == STATE_INTERNAL_ADDRESS_ACQUIRED then "internal address acquired"
    else "unknown"
  }

  /** The nine names are pairwise different. */
  lemma StateNamesDistinct(a: int, b: int)
    requires STATE_DISCONNECTED <= a <= STATE_INTERNAL_ADDRESS_ACQUIRED
    requires STATE_DISCONNECTED <= b <= STATE_INTERNAL_ADDRESS_ACQUIRED
    requires a != b
    ensures DeviceStateToStr(a) != DeviceStateToStr(b)
  {
  }

  /** connection_state_is_connected; device_state_is_connected is the same
      predicate. */
  predicate ConnectionStateIsConnected(state: int) {
    state == STATE_CONNECTED
    || state == STATE_LIMITED_CONN_ENABLED
    || state == STATE_LIMITED_CONN_DISABLED
    || state == STATE_SEARCH_START
    || state == STATE_SEARCH_STOP
  }

  /** Exactly five of the nine states count as connected: the connecting,
      disconnecting, disconnected and address-acquired states do not, and no
      state outside the enumeration does. */
  lemma ConnectedStates(state: int)
    ensures ConnectionStateIsConnected(state) ==> DeviceStateToStr(state) != "unknown"
    ensures ConnectionStateIsConnected(state) <==>
      STATE_CONNECTED <= state <= STATE_SEARCH_STOP && state != STATE_DISCONNECTING
    ensures |set s | STATE_DISCONNECTED <= s <= STATE_INTERNAL_ADDRESS_ACQUIRED && ConnectionStateIsConnected(s)| == 5
  {
    var connected := set s | STATE_DISCONNECTED <= s <= STATE_INTERNAL_ADDRESS_ACQUIRED && ConnectionStateIsConnected(s);
    assert connected == {2, 4, 5, 6, 7} by {
      forall s | s in connected ensures s in {2, 4, 5, 6, 7} {
      }
    }
  }

  /** The value of a leading run of hexadecimal digits, as strtol (s, NULL,
      16) reads a /proc/net/route field (which carries no sign, blank or 0x
      prefix); no digits gives 0. */
  function HexValue(s: string): nat {
    HexRun(s, 0, |HexDigits(s)|)
  }

  predicate IsHexDigit(c: char) {
    ('0' <= c <= '9') || ('a' <= c <= 'f') || ('A' <= c <= 'F')
  }

  function HexDigitValue(c: char): (v: nat)
    requires IsHexDigit(c)
    ensures v < 16
  {
    if '0' <= c <= '9' then c as int - '0' as int
    else if 'a' <= c <= 'f' then c as int - 'a' as int + 10
    else c as int - 'A' as int + 10
  }

  /** The longest prefix of s made of hexadecimal digits. */
  function HexDigits(s: string): (d: string)
    ensures |d| <= |s| && d == s[..|d|]
    ensures forall i :: 0 <= i < |d| ==> IsHexDigit(d[i])
    ensures |d| < |s| ==> !IsHexDigit(s[|d|])
  {
    if s == [] || !IsHexDigit(s[0]) then [] else [s[0]] + HexDigits(s[1..])
  }

  /** The number the digits s[lo..hi] spell, most significant first. */
  function HexRun(s: string, lo: nat, hi: nat): nat
    requires lo <= hi <= |s|
    requires forall i :: lo <= i < hi ==> IsHexDigit(s[i])
    decreases hi - lo
  {
    if lo == hi then 0 else HexRun(s, lo, hi - 1) * 16 + HexDigitValue(s[hi - 1])
  }

  /** A run of zeros, however long, reads as 0, and a run that holds any
      non-zero digit does not. */
  lemma {:induction false} HexRunZero(s: string, lo: nat, hi: nat)
    requires lo <= hi <= |s|
    requires forall i :: lo <= i < hi ==> IsHexDigit(s[i])
    ensures HexRun(s, lo, hi) == 0 <==> forall i :: lo <= i < hi ==> s[i] == '0'
    decreases hi - lo
  {
    if lo < hi {
      HexRunZero(s, lo, hi - 1);
    }
  }

  function Pow16(n: nat): (p: nat)
    ensures p >= 1
  {
    if n == 0 then 1 else 16 * Pow16(n - 1)
  }

  /** n digits spell a number below 16^n, so a field of at most eight digits
      fits in a uint32_t and the conversion keeps it. */
  lemma {:induction false} HexRunBound(s: string, lo: nat, hi: nat)
    requires lo <= hi <= |s|
    requires forall i :: lo <= i < hi ==> IsHexDigit(s[i])
    ensures HexRun(s, lo, hi) < Pow16(hi - lo)
    ensures hi - lo <= 8 ==> Uint32(HexRun(s, lo, hi)) == HexRun(s, lo, hi)
    decreases hi - lo
  {
    if lo < hi {
      HexRunBound(s, lo, hi - 1);
      var x := HexRun(s, lo, hi - 1);
      var p := Pow16(hi - 1 - lo);
      assert x + 1 <= p;
      assert (x + 1) * 16 <= p * 16;
    }
    if hi - lo <= 8 {
      Pow16Monotone(hi - lo, 8);
      assert Pow16(8) == 0x1_0000_0000;
      Uint32Small(HexRun(s, lo, hi));
    }
  }

  lemma Uint32Small(v: nat)
    requires v < 0x1_0000_0000
    ensures Uint32(v) == v
  {
  }

  lemma {:induction false} Pow16Monotone(m: nat, n: nat)
    requires m <= n
    ensures Pow16(m) <= Pow16(n)
    decreases n
  {
    if m < n {
      Pow16Monotone(m, n - 1);
    }
  }

  /** uint32_t of the value strtol returned. */
  function Uint32(v: nat): (r: nat) {
    v % 0x1_0000_0000
  }

  /** Whether flags & 0x2, RTF_GATEWAY, is set. */
  predicate GatewayFlag(flags: nat) {
    (flags / 2) % 2 == 1
  }

  /** route_cb's test, given the fields split_line found after the interface
      name (at most seven are asked for): None for a line without exactly
      seven fields, which is logged as misformed and skipped, otherwise
      whether the line is the default route, that is whether the gateway
      flag is set or both the destination and the mask are 0.0.0.0. */
  function RouteIsDefault(fields: seq<string>): (r: Option<bool>)
    ensures r.None? <==> |fields| != 7
    ensures r == Some(true) <==>
      (|fields| == 7 &&
       (GatewayFlag(RouteFlags(fields))
        || (Uint32(HexValue(fields[0])) == 0 && Uint32(HexValue(fields[6])) == 0)))
  {
    if |fields| != 7 then None
    else
      var flags := RouteFlags(fields);
      var dest := Uint32(HexValue(fields[0]));
      var mask := Uint32(HexValue(fields[6]));
      Some(GatewayFlag(flags) || (dest == 0 && mask == 0))
  }

  function RouteFlags(fields: seq<string>): nat
    requires |fields| >= 3
  {
    Uint32(HexValue(fields[2]))
  }

  /** The fields of three lines of /proc/net/route after the interface name
      (cut to seven): the default route as the kernel writes it, 0.0.0.0/0
      via a gateway; a route with zero destination and mask but no gateway
      flag; and a subnet route with neither. */
  const DEFAULT_ROUTE: seq<string> := ["00000000", "0101A8C0", "0003", "0", "0", "0", "00000000"]
  const ZERO_ROUTE: seq<string> := ["00000000", "00000000", "0001", "0", "0", "0", "00000000"]
  const SUBNET_ROUTE: seq<string> := ["0001A8C0", "00000000", "0001", "0", "0", "0", "00FFFFFF"]

  lemma ZeroField()
    ensures Uint32(HexValue("00000000")) == 0
  {
    assert HexDigits("00000000") == "00000000";
    HexRunZero("00000000", 0, 8);
  }

  lemma SmallField(s: string, v: nat)
    requires |s| == 4 && s[..3] == "000" && IsHexDigit(s[3])
    requires HexDigitValue(s[3]) == v
    ensures Uint32(HexValue(s)) == v
  {
    assert HexDigits(s[3..]) == s[3..];
    assert HexDigits(s[2..]) == s[2..];
    assert HexDigits(s[1..]) == s[1..];
    assert HexDigits(s) == s;
    assert HexRun(s, 0, 3) == 0 by {
      HexRunZero(s, 0, 3);
    }
  }

  lemma NonZeroField(s: string)
    requires |s| == 8 && forall i :: 0 <= i < 8 ==> IsHexDigit(s[i])
    requires exists i :: 0 <= i < 8 && s[i] != '0'
    ensures Uint32(HexValue(s)) != 0
  {
    assert HexDigits(s) == s by {
      var k := 8;
      while k > 0
        invariant 0 <= k <= 8
        invariant HexDigits(s[k..]) == s[k..]
      {
        k := k - 1;
        assert s[k..][1..] == s[k + 1..];
      }
    }
    HexRunZero(s, 0, 8);
    HexRunBound(s, 0, 8);
  }

  /** The kernel's default route counts, by its gateway flag. */
  lemma DefaultRouteIsDefault()
    ensures RouteIsDefault(DEFAULT_ROUTE) == Some(true)
    ensures RouteIsDefault(DEFAULT_ROUTE[..3]) == None
  {
    SmallField("0003", 3);
    assert DEFAULT_ROUTE[2] == "0003";
  }

  /** A zero destination and mask count without the gateway flag. */
  lemma ZeroRouteIsDefault()
    ensures RouteIsDefault(ZERO_ROUTE) == Some(true)
  {
    ZeroField();
    assert ZERO_ROUTE[0] == "00000000" && ZERO_ROUTE[6] == "00000000";
  }

  /** A subnet route, with neither, does not count. */
  lemma SubnetRouteIsNotDefault()
    ensures RouteIsDefault(SUBNET_ROUTE) == Some(false)
  {
    SmallField("0001", 1);
    assert SUBNET_ROUTE[2] == "0001";
    assert !GatewayFlag(RouteFlags(SUBNET_ROUTE));
    assert "0001A8C0"[3] != '0';
    NonZeroField("0001A8C0");
    assert SUBNET_ROUTE[0] == "0001A8C0";
  }

  predicate HasPrefix(s: string, prefix: string) {
    |prefix| <= |s| && s[..|prefix|] == prefix
  }

  /** The medium addrinfo_sig_cb gives a device it has not seen: WIFI for an
      interface with wireless extensions, otherwise UNKNOWN; when the
      connection has exactly one address the ICD2 network type decides
      instead, if it starts with "WLAN_" (WIFI), "GPRS" or "WIMAX"
      (CELLULAR) or "DUN_" (BLUETOOTH). */
  function InferredMedium(isWifi: bool, addresses: nat, networkType: string): (m: bv32)
    ensures m in NetworkMedium.MEDIUMS
    ensures addresses != 1 ==> m == (if isWifi then NetworkMedium.MEDIUM_WIFI else NetworkMedium.MEDIUM_UNKNOWN)
    ensures m == NetworkMedium.MEDIUM_BLUETOOTH <==> addresses == 1 && HasPrefix(networkType, "DUN_")
    ensures m == NetworkMedium.MEDIUM_CELLULAR <==>
      addresses == 1 && (HasPrefix(networkType, "GPRS") || HasPrefix(networkType, "WIMAX"))
    ensures m != NetworkMedium.MEDIUM_ETHERNET
  {
    PrefixesExclusive(networkType);
    var guess := if isWifi then NetworkMedium.MEDIUM_WIFI else NetworkMedium.MEDIUM_UNKNOWN;
    if addresses != 1 then guess
    else if HasPrefix(networkType, "WLAN_") then NetworkMedium.MEDIUM_WIFI
    else if HasPrefix(networkType, "GPRS") || HasPrefix(networkType, "WIMAX") then NetworkMedium.MEDIUM_CELLULAR
    else if HasPrefix(networkType, "DUN_") then NetworkMedium.MEDIUM_BLUETOOTH
    else guess
  }

  /** No network type starts with two of the four prefixes, so the order in
      which the code tries them does not matter. */
  lemma PrefixesExclusive(networkType: string)
    ensures !(HasPrefix(networkType, "WLAN_") && HasPrefix(networkType, "DUN_"))
    ensures !(HasPrefix(networkType, "WLAN_") && HasPrefix(networkType, "GPRS"))
    ensures !(HasPrefix(networkType, "WLAN_") && HasPrefix(networkType, "WIMAX"))
    ensures !(HasPrefix(networkType, "GPRS") && HasPrefix(networkType, "WIMAX"))
    ensures !(HasPrefix(networkType, "GPRS") && HasPrefix(networkType, "DUN_"))
    ensures !(HasPrefix(networkType, "DUN_") && HasPrefix(networkType, "WIMAX"))
  {
    if HasPrefix(networkType, "WLAN_") {
      assert networkType[0] == 'W' && networkType[1] == 'L';
    }
    if HasPrefix(networkType, "GPRS") {
      assert networkType[0] == 'G';
    }
    if HasPrefix(networkType, "DUN_") {
      assert networkType[0] == 'D';
    }
  }

  /** With one address a recognised network type overrides what the
      interface suggests: a WLAN_ connection is WiFi and a GPRS connection
      cellular whatever interface_is_wifi said. */
  lemma NetworkTypeOverridesInterface(isWifi: bool, networkType: string)
    ensures HasPrefix(networkType, "WLAN_") ==> InferredMedium(isWifi, 1, networkType) == NetworkMedium.MEDIUM_WIFI
    ensures HasPrefix(networkType, "GPRS") ==> InferredMedium(isWifi, 1, networkType) == NetworkMedium.MEDIUM_CELLULAR
    ensures InferredMedium(isWifi, 2, networkType) == InferredMedium(isWifi, 0, networkType)
  {
  }

  /** scan_status_to_str. */
  function ScanStatusToStr(status: int): (s: string)
    ensures s == "unknown status" <==> !(SCAN_NEW <= status <= SCAN_COMPLETE)
  {
    if status == SCAN_NEW then "new"
    else if status == SCAN_UPDATE then "update"
    else if status == SCAN_NOTIFY then "notify"
    else if status == SCAN_EXPIRE then "expire"
    else if status == SCAN_COMPLETE then "complete"
    else "unknown status"
  }
}
