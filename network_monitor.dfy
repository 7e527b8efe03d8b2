/** The state of the network monitor of src/network-monitor.c and the pure
    transitions its functions make: the coalesced default-connection
    signal, the connection state machine, the throttled statistics update,
    the lookups by name and the per-device information records.  The
    Monitor class (network_monitor_object.dfy) performs these transitions
    field by field. */
module NetworkMonitor {
  import opened Wrappers
  import opened Util
  import NetworkMedium
  import Nm = NetworkMonitorNm
  import Icd2 = NetworkMonitorIcd2

  /** The backend the monitor is built with (HAVE_NETWORK_MANAGER or
      HAVE_ICD2). */
  datatype Backend = NetworkManager | Icd2Daemon

  predicate ConnectionStateIsConnected(b: Backend, state: int) {
    match b
    case NetworkManager => Nm.ConnectionStateIsConnected(state)
    case Icd2Daemon => Icd2.ConnectionStateIsConnected(state)
  }

  predicate DeviceStateIsConnected(b: Backend, state: int) {
    match b
    case NetworkManager => Nm.DeviceStateIsConnected(state)
    case Icd2Daemon => Icd2.ConnectionStateIsConnected(state)
  }

  /** CONNECTION_STATE_DISCONNECTED: NetworkManager has no disconnected
      active-connection state, so the code uses ACTIVATING. */
  function ConnectionStateDisconnected(b: Backend): int {
    match b
    case NetworkManager => Nm.ACTIVE_CONNECTION_STATE_ACTIVATING
    case Icd2Daemon => Icd2.STATE_DISCONNECTED
  }

  function DeviceStateDisconnected(b: Backend): int {
    match b
    case NetworkManager => Nm.DEVICE_STATE_DISCONNECTED
    case Icd2Daemon => Icd2.STATE_DISCONNECTED
  }

  function DeviceStateConnected(b: Backend): int {
    match b
    case NetworkManager => Nm.DEVICE_STATE_ACTIVATED
    case Icd2Daemon => Icd2.STATE_CONNECTED
  }

  /** The states the code forces a connection or device into are read back
      as what they are meant to be, on either backend. */
  lemma ForcedStates(b: Backend)
    ensures !ConnectionStateIsConnected(b, ConnectionStateDisconnected(b))
    ensures DeviceStateIsConnected(b, DeviceStateConnected(b))
    ensures !DeviceStateIsConnected(b, DeviceStateDisconnected(b))
  {
  }

  /** struct nc_stats: bytes sent and received and when they were read. */
  datatype Stats = Stats(tx: U64, rx: U64, time: U64)

  /** The zeroed statistics of a freshly allocated object. */
  const NO_STATS: Stats := Stats(0, 0, 0)

  /** NCNetworkDevice, without its back pointer and D-Bus proxies. */
  datatype Device = Device(name: string, interface: string, medium: bv32, state: int,
                           ssid: Option<string>, stats: Stats)

  /** struct per_connection_device_state: the device's name and, once the
      device has been found (the cached pointer is set), its statistics at
      that time. */
  datatype DeviceLink = DeviceLink(deviceName: string, resolved: bool, statsConnect: Stats)

  /** NCNetworkConnection.  id stands for the object's address, which the
      default-connection fields and the signals carry. */
  datatype Connection = Connection(id: nat, name: string, links: seq<DeviceLink>, state: int,
                                   connectedAt: U64, seen: bool)

  /** struct nm_ap, one ICD2 scan result. */
  datatype AccessPoint = AccessPoint(networkId: string, userId: string, stationId: string,
                                     networkType: string, flags: nat, signalDb: int,
                                     signalNormalized: int)

  /** The GObject signals the monitor emits, and the one ICD2 request whose
      sending the model records. */
  datatype Event =
    | DefaultChanged(from: Option<nat>, to: Option<nat>)
    | NewConnection(id: nat)
    | Disconnected(id: nat)
    | ScanResults(networkType: string, results: seq<AccessPoint>)
    | ScanCancelRequested

  /** default_connection, default_connection_real and whether
      default_connection_signal_source is set. */
  datatype Defaults = Defaults(current: Option<nat>, actual: Option<nat>, pending: bool)

  /** The monitor's fields.  scanPending is default_connection_scan_source
      (ICD2), activeScanPending active_connections_scan_pending_id (NM),
      addrinfoPending and stateReqPending the ICD2 request sources. */
  datatype MonitorState = MonitorState(
    devices: seq<Device>,
    connections: seq<Connection>,
    defaults: Defaults,
    scanPending: bool,
    activeScanPending: bool,
    statsLastUpdatedAt: U64,
    nextId: nat,
    events: seq<Event>,
    addrinfoPending: bool,
    stateReqPending: bool,
    scanResults: map<string, seq<AccessPoint>>,
    amScanning: int)

  // ---------------------------------------------------------------------
  // Lookups

  /** r is what a first-match list walk returns: the index of the first
      element equal to name, or None when there is none. */
  predicate IsFirst(names: seq<string>, name: string, r: Option<nat>) {
    match r
    case None => forall i :: 0 <= i < |names| ==> names[i] != name
    case Some(i) => i < |names| && names[i] == name && forall j :: 0 <= j < i ==> names[j] != name
  }

  function FirstIndexOf(names: seq<string>, name: string): (r: Option<nat>)
    ensures IsFirst(names, name, r)
  {
    if names == [] then None
    else if names[0] == name then Some(0)
    else match FirstIndexOf(names[1..], name)
      case None => None
      case Some(i) => Some(i + 1)
  }

  /** The first match is unique, so any walk that finds it agrees with
      FirstIndexOf. */
  lemma IsFirstUnique(names: seq<string>, name: string, r1: Option<nat>, r2: Option<nat>)
    requires IsFirst(names, name, r1) && IsFirst(names, name, r2)
    ensures r1 == r2
  {
  }

  function DeviceNames(ds: seq<Device>): (ns: seq<string>)
    ensures |ns| == |ds| && forall i :: 0 <= i < |ds| ==> ns[i] == ds[i].name
  {
    seq(|ds|, i requires 0 <= i < |ds| => ds[i].name)
  }

  function DeviceInterfaces(ds: seq<Device>): (ns: seq<string>)
    ensures |ns| == |ds| && forall i :: 0 <= i < |ds| ==> ns[i] == ds[i].interface
  {
    seq(|ds|, i requires 0 <= i < |ds| => ds[i].interface)
  }

  function ConnectionNames(cs: seq<Connection>): (ns: seq<string>)
    ensures |ns| == |cs| && forall i :: 0 <= i < |cs| ==> ns[i] == cs[i].name
  {
    seq(|cs|, i requires 0 <= i < |cs| => cs[i].name)
  }

  function ConnectionIds(cs: seq<Connection>): (ids: seq<nat>)
    ensures |ids| == |cs| && forall i :: 0 <= i < |cs| ==> ids[i] == cs[i].id
  {
    seq(|cs|, i requires 0 <= i < |cs| => cs[i].id)
  }

  /** The index of the connection with the given id (the object a pointer
      designates). */
  function IndexOfId(cs: seq<Connection>, id: nat): (r: Option<nat>)
    ensures r.Some? ==> r.value < |cs| && cs[r.value].id == id
    ensures r.None? ==> forall i :: 0 <= i < |cs| ==> cs[i].id != id
  {
    if cs == [] then None
    else if cs[0].id == id then Some(0)
    else match IndexOfId(cs[1..], id)
      case None => None
      case Some(i) => Some(i + 1)
  }

  // ---------------------------------------------------------------------
  // The default connection

  /** Outside a pending signal, the published default is the real one. */
  predicate Settled(d: Defaults) {
    !d.pending ==> d.current == d.actual
  }

  /** default_connection_update (m, c, set).  Setting the current real
      default and clearing a connection that is not the real default change
      nothing; otherwise the real default becomes c (set) or none (clear)
      and the signal is scheduled, unless it already is.  The published
      default is left alone. */
  function DefaultUpdate(d: Defaults, c: Option<nat>, isDefault: bool): (r: Defaults)
    ensures r.current == d.current
    ensures isDefault && c == d.actual ==> r == d
    ensures isDefault ==> r.actual == c
    ensures !isDefault && c != d.actual ==> r == d
    ensures !isDefault && c == d.actual ==> r.actual == None
    ensures r != d ==> r.pending
    ensures d.pending ==> r.pending
  {
    if isDefault then
      if c == d.actual then d else d.(actual := c, pending := true)
    else
      if c != d.actual then d else d.(actual := None, pending := true)
  }

  /** The result of default_connection_update_send_signal: the new fields
      and the default-connection-changed signal, if one is emitted. */
  datatype Sent = Sent(defaults: Defaults, signal: Option<Event>)

  /** default_connection_update_send_signal: publishes the real default,
      emitting (old, new) exactly when they differ, and clears the source. */
  function SendSignal(d: Defaults): (r: Sent)
    ensures r.defaults.current == d.actual && r.defaults.actual == d.actual && !r.defaults.pending
    ensures r.signal.Some? <==> d.current != d.actual
    ensures r.signal.Some? ==> r.signal.value == DefaultChanged(d.current, d.actual)
  {
    if d.current == d.actual then Sent(d.(pending := false), None)
    else Sent(Defaults(d.actual, d.actual, false), Some(DefaultChanged(d.current, d.actual)))
  }

  /** Both transitions keep Settled. */
  lemma DefaultsStaySettled(d: Defaults, c: Option<nat>, isDefault: bool)
    requires Settled(d)
    ensures Settled(DefaultUpdate(d, c, isDefault))
    ensures Settled(SendSignal(d).defaults)
  {
  }

  datatype UpdateCall = UpdateCall(c: Option<nat>, isDefault: bool)

  /** A burst of default_connection_update calls before the idle handler
      runs. */
  function ApplyUpdates(d: Defaults, us: seq<UpdateCall>): Defaults
    decreases |us|
  {
    if us == [] then d else ApplyUpdates(DefaultUpdate(d, us[0].c, us[0].isDefault), us[1..])
  }

  /** Updates never touch the published default, and a burst that changes
      anything leaves the signal scheduled. */
  lemma {:induction false} ApplyUpdatesKeepsCurrent(d: Defaults, us: seq<UpdateCall>)
    ensures ApplyUpdates(d, us).current == d.current
    ensures d.pending ==> ApplyUpdates(d, us).pending
    ensures ApplyUpdates(d, us).actual != d.actual ==> ApplyUpdates(d, us).pending
    decreases |us|
  {
    if us != [] {
      var d1 := DefaultUpdate(d, us[0].c, us[0].isDefault);
      ApplyUpdatesKeepsCurrent(d1, us[1..]);
    }
  }

  /** Coalescing: however many updates a burst holds, the idle handler
      emits at most one signal; it carries the default from before the
      burst and the final one, and a burst that ends where it started emits
      nothing.  Afterwards the published default is the real one. */
  lemma Coalesce(d: Defaults, us: seq<UpdateCall>)
    requires Settled(d) && !d.pending
    ensures var e := ApplyUpdates(d, us);
      var s := SendSignal(e);
      && s.defaults.current == s.defaults.actual == e.actual
      && (s.signal.Some? <==> e.actual != d.actual)
      && (s.signal.Some? ==> s.signal.value == DefaultChanged(d.actual, e.actual))
      && (e.actual != d.actual ==> e.pending)
  {
    ApplyUpdatesKeepsCurrent(d, us);
  }

  // ---------------------------------------------------------------------
  // Connection state

  /** What connection_state_set does after its early checks. */
  datatype Transition =
    | Unchanged    // same state and not the initial one: returns at once
    | Unpublished  // no devices yet: the state is only recorded
    | Announced    // now connected: connected_at set, new-connection emitted
    | Withdrawn    // now disconnected: disconnected emitted, reference dropped
    | Quiet        // any other change: recorded, nothing emitted

  function StateTransition(b: Backend, c: Connection, state: int, initial: bool): Transition {
    if !initial && c.state == state then Unchanged
    else if c.links == [] then Unpublished
    else if (initial || !ConnectionStateIsConnected(b, c.state)) && ConnectionStateIsConnected(b, state) then Announced
    else if ConnectionStateIsConnected(b, c.state) && !ConnectionStateIsConnected(b, state) then Withdrawn
    else Quiet
  }

  /** The cases of connection_state_set, both ways: an equal non-initial
      state does nothing; a connection without devices never emits;
      new-connection is emitted exactly for a published connection entering
      a connected state (from a disconnected one, or when initial), and
      disconnected exactly for one leaving a connected state. */
  lemma TransitionCases(b: Backend, c: Connection, state: int, initial: bool)
    ensures StateTransition(b, c, state, initial) == Unchanged <==> !initial && c.state == state
    ensures c.links == [] && (initial || c.state != state) ==> StateTransition(b, c, state, initial) == Unpublished
    ensures StateTransition(b, c, state, initial) == Announced <==>
      (initial || c.state != state) && c.links != [] && ConnectionStateIsConnected(b, state)
      && (initial || !ConnectionStateIsConnected(b, c.state))
    ensures StateTransition(b, c, state, initial) == Withdrawn <==>
      (initial || c.state != state) && c.links != []
      && ConnectionStateIsConnected(b, c.state) && !ConnectionStateIsConnected(b, state)
  {
  }

  /** A connection that is connected is not announced again by a later
      change, one that is not connected is never withdrawn, and the initial
      call the backends make (with the recorded state, or from a
      disconnected one) never withdraws. */
  lemma NoRepeatedSignals(b: Backend, c: Connection, state: int, initial: bool)
    ensures !initial && ConnectionStateIsConnected(b, c.state) ==> StateTransition(b, c, state, initial) != Announced
    ensures !ConnectionStateIsConnected(b, c.state) ==> StateTransition(b, c, state, initial) != Withdrawn
    ensures initial && state == c.state ==> StateTransition(b, c, state, initial) != Withdrawn
  {
  }

  // ---------------------------------------------------------------------
  // Statistics

  /** stats_update's throttle: at least 300 ms between unforced updates. */
  const STATS_MIN_INTERVAL_MS: nat := 300

  predicate StatsDue(force: bool, n: U64, last: U64) {
    force || Sub64(n, last) >= STATS_MIN_INTERVAL_MS
  }

  /** One line of /proc/net/dev: the interface and the numbers of the first
      (at most nine) fields split_line found, as strtoll read them. */
  datatype Reading = Reading(interface: string, values: seq<U64>)

  /** The device a line names gets rx from the first field (if any), tx
      from the ninth (if there are nine) and the time. */
  function UpdatedStats(s: Stats, r: Reading, n: U64): (t: Stats) {
    Stats(if |r.values| >= 9 then r.values[8] else s.tx,
          if |r.values| >= 1 then r.values[0] else s.rx,
          n)
  }

  /** The callback for one line: the first device with that interface is
      updated, a line for an interface no device uses is ignored. */
  function ApplyReading(ds: seq<Device>, r: Reading, n: U64): (ds': seq<Device>)
    ensures |ds'| == |ds|
  {
    match FirstIndexOf(DeviceInterfaces(ds), r.interface)
    case None => ds
    case Some(i) => ds[i := ds[i].(stats := UpdatedStats(ds[i].stats, r, n))]
  }

  function ApplyReadings(ds: seq<Device>, rs: seq<Reading>, n: U64): (ds': seq<Device>)
    ensures |ds'| == |ds|
    decreases |rs|
  {
    if rs == [] then ds else ApplyReadings(ApplyReading(ds, rs[0], n), rs[1..], n)
  }

  /** Whether some line names k as the first device with its interface. */
  predicate Named(ds: seq<Device>, rs: seq<Reading>, k: nat) {
    exists j :: 0 <= j < |rs| && FirstIndexOf(DeviceInterfaces(ds), rs[j].interface) == Some(k)
  }

  /** Only statistics change: every device keeps its name, interface,
      medium, state and SSID. */
  lemma {:induction false} ReadingsKeepIdentity(ds: seq<Device>, rs: seq<Reading>, n: U64)
    ensures forall k :: 0 <= k < |ds| ==>
      ApplyReadings(ds, rs, n)[k] == ds[k].(stats := ApplyReadings(ds, rs, n)[k].stats)
    decreases |rs|
  {
    if rs != [] {
      ReadingsKeepIdentity(ApplyReading(ds, rs[0], n), rs[1..], n);
    }
  }

  /** A device no line names keeps its statistics; a device some line
      names ends up stamped with the update's time. */
  lemma {:induction false} ReadingsTouchNamedOnly(ds: seq<Device>, rs: seq<Reading>, n: U64, k: nat)
    requires k < |ds|
    ensures !Named(ds, rs, k) ==> ApplyReadings(ds, rs, n)[k] == ds[k]
    ensures Named(ds, rs, k) ==> ApplyReadings(ds, rs, n)[k].stats.time == n
    decreases |rs|
  {
    if rs != [] {
      var ds1 := ApplyReading(ds, rs[0], n);
      ReadingsKeepIdentity(ds, [rs[0]], n);
      assert ApplyReadings(ds, [rs[0]], n) == ds1;
      assert DeviceInterfaces(ds1) == DeviceInterfaces(ds);
      ReadingsTouchNamedOnly(ds1, rs[1..], n, k);
      if !Named(ds, rs, k) {
        assert !Named(ds1, rs[1..], k) by {
          forall j | 0 <= j < |rs[1..]|
            ensures FirstIndexOf(DeviceInterfaces(ds1), rs[1..][j].interface) != Some(k)
          {
            assert rs[1..][j] == rs[j + 1];
          }
        }
        assert FirstIndexOf(DeviceInterfaces(ds), rs[0].interface) != Some(k);
      } else if Named(ds1, rs[1..], k) {
      } else {

      }
    }
  }

  // ---------------------------------------------------------------------
  // nc_network_connection_info

  const NUL: char := '\0'

  predicate CString(s: string) {
    NUL !in s
  }

  /** What the strcpy () calls leave in the bytes reserved after the
      record: each requested string that the device has, NUL-terminated,
      interface first. */
  function InfoStrings(d: Device, mask: bv32): (b: seq<char>) {
    (if mask & NetworkMedium.DEVICE_INFO_INTERFACE != 0 then d.interface + [NUL] else [])
    + (if mask & NetworkMedium.DEVICE_INFO_ACCESS_POINT != 0 && d.ssid.Some? then d.ssid.value + [NUL] else [])
  }

  /** extra: strlen () + 1 of each such string, counted before the record
      is allocated. */
  function ExtraBytes(d: Device, mask: bv32): nat {
    (if mask & NetworkMedium.DEVICE_INFO_INTERFACE != 0 then |d.interface| + 1 else 0)
    + (if mask & NetworkMedium.DEVICE_INFO_ACCESS_POINT != 0 && d.ssid.Some? then |d.ssid.value| + 1 else 0)
  }

  /** The C string starting at offset i of b: the bytes up to the next NUL. */
  function CStringAt(b: seq<char>, i: nat): string
    requires i <= |b|
    decreases |b| - i
  {
    if i == |b| || b[i] == NUL then [] else [b[i]] + CStringAt(b, i + 1)
  }

  lemma {:induction false} CStringAtPrefix(s: string, rest: seq<char>)
    requires CString(s)
    ensures CStringAt(s + [NUL] + rest, 0) == s
    decreases |s|
  {
    if s != [] {
      CStringAtShift(s + [NUL] + rest, 1);
      assert (s + [NUL] + rest)[1..] == s[1..] + [NUL] + rest;
      CStringAtPrefix(s[1..], rest);
    }
  }

  lemma {:induction false} CStringAtShift(b: seq<char>, i: nat)
    requires 1 <= i <= |b|
    ensures CStringAt(b, i) == CStringAt(b[1..], i - 1)
    decreases |b| - i
  {
    if i < |b| && b[i] != NUL {
      CStringAtShift(b, i + 1);
    }
  }

  /** struct nc_device_info.  interfaceAt and accessPointAt are where
      info->interface and info->access_point point into the reserved
      bytes.  IP addresses, gateways and MAC addresses are not part of this
      model. */
  datatype DeviceInfo = DeviceInfo(mask: bv32, extra: seq<char>, interfaceAt: Option<nat>,
                                   accessPointAt: Option<nat>, stats: Stats, medium: bv32)

  /** Reported statistics: the device's minus those at connect, in
      uint64_t, stamped with the time of the device's last reading. */
  function StatsSinceConnect(d: Device, link: DeviceLink): (s: Stats)
    ensures s.time == d.stats.time
    ensures link.statsConnect.tx <= d.stats.tx ==> s.tx == d.stats.tx - link.statsConnect.tx
    ensures link.statsConnect.rx <= d.stats.rx ==> s.rx == d.stats.rx - link.statsConnect.rx
  {
    Stats(Sub64(d.stats.tx, link.statsConnect.tx), Sub64(d.stats.rx, link.statsConnect.rx), d.stats.time)
  }

  /** The record built for one known device. */
  function InfoOf(d: Device, link: DeviceLink, mask: bv32): (info: DeviceInfo) {
    var wantIf := mask & NetworkMedium.DEVICE_INFO_INTERFACE != 0;
    var wantAp := mask & NetworkMedium.DEVICE_INFO_ACCESS_POINT != 0 && d.ssid.Some?;
    var wantStats := mask & NetworkMedium.DEVICE_INFO_STATS != 0;
    var wantMedium := mask & NetworkMedium.DEVICE_INFO_MEDIUM != 0;
    DeviceInfo(
      (if wantIf then NetworkMedium.DEVICE_INFO_INTERFACE else 0)
      | (if wantAp then NetworkMedium.DEVICE_INFO_ACCESS_POINT else 0)
      | (if wantStats then NetworkMedium.DEVICE_INFO_STATS else 0)
      | (if wantMedium then NetworkMedium.DEVICE_INFO_MEDIUM else 0),
      InfoStrings(d, mask),
      if wantIf then Some(0) else None,
      if wantAp then Some(if wantIf then |d.interface| + 1 else 0) else None,
      if wantStats then StatsSinceConnect(d, link) else NO_STATS,
      if wantMedium then d.medium else 0)
  }

  /** The assertion at the end of the string copies holds: the strings fill
      the reserved bytes exactly, and each pointer reads back the string it
      was meant to hold.  The reported mask is the requested one cut down
      to what was filled in. */
  lemma InfoLayout(d: Device, link: DeviceLink, mask: bv32)
    requires CString(d.interface) && (d.ssid.Some? ==> CString(d.ssid.value))
    ensures var info := InfoOf(d, link, mask);
      && |info.extra| == ExtraBytes(d, mask)
      && (info.interfaceAt.Some? <==> mask & NetworkMedium.DEVICE_INFO_INTERFACE != 0)
      && (info.interfaceAt.Some? ==>
            info.interfaceAt.value <= |info.extra| && CStringAt(info.extra, info.interfaceAt.value) == d.interface)
      && (info.accessPointAt.Some? <==> mask & NetworkMedium.DEVICE_INFO_ACCESS_POINT != 0 && d.ssid.Some?)
      && (info.accessPointAt.Some? ==>
            info.accessPointAt.value <= |info.extra| && CStringAt(info.extra, info.accessPointAt.value) == d.ssid.value)
      && info.mask & mask == info.mask
      && (info.mask & NetworkMedium.DEVICE_INFO_STATS != 0 ==> info.stats == StatsSinceConnect(d, link))
  {
    var info := InfoOf(d, link, mask);
    var wantIf := mask & NetworkMedium.DEVICE_INFO_INTERFACE != 0;
    var wantAp := mask & NetworkMedium.DEVICE_INFO_ACCESS_POINT != 0 && d.ssid.Some?;
    var ap := if wantAp then d.ssid.value + [NUL] else [];
    if wantIf {
      CStringAtPrefix(d.interface, ap);
      assert info.extra == d.interface + [NUL] + ap;
    }
    if wantAp {
      var off := if wantIf then |d.interface| + 1 else 0;
      CStringAtPrefix(d.ssid.value, []);
      assert d.ssid.value + [NUL] + [] == d.ssid.value + [NUL];
      assert info.extra[off..] == d.ssid.value + [NUL];
      CStringAtDrop(info.extra, off);
    }
    InfoMaskWithin(mask, wantIf, wantAp, mask & NetworkMedium.DEVICE_INFO_STATS != 0,
                   mask & NetworkMedium.DEVICE_INFO_MEDIUM != 0);
  }

  lemma {:induction false} CStringAtDrop(b: seq<char>, k: nat)
    requires k <= |b|
    ensures CStringAt(b, k) == CStringAt(b[k..], 0)
    decreases k
  {
    if k > 0 {
      CStringAtShift(b, k);
      CStringAtDrop(b[1..], k - 1);
      assert b[1..][k - 1..] == b[k..];
    }
  }

  lemma InfoMaskWithin(mask: bv32, a: bool, b: bool, c: bool, d: bool)
    requires a ==> mask & NetworkMedium.DEVICE_INFO_INTERFACE != 0
    requires b ==> mask & NetworkMedium.DEVICE_INFO_ACCESS_POINT != 0
    requires c ==> mask & NetworkMedium.DEVICE_INFO_STATS != 0
    requires d ==> mask & NetworkMedium.DEVICE_INFO_MEDIUM != 0
    ensures var m := (if a then NetworkMedium.DEVICE_INFO_INTERFACE else 0)
      | (if b then NetworkMedium.DEVICE_INFO_ACCESS_POINT else 0)
      | (if c then NetworkMedium.DEVICE_INFO_STATS else 0)
      | (if d then NetworkMedium.DEVICE_INFO_MEDIUM else 0);
      m & mask == m
  {
  }

  // ---------------------------------------------------------------------
  // nc_network_connection_mediums

  /** The device a link designates, found the way
      per_connection_device_to_device finds it: the first device with that
      name. */
  function LinkDevice(ds: seq<Device>, link: DeviceLink): (r: Option<nat>)
    ensures r.Some? ==> r.value < |ds|
  {
    FirstIndexOf(DeviceNames(ds), link.deviceName)
  }

  /** nc_network_connection_mediums as written: it ORs d->medium without
      checking that the device was found, so a link to an unknown device
      reads through a NULL pointer (None). */
  function MediumsAsWritten(ds: seq<Device>, links: seq<DeviceLink>): (r: Option<bv32>)
    decreases |links|
  {
    if links == [] then Some(0)
    else match LinkDevice(ds, links[0])
      case None => None
      case Some(i) =>
        match MediumsAsWritten(ds, links[1..])
        case None => None
        case Some(m) => Some(ds[i].medium | m)
  }

  /** A connection whose device is not (yet) known, which
      nc_network_connection_info expects and skips, makes the code
      dereference NULL. */
  lemma MediumsAsWrittenFaults()
    ensures MediumsAsWritten([], [DeviceLink("wlan0", false, NO_STATS)]) == None
  {
  }

  /** The mask of mediums, skipping links whose device is unknown as
      nc_network_connection_info does. */
  function Mediums(ds: seq<Device>, links: seq<DeviceLink>): (m: bv32)
    decreases |links|
  {
    if links == [] then 0
    else match LinkDevice(ds, links[0])
      case None => Mediums(ds, links[1..])
      case Some(i) => ds[i].medium | Mediums(ds, links[1..])
  }

  /** The mask holds the medium of every known device of the connection. */
  lemma MediumsCoverKnown(ds: seq<Device>, links: seq<DeviceLink>, k: nat)
    requires k < |links|
    ensures Within(LinkMedium(ds, links[k]), Mediums(ds, links))
  {
    MediumsIsOrAll(ds, links);
    OrAllCovers(LinkMediums(ds, links), k);
  }

  /** The medium of each link, in order. */
  function LinkMediums(ds: seq<Device>, links: seq<DeviceLink>): (ms: seq<bv32>)
    ensures |ms| == |links|
    ensures forall k :: 0 <= k < |links| ==> ms[k] == LinkMedium(ds, links[k])
  {
    seq(|links|, k requires 0 <= k < |links| => LinkMedium(ds, links[k]))
  }

  /** The bitwise OR of a sequence of masks. */
  function OrAll(ms: seq<bv32>): bv32
    decreases |ms|
  {
    if ms == [] then 0 else ms[0] | OrAll(ms[1..])
  }

  lemma {:induction false} MediumsIsOrAll(ds: seq<Device>, links: seq<DeviceLink>)
    ensures Mediums(ds, links) == OrAll(LinkMediums(ds, links))
    decreases |links|
  {
    if links != [] {
      MediumsUnfold(ds, links);
      MediumsIsOrAll(ds, links[1..]);
      assert LinkMediums(ds, links)[1..] == LinkMediums(ds, links[1..]);
    }
  }

  /** Every bit of m is set in total. */
  predicate Within(m: bv32, total: bv32) {
    m & total == m
  }

  /** Every mask ORed in is contained in the result. */
  lemma {:induction false} OrAllCovers(ms: seq<bv32>, k: nat)
    requires k < |ms|
    ensures Within(ms[k], OrAll(ms))
    decreases |ms|
  {
    if k == 0 {
      OrKeeps(ms[0], OrAll(ms[1..]));
    } else {
      OrAllCovers(ms[1..], k - 1);
      assert ms[1..][k - 1] == ms[k];
      OrKeepsRight(ms[k], OrAll(ms), ms[0], OrAll(ms[1..]));
    }
  }

  /** The medium one link contributes: its device's, or none. */
  function LinkMedium(ds: seq<Device>, link: DeviceLink): bv32 {
    match LinkDevice(ds, link)
    case None => 0
    case Some(i) => ds[i].medium
  }

  lemma MediumsUnfold(ds: seq<Device>, links: seq<DeviceLink>)
    requires links != []
    ensures Mediums(ds, links) == LinkMedium(ds, links[0]) | Mediums(ds, links[1..])
  {
    if LinkDevice(ds, links[0]).None? {
      ZeroOr(Mediums(ds, links[1..]));
    }
  }

  lemma ZeroOr(r: bv32)
    ensures 0 | r == r
  {
  }

  /** Only mediums of known devices appear: with no known device the mask
      is empty. */
  lemma {:induction false} MediumsOnlyKnown(ds: seq<Device>, links: seq<DeviceLink>)
    requires forall k :: 0 <= k < |links| ==> LinkDevice(ds, links[k]).None?
    ensures Mediums(ds, links) == 0
    decreases |links|
  {
    if links != [] {
      assert forall k :: 0 <= k < |links[1..]| ==> links[1..][k] == links[k + 1];
      MediumsOnlyKnown(ds, links[1..]);
    }
  }

  /** Where every device is known the corrected mask is what the code
      computes. */
  lemma {:induction false} MediumsAgreeWhenKnown(ds: seq<Device>, links: seq<DeviceLink>)
    requires forall k :: 0 <= k < |links| ==> LinkDevice(ds, links[k]).Some?
    ensures MediumsAsWritten(ds, links) == Some(Mediums(ds, links))
    decreases |links|
  {
    if links != [] {
      assert LinkDevice(ds, links[0]).Some?;
      assert forall k :: 0 <= k < |links[1..]| ==> links[1..][k] == links[k + 1];
      MediumsAgreeWhenKnown(ds, links[1..]);
    }
  }

  lemma OrKeeps(m: bv32, r: bv32)
    ensures Within(m, m | r)
  {
  }

  lemma OrKeepsRight(m: bv32, total: bv32, a: bv32, r: bv32)
    requires total == a | r && Within(m, r)
    ensures Within(m, total)
  {
  }
}
