/** The monitor-wide transitions of src/network-monitor.c as functions of
    the whole MonitorState: each is what one function of the C file does to
    the monitor's fields, and the Monitor class (network_monitor_object.dfy)
    is proved to perform exactly that transition.  A connection or device is
    designated by its index in the list (the C code passes the object's
    pointer). */
module NetworkMonitorSteps {
  import opened Wrappers
  import opened Util
  import NetworkMedium
  import opened NetworkMonitor

  /** The signal that was emitted, if any, as a list of events. */
  function Emitted(e: Option<Event>): (es: seq<Event>)
    ensures |es| <= 1
    ensures e.None? ==> es == []
    ensures e.Some? ==> es == [e.value]
  {
    if e.Some? then [e.value] else []
  }

  /** The fields of a freshly created monitor: everything empty or zero. */
  const INITIAL: MonitorState := MonitorState([], [], Defaults(None, None, false), false, false, 0, 0, [],
                                              false, false, map[], 0)

  // ---------------------------------------------------------------------
  // stats_update

  /** stats_update (m, force) at time n, with the lines /proc/net/dev
      holds: nothing within 300 ms of the last unforced update, otherwise
      the time is recorded and every line updates its device. */
  function StatsUpdate(s: MonitorState, force: bool, n: U64, rs: seq<Reading>): (r: MonitorState)
    ensures |r.devices| == |s.devices|
  {
    if !StatsDue(force, n, s.statsLastUpdatedAt) then s
    else s.(statsLastUpdatedAt := n, devices := ApplyReadings(s.devices, rs, n))
  }

  /** The throttle, and that an update touches nothing but statistics: an
      unforced update within 300 ms of the last one changes nothing; any
      other update records its time and changes only the devices'
      statistics. */
  lemma StatsUpdateEffect(s: MonitorState, force: bool, n: U64, rs: seq<Reading>)
    ensures !force && Sub64(n, s.statsLastUpdatedAt) < STATS_MIN_INTERVAL_MS ==> StatsUpdate(s, force, n, rs) == s
    ensures StatsDue(force, n, s.statsLastUpdatedAt) ==>
      var r := StatsUpdate(s, force, n, rs);
      && r.statsLastUpdatedAt == n
      && r == s.(statsLastUpdatedAt := n, devices := r.devices)
    ensures var r := StatsUpdate(s, force, n, rs);
      forall k :: 0 <= k < |s.devices| ==> r.devices[k] == s.devices[k].(stats := r.devices[k].stats)
  {
    ReadingsKeepIdentity(s.devices, rs, n);
  }

  // ---------------------------------------------------------------------
  // The default connection, on the whole state

  /** default_connection_scan: the ICD2 backend schedules a scan of the
      routing table, the NetworkManager one does nothing. */
  function DefaultScan(b: Backend, s: MonitorState): (r: MonitorState)
    ensures b.Icd2Daemon? ==> r == s.(scanPending := true)
    ensures b.NetworkManager? ==> r == s
  {
    if b.Icd2Daemon? then s.(scanPending := true) else s
  }

  function UpdateDefault(s: MonitorState, c: Option<nat>, isDefault: bool): (r: MonitorState)
    ensures r == s.(defaults := DefaultUpdate(s.defaults, c, isDefault))
  {
    s.(defaults := DefaultUpdate(s.defaults, c, isDefault))
  }

  /** The idle handler default_connection_update_send_signal. */
  function EmitDefault(s: MonitorState): (r: MonitorState)
    ensures r.defaults == SendSignal(s.defaults).defaults
    ensures r.events == s.events + Emitted(SendSignal(s.defaults).signal)
    ensures r == s.(defaults := r.defaults, events := r.events)
  {
    var sent := SendSignal(s.defaults);
    s.(defaults := sent.defaults, events := s.events + Emitted(sent.signal))
  }

  // ---------------------------------------------------------------------
  // Connections

  /** Connection ids are distinct and below the next one to hand out, as
      the addresses of live objects are distinct. */
  predicate IdsValid(s: MonitorState) {
    && (forall i :: 0 <= i < |s.connections| ==> s.connections[i].id < s.nextId)
    && (forall i, j :: 0 <= i < j < |s.connections| ==> s.connections[i].id != s.connections[j].id)
  }

  /** g_object_new and nc_network_connection_init: no devices, the
      disconnected state, never connected, not seen. */
  function NewConnectionOf(b: Backend, id: nat, name: string): Connection {
    Connection(id, name, [], ConnectionStateDisconnected(b), 0, false)
  }

  /** nc_network_connection_new without the backend's hook: the new
      connection is prepended to the list. */
  function AddConnection(b: Backend, s: MonitorState, name: string): (r: MonitorState)
    ensures |r.connections| == |s.connections| + 1
  {
    s.(connections := [NewConnectionOf(b, s.nextId, name)] + s.connections, nextId := s.nextId + 1)
  }

  /** A new connection comes first, holds the name, has the fresh id and no
      devices, and keeps the ids valid; the other connections move up one
      place unchanged. */
  lemma AddConnectionEffect(b: Backend, s: MonitorState, name: string)
    requires IdsValid(s)
    ensures var r := AddConnection(b, s, name);
      && IdsValid(r)
      && r.connections[0].name == name && r.connections[0].links == []
      && r.connections[0].id == s.nextId
      && r.connections[1..] == s.connections
      && FirstIndexOf(ConnectionNames(r.connections), name) == Some(0)
      && IndexOfId(r.connections, s.nextId) == Some(0)
  {
  }

  function RemoveAt<T>(xs: seq<T>, i: nat): (ys: seq<T>)
    requires i < |xs|
    ensures |ys| == |xs| - 1
    ensures forall k :: 0 <= k < i ==> ys[k] == xs[k]
    ensures forall k :: i <= k < |ys| ==> ys[k] == xs[k + 1]
  {
    xs[..i] + xs[i + 1..]
  }

  /** nc_network_connection_dispose: the connection stops being the real
      default, a pending default signal is sent at once, and the
      connection leaves the list. */
  function Dispose(s: MonitorState, i: nat): (r: MonitorState)
    requires i < |s.connections|
    ensures |r.connections| == |s.connections| - 1
  {
    var s1 := UpdateDefault(s, Some(s.connections[i].id), false);
    var s2 := if s1.defaults.pending then EmitDefault(s1) else s1;
    s2.(connections := RemoveAt(s2.connections, i))
  }

  /** A disposed connection is gone and is neither the real nor the
      published default any more; the other connections keep their order
      and the ids stay valid. */
  lemma DisposeEffect(s: MonitorState, i: nat)
    requires i < |s.connections| && IdsValid(s) && Settled(s.defaults)
    ensures var r := Dispose(s, i);
      var id := s.connections[i].id;
      && IdsValid(r)
      && IndexOfId(r.connections, id).None?
      && r.defaults.actual != Some(id) && r.defaults.current != Some(id)
      && r.connections == RemoveAt(s.connections, i)
      && Settled(r.defaults)
  {
    var id := s.connections[i].id;
    var r := Dispose(s, i);
    forall k | 0 <= k < |r.connections|
      ensures r.connections[k].id != id
    {
      if k < i {
        assert r.connections[k] == s.connections[k];
      } else {
        assert r.connections[k] == s.connections[k + 1];
      }
    }
  }

  function SetConnectionState(s: MonitorState, i: nat, state: int): (r: MonitorState)
    requires i < |s.connections|
    ensures |r.connections| == |s.connections|
  {
    s.(connections := s.connections[i := s.connections[i].(state := state)])
  }

  /** The part of connection_state_set every change goes through: the
      default-route scan is queued and the state recorded. */
  function Recorded(b: Backend, s: MonitorState, i: nat, state: int): (r: MonitorState)
    requires i < |s.connections|
    ensures |r.connections| == |s.connections|
  {
    SetConnectionState(DefaultScan(b, s), i, state)
  }

  /** Now connected: connected_at is set, the statistics are read (forced)
      and new-connection is emitted. */
  function Announce(s: MonitorState, i: nat, n: U64, rs: seq<Reading>): (r: MonitorState)
    requires i < |s.connections|
    ensures |r.connections| == |s.connections|
  {
    var s2 := s.(connections := s.connections[i := s.connections[i].(connectedAt := n)]);
    var s3 := StatsUpdate(s2, true, n, rs);
    s3.(events := s3.events + [NewConnection(s.connections[i].id)])
  }

  /** Now disconnected: disconnected is emitted and the reference the
      monitor holds is dropped, which disposes the connection. */
  function Withdraw(s: MonitorState, i: nat): (r: MonitorState)
    requires i < |s.connections|
    ensures |r.connections| == |s.connections| - 1
  {
    Dispose(s.(events := s.events + [Disconnected(s.connections[i].id)]), i)
  }

  /** connection_state_set (c, state, initial) at time n, with /proc/net/dev
      holding rs should statistics be read. */
  function ConnectionStateSet(b: Backend, s: MonitorState, i: nat, state: int, initial: bool,
                              n: U64, rs: seq<Reading>): (r: MonitorState)
    requires i < |s.connections|
  {
    match StateTransition(b, s.connections[i], state, initial)
    case Unchanged => s
    case Announced => Announce(Recorded(b, s, i, state), i, n, rs)
    case Withdrawn => Withdraw(Recorded(b, s, i, state), i)
    case _ => Recorded(b, s, i, state)
  }

  /** Either the connection stays, or it was withdrawn and is gone. */
  lemma ConnectionStateSetSize(b: Backend, s: MonitorState, i: nat, state: int, initial: bool,
                               n: U64, rs: seq<Reading>)
    requires i < |s.connections|
    ensures var r := ConnectionStateSet(b, s, i, state, initial, n, rs);
      if StateTransition(b, s.connections[i], state, initial) == Withdrawn
      then |r.connections| == |s.connections| - 1
      else |r.connections| == |s.connections|
  {
  }

  /** A change that publishes nothing (no devices yet, or no change of
      connectedness) records the state, queues the default-route scan and
      emits nothing. */
  lemma ConnectionStateSetQuiet(b: Backend, s: MonitorState, i: nat, state: int, initial: bool,
                                n: U64, rs: seq<Reading>)
    requires i < |s.connections|
    requires StateTransition(b, s.connections[i], state, initial) in {Unpublished, Quiet}
    ensures var r := ConnectionStateSet(b, s, i, state, initial, n, rs);
      && r.connections == s.connections[i := s.connections[i].(state := state)]
      && r.events == s.events && r.defaults == s.defaults && r.devices == s.devices
  {
  }

  /** Entering a connected state: exactly the new-connection signal is
      emitted and the connection is stamped with the time. */
  lemma ConnectionStateSetAnnounced(b: Backend, s: MonitorState, i: nat, state: int, initial: bool,
                                    n: U64, rs: seq<Reading>)
    requires i < |s.connections|
    requires StateTransition(b, s.connections[i], state, initial) == Announced
    ensures var r := ConnectionStateSet(b, s, i, state, initial, n, rs);
      && r.events == s.events + [NewConnection(s.connections[i].id)]
      && r.connections == s.connections[i := s.connections[i].(state := state, connectedAt := n)]
      && r.defaults == s.defaults
      && r.statsLastUpdatedAt == n
      && |r.devices| == |s.devices|
      && (forall k :: 0 <= k < |s.devices| ==> r.devices[k] == s.devices[k].(stats := r.devices[k].stats))
  {
    var s1 := Recorded(b, s, i, state);
    StatsUpdateEffect(s1.(connections := s1.connections[i := s1.connections[i].(connectedAt := n)]), true, n, rs);
  }

  /** Leaving a connected state: the disconnected signal comes next (a
      default-connection signal may follow it) and the connection leaves
      the list. */
  lemma ConnectionStateSetWithdrawn(b: Backend, s: MonitorState, i: nat, state: int, initial: bool,
                                    n: U64, rs: seq<Reading>)
    requires i < |s.connections|
    requires StateTransition(b, s.connections[i], state, initial) == Withdrawn
    ensures var r := ConnectionStateSet(b, s, i, state, initial, n, rs);
      && |r.events| >= |s.events| + 1
      && r.events[..|s.events| + 1] == s.events + [Disconnected(s.connections[i].id)]
      && r.connections == RemoveAt(s.connections, i)
  {
    var s1 := Recorded(b, s, i, state);
    var s2 := s1.(events := s1.events + [Disconnected(s.connections[i].id)]);
    var s3 := UpdateDefault(s2, Some(s2.connections[i].id), false);
    var r := ConnectionStateSet(b, s, i, state, initial, n, rs);
    assert r.events == s2.events || r.events == s2.events + Emitted(SendSignal(s3.defaults).signal);
    assert RemoveAt(s1.connections, i) == RemoveAt(s.connections, i);
  }

  /** connection_state_set keeps the ids valid and the defaults settled. */
  lemma ConnectionStateSetKeepsIds(b: Backend, s: MonitorState, i: nat, state: int, initial: bool,
                                   n: U64, rs: seq<Reading>)
    requires i < |s.connections| && IdsValid(s) && Settled(s.defaults)
    ensures IdsValid(ConnectionStateSet(b, s, i, state, initial, n, rs))
    ensures Settled(ConnectionStateSet(b, s, i, state, initial, n, rs).defaults)
  {
    var t := StateTransition(b, s.connections[i], state, initial);
    if t == Withdrawn {
      WithdrawnKeepsIds(b, s, i, state, initial, n, rs);
    } else if t == Announced {
      AnnouncedKeepsIds(b, s, i, state, initial, n, rs);
    } else if t != Unchanged {
      QuietKeepsIds(b, s, i, state, initial, n, rs);
    }
  }

  lemma AnnouncedKeepsIds(b: Backend, s: MonitorState, i: nat, state: int, initial: bool,
                          n: U64, rs: seq<Reading>)
    requires i < |s.connections| && IdsValid(s) && Settled(s.defaults)
    requires StateTransition(b, s.connections[i], state, initial) == Announced
    ensures IdsValid(ConnectionStateSet(b, s, i, state, initial, n, rs))
    ensures Settled(ConnectionStateSet(b, s, i, state, initial, n, rs).defaults)
  {
    ConnectionStateSetAnnounced(b, s, i, state, initial, n, rs);
    var r := ConnectionStateSet(b, s, i, state, initial, n, rs);
    assert r.nextId == s.nextId;
    KeepIds(s, r);
  }

  lemma QuietKeepsIds(b: Backend, s: MonitorState, i: nat, state: int, initial: bool,
                      n: U64, rs: seq<Reading>)
    requires i < |s.connections| && IdsValid(s) && Settled(s.defaults)
    requires StateTransition(b, s.connections[i], state, initial) in {Unpublished, Quiet}
    ensures IdsValid(ConnectionStateSet(b, s, i, state, initial, n, rs))
    ensures Settled(ConnectionStateSet(b, s, i, state, initial, n, rs).defaults)
  {
    ConnectionStateSetQuiet(b, s, i, state, initial, n, rs);
    var r := ConnectionStateSet(b, s, i, state, initial, n, rs);
    assert r.nextId == s.nextId;
    KeepIds(s, r);
  }

  lemma WithdrawnKeepsIds(b: Backend, s: MonitorState, i: nat, state: int, initial: bool,
                          n: U64, rs: seq<Reading>)
    requires i < |s.connections| && IdsValid(s) && Settled(s.defaults)
    requires StateTransition(b, s.connections[i], state, initial) == Withdrawn
    ensures IdsValid(ConnectionStateSet(b, s, i, state, initial, n, rs))
    ensures Settled(ConnectionStateSet(b, s, i, state, initial, n, rs).defaults)
  {
    var s1 := Recorded(b, s, i, state);
    KeepIds(s, s1);
    DisposeEffect(s1.(events := s1.events + [Disconnected(s.connections[i].id)]), i);
  }

  /** States whose connections carry the same ids in the same places. */
  lemma KeepIds(s: MonitorState, r: MonitorState)
    requires IdsValid(s) && r.nextId == s.nextId && |r.connections| == |s.connections|
    requires forall k :: 0 <= k < |s.connections| ==> r.connections[k].id == s.connections[k].id
    ensures IdsValid(r)
  {
  }

  // ---------------------------------------------------------------------
  // Devices

  /** nc_network_device_new: the device is prepended, disconnected, with
      no SSID and zero statistics. */
  function AddDevice(b: Backend, s: MonitorState, name: string, interface: string, medium: bv32): (r: MonitorState)
    ensures |r.devices| == |s.devices| + 1
  {
    s.(devices := [Device(name, interface, medium, DeviceStateDisconnected(b), None, NO_STATS)] + s.devices)
  }

  /** device_state_changed (d, newState), where ssid is what the backend
      reports as the access point's SSID should it be asked. */
  function DeviceStateChanged(b: Backend, s: MonitorState, j: nat, newState: int, ssid: Option<string>): (r: MonitorState)
    requires j < |s.devices|
    ensures |r.devices| == |s.devices|
  {
    var d := s.devices[j];
    if newState == d.state then s
    else
      var connectedWifi := DeviceStateIsConnected(b, newState) && d.medium == NetworkMedium.MEDIUM_WIFI;
      var s1 := s.(devices := s.devices[j := d.(state := newState, ssid := if connectedWifi then ssid else None)]);
      var s2 := if b.NetworkManager? then s1.(activeScanPending := true) else s1;
      DefaultScan(b, s2)
  }

  /** A device state change drops the old SSID and keeps a new one only for
      a connected WiFi device; the NetworkManager backend queues an
      active-connection scan and the ICD2 backend a default-route scan.
      Repeating the current state changes nothing. */
  lemma DeviceStateChangedEffect(b: Backend, s: MonitorState, j: nat, newState: int, ssid: Option<string>)
    requires j < |s.devices|
    ensures var r := DeviceStateChanged(b, s, j, newState, ssid);
      var d := s.devices[j];
      && (newState == d.state ==> r == s)
      && (newState != d.state ==>
            && r.devices[j].state == newState
            && (r.devices[j].ssid.Some? ==>
                  DeviceStateIsConnected(b, newState) && d.medium == NetworkMedium.MEDIUM_WIFI)
            && r.devices[j] == d.(state := newState, ssid := r.devices[j].ssid)
            && (b.NetworkManager? ==> r.activeScanPending && !r.scanPending == !s.scanPending)
            && (b.Icd2Daemon? ==> r.scanPending && r.activeScanPending == s.activeScanPending)
            && r.connections == s.connections && r.defaults == s.defaults && r.events == s.events)
      && (forall k :: 0 <= k < |s.devices| && k != j ==> r.devices[k] == s.devices[k])
  {
  }

  // ---------------------------------------------------------------------
  // Per-connection device state

  /** Replaces link k of connection i. */
  function SetLink(s: MonitorState, i: nat, k: nat, link: DeviceLink): (r: MonitorState)
    requires i < |s.connections| && k < |s.connections[i].links|
    ensures |r.connections| == |s.connections| && |r.connections[i].links| == |s.connections[i].links|
  {
    var c := s.connections[i];
    s.(connections := s.connections[i := c.(links := c.links[k := link])])
  }

  /** per_connection_device_to_device: an unresolved link whose device is
      now known is resolved, after a forced statistics update, and records
      the device's statistics at that moment. */
  function ResolveLink(s: MonitorState, i: nat, k: nat, n: U64, rs: seq<Reading>): (r: MonitorState)
    requires i < |s.connections| && k < |s.connections[i].links|
    ensures |r.connections| == |s.connections| && |r.connections[i].links| == |s.connections[i].links|
    ensures |r.devices| == |s.devices|
  {
    var link := s.connections[i].links[k];
    if link.resolved then s
    else match LinkDevice(s.devices, link)
      case None => s
      case Some(j) =>
        var s1 := StatsUpdate(s, true, n, rs);
        SetLink(s1, i, k, link.(resolved := true, statsConnect := s1.devices[j].stats))
  }

  /** Resolution changes nothing for a resolved link or an unknown device;
      otherwise the link records the statistics its device has after the
      forced update, and the device names stay as they were. */
  lemma ResolveLinkEffect(s: MonitorState, i: nat, k: nat, n: U64, rs: seq<Reading>)
    requires i < |s.connections| && k < |s.connections[i].links|
    ensures var link := s.connections[i].links[k];
      var r := ResolveLink(s, i, k, n, rs);
      && DeviceNames(r.devices) == DeviceNames(s.devices)
      && r.connections[i].links[k].deviceName == link.deviceName
      && (link.resolved || LinkDevice(s.devices, link).None? ==> r == s)
      && (!link.resolved && LinkDevice(s.devices, link).Some? ==>
            && r.connections[i].links[k].resolved
            && r.connections[i].links[k].statsConnect == r.devices[LinkDevice(s.devices, link).value].stats
            && r.statsLastUpdatedAt == n
            && r.events == s.events)
  {
    StatsUpdateEffect(s, true, n, rs);
  }

  /** connection_add_device: the link is appended and resolved at once if
      its device is known. */
  function AddLink(s: MonitorState, i: nat, name: string, n: U64, rs: seq<Reading>): (r: MonitorState)
    requires i < |s.connections|
    ensures |r.connections| == |s.connections|
    ensures |r.connections[i].links| == |s.connections[i].links| + 1
  {
    var c := s.connections[i];
    var s1 := s.(connections := s.connections[i := c.(links := c.links + [DeviceLink(name, false, NO_STATS)])]);
    ResolveLink(s1, i, |c.links|, n, rs)
  }

  /** Adding a link touches only connection i's links (the old ones stay,
      the new one names the device), the devices' statistics and the time
      of the last statistics update. */
  lemma AddLinkKeeps(s: MonitorState, i: nat, name: string, n: U64, rs: seq<Reading>)
    requires i < |s.connections|
    ensures var r := AddLink(s, i, name, n, rs);
      var c := s.connections[i];
      && (forall k :: 0 <= k < |s.connections| && k != i ==> r.connections[k] == s.connections[k])
      && r.connections[i] == c.(links := r.connections[i].links)
      && r.connections[i].links[..|c.links|] == c.links
      && r.connections[i].links[|c.links|].deviceName == name
      && r.defaults == s.defaults && r.events == s.events && r.nextId == s.nextId
      && (forall k :: 0 <= k < |s.devices| ==> r.devices[k] == s.devices[k].(stats := r.devices[k].stats))
  {
    var c := s.connections[i];
    var s1 := s.(connections := s.connections[i := c.(links := c.links + [DeviceLink(name, false, NO_STATS)])]);
    var r := AddLink(s, i, name, n, rs);
    ResolveLinkEffect(s1, i, |c.links|, n, rs);
    StatsUpdateEffect(s1, true, n, rs);
    assert r.connections[i].links[..|c.links|] == s1.connections[i].links[..|c.links|];
  }

  // ---------------------------------------------------------------------
  // nc_network_connection_info

  /** The loop over the connection's links from link k on: each link is
      resolved, then an unknown device is skipped and a known one gives its
      record. */
  function InfoLoop(s: MonitorState, i: nat, k: nat, mask: bv32, n: U64, rs: seq<Reading>): (r: (MonitorState, seq<DeviceInfo>))
    requires i < |s.connections| && k <= |s.connections[i].links|
    ensures |r.0.connections| == |s.connections| && |r.0.connections[i].links| == |s.connections[i].links|
    ensures |r.1| <= |s.connections[i].links| - k
    decreases |s.connections[i].links| - k
  {
    if k == |s.connections[i].links| then (s, [])
    else
      var s1 := ResolveLink(s, i, k, n, rs);
      var link := s1.connections[i].links[k];
      var rest := InfoLoop(s1, i, k + 1, mask, n, rs);
      match LinkDevice(s1.devices, link)
      case None => rest
      case Some(j) => (rest.0, [InfoOf(s1.devices[j], link, mask)] + rest.1)
  }

  /** nc_network_connection_info (c, mask): an unforced statistics update
      when statistics are asked for, nothing for a connection without
      devices, otherwise one record per known device. */
  function ConnectionInfo(s: MonitorState, i: nat, mask: bv32, n: U64, rs: seq<Reading>): (r: (MonitorState, seq<DeviceInfo>))
    requires i < |s.connections|
    ensures |r.1| <= |s.connections[i].links|
  {
    var s1 := if mask & NetworkMedium.DEVICE_INFO_STATS != 0 then StatsUpdate(s, false, n, rs) else s;
    if s1.connections[i].links == [] then (s1, []) else InfoLoop(s1, i, 0, mask, n, rs)
  }

  predicate AllResolved(s: MonitorState, i: nat)
    requires i < |s.connections|
  {
    forall k :: 0 <= k < |s.connections[i].links| ==> s.connections[i].links[k].resolved
  }

  /** Over links that are all resolved the loop changes nothing and yields
      a record for every link whose device is known. */
  lemma {:induction false} InfoLoopResolved(s: MonitorState, i: nat, k: nat, mask: bv32, n: U64, rs: seq<Reading>)
    requires i < |s.connections| && k <= |s.connections[i].links| && AllResolved(s, i)
    ensures InfoLoop(s, i, k, mask, n, rs).0 == s
    ensures |InfoLoop(s, i, k, mask, n, rs).1| ==
      |KnownFrom(s.devices, s.connections[i].links, k)|
    decreases |s.connections[i].links| - k
  {
    if k < |s.connections[i].links| {
      InfoLoopResolved(s, i, k + 1, mask, n, rs);
    }
  }

  /** The indexes from k on of the links whose device is known. */
  function KnownFrom(ds: seq<Device>, links: seq<DeviceLink>, k: nat): (ks: seq<nat>)
    requires k <= |links|
    ensures forall x :: 0 <= x < |ks| ==> k <= ks[x] < |links| && LinkDevice(ds, links[ks[x]]).Some?
    decreases |links| - k
  {
    if k == |links| then []
    else if LinkDevice(ds, links[k]).Some? then [k] + KnownFrom(ds, links, k + 1)
    else KnownFrom(ds, links, k + 1)
  }

  /** Asking a connection whose devices are all resolved for information
      without statistics changes nothing and gives one record per known
      device. */
  lemma InfoWithoutStatsChangesNothing(s: MonitorState, i: nat, mask: bv32, n: U64, rs: seq<Reading>)
    requires i < |s.connections| && AllResolved(s, i)
    requires mask & NetworkMedium.DEVICE_INFO_STATS == 0
    ensures ConnectionInfo(s, i, mask, n, rs).0 == s
    ensures |ConnectionInfo(s, i, mask, n, rs).1| == |KnownFrom(s.devices, s.connections[i].links, 0)|
  {
    if s.connections[i].links != [] {
      InfoLoopResolved(s, i, 0, mask, n, rs);
    }
  }
}
