/** The NCNetworkMonitor object of src/network-monitor.c: its fields, and
    the functions of that file that update them one step at a time, each
    proved to make the transition NetworkMonitorSteps gives for it. */
module NetworkMonitorObject {
  import opened Wrappers
  import opened Util
  import NetworkMedium
  import opened NetworkMonitor
  import Steps = NetworkMonitorSteps
  import opened Seqs

  class Monitor {
    /** Which backend the monitor was built with. */
    const backend: Backend
    var devices: seq<Device>
    var connections: seq<Connection>
    var defaultConnection: Option<nat>
    var defaultConnectionReal: Option<nat>
    var defaultConnectionSignalSource: bool
    /** default_connection_scan_source (ICD2). */
    var defaultConnectionScanSource: bool
    /** active_connections_scan_pending_id (NetworkManager). */
    var activeConnectionsScanPending: bool
    var statsLastUpdatedAt: U64
    /** The id the next connection object gets. */
    var nextId: nat
    /** The signals emitted so far, and ICD2's scan-cancel requests. */
    var events: seq<Event>
    var addrinfoReqSource: bool
    var stateReqSource: bool
    /** network_type_to_scan_results_hash, without the key element each
        list carries. */
    var scanResults: map<string, seq<AccessPoint>>
    var amScanning: int

    function State(): MonitorState
      reads this
    {
      MonitorState(devices, connections,
                   Defaults(defaultConnection, defaultConnectionReal, defaultConnectionSignalSource),
                   defaultConnectionScanSource, activeConnectionsScanPending, statsLastUpdatedAt,
                   nextId, events, addrinfoReqSource, stateReqSource, scanResults, amScanning)
    }

    /** g_object_new (NC_NETWORK_MONITOR_TYPE): all fields zero.  The
        backend's initialisation only connects D-Bus signals. */
    constructor (b: Backend)
      ensures backend == b && State() == Steps.INITIAL
    {
      backend := b;
      devices := [];
      connections := [];
      defaultConnection := None;
      defaultConnectionReal := None;
      defaultConnectionSignalSource := false;
      defaultConnectionScanSource := false;
      activeConnectionsScanPending := false;
      statsLastUpdatedAt := 0;
      nextId := 0;
      events := [];
      addrinfoReqSource := false;
      stateReqSource := false;
      scanResults := map[];
      amScanning := 0;
    }

    // -------------------------------------------------------------------
    // Lookups

    /** device_name_to_device: the first device with that name. */
    method DeviceNameToDevice(name: string) returns (r: Option<nat>)
      ensures IsFirst(DeviceNames(devices), name, r)
      ensures r == FirstIndexOf(DeviceNames(devices), name)
    {
      var i := 0;
      while i < |devices|
        invariant 0 <= i <= |devices|
        invariant forall j :: 0 <= j < i ==> devices[j].name != name
      {
        if devices[i].name == name {
          r := Some(i);
          IsFirstUnique(DeviceNames(devices), name, r, FirstIndexOf(DeviceNames(devices), name));
          return;
        }
        i := i + 1;
      }
      r := None;
      IsFirstUnique(DeviceNames(devices), name, r, FirstIndexOf(DeviceNames(devices), name));
    }

    /** device_interface_to_device: the first device using that
        interface. */
    method DeviceInterfaceToDevice(interface: string) returns (r: Option<nat>)
      ensures IsFirst(DeviceInterfaces(devices), interface, r)
      ensures r == FirstIndexOf(DeviceInterfaces(devices), interface)
    {
      var i := 0;
      while i < |devices|
        invariant 0 <= i <= |devices|
        invariant forall j :: 0 <= j < i ==> devices[j].interface != interface
      {
        if devices[i].interface == interface {
          r := Some(i);
          IsFirstUnique(DeviceInterfaces(devices), interface, r, FirstIndexOf(DeviceInterfaces(devices), interface));
          return;
        }
        i := i + 1;
      }
      r := None;
      IsFirstUnique(DeviceInterfaces(devices), interface, r, FirstIndexOf(DeviceInterfaces(devices), interface));
    }

    /** connection_name_to_connection: the first connection with that
        name. */
    method ConnectionNameToConnection(name: string) returns (r: Option<nat>)
      ensures IsFirst(ConnectionNames(connections), name, r)
      ensures r == FirstIndexOf(ConnectionNames(connections), name)
    {
      var i := 0;
      while i < |connections|
        invariant 0 <= i <= |connections|
        invariant forall j :: 0 <= j < i ==> connections[j].name != name
      {
        if connections[i].name == name {
          r := Some(i);
          IsFirstUnique(ConnectionNames(connections), name, r, FirstIndexOf(ConnectionNames(connections), name));
          return;
        }
        i := i + 1;
      }
      r := None;
      IsFirstUnique(ConnectionNames(connections), name, r, FirstIndexOf(ConnectionNames(connections), name));
    }

    // -------------------------------------------------------------------
    // Statistics

    /** stats_update (m, force) at time n; rs are the lines of
        /proc/net/dev that for_each_proc_net_dev hands the callback. */
    method StatsUpdate(force: bool, n: U64, rs: seq<Reading>)
      modifies this
      ensures State() == Steps.StatsUpdate(old(State()), force, n, rs)
    {
      if !force && Sub64(n, statsLastUpdatedAt) < STATS_MIN_INTERVAL_MS {
        return;
      }
      statsLastUpdatedAt := n;
      var k := 0;
      while k < |rs|
        invariant 0 <= k <= |rs|
        invariant ApplyReadings(devices, rs[k..], n) == ApplyReadings(old(devices), rs, n)
        invariant State() == old(State()).(statsLastUpdatedAt := n, devices := devices)
      {
        var d := DeviceInterfaceToDevice(rs[k].interface);
        assert rs[k..][0] == rs[k] && rs[k..][1..] == rs[k + 1..];
        if d.Some? {
          var j := d.value;
          devices := devices[j := devices[j].(stats := UpdatedStats(devices[j].stats, rs[k], n))];
        }
        k := k + 1;
      }
      assert rs[k..] == [];
    }

    // -------------------------------------------------------------------
    // The default connection

    /** default_connection_update (m, c, set). */
    method DefaultConnectionUpdate(c: Option<nat>, isDefault: bool)
      modifies this
      ensures State() == Steps.UpdateDefault(old(State()), c, isDefault)
    {
      if isDefault {
        if c == defaultConnectionReal {
          return;
        }
        defaultConnectionReal := c;
      } else {
        if c != defaultConnectionReal {
          return;
        }
        defaultConnectionReal := None;
      }
      if !defaultConnectionSignalSource {
        defaultConnectionSignalSource := true;
      }
    }

    /** default_connection_update_send_signal, the idle handler. */
    method SendSignal()
      modifies this
      ensures State() == Steps.EmitDefault(old(State()))
    {
      if defaultConnection != defaultConnectionReal {
        var old_ := defaultConnection;
        defaultConnection := defaultConnectionReal;
        events := events + [DefaultChanged(old_, defaultConnection)];
      }
      defaultConnectionSignalSource := false;
    }

    /** default_connection_scan: ICD2 schedules default_connection_scan_cb
        unless it is scheduled; the NetworkManager version is empty. */
    method DefaultConnectionScan()
      modifies this
      ensures State() == Steps.DefaultScan(backend, old(State()))
    {
      if backend.Icd2Daemon? && !defaultConnectionScanSource {
        defaultConnectionScanSource := true;
      }
    }

    // -------------------------------------------------------------------
    // Connections

    /** nc_network_connection_new up to the backend's hook (which the
        NetworkManager backend models separately): a fresh connection
        object is prepended to the list. */
    method ConnectionNew(name: string)
      modifies this
      ensures State() == Steps.AddConnection(backend, old(State()), name)
    {
      var c := Steps.NewConnectionOf(backend, nextId, name);
      nextId := nextId + 1;
      connections := [c] + connections;
    }

    /** nc_network_connection_dispose of connection i. */
    method Dispose(i: nat)
      requires i < |connections|
      modifies this
      ensures State() == Steps.Dispose(old(State()), i)
    {
      DefaultConnectionUpdate(Some(connections[i].id), false);
      if defaultConnectionSignalSource {
        SendSignal();
      }
      connections := connections[..i] + connections[i + 1..];
    }

    /** connection_state_set (c, state, initial) for connection i at time
        n; rs is /proc/net/dev should the statistics be read. */
    method ConnectionStateSet(i: nat, state: int, initial: bool, n: U64, rs: seq<Reading>)
      requires i < |connections|
      modifies this
      ensures State() == Steps.ConnectionStateSet(backend, old(State()), i, state, initial, n, rs)
    {
      ghost var s0 := State();
      var c := connections[i];
      if !initial && c.state == state {
        return;
      }
      DefaultConnectionScan();
      var ostate := c.state;
      connections := connections[i := connections[i].(state := state)];
      assert State() == Steps.Recorded(backend, s0, i, state);
      if c.links == [] {
        return;
      }
      if (initial || !ConnectionStateIsConnected(backend, ostate)) && ConnectionStateIsConnected(backend, state) {
        Announce(i, n, rs);
      } else if ConnectionStateIsConnected(backend, ostate) && !ConnectionStateIsConnected(backend, state) {
        Withdraw(i);
      }
    }

    /** The connected branch of connection_state_set: connected_at is set,
        the statistics are read and new-connection is emitted. */
    method Announce(i: nat, n: U64, rs: seq<Reading>)
      requires i < |connections|
      modifies this
      ensures State() == Steps.Announce(old(State()), i, n, rs)
    {
      var id := connections[i].id;
      connections := connections[i := connections[i].(connectedAt := n)];
      StatsUpdate(true, n, rs);
      events := events + [NewConnection(id)];
    }

    /** The disconnected branch of connection_state_set: disconnected is
        emitted and the connection disposed. */
    method Withdraw(i: nat)
      requires i < |connections|
      modifies this
      ensures State() == Steps.Withdraw(old(State()), i)
    {
      events := events + [Disconnected(connections[i].id)];
      Dispose(i);
    }

    /** per_connection_device_to_device for link k of connection i: the
        device, resolving the link first if it is not yet. */
    method ResolveLink(i: nat, k: nat, n: U64, rs: seq<Reading>) returns (d: Option<nat>)
      requires i < |connections| && k < |connections[i].links|
      modifies this
      ensures State() == Steps.ResolveLink(old(State()), i, k, n, rs)
      ensures d == LinkDevice(old(devices), old(connections[i].links[k]))
      ensures d.Some? ==> d.value < |devices|
    {
      var link := connections[i].links[k];
      d := DeviceNameToDevice(link.deviceName);
      if link.resolved || d.None? {
        return;
      }
      StatsUpdate(true, n, rs);
      var c := connections[i];
      connections := connections[i := c.(links := c.links[k := link.(resolved := true, statsConnect := devices[d.value].stats)])];
    }

    /** connection_add_device (c, name) for connection i. */
    method ConnectionAddDevice(i: nat, name: string, n: U64, rs: seq<Reading>)
      requires i < |connections|
      modifies this
      ensures State() == Steps.AddLink(old(State()), i, name, n, rs)
    {
      var c := connections[i];
      connections := connections[i := c.(links := c.links + [DeviceLink(name, false, NO_STATS)])];
      var _ := ResolveLink(i, |c.links|, n, rs);
    }

    /** nc_network_connection_info (c, mask) for connection i. */
    method ConnectionInfo(i: nat, mask: bv32, n: U64, rs: seq<Reading>) returns (infos: seq<DeviceInfo>)
      requires i < |connections|
      modifies this
      ensures (State(), infos) == Steps.ConnectionInfo(old(State()), i, mask, n, rs)
    {
      if mask & NetworkMedium.DEVICE_INFO_STATS != 0 {
        StatsUpdate(false, n, rs);
      }
      infos := [];
      if connections[i].links == [] {
        return;
      }
      infos := DeviceInfos(i, mask, n, rs);
    }

    /** The loop of nc_network_connection_info over the connection's
        links. */
    method DeviceInfos(i: nat, mask: bv32, n: U64, rs: seq<Reading>) returns (infos: seq<DeviceInfo>)
      requires i < |connections|
      modifies this
      ensures (State(), infos) == Steps.InfoLoop(old(State()), i, 0, mask, n, rs)
    {
      ghost var start := State();
      infos := [];
      EmptyConcat(Steps.InfoLoop(start, i, 0, mask, n, rs).1);
      var k := 0;
      while k < |connections[i].links|
        invariant i < |connections| && k <= |connections[i].links|
        invariant var r := Steps.InfoLoop(State(), i, k, mask, n, rs);
          Steps.InfoLoop(start, i, 0, mask, n, rs) == (r.0, infos + r.1)
        decreases |connections[i].links| - k
      {
        var x := DeviceInfoAt(i, k, mask, n, rs);
        ghost var rest := Steps.InfoLoop(State(), i, k + 1, mask, n, rs);
        ConcatAssoc(infos, x, rest.1);
        infos := infos + x;
        k := k + 1;
      }
      ConcatEmpty(infos);
    }

    /** One turn of that loop: link k is resolved and, if its device is
        known, gives a record. */
    method DeviceInfoAt(i: nat, k: nat, mask: bv32, n: U64, rs: seq<Reading>) returns (x: seq<DeviceInfo>)
      requires i < |connections| && k < |connections[i].links|
      modifies this
      ensures i < |connections| && |connections[i].links| == old(|connections[i].links|)
      ensures var rest := Steps.InfoLoop(State(), i, k + 1, mask, n, rs);
        Steps.InfoLoop(old(State()), i, k, mask, n, rs) == (rest.0, x + rest.1)
    {
      ghost var before := State();
      var d := ResolveLink(i, k, n, rs);
      Steps.ResolveLinkEffect(before, i, k, n, rs);
      var link := connections[i].links[k];
      assert LinkDevice(devices, link) == d;
      ghost var rest := Steps.InfoLoop(State(), i, k + 1, mask, n, rs);
      if d.Some? {
        x := [InfoOf(devices[d.value], link, mask)];
      } else {
        x := [];
        EmptyConcat(rest.1);
      }
    }

    // -------------------------------------------------------------------
    // Devices

    /** nc_network_device_new: the device is prepended, disconnected. */
    method DeviceNew(name: string, interface: string, medium: bv32)
      modifies this
      ensures State() == Steps.AddDevice(backend, old(State()), name, interface, medium)
    {
      var d := Device(name, interface, medium, DeviceStateDisconnected(backend), None, NO_STATS);
      devices := [d] + devices;
    }

    /** device_state_changed (d, newState) for device j; ssid is what the
        backend reports for the access point if the code asks. */
    method DeviceStateChanged(j: nat, newState: int, ssid: Option<string>)
      requires j < |devices|
      modifies this
      ensures State() == Steps.DeviceStateChanged(backend, old(State()), j, newState, ssid)
    {
      if newState == devices[j].state {
        return;
      }
      devices := devices[j := devices[j].(ssid := None)];
      devices := devices[j := devices[j].(state := newState)];
      if DeviceStateIsConnected(backend, newState) && devices[j].medium == NetworkMedium.MEDIUM_WIFI {
        devices := devices[j := devices[j].(ssid := ssid)];
      }
      if backend.NetworkManager? && !activeConnectionsScanPending {
        activeConnectionsScanPending := true;
      }
      DefaultConnectionScan();
    }
  }



}
