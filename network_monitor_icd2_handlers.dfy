/** The ICD2 backend's handlers as they run on the monitor object, each
    proved to make the transition NetworkMonitorIcd2Steps gives for it. */
module NetworkMonitorIcd2Handlers {
  import opened Wrappers
  import opened Util
  import opened NetworkMonitor
  import Steps = NetworkMonitorSteps
  import Icd2 = NetworkMonitorIcd2
  import opened NetworkMonitorObject
  import opened NetworkMonitorIcd2Steps

  /** icd2_state_sig_cb. */
  method StateSigHandler(m: Monitor, networkId: string, nstate: int, n: U64, rs: seq<Reading>)
    requires m.backend == Icd2Daemon
    modifies m
    ensures m.State() == StateSig(old(m.State()), networkId, nstate, n, rs)
  {
    var c := m.ConnectionNameToConnection(networkId);
    match c
    case None =>
      if ConnectionStateIsConnected(Icd2Daemon, nstate) {
        m.ConnectionNew(networkId);
        m.connections := m.connections[0 := m.connections[0].(state := nstate)];
        m.addrinfoReqSource := true;
      }
    case Some(i) =>
      if m.connections[i].state != nstate {
        m.ConnectionStateSet(i, nstate, false, n, rs);
        m.addrinfoReqSource := true;
      }
  }

  /** The device half of the loop body for one address. */
  method ConnectDeviceOf(m: Monitor, networkType: string, total: nat, a: Address)
    requires m.backend == Icd2Daemon
    modifies m
    ensures m.State() == ConnectDevice(old(m.State()), networkType, total, a)
  {
    var found := m.DeviceInterfaceToDevice(a.interface);
    var j := 0;
    if found.Some? {
      j := found.value;
    } else {
      m.DeviceNew(a.interface, a.interface, Icd2.InferredMedium(a.isWifi, total, networkType));
    }
    m.DeviceStateChanged(j, DeviceStateConnected(Icd2Daemon), a.ssid);
  }

  /** addrinfo_sig_cb. */
  method AddrinfoSigHandler(m: Monitor, networkId: string, networkType: string, addresses: seq<Address>,
                            n: U64, rs: seq<Reading>)
    requires m.backend == Icd2Daemon
    modifies m
    ensures m.State() == AddrinfoSig(old(m.State()), networkId, networkType, addresses, n, rs)
  {
    var c := m.ConnectionNameToConnection(networkId);
    if c.None? {
      m.stateReqSource := true;
      return;
    }
    var i := c.value;
    var isNew := m.connections[i].links == [];
    var k := 0;
    while k < |addresses|
      invariant 0 <= k <= |addresses| && i < |m.connections|
      invariant AddressLoop(m.State(), i, isNew, networkType, |addresses|, addresses[k..], n, rs)
             == AddressLoop(old(m.State()), i, isNew, networkType, |addresses|, addresses, n, rs)
    {
      assert addresses[k..][0] == addresses[k] && addresses[k..][1..] == addresses[k + 1..];
      ConnectDeviceOf(m, networkType, |addresses|, addresses[k]);
      if isNew {
        m.ConnectionAddDevice(i, addresses[k].interface, n, rs);
      }
      k := k + 1;
    }
    assert addresses[k..] == [];
    if isNew && m.connections[i].links != [] {
      m.ConnectionStateSet(i, m.connections[i].state, true, n, rs);
    }
    m.DefaultConnectionScan();
  }

  /** icd2_scan_sig_cb, with ap built from the signal's arguments. */
  method ScanSigHandler(m: Monitor, status: int, ap: AccessPoint)
    modifies m
    ensures m.State() == ScanSig(old(m.State()), status, ap)
  {
    var t := ap.networkType;
    var results := if t in m.scanResults then m.scanResults[t] else [];
    if status == Icd2.SCAN_COMPLETE {
      m.events := m.events + [ScanResults(t, results)];
      m.scanResults := m.scanResults - {t};
      if m.amScanning != 0 {
        m.amScanning := m.amScanning - 1;
        if m.amScanning == 0 {
          m.events := m.events + [ScanCancelRequested];
        }
      }
      return;
    }
    m.scanResults := m.scanResults[t := [ap] + results];
  }

  /** nm_scan on ICD2: networks is what scan_req returns, None if the call
      fails. */
  method ScanHandler(m: Monitor, networks: Option<seq<string>>)
    modifies m
    ensures m.State() == Scan(old(m.State()), networks)
  {
    if networks.Some? {
      var ns := networks.value;
      var i := 0;
      while i < |ns|
        invariant 0 <= i <= |ns|
      {
        i := i + 1;
      }
      m.amScanning := i;
    }
  }

  /** for_each_proc_net_route with route_cb as far as it decides whether
      to go on: the index of the first default route. */
  method FirstDefaultRoute(routes: seq<Route>) returns (r: Option<nat>)
    ensures r == DefaultRouteIndex(routes)
  {
    var k := 0;
    while k < |routes|
      invariant 0 <= k <= |routes|
      invariant forall x :: 0 <= x < k ==> Icd2.RouteIsDefault(routes[x].fields) != Some(true)
    {
      if Icd2.RouteIsDefault(routes[k].fields) == Some(true) {
        return Some(k);
      }
      k := k + 1;
    }
    return None;
  }

  /** The walk over the connections and their links for device j. */
  method FindOwnerOf(m: Monitor, j: nat, n: U64, rs: seq<Reading>) returns (dc: Option<nat>)
    modifies m
    ensures (m.State(), dc) == FindOwner(old(m.State()), j, 0, 0, n, rs)
  {
    var i := 0;
    var k := 0;
    while i < |m.connections|
      invariant i <= |m.connections| && (i < |m.connections| ==> k <= |m.connections[i].links|)
      invariant FindOwner(m.State(), j, i, k, n, rs) == FindOwner(old(m.State()), j, 0, 0, n, rs)
      decreases |m.connections| - i, if i < |m.connections| then |m.connections[i].links| - k else 0
    {
      if k == |m.connections[i].links| {
        i := i + 1;
        k := 0;
      } else {
        var c := m.connections[i];
        var d2 := m.ResolveLink(i, k, n, rs);
        if d2 == Some(j) {
          return Verdict(c);
        }
        k := k + 1;
      }
    }
    return None;
  }

  /** default_connection_scan_cb with /proc/net/route holding routes. */
  method DefaultConnectionScanHandler(m: Monitor, routes: seq<Route>, n: U64, rs: seq<Reading>)
    modifies m
    ensures m.State() == DefaultConnectionScan(old(m.State()), routes, n, rs)
  {
    var dc: Option<nat> := None;
    var x := FirstDefaultRoute(routes);
    if x.Some? {
      var d := m.DeviceInterfaceToDevice(routes[x.value].interface);
      if d.Some? {
        dc := FindOwnerOf(m, d.value, n, rs);
      }
    }
    m.DefaultConnectionUpdate(dc, true);
    m.defaultConnectionScanSource := false;
  }

  /** nc_network_connection_is_default for the connection with the given
      id, as written. */
  method IsDefaultHandler(m: Monitor, id: nat, routes: seq<Route>, n: U64, rs: seq<Reading>) returns (r: bool)
    modifies m
    ensures (m.State(), r) == IsDefault(m.backend, old(m.State()), id, routes, n, rs)
  {
    if m.backend.Icd2Daemon? && m.defaultConnectionScanSource {
      DefaultConnectionScanHandler(m, routes, n, rs);
    }
    r := m.defaultConnection == Some(id);
  }
}
