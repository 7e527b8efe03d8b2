/** The NetworkManager backend's handlers as they run on the monitor
    object, each proved to make the transition NetworkMonitorNmScan gives
    for it. */
module NetworkMonitorNmHandlers {
  import opened Wrappers
  import opened Util
  import opened NetworkMonitor
  import Steps = NetworkMonitorSteps
  import Nm = NetworkMonitorNm
  import opened NetworkMonitorObject
  import opened NetworkMonitorNmScan

  /** nc_network_connection_new on the NetworkManager backend; isDefault is
      the Default property of the new active connection. */
  method ConnectionNew(m: Monitor, name: string, isDefault: bool)
    requires m.backend == NetworkManager
    modifies m
    ensures m.State() == ConnectionNewNm(old(m.State()), name, isDefault)
  {
    var id := m.nextId;
    m.ConnectionNew(name);
    if isDefault {
      m.DefaultConnectionUpdate(Some(id), true);
    }
  }

  /** connection_connection_active_properties_changed_cb for the
      connection with the given id. */
  method PropertiesChangedHandler(m: Monitor, id: nat, ps: seq<Property>, n: U64, rs: seq<Reading>)
    requires m.backend == NetworkManager
    modifies m
    ensures m.State() == PropertiesChanged(old(m.State()), id, ps, n, rs)
  {
    var k := 0;
    while k < |ps|
      invariant 0 <= k <= |ps|
      invariant PropertiesChanged(m.State(), id, ps[k..], n, rs) == PropertiesChanged(old(m.State()), id, ps, n, rs)
    {
      assert ps[k..][0] == ps[k] && ps[k..][1..] == ps[k + 1..];
      var c := IndexOfId(m.connections, id);
      if c.Some? {
        match Nm.PropertyActionOf(ps[k].key, ps[k].value)
        case UpdateDefault(isDefault) => m.DefaultConnectionUpdate(Some(id), isDefault);
        case SetState(state) => m.ConnectionStateSet(c.value, state, false, n, rs);
        case _ =>
      }
      k := k + 1;
    }
    assert ps[k..] == [];
  }

  /** The marking loop of active_connections_scan_cb. */
  method MarkAllUnseen(m: Monitor)
    modifies m
    ensures m.State() == old(m.State()).(connections := MarkUnseen(old(m.connections)))
  {
    ghost var s0 := m.State();
    var k := 0;
    while k < |m.connections|
      invariant 0 <= k <= |m.connections| == |s0.connections|
      invariant forall j :: 0 <= j < k ==> m.connections[j] == s0.connections[j].(seen := false)
      invariant forall j :: k <= j < |m.connections| ==> m.connections[j] == s0.connections[j]
      invariant m.State() == s0.(connections := m.connections)
    {
      m.connections := m.connections[k := m.connections[k].(seen := false)];
      k := k + 1;
    }
    assert m.connections == MarkUnseen(s0.connections);
  }

  /** The matching loop: returns the paths that name no known
      connection. */
  method MatchAll(m: Monitor, ps: seq<string>) returns (rem: seq<string>)
    modifies m
    ensures var r := MatchReported(old(m.connections), ps, 0);
      rem == r.1 && m.State() == old(m.State()).(connections := r.0)
  {
    rem := ps;
    var i := 0;
    while i < |rem|
      invariant i <= |rem|
      invariant MatchReported(m.connections, rem, i) == MatchReported(old(m.connections), ps, 0)
      invariant m.State() == old(m.State()).(connections := m.connections)
      decreases |rem| - i
    {
      var j := m.ConnectionNameToConnection(rem[i]);
      if j.Some? {
        m.connections := m.connections[j.value := m.connections[j.value].(seen := true)];
        rem := SwapRemove(rem, i);
      } else {
        i := i + 1;
      }
    }
  }

  /** The disconnecting loop over the ids the list holds. */
  method DisconnectAllUnseen(m: Monitor, n: U64, rs: seq<Reading>)
    requires m.backend == NetworkManager
    modifies m
    ensures m.State() == DisconnectUnseen(old(m.State()), ConnectionIds(old(m.connections)), n, rs)
  {
    var ids := ConnectionIds(m.connections);
    var k := 0;
    while k < |ids|
      invariant 0 <= k <= |ids|
      invariant DisconnectUnseen(m.State(), ids[k..], n, rs) == DisconnectUnseen(old(m.State()), ids, n, rs)
    {
      assert ids[k..][0] == ids[k] && ids[k..][1..] == ids[k + 1..];
      var c := IndexOfId(m.connections, ids[k]);
      if c.Some? && !m.connections[c.value].seen {
        m.ConnectionStateSet(c.value, ConnectionStateDisconnected(NetworkManager), false, n, rs);
      }
      k := k + 1;
    }
    assert ids[k..] == [];
  }

  /** The g_ptr_array_foreach over a new connection's devices. */
  method AddAllLinks(m: Monitor, names: seq<string>, n: U64, rs: seq<Reading>)
    requires |m.connections| > 0
    modifies m
    ensures m.State() == AddLinks(old(m.State()), 0, names, n, rs)
  {
    var k := 0;
    while k < |names|
      invariant 0 <= k <= |names| && |m.connections| > 0
      invariant AddLinks(m.State(), 0, names[k..], n, rs) == AddLinks(old(m.State()), 0, names, n, rs)
    {
      assert names[k..][0] == names[k] && names[k..][1..] == names[k + 1..];
      m.ConnectionAddDevice(0, names[k], n, rs);
      k := k + 1;
    }
    assert names[k..] == [];
  }

  /** The connecting loop over the remaining paths. */
  method ConnectAll(m: Monitor, ps: seq<string>, props: string -> ActiveProps, n: U64, rs: seq<Reading>)
    requires m.backend == NetworkManager
    modifies m
    ensures m.State() == ConnectReported(old(m.State()), ps, props, n, rs)
  {
    var k := 0;
    while k < |ps|
      invariant 0 <= k <= |ps|
      invariant ConnectReported(m.State(), ps[k..], props, n, rs) == ConnectReported(old(m.State()), ps, props, n, rs)
    {
      assert ps[k..][0] == ps[k] && ps[k..][1..] == ps[k + 1..];
      var p := props(ps[k]);
      ConnectionNew(m, ps[k], p.isDefault);
      AddAllLinks(m, p.devices.GetOr([]), n, rs);
      m.ConnectionStateSet(0, p.state, true, n, rs);
      k := k + 1;
    }
    assert ps[k..] == [];
  }

  /** active_connections_scan_cb. */
  method ActiveConnectionsScanHandler(m: Monitor, reported: Option<seq<string>>, props: string -> ActiveProps,
                                      n: U64, rs: seq<Reading>)
    requires m.backend == NetworkManager
    modifies m
    ensures m.State() == ActiveConnectionsScan(old(m.State()), reported, props, n, rs)
  {
    ghost var s := m.State();
    if reported.Some? {
      MarkAllUnseen(m);
      ghost var matched := MatchReported(MarkUnseen(s.connections), reported.value, 0);
      var rem := MatchAll(m, reported.value);
      assert m.State() == s.(connections := matched.0);
      DisconnectAllUnseen(m, n, rs);
      ghost var s2 := DisconnectUnseen(s.(connections := matched.0), ConnectionIds(matched.0), n, rs);
      assert m.State() == s2;
      ConnectAll(m, rem, props, n, rs);
      assert m.State() == ConnectReported(s2, matched.1, props, n, rs);
    }
    m.activeConnectionsScanPending := false;
  }
}
