/** The ICD2 backend's handlers in src/network-monitor-icd2.c as
    transitions of the whole MonitorState: the state, address-info and
    scan signals, the scan request and the default-route scan. */
module NetworkMonitorIcd2Steps {
  import opened Wrappers
  import opened Util
  import opened NetworkMonitor
  import Steps = NetworkMonitorSteps
  import Icd2 = NetworkMonitorIcd2
  import opened Seqs

  // ---------------------------------------------------------------------
  // icd2_state_sig_cb

  /** The state signal for the network networkId, now in state nstate.  An
      unknown network is tracked only once it is connected: the new
      connection takes the state directly, without connection_state_set,
      since it has no devices to publish yet.  A known one whose state
      changed goes through connection_state_set.  Either way the address
      information is requested. */
  function StateSig(s: MonitorState, networkId: string, nstate: int, n: U64, rs: seq<Reading>): MonitorState {
    match FirstIndexOf(ConnectionNames(s.connections), networkId)
    case None =>
      if ConnectionStateIsConnected(Icd2Daemon, nstate) then
        var s1 := Steps.AddConnection(Icd2Daemon, s, networkId);
        s1.(connections := s1.connections[0 := s1.connections[0].(state := nstate)], addrinfoPending := true)
      else s
    case Some(i) =>
      if s.connections[i].state != nstate
      then Steps.ConnectionStateSet(Icd2Daemon, s, i, nstate, false, n, rs).(addrinfoPending := true)
      else s
  }

  /** The cases of the state signal: a disconnected unknown network and an
      unchanged state change nothing; a connected unknown network becomes
      the first connection, with that state, no devices and nothing
      emitted; a change of a known connection's state is
      connection_state_set's. */
  lemma StateSigEffect(s: MonitorState, networkId: string, nstate: int, n: U64, rs: seq<Reading>)
    requires Steps.IdsValid(s)
    ensures var r := StateSig(s, networkId, nstate, n, rs);
      match FirstIndexOf(ConnectionNames(s.connections), networkId)
      case None =>
        if ConnectionStateIsConnected(Icd2Daemon, nstate) then
          && Steps.IdsValid(r)
          && r.connections[0] == Connection(s.nextId, networkId, [], nstate, 0, false)
          && r.connections[1..] == s.connections
          && r.events == s.events && r.defaults == s.defaults && r.addrinfoPending
        else r == s
      case Some(i) =>
        if s.connections[i].state == nstate then r == s
        else r == Steps.ConnectionStateSet(Icd2Daemon, s, i, nstate, false, n, rs).(addrinfoPending := true)
  {
    if FirstIndexOf(ConnectionNames(s.connections), networkId).None? && ConnectionStateIsConnected(Icd2Daemon, nstate) {
      Steps.AddConnectionEffect(Icd2Daemon, s, networkId);
    }
  }

  // ---------------------------------------------------------------------
  // addrinfo_sig_cb

  /** One address of an address-info signal: the interface its IP address
      belongs to (ip_to_interface), whether interface_is_wifi says it is a
      WiFi interface, and the SSID interface_to_ssid would report. */
  datatype Address = Address(interface: string, isWifi: bool, ssid: Option<string>)

  /** The device half of the loop body for one address: the first
      device with that interface, or a new one whose medium is inferred
      from the interface and the network type, is set to the connected
      state. */
  function ConnectDevice(s: MonitorState, networkType: string, total: nat, a: Address): (r: MonitorState)
    ensures r.connections == s.connections
  {
    var found := FirstIndexOf(DeviceInterfaces(s.devices), a.interface);
    var s1 := if found.Some? then s
              else Steps.AddDevice(Icd2Daemon, s, a.interface, a.interface, Icd2.InferredMedium(a.isWifi, total, networkType));
    var j := if found.Some? then found.value else 0;
    Steps.DeviceStateChanged(Icd2Daemon, s1, j, DeviceStateConnected(Icd2Daemon), a.ssid)
  }

  /** The loop body for one address: its device is connected and, for a
      connection that had no devices yet, added to connection i. */
  function AddressStep(s: MonitorState, i: nat, isNew: bool, networkType: string, total: nat,
                       a: Address, n: U64, rs: seq<Reading>): (r: MonitorState)
    requires i < |s.connections|
    ensures |r.connections| == |s.connections|
  {
    var s1 := ConnectDevice(s, networkType, total, a);
    if isNew then Steps.AddLink(s1, i, a.interface, n, rs) else s1
  }

  function AddressLoop(s: MonitorState, i: nat, isNew: bool, networkType: string, total: nat,
                       addresses: seq<Address>, n: U64, rs: seq<Reading>): (r: MonitorState)
    requires i < |s.connections|
    ensures |r.connections| == |s.connections|
    decreases |addresses|
  {
    if addresses == [] then s
    else AddressLoop(AddressStep(s, i, isNew, networkType, total, addresses[0], n, rs),
                     i, isNew, networkType, total, addresses[1..], n, rs)
  }

  /** addrinfo_sig_cb for the network networkId.  An unknown network makes
      the monitor request the state of all networks.  For a connection
      without devices every address becomes a device of it, and the
      connection is then published with connection_state_set (initial)
      if it got any. */
  function AddrinfoSig(s: MonitorState, networkId: string, networkType: string, addresses: seq<Address>,
                       n: U64, rs: seq<Reading>): MonitorState
  {
    match FirstIndexOf(ConnectionNames(s.connections), networkId)
    case None => s.(stateReqPending := true)
    case Some(i) =>
      var isNew := s.connections[i].links == [];
      var s1 := AddressLoop(s, i, isNew, networkType, |addresses|, addresses, n, rs);
      var s2 := if isNew && s1.connections[i].links != []
                then Steps.ConnectionStateSet(Icd2Daemon, s1, i, s1.connections[i].state, true, n, rs)
                else s1;
      Steps.DefaultScan(Icd2Daemon, s2)
  }

  /** The device names a connection's links hold, in order. */
  function LinkNames(c: Connection): (ns: seq<string>)
    ensures |ns| == |c.links| && forall k :: 0 <= k < |ns| ==> ns[k] == c.links[k].deviceName
  {
    seq(|c.links|, k requires 0 <= k < |c.links| => c.links[k].deviceName)
  }

  function Interfaces(addresses: seq<Address>): (xs: seq<string>)
    ensures |xs| == |addresses| && forall k :: 0 <= k < |xs| ==> xs[k] == addresses[k].interface
  {
    seq(|addresses|, k requires 0 <= k < |addresses| => addresses[k].interface)
  }

  /** The first device with interface x exists and is connected. */
  predicate FirstConnected(ds: seq<Device>, x: string) {
    match FirstIndexOf(DeviceInterfaces(ds), x)
    case Some(j) => ds[j].state == DeviceStateConnected(Icd2Daemon)
    case None => false
  }

  lemma PrependInterfaces(d: Device, ds: seq<Device>)
    ensures DeviceInterfaces([d] + ds) == [d.interface] + DeviceInterfaces(ds)
  {
  }

  lemma PrependKeepsFirstConnected(d: Device, ds: seq<Device>, x: string)
    requires x != d.interface
    ensures FirstConnected([d] + ds, x) == FirstConnected(ds, x)
  {
    PrependInterfaces(d, ds);
    assert ([d.interface] + DeviceInterfaces(ds))[1..] == DeviceInterfaces(ds);
  }

  /** Devices that differ only in their statistics have the same first
      connected devices. */
  lemma StatsKeepFirstConnected(ds: seq<Device>, es: seq<Device>, x: string)
    requires |es| == |ds| && forall k :: 0 <= k < |ds| ==> es[k] == ds[k].(stats := es[k].stats)
    ensures FirstConnected(es, x) == FirstConnected(ds, x)
  {
    assert DeviceInterfaces(es) == DeviceInterfaces(ds);
  }

  /** Connecting the device for one address: its interface ends up with a
      connected first device, interfaces that had one keep it. */
  lemma ConnectDeviceEffect(s: MonitorState, networkType: string, total: nat, a: Address, x: string)
    ensures var r := ConnectDevice(s, networkType, total, a);
      && FirstConnected(r.devices, a.interface)
      && (FirstConnected(s.devices, x) ==> FirstConnected(r.devices, x))
      && r.events == s.events && r.defaults == s.defaults
  {
    var found := FirstIndexOf(DeviceInterfaces(s.devices), a.interface);
    if found.Some? {
      ConnectAt(s, found.value, a.interface, a.ssid, x);
    } else {
      var s1 := Steps.AddDevice(Icd2Daemon, s, a.interface, a.interface, Icd2.InferredMedium(a.isWifi, total, networkType));
      AddedFirst(s, s1, a.interface, x);
      ConnectAt(s1, 0, a.interface, a.ssid, x);
    }
  }

  /** A device prepended with interface iface is the first with it, and
      the other interfaces keep their first connected devices. */
  lemma AddedFirst(s: MonitorState, s1: MonitorState, iface: string, x: string)
    requires |s1.devices| == |s.devices| + 1 && s1.devices[1..] == s.devices && s1.devices[0].interface == iface
    ensures FirstIndexOf(DeviceInterfaces(s1.devices), iface) == Some(0)
    ensures x != iface && FirstConnected(s.devices, x) ==> FirstConnected(s1.devices, x)
  {
    assert s1.devices == [s1.devices[0]] + s.devices;
    PrependInterfaces(s1.devices[0], s.devices);
    if x != iface {
      PrependKeepsFirstConnected(s1.devices[0], s.devices, x);
    }
  }

  /** Connecting the first device with interface iface. */
  lemma ConnectAt(s1: MonitorState, j: nat, iface: string, ssid: Option<string>, x: string)
    requires FirstIndexOf(DeviceInterfaces(s1.devices), iface) == Some(j)
    ensures var r := Steps.DeviceStateChanged(Icd2Daemon, s1, j, DeviceStateConnected(Icd2Daemon), ssid);
      && FirstConnected(r.devices, iface)
      && (FirstConnected(s1.devices, x) ==> FirstConnected(r.devices, x))
      && r.events == s1.events && r.defaults == s1.defaults
  {
    var r := Steps.DeviceStateChanged(Icd2Daemon, s1, j, DeviceStateConnected(Icd2Daemon), ssid);
    Steps.DeviceStateChangedEffect(Icd2Daemon, s1, j, DeviceStateConnected(Icd2Daemon), ssid);
    assert DeviceInterfaces(r.devices) == DeviceInterfaces(s1.devices);
  }

  /** Adding a link keeps the first connected devices. */
  lemma AddLinkKeepsFirstConnected(s: MonitorState, i: nat, name: string, n: U64, rs: seq<Reading>, x: string)
    requires i < |s.connections|
    ensures FirstConnected(Steps.AddLink(s, i, name, n, rs).devices, x) == FirstConnected(s.devices, x)
  {
    Steps.AddLinkKeeps(s, i, name, n, rs);
    StatsKeepFirstConnected(s.devices, Steps.AddLink(s, i, name, n, rs).devices, x);
  }

  /** One address: its interface ends up with a connected first device,
      interfaces that had one keep it, a new connection gets the interface
      appended to its links, and no other connection changes. */
  lemma AddressStepEffect(s: MonitorState, i: nat, isNew: bool, networkType: string, total: nat,
                          a: Address, n: U64, rs: seq<Reading>, xs: seq<string>)
    requires i < |s.connections|
    requires forall k :: 0 <= k < |xs| ==> FirstConnected(s.devices, xs[k])
    ensures var r := AddressStep(s, i, isNew, networkType, total, a, n, rs);
      && (forall k :: 0 <= k < |xs| ==> FirstConnected(r.devices, xs[k]))
      && FirstConnected(r.devices, a.interface)
      && (forall k :: 0 <= k < |s.connections| && k != i ==> r.connections[k] == s.connections[k])
      && r.connections[i].state == s.connections[i].state
      && (isNew ==> LinkNames(r.connections[i]) == LinkNames(s.connections[i]) + [a.interface])
      && (!isNew ==> r.connections == s.connections)
      && r.events == s.events && r.defaults == s.defaults
  {
    var s1 := ConnectDevice(s, networkType, total, a);
    var r := AddressStep(s, i, isNew, networkType, total, a, n, rs);
    ConnectDeviceEffect(s, networkType, total, a, a.interface);
    forall k | 0 <= k < |xs|
      ensures FirstConnected(r.devices, xs[k])
    {
      ConnectDeviceEffect(s, networkType, total, a, xs[k]);
      if isNew {
        AddLinkKeepsFirstConnected(s1, i, a.interface, n, rs, xs[k]);
      }
    }
    if isNew {
      AddLinkKeepsFirstConnected(s1, i, a.interface, n, rs, a.interface);
      Steps.AddLinkKeeps(s1, i, a.interface, n, rs);
      var m := |s.connections[i].links|;
      assert r.connections[i].links[..m] == s.connections[i].links;
      assert LinkNames(r.connections[i]) == LinkNames(s.connections[i]) + [a.interface];
    }
  }

  /** The loop: every interface, earlier ones included, has a connected
      first device, and a new connection's links name the interfaces of
      the addresses in order. */
  lemma {:induction false} AddressLoopEffect(s: MonitorState, i: nat, isNew: bool, networkType: string, total: nat,
                                             addresses: seq<Address>, n: U64, rs: seq<Reading>, xs: seq<string>)
    requires i < |s.connections|
    requires forall k :: 0 <= k < |xs| ==> FirstConnected(s.devices, xs[k])
    ensures var r := AddressLoop(s, i, isNew, networkType, total, addresses, n, rs);
      && (forall k :: 0 <= k < |xs| ==> FirstConnected(r.devices, xs[k]))
      && (forall k :: 0 <= k < |addresses| ==> FirstConnected(r.devices, addresses[k].interface))
      && (forall k :: 0 <= k < |s.connections| && k != i ==> r.connections[k] == s.connections[k])
      && r.connections[i].state == s.connections[i].state
      && (isNew ==> LinkNames(r.connections[i]) == LinkNames(s.connections[i]) + Interfaces(addresses))
      && (!isNew ==> r.connections == s.connections)
      && r.events == s.events && r.defaults == s.defaults
    decreases |addresses|
  {
    if addresses != [] {
      var a := addresses[0];
      var s1 := AddressStep(s, i, isNew, networkType, total, a, n, rs);
      AddressStepEffect(s, i, isNew, networkType, total, a, n, rs, xs);
      AddressLoopEffect(s1, i, isNew, networkType, total, addresses[1..], n, rs, xs + [a.interface]);
      var r := AddressLoop(s1, i, isNew, networkType, total, addresses[1..], n, rs);
      AddressLoopGlue(s, s1, r, i, isNew, addresses, xs);
    }
  }

  /** One address, then the rest: the effects of AddressStepEffect and of
      the loop over the rest compose to the loop's effect. */
  lemma AddressLoopGlue(s: MonitorState, s1: MonitorState, r: MonitorState, i: nat, isNew: bool,
                        addresses: seq<Address>, xs: seq<string>)
    requires addresses != [] && i < |s.connections| == |s1.connections| == |r.connections|
    requires var a := addresses[0];
      && FirstConnected(s1.devices, a.interface)
      && (forall k :: 0 <= k < |s.connections| && k != i ==> s1.connections[k] == s.connections[k])
      && s1.connections[i].state == s.connections[i].state
      && (isNew ==> LinkNames(s1.connections[i]) == LinkNames(s.connections[i]) + [a.interface])
      && (!isNew ==> s1.connections == s.connections)
      && s1.events == s.events && s1.defaults == s.defaults
    requires var ys := xs + [addresses[0].interface];
      var rest := addresses[1..];
      && (forall k :: 0 <= k < |ys| ==> FirstConnected(r.devices, ys[k]))
      && (forall k :: 0 <= k < |rest| ==> FirstConnected(r.devices, rest[k].interface))
      && (forall k :: 0 <= k < |s1.connections| && k != i ==> r.connections[k] == s1.connections[k])
      && r.connections[i].state == s1.connections[i].state
      && (isNew ==> LinkNames(r.connections[i]) == LinkNames(s1.connections[i]) + Interfaces(rest))
      && (!isNew ==> r.connections == s1.connections)
      && r.events == s1.events && r.defaults == s1.defaults
    ensures && (forall k :: 0 <= k < |xs| ==> FirstConnected(r.devices, xs[k]))
      && (forall k :: 0 <= k < |addresses| ==> FirstConnected(r.devices, addresses[k].interface))
      && (forall k :: 0 <= k < |s.connections| && k != i ==> r.connections[k] == s.connections[k])
      && r.connections[i].state == s.connections[i].state
      && (isNew ==> LinkNames(r.connections[i]) == LinkNames(s.connections[i]) + Interfaces(addresses))
      && (!isNew ==> r.connections == s.connections)
      && r.events == s.events && r.defaults == s.defaults
  {
    ConnectedGlue(r.devices, addresses, xs);
    InterfacesCons(addresses);
    if isNew {
      ConcatAssoc(LinkNames(s.connections[i]), [addresses[0].interface], Interfaces(addresses[1..]));
    }
  }

  /** The interfaces connected before the step and by it stay connected. */
  lemma ConnectedGlue(ds: seq<Device>, addresses: seq<Address>, xs: seq<string>)
    requires addresses != []
    requires var ys := xs + [addresses[0].interface];
      var rest := addresses[1..];
      && (forall k :: 0 <= k < |ys| ==> FirstConnected(ds, ys[k]))
      && (forall k :: 0 <= k < |rest| ==> FirstConnected(ds, rest[k].interface))
    ensures forall k :: 0 <= k < |xs| ==> FirstConnected(ds, xs[k])
    ensures forall k :: 0 <= k < |addresses| ==> FirstConnected(ds, addresses[k].interface)
  {
    var ys := xs + [addresses[0].interface];
    forall k | 0 <= k < |xs|
      ensures FirstConnected(ds, xs[k])
    {
      assert ys[k] == xs[k];
    }
    forall k | 0 <= k < |addresses|
      ensures FirstConnected(ds, addresses[k].interface)
    {
      if k == 0 {
        assert ys[|xs|] == addresses[0].interface;
      } else {
        assert addresses[1..][k - 1] == addresses[k];
      }
    }
  }

  lemma InterfacesCons(addresses: seq<Address>)
    requires addresses != []
    ensures Interfaces(addresses) == [addresses[0].interface] + Interfaces(addresses[1..])
  {
  }

  /** Publishing a connection with its recorded state (initial) keeps it,
      its links and its state, and the first connected devices. */
  lemma PublishKeeps(s: MonitorState, i: nat, n: U64, rs: seq<Reading>, x: string)
    requires i < |s.connections| && s.connections[i].links != []
    ensures var r := Steps.ConnectionStateSet(Icd2Daemon, s, i, s.connections[i].state, true, n, rs);
      && |r.connections| == |s.connections|
      && r.connections[i].links == s.connections[i].links
      && r.connections[i].state == s.connections[i].state
      && (FirstConnected(s.devices, x) ==> FirstConnected(r.devices, x))
  {
    var c := s.connections[i];
    var r := Steps.ConnectionStateSet(Icd2Daemon, s, i, c.state, true, n, rs);
    var t := StateTransition(Icd2Daemon, c, c.state, true);
    NoRepeatedSignals(Icd2Daemon, c, c.state, true);
    if t == Announced {
      Steps.ConnectionStateSetAnnounced(Icd2Daemon, s, i, c.state, true, n, rs);
      StatsKeepFirstConnected(s.devices, r.devices, x);
    } else {
      Steps.ConnectionStateSetQuiet(Icd2Daemon, s, i, c.state, true, n, rs);
    }
  }

  /** The signal for a known connection without devices: its links name
      the addresses' interfaces in order, the first device of each
      interface is connected, and the connection is published with its
      recorded state (initial, so never withdrawn) once it has links. */
  lemma AddrinfoNewConnection(s: MonitorState, networkId: string, networkType: string, addresses: seq<Address>,
                              n: U64, rs: seq<Reading>, i: nat)
    requires FirstIndexOf(ConnectionNames(s.connections), networkId) == Some(i)
    requires s.connections[i].links == []
    ensures var r := AddrinfoSig(s, networkId, networkType, addresses, n, rs);
      && |r.connections| == |s.connections|
      && LinkNames(r.connections[i]) == Interfaces(addresses)
      && (forall k :: 0 <= k < |addresses| ==> FirstConnected(r.devices, addresses[k].interface))
      && r.connections[i].state == s.connections[i].state
      && r.scanPending
  {
    var s1 := AddressLoop(s, i, true, networkType, |addresses|, addresses, n, rs);
    AddressLoopEffect(s, i, true, networkType, |addresses|, addresses, n, rs, []);
    assert LinkNames(s.connections[i]) == [];
    if s1.connections[i].links != [] {
      var s2 := Steps.ConnectionStateSet(Icd2Daemon, s1, i, s1.connections[i].state, true, n, rs);
      forall k | 0 <= k < |addresses|
        ensures FirstConnected(s2.devices, addresses[k].interface)
      {
        PublishKeeps(s1, i, n, rs, addresses[k].interface);
      }
      PublishKeeps(s1, i, n, rs, "");
      assert LinkNames(s2.connections[i]) == LinkNames(s1.connections[i]);
    }
  }

  /** For a connection that already has devices the signal only marks the
      devices connected: the connections are as they were. */
  lemma AddrinfoKnownConnection(s: MonitorState, networkId: string, networkType: string, addresses: seq<Address>,
                                n: U64, rs: seq<Reading>, i: nat)
    requires FirstIndexOf(ConnectionNames(s.connections), networkId) == Some(i)
    requires s.connections[i].links != []
    ensures var r := AddrinfoSig(s, networkId, networkType, addresses, n, rs);
      && r.connections == s.connections
      && (forall k :: 0 <= k < |addresses| ==> FirstConnected(r.devices, addresses[k].interface))
      && r.events == s.events && r.scanPending
  {
    AddressLoopEffect(s, i, false, networkType, |addresses|, addresses, n, rs, []);
  }

  // ---------------------------------------------------------------------
  // icd2_scan_sig_cb and nm_scan

  /** The scan signal with the given status for the access point ap (whose
      networkType is the signal's network type).  Completion emits the
      collected results for that network type (none if there are none),
      forgets them, and counts down the networks being scanned, asking
      ICD2 to cancel the scan when the last one completes.  Any other
      status prepends ap to that type's results. */
  function ScanSig(s: MonitorState, status: int, ap: AccessPoint): MonitorState {
    var t := ap.networkType;
    if status == Icd2.SCAN_COMPLETE then
      var results := if t in s.scanResults then s.scanResults[t] else [];
      var s1 := s.(events := s.events + [ScanResults(t, results)], scanResults := s.scanResults - {t});
      if s1.amScanning == 0 then s1
      else if s1.amScanning - 1 == 0 then s1.(amScanning := 0, events := s1.events + [ScanCancelRequested])
      else s1.(amScanning := s1.amScanning - 1)
    else
      s.(scanResults := s.scanResults[t := [ap] + (if t in s.scanResults then s.scanResults[t] else [])])
  }

  /** nm_scan: on success am_scanning is the number of networks ICD2
      scans; on failure (None) nothing changes. */
  function Scan(s: MonitorState, networks: Option<seq<string>>): (r: MonitorState)
    ensures networks.None? ==> r == s
    ensures networks.Some? ==> r == s.(amScanning := |networks.value|)
  {
    match networks
    case None => s
    case Some(ns) => s.(amScanning := |ns|)
  }

  /** Results are collected newest first, per network type, and nothing is
      emitted until the scan of that type completes; a list is never
      empty. */
  lemma ScanSigCollects(s: MonitorState, status: int, ap: AccessPoint)
    requires status != Icd2.SCAN_COMPLETE
    ensures var r := ScanSig(s, status, ap);
      var t := ap.networkType;
      && t in r.scanResults && r.scanResults[t][0] == ap
      && r.scanResults[t][1..] == (if t in s.scanResults then s.scanResults[t] else [])
      && (forall u :: u in s.scanResults && u != t ==> u in r.scanResults && r.scanResults[u] == s.scanResults[u])
      && r.events == s.events && r.amScanning == s.amScanning
  {
  }

  /** Completion emits the collected results, forgets them, and counts one
      network down, requesting a cancel exactly when it was the last. */
  lemma ScanSigCompletes(s: MonitorState, ap: AccessPoint)
    ensures var r := ScanSig(s, Icd2.SCAN_COMPLETE, ap);
      var t := ap.networkType;
      var results := if t in s.scanResults then s.scanResults[t] else [];
      && |r.events| >= |s.events| + 1
      && r.events[..|s.events| + 1] == s.events + [ScanResults(t, results)]
      && t !in r.scanResults
      && (forall u :: u in s.scanResults && u != t ==> u in r.scanResults && r.scanResults[u] == s.scanResults[u])
      && r.amScanning == (if s.amScanning == 0 then 0 else s.amScanning - 1)
      && (r.events == s.events + [ScanResults(t, results), ScanCancelRequested] <==> s.amScanning == 1)
      && (s.amScanning != 1 ==> r.events == s.events + [ScanResults(t, results)])
  {
  }

  function Completions(s: MonitorState, aps: seq<AccessPoint>): MonitorState
    decreases |aps|
  {
    if aps == [] then s else Completions(ScanSig(s, Icd2.SCAN_COMPLETE, aps[0]), aps[1..])
  }

  function CancelCount(es: seq<Event>): nat
    decreases |es|
  {
    if es == [] then 0 else (if es[0] == ScanCancelRequested then 1 else 0) + CancelCount(es[1..])
  }

  lemma {:induction false} CancelCountAppend(a: seq<Event>, b: seq<Event>)
    ensures CancelCount(a + b) == CancelCount(a) + CancelCount(b)
    decreases |a|
  {
    if a != [] {
      CancelCountAppend(a[1..], b);
      assert (a + b)[0] == a[0] && (a + b)[1..] == a[1..] + b;
    } else {
      assert a + b == b;
    }
  }

  lemma CancelCountResults(t: string, results: seq<AccessPoint>)
    ensures CancelCount([ScanResults(t, results)]) == 0
    ensures CancelCount([ScanResults(t, results), ScanCancelRequested]) == 1
  {
    var e := ScanResults(t, results);
    assert e != ScanCancelRequested;
    assert [e][1..] == [] && [ScanCancelRequested][1..] == [];
    assert [e, ScanCancelRequested][1..] == [ScanCancelRequested];
  }

  /** Counting down: after m completions from am_scanning = k >= 0 the
      count is max(k - m, 0), and a cancel was requested once if the count
      reached zero on the way (0 < k <= m), never otherwise. */
  lemma {:induction false} CompletionsCancelOnce(s: MonitorState, aps: seq<AccessPoint>)
    requires s.amScanning >= 0
    ensures var r := Completions(s, aps);
      && |r.events| >= |s.events| && r.events[..|s.events|] == s.events
      && r.amScanning == (if s.amScanning >= |aps| then s.amScanning - |aps| else 0)
      && CancelCount(r.events[|s.events|..]) == (if 0 < s.amScanning <= |aps| then 1 else 0)
    decreases |aps|
  {
    if aps != [] {
      var s1 := ScanSig(s, Icd2.SCAN_COMPLETE, aps[0]);
      ScanSigCompletes(s, aps[0]);
      CompletionsCancelOnce(s1, aps[1..]);
      var r := Completions(s, aps);
      assert r == Completions(s1, aps[1..]);
      var t := aps[0].networkType;
      var results := if t in s.scanResults then s.scanResults[t] else [];
      var e1 := if s.amScanning == 1 then [ScanResults(t, results), ScanCancelRequested] else [ScanResults(t, results)];
      assert s1.events == s.events + e1;
      AppendedPart(s.events, e1);
      PrefixChain(s.events, s1.events, r.events);
      CancelCountAppend(e1, r.events[|s1.events|..]);
      CancelCountResults(t, results);
      assert CancelCount(e1) == if s.amScanning == 1 then 1 else 0;
    } else {
      assert s.events[|s.events|..] == [];
    }
  }

  /** A scan of N >= 1 networks requests exactly one cancel once all N
      completions have arrived. */
  lemma ScanCancelsOnceAllComplete(s: MonitorState, networks: seq<string>, aps: seq<AccessPoint>)
    requires |networks| >= 1 && |aps| == |networks|
    ensures var s1 := Scan(s, Some(networks));
      var r := Completions(s1, aps);
      |r.events| >= |s.events| && CancelCount(r.events[|s.events|..]) == 1 && r.amScanning == 0
  {
    CompletionsCancelOnce(Scan(s, Some(networks)), aps);
  }

  // ---------------------------------------------------------------------
  // default_connection_scan_cb and nc_network_connection_is_default

  /** A line of /proc/net/route after the header: the interface, and the
      fields split_line found in the rest of the line. */
  datatype Route = Route(interface: string, fields: seq<string>)

  /** The route walk stops at the first default route; malformed lines and
      other routes are passed over. */
  function DefaultRouteIndex(routes: seq<Route>): (r: Option<nat>)
    ensures r.Some? ==> r.value < |routes| && Icd2.RouteIsDefault(routes[r.value].fields) == Some(true)
    ensures r.Some? ==> forall k :: 0 <= k < r.value ==> Icd2.RouteIsDefault(routes[k].fields) != Some(true)
    ensures r.None? ==> forall k :: 0 <= k < |routes| ==> Icd2.RouteIsDefault(routes[k].fields) != Some(true)
  {
    if routes == [] then None
    else if Icd2.RouteIsDefault(routes[0].fields) == Some(true) then Some(0)
    else match DefaultRouteIndex(routes[1..])
      case None => None
      case Some(k) => Some(k + 1)
  }

  /** What the walk makes of the connection owning the default device: it
      is the default only if it is connected. */
  function Verdict(c: Connection): Option<nat> {
    if ConnectionStateIsConnected(Icd2Daemon, c.state) then Some(c.id) else None
  }

  /** The loop over the connections and their links, from link k of
      connection i: each link's device is looked up (resolving the link,
      with its statistics side effect) and the first link whose device is
      device j decides. */
  function FindOwner(s: MonitorState, j: nat, i: nat, k: nat, n: U64, rs: seq<Reading>): (r: (MonitorState, Option<nat>))
    requires i <= |s.connections| && (i < |s.connections| ==> k <= |s.connections[i].links|)
    decreases |s.connections| - i, if i < |s.connections| then |s.connections[i].links| - k else 0
  {
    if i == |s.connections| then (s, None)
    else if k == |s.connections[i].links| then FindOwner(s, j, i + 1, 0, n, rs)
    else
      var c := s.connections[i];
      var s1 := Steps.ResolveLink(s, i, k, n, rs);
      if LinkDevice(s.devices, c.links[k]) == Some(j) then (s1, Verdict(c))
      else FindOwner(s1, j, i, k + 1, n, rs)
  }

  /** Whether some link designates device j. */
  function Uses(ds: seq<Device>, links: seq<DeviceLink>, j: nat): bool
    decreases |links|
  {
    links != [] && (LinkDevice(ds, links[0]) == Some(j) || Uses(ds, links[1..], j))
  }

  /** The first connection with a link to device j: the reference the walk
      is measured against. */
  function Owner(ds: seq<Device>, cs: seq<Connection>, j: nat): (r: Option<nat>)
    ensures r.Some? ==> r.value < |cs| && Uses(ds, cs[r.value].links, j)
    ensures r.Some? ==> forall x :: 0 <= x < r.value ==> !Uses(ds, cs[x].links, j)
    ensures r.None? ==> forall x :: 0 <= x < |cs| ==> !Uses(ds, cs[x].links, j)
  {
    if cs == [] then None
    else if Uses(ds, cs[0].links, j) then Some(0)
    else match Owner(ds, cs[1..], j)
      case None => None
      case Some(x) => Some(x + 1)
  }

  /** States whose device names, connection ids, states and link names
      agree: link resolution changes none of them. */
  predicate SameShape(s: MonitorState, t: MonitorState) {
    && DeviceNames(t.devices) == DeviceNames(s.devices)
    && |t.connections| == |s.connections|
    && forall x :: 0 <= x < |s.connections| ==>
         && t.connections[x].id == s.connections[x].id
         && t.connections[x].state == s.connections[x].state
         && LinkNames(t.connections[x]) == LinkNames(s.connections[x])
  }

  lemma ResolveLinkShape(s: MonitorState, i: nat, k: nat, n: U64, rs: seq<Reading>)
    requires i < |s.connections| && k < |s.connections[i].links|
    ensures SameShape(s, Steps.ResolveLink(s, i, k, n, rs))
  {
    Steps.ResolveLinkEffect(s, i, k, n, rs);
    Steps.StatsUpdateEffect(s, true, n, rs);
    var r := Steps.ResolveLink(s, i, k, n, rs);
    assert LinkNames(r.connections[i]) == LinkNames(s.connections[i]);
  }

  /** The answer the walk from (i, k) gives, read off the state s0 the
      walk started from. */
  function Expected(s0: MonitorState, j: nat, i: nat, k: nat): Option<nat>
    requires i <= |s0.connections| && (i < |s0.connections| ==> k <= |s0.connections[i].links|)
  {
    var cs := s0.connections;
    if i == |cs| then None
    else if Uses(s0.devices, cs[i].links[k..], j) then Verdict(cs[i])
    else match Owner(s0.devices, cs[i + 1..], j)
      case Some(o) => Verdict(cs[i + 1 + o])
      case None => None
  }

  lemma SameShapeLinkDevice(s0: MonitorState, s: MonitorState, i: nat, k: nat)
    requires SameShape(s0, s) && i < |s.connections| && k < |s.connections[i].links|
    ensures k < |s0.connections[i].links|
    ensures LinkDevice(s.devices, s.connections[i].links[k]) == LinkDevice(s0.devices, s0.connections[i].links[k])
  {
    assert LinkNames(s.connections[i])[k] == LinkNames(s0.connections[i])[k];
  }

  lemma SameShapeTrans(a: MonitorState, b: MonitorState, c: MonitorState)
    requires SameShape(a, b) && SameShape(b, c)
    ensures SameShape(a, c)
  {
  }

  /** Past the last link of connection i the answer is that of the next
      connection. */
  lemma ExpectedNextConnection(s0: MonitorState, j: nat, i: nat)
    requires i < |s0.connections|
    ensures Expected(s0, j, i, |s0.connections[i].links|) == Expected(s0, j, i + 1, 0)
  {
    var cs := s0.connections;
    assert cs[i].links[|cs[i].links|..] == [];
    if i + 1 < |cs| {
      assert cs[i + 1..][0] == cs[i + 1] && cs[i + 1..][1..] == cs[i + 2..];
      assert cs[i + 1].links[0..] == cs[i + 1].links;
    }
  }

  /** At link k the answer is decided by that link, or else by the next. */
  lemma ExpectedNextLink(s0: MonitorState, j: nat, i: nat, k: nat)
    requires i < |s0.connections| && k < |s0.connections[i].links|
    ensures Expected(s0, j, i, k) ==
      if LinkDevice(s0.devices, s0.connections[i].links[k]) == Some(j) then Verdict(s0.connections[i])
      else Expected(s0, j, i, k + 1)
  {
    var links := s0.connections[i].links;
    assert links[k..][0] == links[k] && links[k..][1..] == links[k + 1..];
  }

  /** The walk's answer does not depend on the resolutions it performs on
      the way: it is what the starting state says. */
  lemma {:induction false} FindOwnerExpected(s0: MonitorState, s: MonitorState, j: nat, i: nat, k: nat,
                                             n: U64, rs: seq<Reading>)
    requires SameShape(s0, s)
    requires i <= |s.connections| && (i < |s.connections| ==> k <= |s.connections[i].links|)
    ensures FindOwner(s, j, i, k, n, rs).1 == Expected(s0, j, i, k)
    ensures SameShape(s0, FindOwner(s, j, i, k, n, rs).0)
    decreases |s.connections| - i, if i < |s.connections| then |s.connections[i].links| - k else 0, 1
  {
    if i < |s.connections| {
      if k == |s.connections[i].links| {
        FindOwnerExpectedAtEnd(s0, s, j, i, n, rs);
      } else {
        FindOwnerExpectedAtLink(s0, s, j, i, k, n, rs);
      }
    }
  }

  lemma {:induction false} FindOwnerExpectedAtEnd(s0: MonitorState, s: MonitorState, j: nat, i: nat,
                                                  n: U64, rs: seq<Reading>)
    requires SameShape(s0, s)
    requires i < |s.connections|
    ensures FindOwner(s, j, i, |s.connections[i].links|, n, rs).1 == Expected(s0, j, i, |s.connections[i].links|)
    ensures SameShape(s0, FindOwner(s, j, i, |s.connections[i].links|, n, rs).0)
    decreases |s.connections| - i, 0, 0
  {
    assert |s0.connections[i].links| == |s.connections[i].links| by {
      assert |LinkNames(s.connections[i])| == |LinkNames(s0.connections[i])|;
    }
    FindOwnerExpected(s0, s, j, i + 1, 0, n, rs);
    ExpectedNextConnection(s0, j, i);
  }

  lemma {:induction false} FindOwnerExpectedAtLink(s0: MonitorState, s: MonitorState, j: nat, i: nat, k: nat,
                                                   n: U64, rs: seq<Reading>)
    requires SameShape(s0, s)
    requires i < |s.connections| && k < |s.connections[i].links|
    ensures FindOwner(s, j, i, k, n, rs).1 == Expected(s0, j, i, k)
    ensures SameShape(s0, FindOwner(s, j, i, k, n, rs).0)
    decreases |s.connections| - i, |s.connections[i].links| - k, 0
  {
    var s1 := Steps.ResolveLink(s, i, k, n, rs);
    ResolveLinkShape(s, i, k, n, rs);
    SameShapeTrans(s0, s, s1);
    SameShapeLinkDevice(s0, s, i, k);
    ExpectedNextLink(s0, j, i, k);
    if LinkDevice(s.devices, s.connections[i].links[k]) != Some(j) {
      FindOwnerExpected(s0, s1, j, i, k + 1, n, rs);
    }
  }

  /** The walk over all connections picks the first connection with a
      link to device j, and makes it the default only if it is
      connected. */
  lemma FindOwnerIsOwner(s: MonitorState, j: nat, n: U64, rs: seq<Reading>)
    ensures FindOwner(s, j, 0, 0, n, rs).1 ==
      match Owner(s.devices, s.connections, j)
      case Some(o) => Verdict(s.connections[o])
      case None => None
    ensures SameShape(s, FindOwner(s, j, 0, 0, n, rs).0)
  {
    FindOwnerExpected(s, s, j, 0, 0, n, rs);
    var cs := s.connections;
    if cs != [] {
      assert cs[0].links[0..] == cs[0].links;
      assert cs[1..] == cs[0 + 1..];
    }
  }

  /** The connection the default route designates, as the walk finds it,
      and the state the walk leaves. */
  function RouteOwner(s: MonitorState, routes: seq<Route>, n: U64, rs: seq<Reading>): (MonitorState, Option<nat>) {
    match DefaultRouteIndex(routes)
    case None => (s, None)
    case Some(x) =>
      match FirstIndexOf(DeviceInterfaces(s.devices), routes[x].interface)
      case None => (s, None)
      case Some(j) => FindOwner(s, j, 0, 0, n, rs)
  }

  /** default_connection_scan_cb with /proc/net/route holding routes.  The
      C call passes connection_state_is_connected of the connection found,
      which holds, as only a connected one is ever found. */
  function DefaultConnectionScan(s: MonitorState, routes: seq<Route>, n: U64, rs: seq<Reading>): MonitorState {
    var (s1, dc) := RouteOwner(s, routes, n, rs);
    Steps.UpdateDefault(s1, dc, true).(scanPending := false)
  }

  /** The reference answer: the first connection using the device of the
      first default route, if it is connected. */
  function DefaultFromRoutes(s: MonitorState, routes: seq<Route>): Option<nat> {
    match DefaultRouteIndex(routes)
    case None => None
    case Some(x) =>
      match FirstIndexOf(DeviceInterfaces(s.devices), routes[x].interface)
      case None => None
      case Some(j) =>
        match Owner(s.devices, s.connections, j)
        case Some(o) => Verdict(s.connections[o])
        case None => None
  }

  /** The scan makes the reference answer the real default (scheduling the
      signal if it changed), clears the pending scan and changes the
      connections only by resolving links. */
  lemma DefaultConnectionScanEffect(s: MonitorState, routes: seq<Route>, n: U64, rs: seq<Reading>)
    ensures var r := DefaultConnectionScan(s, routes, n, rs);
      && r.defaults == DefaultUpdate(s.defaults, DefaultFromRoutes(s, routes), true)
      && r.defaults.actual == DefaultFromRoutes(s, routes)
      && !r.scanPending
      && r.events == s.events
      && SameShape(s, r)
  {
    match DefaultRouteIndex(routes)
    case None =>
    case Some(x) =>
      match FirstIndexOf(DeviceInterfaces(s.devices), routes[x].interface)
      case None =>
      case Some(j) =>
        FindOwnerIsOwner(s, j, n, rs);
        FindOwnerKeeps(s, j, 0, 0, n, rs);
  }

  /** The walk changes neither the defaults nor the events. */
  lemma {:induction false} FindOwnerKeeps(s: MonitorState, j: nat, i: nat, k: nat, n: U64, rs: seq<Reading>)
    requires i <= |s.connections| && (i < |s.connections| ==> k <= |s.connections[i].links|)
    ensures FindOwner(s, j, i, k, n, rs).0.defaults == s.defaults
    ensures FindOwner(s, j, i, k, n, rs).0.events == s.events
    decreases |s.connections| - i, if i < |s.connections| then |s.connections[i].links| - k else 0
  {
    if i < |s.connections| {
      if k == |s.connections[i].links| {
        FindOwnerKeeps(s, j, i + 1, 0, n, rs);
      } else {
        Steps.ResolveLinkEffect(s, i, k, n, rs);
        Steps.StatsUpdateEffect(s, true, n, rs);
        if LinkDevice(s.devices, s.connections[i].links[k]) != Some(j) {
          FindOwnerKeeps(Steps.ResolveLink(s, i, k, n, rs), j, i, k + 1, n, rs);
        }
      }
    }
  }

  /** nc_network_connection_is_default as written: on ICD2 a pending scan
      is run first, then the connection is compared with the published
      default. */
  function IsDefault(b: Backend, s: MonitorState, id: nat, routes: seq<Route>, n: U64, rs: seq<Reading>): (MonitorState, bool) {
    var s1 := if b.Icd2Daemon? && s.scanPending then DefaultConnectionScan(s, routes, n, rs) else s;
    (s1, s1.defaults.current == Some(id))
  }

  /** The scan only sets the real default, so the answer is the published
      default from before the call, whatever the scan found. */
  lemma IsDefaultIgnoresScan(b: Backend, s: MonitorState, id: nat, routes: seq<Route>, n: U64, rs: seq<Reading>)
    ensures IsDefault(b, s, id, routes, n, rs).1 == (s.defaults.current == Some(id))
  {
    if b.Icd2Daemon? && s.scanPending {
      DefaultConnectionScanEffect(s, routes, n, rs);
    }
  }

  /** A concrete case: a connected connection owning the device of the
      default route, while nothing is published yet, is reported as not
      the default although the scan has just found it. */
  lemma IsDefaultStaleExample()
    ensures var d := Device("wlan0", "wlan0", 0, Icd2.STATE_CONNECTED, None, NO_STATS);
      var c := Connection(7, "net", [DeviceLink("wlan0", true, NO_STATS)], Icd2.STATE_CONNECTED, 0, false);
      var s := Steps.INITIAL.(devices := [d], connections := [c], nextId := 8, scanPending := true);
      var routes := [Route("wlan0", Icd2.DEFAULT_ROUTE)];
      && DefaultFromRoutes(s, routes) == Some(7)
      && !IsDefault(Icd2Daemon, s, 7, routes, 1000, []).1
      && IsDefaultIntended(Icd2Daemon, s, 7, routes, 1000, []).1
  {
    Icd2.DefaultRouteIsDefault();
    var d := Device("wlan0", "wlan0", 0, Icd2.STATE_CONNECTED, None, NO_STATS);
    var c := Connection(7, "net", [DeviceLink("wlan0", true, NO_STATS)], Icd2.STATE_CONNECTED, 0, false);
    var s := Steps.INITIAL.(devices := [d], connections := [c], nextId := 8, scanPending := true);
    var routes := [Route("wlan0", Icd2.DEFAULT_ROUTE)];
    assert DeviceInterfaces(s.devices) == ["wlan0"];
    assert DeviceNames(s.devices) == ["wlan0"];
    assert Uses(s.devices, c.links, 0);
    IsDefaultIgnoresScan(Icd2Daemon, s, 7, routes, 1000, []);
    IsDefaultIntendedAnswer(Icd2Daemon, s, 7, routes, 1000, []);
  }

  /** The evidently intended nc_network_connection_is_default: after the
      scan, the connection is compared with the real default, which the
      scan has just brought up to date. */
  function IsDefaultIntended(b: Backend, s: MonitorState, id: nat, routes: seq<Route>, n: U64, rs: seq<Reading>): (MonitorState, bool) {
    var s1 := if b.Icd2Daemon? && s.scanPending then DefaultConnectionScan(s, routes, n, rs) else s;
    (s1, s1.defaults.actual == Some(id))
  }

  /** With a scan pending, the intended answer is whether the connection
      is the one the routes designate now. */
  lemma IsDefaultIntendedAnswer(b: Backend, s: MonitorState, id: nat, routes: seq<Route>, n: U64, rs: seq<Reading>)
    requires b.Icd2Daemon? && s.scanPending
    ensures IsDefaultIntended(b, s, id, routes, n, rs).1 == (DefaultFromRoutes(s, routes) == Some(id))
  {
    DefaultConnectionScanEffect(s, routes, n, rs);
  }
}
