/** The NetworkManager backend's connection handling in
    src/network-monitor-nm.c: the PropertiesChanged handler of an active
    connection, the backend's hook for new connections and
    active_connections_scan_cb, which compares the active connections
    NetworkManager reports with the known ones. */
module NetworkMonitorNmScan {
  import opened Wrappers
  import opened Util
  import opened NetworkMonitor
  import Steps = NetworkMonitorSteps
  import Nm = NetworkMonitorNm
  import opened NetworkMonitorObject

  /** What NetworkManager reports for an active connection object: its
      Default property (false if the lookup fails), its Devices (None if
      the lookup fails) and its State (CONNECTION_STATE_DISCONNECTED if the
      lookup fails). */
  datatype ActiveProps = ActiveProps(isDefault: bool, devices: Option<seq<string>>, state: int)

  /** One entry of a PropertiesChanged map. */
  datatype Property = Property(key: string, value: Nm.Variant)

  // ---------------------------------------------------------------------
  // New connections and PropertiesChanged

  /** nc_network_connection_new with the NetworkManager hook: after the
      connection is prepended, a connection NetworkManager reports as the
      default becomes the real default. */
  function ConnectionNewNm(s: MonitorState, name: string, isDefault: bool): (r: MonitorState)
    ensures |r.connections| == |s.connections| + 1
  {
    var s1 := Steps.AddConnection(NetworkManager, s, name);
    if isDefault then Steps.UpdateDefault(s1, Some(s.nextId), true) else s1
  }

  /** The handler for one entry, for the connection with the given id. */
  function PropertyStep(s: MonitorState, id: nat, p: Property, n: U64, rs: seq<Reading>): MonitorState {
    match IndexOfId(s.connections, id)
    case None => s
    case Some(i) =>
      match Nm.PropertyActionOf(p.key, p.value)
      case UpdateDefault(isDefault) => Steps.UpdateDefault(s, Some(id), isDefault)
      case SetState(state) => Steps.ConnectionStateSet(NetworkManager, s, i, state, false, n, rs)
      case _ => s
  }

  /** connection_connection_active_properties_changed_cb: the entries are
      handled in the order the hash table yields them. */
  function PropertiesChanged(s: MonitorState, id: nat, ps: seq<Property>, n: U64, rs: seq<Reading>): MonitorState
    decreases |ps|
  {
    if ps == [] then s else PropertiesChanged(PropertyStep(s, id, ps[0], n, rs), id, ps[1..], n, rs)
  }

  /** The entries the handler acts on: a boolean Default or a uint State. */
  function Acted(ps: seq<Property>): (qs: seq<Property>)
    ensures forall k :: 0 <= k < |qs| ==> qs[k] in ps
    decreases |ps|
  {
    if ps == [] then []
    else
      var a := Nm.PropertyActionOf(ps[0].key, ps[0].value);
      if a.UpdateDefault? || a.SetState? then [ps[0]] + Acted(ps[1..]) else Acted(ps[1..])
  }

  /** Other keys, and Default or State values of the wrong type, are only
      logged: the handler does what it would do for the acted-on entries
      alone. */
  lemma {:induction false} PropertiesOnlyActOnDefaultAndState(s: MonitorState, id: nat, ps: seq<Property>,
                                                              n: U64, rs: seq<Reading>)
    ensures PropertiesChanged(s, id, ps, n, rs) == PropertiesChanged(s, id, Acted(ps), n, rs)
    decreases |ps|
  {
    if ps != [] {
      var a := Nm.PropertyActionOf(ps[0].key, ps[0].value);
      if a.UpdateDefault? || a.SetState? {
        PropertiesOnlyActOnDefaultAndState(PropertyStep(s, id, ps[0], n, rs), id, ps[1..], n, rs);
        assert ([ps[0]] + Acted(ps[1..]))[1..] == Acted(ps[1..]);
      } else {
        assert PropertyStep(s, id, ps[0], n, rs) == s;
        PropertiesOnlyActOnDefaultAndState(s, id, ps[1..], n, rs);
      }
    }
  }

  // ---------------------------------------------------------------------
  // active_connections_scan_cb: matching

  function MarkUnseen(cs: seq<Connection>): (r: seq<Connection>)
    ensures |r| == |cs| && forall k :: 0 <= k < |cs| ==> r[k] == cs[k].(seen := false)
  {
    seq(|cs|, k requires 0 <= k < |cs| => cs[k].(seen := false))
  }

  /** g_ptr_array_remove_index_fast: the last element takes the place of
      element i. */
  function SwapRemove(ps: seq<string>, i: nat): (r: seq<string>)
    requires i < |ps|
    ensures |r| == |ps| - 1
  {
    ps[i := ps[|ps| - 1]][..|ps| - 1]
  }

  lemma SwapRemoveParts(ps: seq<string>, i: nat)
    requires i < |ps|
    ensures SwapRemove(ps, i)[..i] == ps[..i]
    ensures multiset(SwapRemove(ps, i)[i..]) == multiset(ps[i..]) - multiset{ps[i]}
    ensures multiset(SwapRemove(ps, i)) == multiset(ps) - multiset{ps[i]}
  {
    var r := SwapRemove(ps, i);
    var last := |ps| - 1;
    if i < last {
      assert r[i..] == [ps[last]] + ps[i + 1..last];
      assert ps[i..] == [ps[i]] + ps[i + 1..last] + [ps[last]];
    } else {
      assert r[i..] == [];
      assert ps[i..] == [ps[i]];
    }
    assert r == r[..i] + r[i..];
    assert ps == ps[..i] + ps[i..];
  }

  /** The while loop over the reported paths: a path naming a known
      connection marks the first such connection seen and is removed (and
      i stays); any other path is kept and i advances.  The result is the
      marked connections and the paths that remain. */
  function MatchReported(cs: seq<Connection>, ps: seq<string>, i: nat): (r: (seq<Connection>, seq<string>))
    requires i <= |ps|
    ensures |r.0| == |cs|
    decreases |ps| - i
  {
    if i == |ps| then (cs, ps)
    else match FirstIndexOf(ConnectionNames(cs), ps[i])
      case Some(j) => MatchReported(cs[j := cs[j].(seen := true)], SwapRemove(ps, i), i)
      case None => MatchReported(cs, ps, i + 1)
  }

  /** Matching changes nothing but the seen flags. */
  lemma {:induction false} MatchReportedKeeps(cs: seq<Connection>, ps: seq<string>, i: nat)
    requires i <= |ps|
    ensures var r := MatchReported(cs, ps, i);
      forall j :: 0 <= j < |cs| ==> r.0[j] == cs[j].(seen := r.0[j].seen)
    decreases |ps| - i
  {
    if i < |ps| {
      match FirstIndexOf(ConnectionNames(cs), ps[i])
      case Some(j) => MatchReportedKeeps(cs[j := cs[j].(seen := true)], SwapRemove(ps, i), i);
      case None => MatchReportedKeeps(cs, ps, i + 1);
    }
  }

  lemma MarkingKeepsNames(cs: seq<Connection>, j: nat)
    requires j < |cs|
    ensures ConnectionNames(cs[j := cs[j].(seen := true)]) == ConnectionNames(cs)
  {
  }

  /** The paths that remain are exactly the reported paths that name no
      known connection, each as often as it was reported: no path both
      matches a known connection and is left to create a new one, and no
      new path is lost. */
  lemma {:induction false} MatchReportedRemaining(cs: seq<Connection>, ps: seq<string>, i: nat)
    requires i <= |ps|
    requires forall k :: 0 <= k < i ==> ps[k] !in ConnectionNames(cs)
    ensures var r := MatchReported(cs, ps, i);
      forall p :: multiset(r.1)[p] == if p in ConnectionNames(cs) then 0 else multiset(ps)[p]
    decreases |ps| - i
  {
    var names := ConnectionNames(cs);
    if i == |ps| {
      forall p | p in names
        ensures multiset(ps)[p] == 0
      {
        assert p !in ps;
      }
    } else {
      match FirstIndexOf(names, ps[i])
      case Some(j) =>
        var cs1 := cs[j := cs[j].(seen := true)];
        var ps1 := SwapRemove(ps, i);
        MarkingKeepsNames(cs, j);
        SwapRemoveParts(ps, i);
        forall k | 0 <= k < i
          ensures ps1[k] !in ConnectionNames(cs1)
        {
          assert ps1[k] == ps1[..i][k] == ps[..i][k] == ps[k];
        }
        MatchReportedRemaining(cs1, ps1, i);
      case None =>
        MatchReportedRemaining(cs, ps, i + 1);
    }
  }

  /** A connection ends up seen exactly when it already was, or it is the
      first known connection with its name and a path from i on reports
      that name. */
  lemma {:induction false} MatchReportedSeen(cs: seq<Connection>, ps: seq<string>, i: nat, j: nat)
    requires i <= |ps| && j < |cs|
    ensures var r := MatchReported(cs, ps, i);
      var names := ConnectionNames(cs);
      r.0[j].seen <==> cs[j].seen || (names[j] in multiset(ps[i..]) && FirstIndexOf(names, names[j]) == Some(j))
    decreases |ps| - i
  {
    var names := ConnectionNames(cs);
    if i == |ps| {
      assert ps[i..] == [];
    } else {
      assert ps[i..] == [ps[i]] + ps[i + 1..];
      match FirstIndexOf(names, ps[i])
      case Some(j0) =>
        var cs1 := cs[j := cs[j].(seen := true)];
        MarkingKeepsNames(cs, j0);
        SwapRemoveParts(ps, i);
        MatchReportedSeen(cs[j0 := cs[j0].(seen := true)], SwapRemove(ps, i), i, j);
      case None =>
        MatchReportedSeen(cs, ps, i + 1, j);
    }
  }

  // ---------------------------------------------------------------------
  // active_connections_scan_cb: disconnecting and connecting

  /** The ids on a list of connections. */
  function IdSet(cs: seq<Connection>): (ids: set<nat>)
    ensures forall c :: c in cs ==> c.id in ids
  {
    set c | c in cs :: c.id
  }

  predicate DistinctIds(cs: seq<Connection>) {
    forall i, j :: 0 <= i < j < |cs| ==> cs[i].id != cs[j].id
  }

  /** Replacing connection i leaves every other connection on the list. */
  lemma ReplaceMembers(cs: seq<Connection>, i: nat, x: Connection)
    requires i < |cs| && DistinctIds(cs)
    ensures forall c :: c in cs && c.id != cs[i].id ==> c in cs[i := x]
    ensures forall c :: c in cs[i := x] ==> (c in cs && c.id != cs[i].id) || c == x
  {
    forall c | c in cs && c.id != cs[i].id
      ensures c in cs[i := x]
    {
      var k :| 0 <= k < |cs| && cs[k] == c;
      assert cs[i := x][k] == c;
    }
    forall c | c in cs[i := x]
      ensures (c in cs && c.id != cs[i].id) || c == x
    {
      var k :| 0 <= k < |cs| && cs[i := x][k] == c;
    }
  }

  /** Removing connection i leaves every other connection on the list. */
  lemma RemoveMembers(cs: seq<Connection>, i: nat)
    requires i < |cs| && DistinctIds(cs)
    ensures forall c :: c in cs && c.id != cs[i].id ==> c in Steps.RemoveAt(cs, i)
    ensures forall c :: c in Steps.RemoveAt(cs, i) ==> c in cs && c.id != cs[i].id
  {
    var r := Steps.RemoveAt(cs, i);
    forall c | c in cs && c.id != cs[i].id
      ensures c in r
    {
      var k :| 0 <= k < |cs| && cs[k] == c;
      if k < i {
        assert r[k] == c;
      } else {
        assert r[k - 1] == c;
      }
    }
    forall c | c in r
      ensures c in cs && c.id != cs[i].id
    {
      var k :| 0 <= k < |r| && r[k] == c;
      if k < i {
        assert c == cs[k];
      } else {
        assert c == cs[k + 1];
      }
    }
  }

  /** One turn of the first loop after matching: the connection with the
      given id, if it is still there and was not seen, is set to
      CONNECTION_STATE_DISCONNECTED. */
  function DisconnectOne(s: MonitorState, id: nat, n: U64, rs: seq<Reading>): MonitorState {
    match IndexOfId(s.connections, id)
    case Some(i) =>
      if !s.connections[i].seen
      then Steps.ConnectionStateSet(NetworkManager, s, i, ConnectionStateDisconnected(NetworkManager), false, n, rs)
      else s
    case None => s
  }

  /** The first loop after matching.  The C loop saves the next link
      before the call, since the call may dispose the connection; walking
      the ids the list held before the loop is the same. */
  function DisconnectUnseen(s: MonitorState, ids: seq<nat>, n: U64, rs: seq<Reading>): MonitorState
    decreases |ids|
  {
    if ids == [] then s else DisconnectUnseen(DisconnectOne(s, ids[0], n, rs), ids[1..], n, rs)
  }

  /** One turn keeps every other connection and a seen one, adds none,
      and leaves the unseen connection with that id disconnected or
      gone. */
  lemma DisconnectOneEffect(s: MonitorState, id: nat, n: U64, rs: seq<Reading>)
    requires Steps.IdsValid(s) && Settled(s.defaults)
    ensures var r := DisconnectOne(s, id, n, rs);
      && Steps.IdsValid(r) && Settled(r.defaults)
      && (forall c :: c in s.connections && (c.id != id || c.seen) ==> c in r.connections)
      && (forall c :: c in r.connections ==> c.id in IdSet(s.connections))
      && (forall c :: c in r.connections && c !in s.connections ==> c.id == id)
      && (forall c :: c in r.connections && c.id == id && !c.seen ==>
            c.state == ConnectionStateDisconnected(NetworkManager))
  {
    var cs := s.connections;
    var d := ConnectionStateDisconnected(NetworkManager);
    match IndexOfId(cs, id)
    case None =>
    case Some(i) =>
      var c := cs[i];
      if !c.seen {
        var r := DisconnectOne(s, id, n, rs);
        Steps.ConnectionStateSetKeepsIds(NetworkManager, s, i, d, false, n, rs);
        var t := StateTransition(NetworkManager, c, d, false);
        if t == Withdrawn {
          Steps.ConnectionStateSetWithdrawn(NetworkManager, s, i, d, false, n, rs);
        } else if t != Unchanged {
          ForcedStates(NetworkManager);
          assert t != Announced;
          Steps.ConnectionStateSetQuiet(NetworkManager, s, i, d, false, n, rs);
        }
        DisconnectMembers(cs, r.connections, i, d);
      } else {
        OnlyOneWithId(cs, i);
      }
  }

  /** Connection i is the only one with its id. */
  lemma OnlyOneWithId(cs: seq<Connection>, i: nat)
    requires i < |cs| && DistinctIds(cs)
    ensures forall x :: x in cs && x.id == cs[i].id ==> x == cs[i]
  {
    forall x | x in cs && x.id == cs[i].id
      ensures x == cs[i]
    {
      var k :| 0 <= k < |cs| && cs[k] == x;
    }
  }

  /** Disconnecting unseen connection i either removes it, or records
      the disconnected state d on it, or finds it in that state already;
      either way no other connection changes. */
  lemma DisconnectMembers(cs: seq<Connection>, rc: seq<Connection>, i: nat, d: int)
    requires i < |cs| && DistinctIds(cs) && !cs[i].seen
    requires rc == Steps.RemoveAt(cs, i) || rc == cs[i := cs[i].(state := d)] || (rc == cs && cs[i].state == d)
    ensures forall c :: c in cs && (c.id != cs[i].id || c.seen) ==> c in rc
    ensures forall c :: c in rc ==> c.id in IdSet(cs)
    ensures forall c :: c in rc && c !in cs ==> c.id == cs[i].id
    ensures forall c :: c in rc && c.id == cs[i].id && !c.seen ==> c.state == d
  {
    OnlyOneWithId(cs, i);
    if rc == Steps.RemoveAt(cs, i) {
      RemoveMembers(cs, i);
    } else if rc == cs[i := cs[i].(state := d)] {
      ReplaceMembers(cs, i, cs[i].(state := d));
    }
  }

  /** The whole loop: connections seen by the matching stay as they were,
      no connection is added, and every unseen connection whose id was
      walked (or had been, before) is disconnected or gone. */
  lemma {:induction false} DisconnectUnseenEffect(s: MonitorState, ids: seq<nat>, done: set<nat>, n: U64, rs: seq<Reading>)
    requires Steps.IdsValid(s) && Settled(s.defaults)
    requires forall c :: c in s.connections && c.id in done && !c.seen ==>
      c.state == ConnectionStateDisconnected(NetworkManager)
    ensures var r := DisconnectUnseen(s, ids, n, rs);
      && Steps.IdsValid(r) && Settled(r.defaults)
      && (forall c :: c in r.connections ==> c.id in IdSet(s.connections))
      && (forall c :: c in s.connections && c.seen ==> c in r.connections)
      && (forall c :: c in r.connections && (c.id in done || c.id in ids) && !c.seen ==>
            c.state == ConnectionStateDisconnected(NetworkManager))
    decreases |ids|
  {
    if ids != [] {
      var s1 := DisconnectOne(s, ids[0], n, rs);
      DisconnectOneEffect(s, ids[0], n, rs);
      DisconnectUnseenEffect(s1, ids[1..], done + {ids[0]}, n, rs);
      assert forall y :: y in ids ==> y == ids[0] || y in ids[1..];
    }
  }
  function AddLinks(s: MonitorState, i: nat, names: seq<string>, n: U64, rs: seq<Reading>): (r: MonitorState)
    requires i < |s.connections|
    ensures |r.connections| == |s.connections|
    ensures |r.connections[i].links| == |s.connections[i].links| + |names|
    decreases |names|
  {
    if names == [] then s else AddLinks(Steps.AddLink(s, i, names[0], n, rs), i, names[1..], n, rs)
  }

  /** The second loop, for one remaining path: a new connection, its
      devices, then its initial state. */
  function ConnectOne(s: MonitorState, p: string, props: ActiveProps, n: U64, rs: seq<Reading>): (r: MonitorState)
  {
    var s1 := ConnectionNewNm(s, p, props.isDefault);
    var s2 := AddLinks(s1, 0, props.devices.GetOr([]), n, rs);
    Steps.ConnectionStateSet(NetworkManager, s2, 0, props.state, true, n, rs)
  }

  function ConnectReported(s: MonitorState, ps: seq<string>, props: string -> ActiveProps, n: U64,
                           rs: seq<Reading>): MonitorState
    decreases |ps|
  {
    if ps == [] then s else ConnectReported(ConnectOne(s, ps[0], props(ps[0]), n, rs), ps[1..], props, n, rs)
  }

  /** active_connections_scan_cb.  reported is the ActiveConnections
      property (None when the lookup fails) and props what each active
      connection object reports. */
  function ActiveConnectionsScan(s: MonitorState, reported: Option<seq<string>>, props: string -> ActiveProps,
                                 n: U64, rs: seq<Reading>): MonitorState
  {
    match reported
    case None => s.(activeScanPending := false)
    case Some(ps) =>
      var m := MatchReported(MarkUnseen(s.connections), ps, 0);
      var s1 := s.(connections := m.0);
      var s2 := DisconnectUnseen(s1, ConnectionIds(m.0), n, rs);
      ConnectReported(s2, m.1, props, n, rs).(activeScanPending := false)
  }

  /** Adding devices touches only connection i's links, the devices'
      statistics and the time of the last statistics update. */
  lemma {:induction false} AddLinksKeeps(s: MonitorState, i: nat, names: seq<string>, n: U64, rs: seq<Reading>)
    requires i < |s.connections|
    ensures var r := AddLinks(s, i, names, n, rs);
      && (forall k :: 0 <= k < |s.connections| && k != i ==> r.connections[k] == s.connections[k])
      && r.connections[i] == s.connections[i].(links := r.connections[i].links)
      && r.connections[i].links[..|s.connections[i].links|] == s.connections[i].links
      && r.defaults == s.defaults && r.events == s.events && r.nextId == s.nextId
    decreases |names|
  {
    if names != [] {
      var s1 := Steps.AddLink(s, i, names[0], n, rs);
      Steps.AddLinkKeeps(s, i, names[0], n, rs);
      AddLinksKeeps(s1, i, names[1..], n, rs);
      var r := AddLinks(s, i, names, n, rs);
      var m := |s.connections[i].links|;
      assert r.connections[i].links[..m] == r.connections[i].links[..m + 1][..m];
    }
  }

  /** A new connection starts disconnected, so setting its initial state
      never withdraws it: connecting one path prepends exactly one
      connection, named by the path, and leaves the older ones alone. */
  lemma ConnectOneEffect(s: MonitorState, p: string, props: ActiveProps, n: U64, rs: seq<Reading>)
    ensures var r := ConnectOne(s, p, props, n, rs);
      && |r.connections| == |s.connections| + 1
      && r.connections[0].name == p && r.connections[0].id == s.nextId
      && r.connections[1..] == s.connections
      && r.nextId == s.nextId + 1
  {
    var s1 := ConnectionNewNm(s, p, props.isDefault);
    assert s1.connections[1..] == s.connections;
    var s2 := AddLinks(s1, 0, props.devices.GetOr([]), n, rs);
    AddLinksKeeps(s1, 0, props.devices.GetOr([]), n, rs);
    TailKept(s2.connections, s1.connections);
    assert s2.connections[0].state == ConnectionStateDisconnected(NetworkManager);
    var t := StateTransition(NetworkManager, s2.connections[0], props.state, true);
    assert t != Withdrawn && t != Unchanged;
    var r := ConnectOne(s, p, props, n, rs);
    if t == Announced {
      Steps.ConnectionStateSetAnnounced(NetworkManager, s2, 0, props.state, true, n, rs);
    } else {
      Steps.ConnectionStateSetQuiet(NetworkManager, s2, 0, props.state, true, n, rs);
    }
    TailKept(r.connections, s2.connections);
  }

  /** The list after connecting the first path and then the others,
      related to the list before. */
  lemma ReportedStep(rc: seq<Connection>, s1c: seq<Connection>, sc: seq<Connection>, ps: seq<string>)
    requires ps != []
    requires |s1c| == |sc| + 1 && s1c[0].name == ps[0] && s1c[1..] == sc
    requires |rc| == |s1c| + |ps| - 1 && rc[|ps| - 1..] == s1c
    requires forall k :: 0 <= k < |ps| - 1 ==> rc[|ps| - 2 - k].name == ps[1..][k]
    ensures |rc| == |sc| + |ps| && rc[|ps|..] == sc
    ensures forall k :: 0 <= k < |ps| ==> rc[|ps| - 1 - k].name == ps[k]
  {
    var m := |ps| - 1;
    assert rc[m] == rc[m..][0];
    assert rc[m..][1..] == rc[m + 1..];
    forall k | 0 < k < |ps|
      ensures rc[m - k].name == ps[k]
    {
      assert ps[1..][k - 1] == ps[k];
    }
  }

  lemma TailKept(a: seq<Connection>, b: seq<Connection>)
    requires |a| == |b| > 0 && forall k :: 0 < k < |a| ==> a[k] == b[k]
    ensures a[1..] == b[1..]
  {
  }

  /** The paths that remain become new connections, the last one first on
      the list, in front of the connections there were. */
  lemma {:induction false} ConnectReportedEffect(s: MonitorState, ps: seq<string>, props: string -> ActiveProps,
                                                 n: U64, rs: seq<Reading>)
    ensures var r := ConnectReported(s, ps, props, n, rs);
      && |r.connections| == |s.connections| + |ps|
      && r.connections[|ps|..] == s.connections
      && forall k :: 0 <= k < |ps| ==> r.connections[|ps| - 1 - k].name == ps[k]
    decreases |ps|
  {
    if ps != [] {
      var s1 := ConnectOne(s, ps[0], props(ps[0]), n, rs);
      ConnectOneEffect(s, ps[0], props(ps[0]), n, rs);
      ConnectReportedEffect(s1, ps[1..], props, n, rs);
      var r := ConnectReported(s, ps, props, n, rs);
      ReportedStep(r.connections, s1.connections, s.connections, ps);
    }
  }

  /** Matching keeps the ids, in their places, and leaves exactly the
      reported paths that name no known connection. */
  lemma MatchPhase(s: MonitorState, ps: seq<string>)
    requires Steps.IdsValid(s)
    ensures var m := MatchReported(MarkUnseen(s.connections), ps, 0);
      && Steps.IdsValid(s.(connections := m.0))
      && ConnectionIds(m.0) == ConnectionIds(s.connections)
      && (forall p :: p in m.1 <==> p in ps && p !in ConnectionNames(s.connections))
  {
    var cs := MarkUnseen(s.connections);
    assert ConnectionNames(cs) == ConnectionNames(s.connections);
    var m := MatchReported(cs, ps, 0);
    MatchReportedRemaining(cs, ps, 0);
    MatchReportedKeeps(cs, ps, 0);
    assert ConnectionIds(m.0) == ConnectionIds(s.connections);
    forall p
      ensures p in m.1 <==> p in ps && p !in ConnectionNames(s.connections)
    {
      assert p in m.1 <==> p in multiset(m.1);
      assert p in ps <==> p in multiset(ps);
    }
  }

  lemma IdSetIsIds(cs: seq<Connection>)
    ensures forall x :: x in IdSet(cs) ==> x in ConnectionIds(cs)
  {
    forall x | x in IdSet(cs)
      ensures x in ConnectionIds(cs)
    {
      var c :| c in cs && c.id == x;
      var k :| 0 <= k < |cs| && cs[k] == c;
      assert ConnectionIds(cs)[k] == x;
    }
  }

  /** The disconnecting loop over the ids of the matched list: what is
      left holds only connections with old ids, the unseen ones
      disconnected, and keeps every seen one. */
  lemma DisconnectPhase(s1: MonitorState, before: seq<Connection>, n: U64, rs: seq<Reading>)
    requires Steps.IdsValid(s1) && Settled(s1.defaults)
    requires ConnectionIds(s1.connections) == ConnectionIds(before)
    ensures var s2 := DisconnectUnseen(s1, ConnectionIds(s1.connections), n, rs);
      && (forall c :: c in s2.connections ==> c.id in ConnectionIds(before))
      && (forall c :: c in s2.connections && !c.seen ==> c.state == ConnectionStateDisconnected(NetworkManager))
      && (forall c :: c in s1.connections && c.seen ==> c in s2.connections)
  {
    var ids := ConnectionIds(s1.connections);
    DisconnectUnseenEffect(s1, ids, {}, n, rs);
    IdSetIsIds(s1.connections);
    var s2 := DisconnectUnseen(s1, ids, n, rs);
    forall c | c in s2.connections && !c.seen
      ensures c.state == ConnectionStateDisconnected(NetworkManager)
    {
      assert c.id in IdSet(s1.connections);
      assert c.id in ids;
    }
  }

  /** The scan, start to end: the new connections in front carry exactly
      the reported paths that named no known connection; behind them are
      only connections known before, and of those the ones no path
      reports are disconnected, while the ones some path reports stay as
      they were, marked seen. */
  lemma ActiveConnectionsScanEffect(s: MonitorState, ps: seq<string>, props: string -> ActiveProps,
                                    n: U64, rs: seq<Reading>)
    requires Steps.IdsValid(s) && Settled(s.defaults)
    ensures var m := MatchReported(MarkUnseen(s.connections), ps, 0);
      var r := ActiveConnectionsScan(s, Some(ps), props, n, rs);
      var created := |m.1|;
      && created <= |r.connections|
      && (forall p :: p in m.1 <==> p in ps && p !in ConnectionNames(s.connections))
      && (forall k :: 0 <= k < created ==> r.connections[k].name in m.1)
      && (forall c :: c in r.connections[created..] ==> c.id in ConnectionIds(s.connections))
      && (forall c :: c in r.connections[created..] && !c.seen ==>
            c.state == ConnectionStateDisconnected(NetworkManager))
      && (forall c :: c in m.0 && c.seen ==> c in r.connections[created..])
      && !r.activeScanPending
  {
    var m := MatchReported(MarkUnseen(s.connections), ps, 0);
    MatchPhase(s, ps);
    var s1 := s.(connections := m.0);
    var ids := ConnectionIds(m.0);
    DisconnectPhase(s1, s.connections, n, rs);
    var s2 := DisconnectUnseen(s1, ids, n, rs);
    ConnectPhase(s2, m.1, props, n, rs);
    var r0 := ConnectReported(s2, m.1, props, n, rs);
    assert ActiveConnectionsScan(s, Some(ps), props, n, rs) == r0.(activeScanPending := false);
  }

  /** The connecting loop puts connections named by the remaining paths in
      front of those there were. */
  lemma ConnectPhase(s2: MonitorState, rem: seq<string>, props: string -> ActiveProps, n: U64, rs: seq<Reading>)
    ensures var r := ConnectReported(s2, rem, props, n, rs);
      && |rem| <= |r.connections|
      && r.connections[|rem|..] == s2.connections
      && (forall k :: 0 <= k < |rem| ==> r.connections[k].name in rem)
  {
    ConnectReportedEffect(s2, rem, props, n, rs);
    var r := ConnectReported(s2, rem, props, n, rs);
    forall k | 0 <= k < |rem|
      ensures r.connections[k].name in rem
    {
      assert r.connections[|rem| - 1 - (|rem| - 1 - k)].name == rem[|rem| - 1 - k];
    }
  }
}
