/** The service monitor of src/service-monitor.c: it watches the session
    bus for names changing owner, records for each well-known name the
    process that owns it (a service), traces a process while it owns at
    least one name, and forgets a process's services when it exits.  The two
    hash tables are maps; the list of a pid's services is a sequence, newest
    first.  What the monitor asks the process monitor to do and the GObject
    signals it emits form a log of events. */
module ServiceMonitor {
  import opened Wrappers
  import ProcessMonitor
  import opened Seqs

  /** struct wc_service: the pid, the bus name and what /proc said about the
      process.  A service is never changed after it is made. */
  datatype Service = Service(pid: int, dbusName: string, exe: Option<string>, arg0: Option<string>, arg1: Option<string>)

  datatype Event =
    | Trace(pid: int)                              // wc_process_monitor_ptrace_trace
    | Untrace(pid: int)                            // wc_process_monitor_ptrace_untrace
    | Started(service: Service)                    // service-started
    | Stopped(service: Service)                    // service-stopped
    | FsAccess(services: seq<Service>, cb: int)    // service-fs-access

  /** The two tables and the events so far. */
  datatype Registry = Registry(pidToServices: map<int, seq<Service>>, nameToService: map<string, Service>, events: seq<Event>)

  /** The tables agree: every pid has a non-empty list without repeats of
      services of that pid, each registered under its name; and every
      registered service carries its name and is in its own pid's list. */
  ghost predicate Consistent(r: Registry) {
    (forall p :: p in r.pidToServices ==>
       r.pidToServices[p] != [] && ProcessMonitor.NoDup(r.pidToServices[p])
       && forall s :: s in r.pidToServices[p] ==>
            s.pid == p && s.dbusName in r.nameToService && r.nameToService[s.dbusName] == s)
    && (forall n :: n in r.nameToService ==>
          r.nameToService[n].dbusName == n && r.nameToService[n].pid in r.pidToServices
          && r.nameToService[n] in r.pidToServices[r.nameToService[n].pid])
  }

  /** The services of pid, newest first (services_lookup). */
  function ServicesOf(r: Registry, pid: int): seq<Service> {
    if pid in r.pidToServices then r.pidToServices[pid] else []
  }

  /** The effect of service_new on the tables and the log. */
  function Added(r: Registry, s: Service): Registry {
    var first := s.pid !in r.pidToServices;
    Registry(r.pidToServices[s.pid := [s] + ServicesOf(r, s.pid)],
             r.nameToService[s.dbusName := s],
             r.events + (if first then [Trace(s.pid)] else []) + [Started(s)])
  }

  /** The effect of service_free on the tables and the log. */
  function Freed(r: Registry, s: Service): Registry {
    var rest := ProcessMonitor.Remove(ServicesOf(r, s.pid), s);
    Registry(if rest == [] then r.pidToServices - {s.pid} else r.pidToServices[s.pid := rest],
             r.nameToService - {s.dbusName},
             r.events + [Stopped(s)] + (if rest == [] then [Untrace(s.pid)] else []))
  }

  /** service_new keeps the tables consistent: the new service heads its
      pid's list and is registered under its name. */
  lemma AddKeepsConsistent(r: Registry, s: Service)
    requires Consistent(r) && s.dbusName !in r.nameToService
    ensures Consistent(Added(r, s))
    ensures Added(r, s).pidToServices[s.pid][0] == s && Added(r, s).nameToService[s.dbusName] == s
  {
    var r' := Added(r, s);
    var l := ServicesOf(r, s.pid);
    assert s !in l;
    NoDupCons(s, l);
    forall p | p in r'.pidToServices
      ensures forall x :: x in r'.pidToServices[p] ==>
        x.pid == p && x.dbusName in r'.nameToService && r'.nameToService[x.dbusName] == x
    {
      forall x | x in r'.pidToServices[p]
        ensures x.pid == p && x.dbusName in r'.nameToService && r'.nameToService[x.dbusName] == x
      {
        if x != s {
          assert x in r.pidToServices[p];
        }
      }
    }
  }

  /** service_free keeps the tables consistent and leaves the service in
      neither table. */
  lemma FreeKeepsConsistent(r: Registry, s: Service)
    requires Consistent(r) && s.dbusName in r.nameToService && r.nameToService[s.dbusName] == s
    ensures Consistent(Freed(r, s))
    ensures s.dbusName !in Freed(r, s).nameToService
    ensures s.pid in Freed(r, s).pidToServices ==> s !in Freed(r, s).pidToServices[s.pid]
  {
    var r' := Freed(r, s);
    var l := ServicesOf(r, s.pid);
    var rest := ProcessMonitor.Remove(l, s);
    forall p | p in r'.pidToServices
      ensures forall x :: x in r'.pidToServices[p] ==>
        x.pid == p && x.dbusName in r'.nameToService && r'.nameToService[x.dbusName] == x
    {
      forall x | x in r'.pidToServices[p]
        ensures x.pid == p && x.dbusName in r'.nameToService && r'.nameToService[x.dbusName] == x
      {
        assert x in r.pidToServices[p];
        assert x != s;
      }
    }
    forall n | n in r'.nameToService
      ensures r'.nameToService[n].pid in r'.pidToServices
        && r'.nameToService[n] in r'.pidToServices[r'.nameToService[n].pid]
    {
      var x := r.nameToService[n];
      assert x != s;
      if x.pid == s.pid {
        assert x in rest;
      }
    }
  }

  /** Freeing a service right after adding it restores both tables. */
  lemma AddFreeRoundTrip(r: Registry, s: Service)
    requires Consistent(r) && s.dbusName !in r.nameToService
    ensures Freed(Added(r, s), s).pidToServices == r.pidToServices
    ensures Freed(Added(r, s), s).nameToService == r.nameToService
  {
    var l := ServicesOf(r, s.pid);
    assert s !in l;
    assert ProcessMonitor.Remove([s] + l, s) == l;
  }

  /** True exactly when the pid's list is not empty after service_free; the
      comment before service_free describes the opposite. */
  lemma FreeResult(r: Registry, s: Service)
    requires Consistent(r) && s.dbusName in r.nameToService && r.nameToService[s.dbusName] == s
    ensures s.pid in Freed(r, s).pidToServices <==> |ServicesOf(r, s.pid)| > 1
  {
    assert s in ServicesOf(r, s.pid);
  }

  /** Every service of a pid is registered under its name, and a registered
      name belongs to exactly one pid's list. */
  lemma NamesOfPid(r: Registry, pid: int, n: string)
    requires Consistent(r)
    ensures n in r.nameToService && r.nameToService[n].pid == pid
      <==> exists i :: 0 <= i < |ServicesOf(r, pid)| && ServicesOf(r, pid)[i].dbusName == n
  {
    if n in r.nameToService && r.nameToService[n].pid == pid {
      var x := r.nameToService[n];
      var i :| 0 <= i < |ServicesOf(r, pid)| && ServicesOf(r, pid)[i] == x;
    }
    if exists i :: 0 <= i < |ServicesOf(r, pid)| && ServicesOf(r, pid)[i].dbusName == n {
      var i :| 0 <= i < |ServicesOf(r, pid)| && ServicesOf(r, pid)[i].dbusName == n;
      assert ServicesOf(r, pid)[i] in r.pidToServices[pid];
    }
  }

  /** The service-stopped events of a list of services, in order. */
  function Stops(l: seq<Service>): (e: seq<Event>)
    ensures |e| == |l|
  {
    if l == [] then [] else [Stopped(l[0])] + Stops(l[1..])
  }

  lemma {:induction false} StopsSnoc(l: seq<Service>, s: Service)
    ensures Stops(l + [s]) == Stops(l) + [Stopped(s)]
  {
    if l == [] {
      assert [] + [s] == [s];
    } else {
      assert (l + [s])[1..] == l[1..] + [s];
      StopsSnoc(l[1..], s);
    }
  }

  /** The names of a list of services. */
  function NamesOf(l: seq<Service>): set<string> {
    set i | 0 <= i < |l| :: l[i].dbusName
  }

  lemma NamesOfSnoc(l: seq<Service>, s: Service)
    ensures NamesOf(l + [s]) == NamesOf(l) + {s.dbusName}
  {
    var l' := l + [s];
    assert l'[|l|] == s;
    forall n | n in NamesOf(l) ensures n in NamesOf(l') {
      var i :| 0 <= i < |l| && l[i].dbusName == n;
      assert l'[i] == l[i];
    }
  }

  /** A C string argument's character i; past the end it is the NUL. */
  function CharAt(s: string, i: nat): char {
    if i < |s| then s[i] else '\0'
  }

  predicate CString(s: string) {
    forall i :: 0 <= i < |s| ==> s[i] != '\0'
  }

  /** arg0_blacklist on the Maemo build. */
  const MAEMO_BLACKLIST: seq<string> := [
    "/usr/bin/hildon-desktop", "/usr/bin/hildon-home", "/usr/bin/hildon-status-menu",
    "/usr/bin/hildon-input-method", "/usr/bin/hildon-sv-notification-daemon",
    "/usr/bin/maemo-xinput-sounds", "/usr/bin/profiled", "/usr/bin/rtcom-call-ui",
    "/usr/sbin/ohmd", "/usr/bin/ohm-session-agent", "/usr/bin/mission-control",
    "/usr/lib/telepathy/telepathy-ring", "/usr/sbin/alarmd", "/usr/sbin/ke-recv",
    "/usr/bin/osso-connectivity-ui-conndlgs"]

  /** arg0_blacklist on other builds. */
  const DESKTOP_BLACKLIST: seq<string> := [
    "/usr/bin/pulseaudio", "/usr/bin/gnome-terminal", "gnome-terminal", "gnome-panel",
    "nm-applet", "x-session-manager", "/usr/lib/libgconf2-4/gconfd-2", "gnome-power-manager",
    "/usr/lib/gnome-settings-daemon/gnome-settings-daemon", "/usr/bin/gnome-keyring-daemon",
    "/usr/lib/gvfs/gvfs-gdu-volume-monitor", "bluetooth-applet", "gnome-volume-control-applet"]

  function Blacklist(maemo: bool): seq<string> {
    if maemo then MAEMO_BLACKLIST else DESKTOP_BLACKLIST
  }

  /** blacklisted_arg0: whether the command is one of the blacklist's, by
      exact comparison. */
  method Blacklisted(arg0: string, maemo: bool) returns (r: bool)
    ensures r <==> arg0 in Blacklist(maemo)
  {
    var list := Blacklist(maemo);
    var i := 0;
    while i < |list|
      invariant 0 <= i <= |list| && arg0 !in list[..i]
    {
      if arg0 == list[i] {
        return true;
      }
      assert list[..i + 1] == list[..i] + [list[i]];
      i := i + 1;
    }
    assert list[..i] == list;
    return false;
  }

  const WHITELIST: seq<string> := ["/home", "/media", "/mnt"]

  /** filename is the directory dir or lies below it. */
  predicate InDirectory(filename: string, dir: string) {
    filename == dir || (|filename| > |dir| && filename[..|dir|] == dir && filename[|dir|] == '/')
  }

  /** The file lies in one of the whitelisted directories. */
  predicate InWhitelist(filename: string) {
    exists i :: 0 <= i < |WHITELIST| && InDirectory(filename, WHITELIST[i])
  }

  /** The comparison the loop makes for one directory: strncmp over its
      length, then the character after it is the NUL or a '/'. */
  predicate PrefixMatch(filename: string, dir: string) {
    |filename| >= |dir| && filename[..|dir|] == dir && (CharAt(filename, |dir|) == '\0' || CharAt(filename, |dir|) == '/')
  }

  lemma PrefixMatchIsInDirectory(filename: string, dir: string)
    requires CString(filename)
    ensures PrefixMatch(filename, dir) <==> InDirectory(filename, dir)
  {
    if PrefixMatch(filename, dir) && |filename| == |dir| {
      assert filename == filename[..|dir|];
    }
  }

  /** process_monitor_filename_whitelisted: NULL is not whitelisted; a name
      is when it is /home, /media or /mnt or lies below one of them.  The
      fast check on the first two characters rejects nothing that matches. */
  method Whitelisted(filename: Option<string>) returns (r: bool)
    requires filename.Some? ==> CString(filename.value)
    ensures r <==> filename.Some? && InWhitelist(filename.value)
  {
    if filename.None? {
      return false;
    }
    var f := filename.value;
    if !(CharAt(f, 0) == '/' && (CharAt(f, 1) == 'h' || CharAt(f, 1) == 'm')) {
      assert !InWhitelist(f);
      return false;
    }
    var i := 0;
    while i < |WHITELIST|
      invariant 0 <= i <= |WHITELIST|
      invariant forall j :: 0 <= j < i ==> !InDirectory(f, WHITELIST[j])
    {
      PrefixMatchIsInDirectory(f, WHITELIST[i]);
      var len := |WHITELIST[i]|;
      if |f| >= len && f[..len] == WHITELIST[i] && (CharAt(f, len) == '\0' || CharAt(f, len) == '/') {
        return true;
      }
      i := i + 1;
    }
    return false;
  }

  /** A name extending a whitelisted directory without a '/' is not
      whitelisted, while the directory and the files below it are. */
  lemma WhitelistExamples()
    ensures !InWhitelist("/homes") && !InWhitelist("/") && !InWhitelist("")
    ensures InWhitelist("/home") && InWhitelist("/home/user/music.ogg") && InWhitelist("/media/card")
  {
    assert InDirectory("/home/user/music.ogg", WHITELIST[0]) by {
      assert "/home/user/music.ogg"[..5] == "/home";
    }
    assert InDirectory("/media/card", WHITELIST[1]) by {
      assert "/media/card"[..6] == "/media";
    }
    assert InDirectory("/home", WHITELIST[0]);
    assert !InDirectory("/homes", WHITELIST[0]) by {
      assert "/homes"[5] == 's';
    }
    assert !InDirectory("/homes", WHITELIST[1]) by {
      assert "/homes"[1] != "/media"[1];
    }
    assert !InDirectory("/homes", WHITELIST[2]) by {
      assert "/homes"[1] != "/mnt"[1];
    }
  }

  /** The index of the first NUL of s, or |s| when there is none (memchr). */
  function FirstNul(s: string): (k: nat)
    ensures k <= |s| && CString(s[..k]) && (k < |s| ==> s[k] == '\0')
  {
    if s == [] then 0
    else if s[0] == '\0' then 0
    else
      var k := 1 + FirstNul(s[1..]);
      assert s[..k] == [s[0]] + s[1..][..k - 1];
      k
  }

  /** The string a char pointer into s designates: up to the first NUL. */
  function CStringAt(s: string): string {
    s[..FirstNul(s)]
  }

  /** argv[0] and argv[1] as the owner-change handler reads them from the
      contents of /proc/PID/cmdline (None when it could not be read). */
  datatype Args = Args(arg0: Option<string>, arg1: Option<string>)

  function ParseCmdline(contents: Option<string>): (a: Args)
    ensures contents.None? <==> a.arg0.None?
    ensures a.arg0.Some? ==> CString(a.arg0.value)
    ensures a.arg1.Some? ==> CString(a.arg1.value)
  {
    if contents.None? then Args(None, None)
    else
      var c := contents.value;
      var k := FirstNul(c);
      if k == |c| then Args(Some(c), None)
      else if k + 1 < |c| then
        var rest := c[k + 1..];
        assert CString(rest[..FirstNul(rest)]);
        Args(Some(c[..k]), Some(CStringAt(rest)))
      else Args(Some(c[..k]), None)
  }

  /** The arguments come back out of a command line that the kernel wrote
      as NUL-terminated strings: one argument gives no second, and an empty
      file gives an empty first argument. */
  lemma CmdlineRoundTrip(a0: string, a1: string, rest: string)
    requires CString(a0) && CString(a1)
    ensures ParseCmdline(Some(a0 + "\0" + a1 + "\0" + rest)) == Args(Some(a0), Some(a1))
    ensures ParseCmdline(Some(a0 + "\0")) == Args(Some(a0), None)
    ensures ParseCmdline(Some("")) == Args(Some(""), None)
  {
    var c := a0 + "\0" + a1 + "\0" + rest;
    FirstNulOf(a0, "\0" + a1 + "\0" + rest);
    assert c == a0 + ("\0" + a1 + "\0" + rest);
    assert c[..|a0|] == a0;
    var tail := c[|a0| + 1..];
    assert tail == a1 + ("\0" + rest);
    FirstNulOf(a1, "\0" + rest);
    assert tail[..|a1|] == a1;
    FirstNulOf(a0, "\0");
    assert (a0 + "\0")[..|a0|] == a0;
  }

  lemma {:induction false} FirstNulOf(a: string, b: string)
    requires CString(a) && b != [] && b[0] == '\0'
    ensures FirstNul(a + b) == |a|
  {
    if a != [] {
      assert (a + b)[1..] == a[1..] + b;
      FirstNulOf(a[1..], b);
    }
  }

  /** A bus name the owner-change handler acts on: a well-known name (not
      starting with ':') whose old or new owner is non-empty. */
  predicate Handled(name: Option<string>, oldOwner: Option<string>, newOwner: Option<string>) {
    name.Some? && CharAt(name.value, 0) != ':' && (NonEmptyOwner(oldOwner) || NonEmptyOwner(newOwner))
  }

  predicate NonEmptyOwner(owner: Option<string>) {
    owner.Some? && owner.value != ""
  }

  /** The service the handler makes for a new owner, if any: only when the
      pid was found and is not 0, the command line could be read, and
      argv[0] is not blacklisted.  /proc is read only when the pid was. */
  function NewService(name: string, pid: Option<int>, exe: Option<string>, cmdline: Option<string>, maemo: bool): Option<Service> {
    var args := ParseCmdline(if pid.Some? then cmdline else None);
    if pid.Some? && pid.value != 0 && args.arg0.Some? && args.arg0.value !in Blacklist(maemo) then
      Some(Service(pid.value, name, if pid.Some? then exe else None, args.arg0, args.arg1))
    else None
  }

  class Monitor {
    var pidToServices: map<int, seq<Service>>
    var nameToService: map<string, Service>
    var events: seq<Event>
    /** Whether this is the Maemo build, which picks the blacklist. */
    const maemo: bool

    ghost function State(): Registry
      reads this
    {
      Registry(pidToServices, nameToService, events)
    }

    ghost predicate Valid()
      reads this
    {
      Consistent(State())
    }

    constructor (maemo: bool)
      ensures Valid() && pidToServices == map[] && nameToService == map[] && events == [] && this.maemo == maemo
    {
      pidToServices := map[];
      nameToService := map[];
      events := [];
      this.maemo := maemo;
    }

    /** service_new: the name must not be registered yet.  The service heads
        its pid's list and is registered under its name; the pid is traced
        exactly when this is its first service; service-started follows. */
    method ServiceNew(pid: int, dbusName: string, exe: Option<string>, arg0: Option<string>, arg1: Option<string>)
      returns (s: Service)
      requires Valid() && dbusName !in nameToService
      modifies this
      ensures Valid()
      ensures s == Service(pid, dbusName, exe, arg0, arg1)
      ensures State() == Added(old(State()), s)
    {
      s := Service(pid, dbusName, exe, arg0, arg1);
      AddKeepsConsistent(State(), s);
      var services := if pid in pidToServices then pidToServices[pid] else [];
      services := [s] + services;
      pidToServices := pidToServices[pid := services];
      nameToService := nameToService[dbusName := s];
      if |services| == 1 {
        events := events + [Trace(pid)];
      }
      events := events + [Started(s)];
    }

    /** service_free: service-stopped is emitted, the service leaves its
        pid's list and the name table, and a pid left without services is
        dropped and untraced.  Returns whether other services remain. */
    method ServiceFree(s: Service) returns (othersRemain: bool)
      requires Valid() && s.dbusName in nameToService && nameToService[s.dbusName] == s
      modifies this
      ensures Valid()
      ensures State() == Freed(old(State()), s)
      ensures othersRemain <==> s.pid in pidToServices
    {
      FreeKeepsConsistent(State(), s);
      assert s in pidToServices[s.pid];
      var services := pidToServices[s.pid];
      events := events + [Stopped(s)];
      services := ProcessMonitor.Remove(services, s);
      if services != [] {
        pidToServices := pidToServices[s.pid := services];
      } else {
        pidToServices := pidToServices - {s.pid};
        events := events + [Untrace(s.pid)];
      }
      nameToService := nameToService - {s.dbusName};
      othersRemain := services != [];
    }

    /** name_owner_changed_signal_cb.  The results of asking the bus for the
        owner's pid (None when that fails), of reading /proc/PID/exe and of
        reading /proc/PID/cmdline are parameters.  A well-known name whose
        old owner is non-empty loses its service; one whose new owner is
        non-empty gets the service NewService describes.  The code asserts
        that a name is not registered twice. */
    method NameOwnerChanged(name: Option<string>, oldOwner: Option<string>, newOwner: Option<string>,
                            pid: Option<int>, exe: Option<string>, cmdline: Option<string>)
      requires Valid()
      requires (Handled(name, oldOwner, newOwner) && NonEmptyOwner(newOwner) && !NonEmptyOwner(oldOwner)
                && NewService(name.value, pid, exe, cmdline, maemo).Some?) ==> name.value !in nameToService
      modifies this
      ensures Valid()
      ensures !Handled(name, oldOwner, newOwner) ==> State() == old(State())
      ensures Handled(name, oldOwner, newOwner) ==>
        var n := name.value;
        var r1 := if NonEmptyOwner(oldOwner) && n in old(nameToService) then Freed(old(State()), old(nameToService)[n]) else old(State());
        var s := if NonEmptyOwner(newOwner) then NewService(n, pid, exe, cmdline, maemo) else None;
        State() == if s.Some? then Added(r1, s.value) else r1
    {
      if !Handled(name, oldOwner, newOwner) {
        return;
      }
      var n := name.value;
      if NonEmptyOwner(oldOwner) && n in nameToService {
        var _ := ServiceFree(nameToService[n]);
      }
      if NonEmptyOwner(newOwner) {
        var args := ParseCmdline(if pid.Some? then cmdline else None);
        var p := pid.GetOr(0);
        var e := if pid.Some? then exe else None;
        if p != 0 && args.arg0.Some? {
          var blacklisted := Blacklisted(args.arg0.value, maemo);
          if !blacklisted {
            var _ := ServiceNew(p, n, e, args.arg0, args.arg1);
          }
        }
      }
    }

    /** process_monitor_callback.  On the exit of a traced process every
        service of its pid is freed, newest first, and the pid is untraced
        once its last service goes; other callbacks for a monitored pid are
        passed on with its services; a pid without services is ignored. */
    method ProcessCallback(cb: int, topLevelsPid: int)
      requires Valid()
      modifies this
      ensures Valid()
      ensures topLevelsPid !in old(pidToServices) ==> State() == old(State())
      ensures topLevelsPid in old(pidToServices) && cb != ProcessMonitor.EXIT_CB ==>
        State() == old(State()).(events := old(events) + [FsAccess(old(pidToServices[topLevelsPid]), cb)])
      ensures topLevelsPid in old(pidToServices) && cb == ProcessMonitor.EXIT_CB ==>
        && pidToServices == old(pidToServices) - {topLevelsPid}
        && nameToService == old(nameToService) - NamesOf(old(pidToServices[topLevelsPid]))
        && events == old(events) + Stops(old(pidToServices[topLevelsPid])) + [Untrace(topLevelsPid)]
    {
      if topLevelsPid !in pidToServices {
        return;
      }
      if cb != ProcessMonitor.EXIT_CB {
        events := events + [FsAccess(pidToServices[topLevelsPid], cb)];
        return;
      }
      ghost var r0 := State();
      ghost var k := 0;
      while topLevelsPid in pidToServices
        invariant Valid() && 0 <= k <= |r0.pidToServices[topLevelsPid]|
        invariant ExitedUpTo(r0, State(), topLevelsPid, k)
        decreases |r0.pidToServices[topLevelsPid]| - k
      {
        ExitStep(r0, State(), topLevelsPid, k);
        var _ := ServiceFree(pidToServices[topLevelsPid][0]);
        k := k + 1;
      }
      ExitDone(r0, State(), topLevelsPid, k);
    }

    /** wc_service_monitor_list: every registered service once, in the
        table's order. */
    method List() returns (list: seq<Service>)
      requires Valid()
      ensures ProcessMonitor.NoDup(list)
      ensures forall s :: s in list <==> s.dbusName in nameToService && nameToService[s.dbusName] == s
    {
      list := [];
      var todo := nameToService.Keys;
      while todo != {}
        invariant todo <= nameToService.Keys && ProcessMonitor.NoDup(list)
        invariant forall s :: s in list <==> s.dbusName in nameToService - todo && nameToService[s.dbusName] == s
        decreases |todo|
      {
        var n :| n in todo;
        var s := nameToService[n];
        ListStep(nameToService, todo, list, n);
        list := [s] + list;
        todo := todo - {n};
      }
    }
  }

  lemma NoDupCons(s: Service, l: seq<Service>)
    requires ProcessMonitor.NoDup(l) && s !in l
    ensures ProcessMonitor.NoDup([s] + l)
  {
    forall i, j | 0 <= i < j < |[s] + l| ensures ([s] + l)[i] != ([s] + l)[j] {
      if i == 0 {
        assert ([s] + l)[j] == l[j - 1] && l[j - 1] in l;
      } else {
        assert ([s] + l)[i] == l[i - 1] && ([s] + l)[j] == l[j - 1];
      }
    }
  }

  /** One turn of the listing loop takes one more name off the to-do set
      and its service onto the list. */
  lemma ListStep(names: map<string, Service>, todo: set<string>, list: seq<Service>, n: string)
    requires n in todo && todo <= names.Keys && ProcessMonitor.NoDup(list)
    requires forall s :: s in list <==> s.dbusName in names - todo && names[s.dbusName] == s
    requires forall m :: m in names ==> names[m].dbusName == m
    ensures todo - {n} <= names.Keys && ProcessMonitor.NoDup([names[n]] + list)
    ensures forall s :: s in [names[n]] + list <==> s.dbusName in names - (todo - {n}) && names[s.dbusName] == s
  {
    var s := names[n];
    assert s !in list;
    NoDupCons(s, list);
  }

  /** r is r0 after freeing the first k services of pid's list. */
  ghost predicate ExitedUpTo(r0: Registry, r: Registry, pid: int, k: nat)
    requires pid in r0.pidToServices
  {
    var l := r0.pidToServices[pid];
    k <= |l|
    && (pid in r.pidToServices <==> k < |l|)
    && (k < |l| ==> r.pidToServices == r0.pidToServices[pid := l[k..]])
    && (k == |l| ==> r.pidToServices == r0.pidToServices - {pid})
    && r.nameToService == r0.nameToService - NamesOf(l[..k])
    && r.events == r0.events + Stops(l[..k]) + (if k == |l| then [Untrace(pid)] else [])
  }

  /** One turn of the exit loop frees the next service of the list. */
  lemma ExitStep(r0: Registry, r: Registry, pid: int, k: nat)
    requires Consistent(r) && pid in r0.pidToServices && ExitedUpTo(r0, r, pid, k) && pid in r.pidToServices
    ensures var s := r.pidToServices[pid][0];
      s.dbusName in r.nameToService && r.nameToService[s.dbusName] == s
      && ExitedUpTo(r0, Freed(r, s), pid, k + 1)
  {
    var s := r.pidToServices[pid][0];
    ConsistentMember(r, pid, s);
    ExitFrees(r0, r, pid, k);
  }

  lemma ConsistentMember(r: Registry, p: int, s: Service)
    requires Consistent(r) && p in r.pidToServices && s in r.pidToServices[p]
    ensures s.pid == p && s.dbusName in r.nameToService && r.nameToService[s.dbusName] == s
  {
  }

  lemma ExitFrees(r0: Registry, r: Registry, pid: int, k: nat)
    requires pid in r0.pidToServices && ExitedUpTo(r0, r, pid, k) && pid in r.pidToServices
    requires r.pidToServices[pid][0].pid == pid
    ensures ExitedUpTo(r0, Freed(r, r.pidToServices[pid][0]), pid, k + 1)
  {
    var l := r0.pidToServices[pid];
    var s := r.pidToServices[pid][0];
    var rest := l[k + 1..];
    var r' := Freed(r, s);
    assert s == l[k];
    assert l[k..] == [s] + rest;
    assert ServicesOf(r, pid) == l[k..];
    assert ProcessMonitor.Remove(l[k..], s) == rest;
    assert l[..k + 1] == l[..k] + [s];
    NamesOfSnoc(l[..k], s);
    StopsSnoc(l[..k], s);
    assert r'.nameToService == r0.nameToService - NamesOf(l[..k + 1]);
    ConcatAssoc(r0.events, Stops(l[..k]), [Stopped(s)]);
    if k + 1 < |l| {
      assert r'.pidToServices == r0.pidToServices[pid := rest];
      assert r'.events == r0.events + Stops(l[..k + 1]);
    } else {
      assert r'.pidToServices == r0.pidToServices - {pid};
      assert r'.events == r0.events + Stops(l[..k + 1]) + [Untrace(pid)];
    }
  }


  lemma ExitDone(r0: Registry, r: Registry, pid: int, k: nat)
    requires pid in r0.pidToServices && ExitedUpTo(r0, r, pid, k) && pid !in r.pidToServices
    ensures r.pidToServices == r0.pidToServices - {pid}
    ensures r.nameToService == r0.nameToService - NamesOf(r0.pidToServices[pid])
    ensures r.events == r0.events + Stops(r0.pidToServices[pid]) + [Untrace(pid)]
  {
    assert r0.pidToServices[pid][..k] == r0.pidToServices[pid];
  }

  /** On exit the names dropped are exactly those of the pid's services. */
  lemma ExitDropsPidNames(r: Registry, pid: int)
    requires Consistent(r) && pid in r.pidToServices
    ensures forall n :: n in r.nameToService - NamesOf(r.pidToServices[pid]) <==>
      n in r.nameToService && r.nameToService[n].pid != pid
  {
    forall n | n in r.nameToService
      ensures n in NamesOf(r.pidToServices[pid]) <==> r.nameToService[n].pid == pid
    {
      NamesOfPid(r, pid, n);
    }
  }
}
