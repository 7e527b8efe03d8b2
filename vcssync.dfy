/** vcssync, the example client that keeps version-control repositories in
    sync (clients/vcssync.py): the Woodchuck identifier of a remote and its
    inverse, the queue of running and waiting transfers, and the reading of
    the configuration file.  Processes, the file system, JSON parsing,
    e-mail and the main loop are not part of this model: which kind of
    repository a directory holds, the exit status of each transfer and the
    parsed configuration are parameters. */
module VcsSync {
  import opened Wrappers

  /** Remote: what to do with one repository (the namedtuple of
      clients/vcssync.py:126-127). */
  datatype Remote = Remote(sync: string, directory: string, remote: Option<string>,
                           refs: Option<string>, freshness: Option<int>)

  /** Python's truth value of a string that may be None. */
  predicate Truthy(s: Option<string>) {
    s.Some? && s.value != ""
  }

  // ---------------------------------------------------------------------
  // remote_to_id / id_to_remote

  /** ' '.join(parts). */
  function Join(parts: seq<string>): string {
    if parts == [] then ""
    else if |parts| == 1 then parts[0]
    else parts[0] + " " + Join(parts[1..])
  }

  /** The fields remote_to_id joins: sync and directory, then the remote
      when it is set, then the refs when they are set too. */
  function IdFields(r: Remote): (parts: seq<string>)
    requires !Truthy(r.remote) ==> r.refs.None?
  {
    [r.sync, r.directory]
      + (if Truthy(r.remote) then [r.remote.value] + (if Truthy(r.refs) then [r.refs.value] else []) else [])
  }

  /** remote_to_id; the assert that refs go with a remote is a precondition. */
  function RemoteToId(r: Remote): string
    requires !Truthy(r.remote) ==> r.refs.None?
  {
    Join(IdFields(r))
  }

  /** The index of the first space. */
  function FirstSpace(s: string): (i: nat)
    requires ' ' in s
    ensures i < |s| && s[i] == ' ' && ' ' !in s[..i]
  {
    if s[0] == ' ' then 0
    else
      assert ' ' in s[1..] by { var k :| 0 <= k < |s| && s[k] == ' '; assert s[1..][k - 1] == ' '; }
      var j := FirstSpace(s[1..]);
      assert s[..j + 1] == [s[0]] + s[1..][..j];
      j + 1
  }

  /** s.split(" ", n): at most n splits at single spaces, the rest of the
      string kept whole in the last part. */
  function SplitN(s: string, n: nat): (parts: seq<string>)
    ensures 1 <= |parts| <= n + 1
    ensures |parts| == 1 <==> n == 0 || ' ' !in s
  {
    if n == 0 || ' ' !in s then [s]
    else
      var i := FirstSpace(s);
      [s[..i]] + SplitN(s[i + 1..], n - 1)
  }

  /** id_to_remote: the first three spaces separate sync, directory, remote
      and refs, missing fields are None and the freshness is unknown.  An
      id without a space leaves too few values for the four names, which
      Python reports as a ValueError (None here). */
  function IdToRemote(id: string): (r: Option<Remote>)
    ensures r.None? <==> ' ' !in id
    ensures r.Some? ==> r.value.freshness.None?
  {
    var parts := SplitN(id, 3);
    if |parts| < 2 then None
    else Some(Remote(parts[0], parts[1], if |parts| > 2 then Some(parts[2]) else None,
                     if |parts| > 3 then Some(parts[3]) else None, None))
  }

  predicate NoSpace(s: string) {
    ' ' !in s
  }

  /** The remotes remote_to_id is meant for: no space in sync, directory or
      remote, remote and refs either None or non-empty, and refs only with
      a remote. */
  predicate Encodable(r: Remote) {
    && NoSpace(r.sync) && NoSpace(r.directory)
    && (r.remote.None? || (r.remote.value != "" && NoSpace(r.remote.value)))
    && (r.refs.None? || r.refs.value != "")
    && (r.remote.None? ==> r.refs.None?)
  }

  lemma JoinFirst(x: string, xs: seq<string>)
    requires xs != []
    ensures Join([x] + xs) == x + " " + Join(xs)
  {
    assert ([x] + xs)[1..] == xs;
  }

  lemma SplitFirst(a: string, rest: string, n: nat)
    requires NoSpace(a) && n > 0
    ensures SplitN(a + " " + rest, n) == [a] + SplitN(rest, n - 1)
  {
    var s := a + " " + rest;
    assert s[|a|] == ' ';
    assert s[..|a|] == a;
    var i := FirstSpace(s);
    assert forall k :: 0 <= k < |a| ==> s[k] == a[k];
    assert forall k :: 0 <= k < i ==> s[..i][k] == s[k];
    assert i == |a|;
    assert s[|a| + 1..] == rest;
  }

  /** The identifier of an encodable remote reads back as the remote, less
      its freshness; the refs may contain spaces, as they come last. */
  lemma RemoteIdRoundTrip(r: Remote)
    requires Encodable(r)
    ensures IdToRemote(RemoteToId(r)) == Some(r.(freshness := None))
  {
    if r.remote.None? {
      JoinFirst(r.sync, [r.directory]);
      assert IdFields(r) == [r.sync] + [r.directory];
      SplitFirst(r.sync, r.directory, 3);
    } else if r.refs.None? {
      assert IdFields(r) == [r.sync] + ([r.directory] + [r.remote.value]);
      JoinFirst(r.sync, [r.directory] + [r.remote.value]);
      JoinFirst(r.directory, [r.remote.value]);
      SplitFirst(r.sync, r.directory + " " + r.remote.value, 3);
      SplitFirst(r.directory, r.remote.value, 2);
    } else {
      var tail := r.remote.value + " " + r.refs.value;
      assert IdFields(r) == [r.sync] + ([r.directory] + ([r.remote.value] + [r.refs.value]));
      JoinFirst(r.sync, [r.directory] + ([r.remote.value] + [r.refs.value]));
      JoinFirst(r.directory, [r.remote.value] + [r.refs.value]);
      JoinFirst(r.remote.value, [r.refs.value]);
      SplitFirst(r.sync, r.directory + " " + tail, 3);
      SplitFirst(r.directory, tail, 2);
      SplitFirst(r.remote.value, r.refs.value, 1);
    }
  }

  // ---------------------------------------------------------------------
  // transfer / poll

  /** What transfer finds in the repository's directory. */
  datatype Repository = Git | Mercurial | Unsupported

  /** A running fetch or push: its command line and its remote. */
  datatype Transferer = Transferer(commandLine: seq<string>, remote: Remote)

  predicate ValidSync(r: Remote) {
    r.sync == "push" || r.sync == "pull"
  }

  /** The command transfer runs: git push or fetch, or hg push or pull,
      with the remote and the refs when they are not None. */
  function CommandLine(r: Remote, kind: Repository): (args: seq<string>)
    requires ValidSync(r) && kind != Unsupported
    ensures |args| >= 3 && args[..2] == ["/usr/bin/env", if kind == Git then "git" else "hg"]
    ensures r.remote.Some? ==> r.remote.value in args
    ensures r.refs.Some? ==> r.refs.value in args
  {
    if kind == Git then
      ["/usr/bin/env", "git", if r.sync == "push" then "push" else "fetch"]
        + (if r.remote.Some? then [r.remote.value] else [])
        + (if r.refs.Some? then [r.refs.value] else [])
    else
      ["/usr/bin/env", "hg", r.sync]
        + (if r.refs.Some? then ["-r", r.refs.value] else [])
        + (if r.remote.Some? then [r.remote.value] else [])
  }

  /** The module's transfer state: running transferers, the FIFO of waiting
      remotes, finished transferers that failed, and the flag that makes
      the program exit with status 1. */
  datatype Transfers = Transfers(running: seq<Transferer>, queued: seq<Remote>,
                                 failed: seq<Transferer>, someFailed: bool)

  /** idle(). */
  predicate Idle(t: Transfers) {
    t.running == [] && t.queued == []
  }

  /** transfer as written: at the limit the remote is queued; otherwise a
      supported repository starts running, and an unsupported one only
      assigns the flag to a local name, which leaves the module's flag as
      it was. */
  function TransferredAsWritten(t: Transfers, r: Remote, kind: Repository, limit: nat): (u: Transfers)
    requires |t.running| < limit ==> ValidSync(r)
    ensures kind == Unsupported && |t.running| < limit ==> u == t
  {
    if |t.running| >= limit then t.(queued := t.queued + [r])
    else if kind == Unsupported then t
    else t.(running := t.running + [Transferer(CommandLine(r, kind), r)])
  }

  /** transfer with the module's flag declared global: an unsupported
      repository counts as a failed transfer. */
  function Transferred(t: Transfers, r: Remote, kind: Repository, limit: nat): (u: Transfers)
    requires |t.running| < limit ==> ValidSync(r)
    ensures |t.running| >= limit ==> u == t.(queued := t.queued + [r])
    ensures |t.running| < limit && kind == Unsupported ==> u == t.(someFailed := true)
    ensures |t.running| < limit && kind != Unsupported ==>
      u == t.(running := t.running + [Transferer(CommandLine(r, kind), r)])
  {
    var u := TransferredAsWritten(t, r, kind, limit);
    if |t.running| < limit && kind == Unsupported then u.(someFailed := true) else u
  }

  /** The transferers whose process has not exited (poll() gave None). */
  function Unfinished(ts: seq<Transferer>, codes: seq<Option<int>>): (us: seq<Transferer>)
    requires |codes| == |ts|
    ensures |us| <= |ts|
  {
    if ts == [] then []
    else (Unfinished(ts[..|ts| - 1], codes[..|ts| - 1])
          + (if codes[|ts| - 1].None? then [ts[|ts| - 1]] else []))
  }

  /** The transferers whose process exited with a non-zero status. */
  function Failed(ts: seq<Transferer>, codes: seq<Option<int>>): (fs: seq<Transferer>)
    requires |codes| == |ts|
  {
    if ts == [] then []
    else (Failed(ts[..|ts| - 1], codes[..|ts| - 1])
          + (if codes[|ts| - 1].Some? && codes[|ts| - 1] != Some(0) then [ts[|ts| - 1]] else []))
  }

  /** The unfinished transferers are among the running ones; a failure is
      recorded exactly when some process exited with a non-zero status. */
  lemma {:induction false} SweepFacts(ts: seq<Transferer>, codes: seq<Option<int>>)
    requires |codes| == |ts|
    ensures forall x :: x in Unfinished(ts, codes) ==> x in ts
    ensures Failed(ts, codes) == [] <==> forall i :: 0 <= i < |ts| ==> codes[i].None? || codes[i] == Some(0)
  {
    UnfinishedAmong(ts, codes);
    FailedIff(ts, codes);
  }

  lemma {:induction false} UnfinishedAmong(ts: seq<Transferer>, codes: seq<Option<int>>)
    requires |codes| == |ts|
    ensures forall x :: x in Unfinished(ts, codes) ==> x in ts
  {
    if ts != [] {
      var n := |ts| - 1;
      UnfinishedAmong(ts[..n], codes[..n]);
      assert forall x :: x in ts[..n] ==> x in ts;
    }
  }

  lemma {:induction false} FailedIff(ts: seq<Transferer>, codes: seq<Option<int>>)
    requires |codes| == |ts|
    ensures Failed(ts, codes) == [] <==> forall i :: 0 <= i < |ts| ==> codes[i].None? || codes[i] == Some(0)
  {
    if ts != [] {
      var n := |ts| - 1;
      FailedIff(ts[..n], codes[..n]);
      assert forall i :: 0 <= i < n ==> codes[..n][i] == codes[i];
    }
  }

  /** The sweep over the running transferers at the start of poll: the
      unfinished ones keep running and the failed ones are recorded. */
  function Swept(t: Transfers, codes: seq<Option<int>>): Transfers
    requires |codes| == |t.running|
  {
    var fs := Failed(t.running, codes);
    Transfers(Unfinished(t.running, codes), t.queued, t.failed + fs, t.someFailed || fs != [])
  }

  /** poll: drop the finished transferers, remembering the failed ones;
      below the limit start the head of the queue; once idle, forget the
      failures (after mailing them) and stop polling.  codes holds what
      process.poll() returns for each running transferer and kind what
      the started remote's directory holds.  The result says whether the
      timer stays armed. */
  function Polled(t: Transfers, codes: seq<Option<int>>, kind: Repository, limit: nat): (r: (Transfers, bool))
    requires |codes| == |t.running|
    requires t.queued != [] ==> ValidSync(t.queued[0])
    ensures r.1 <==> !Idle(r.0)
  {
    var u := Swept(t, codes);
    var v := if |u.running| < limit && u.queued != [] then Transferred(u.(queued := u.queued[1..]), u.queued[0], kind, limit)
             else u;
    if Idle(v) then (v.(failed := []), false) else (v, true)
  }

  /** No more than limit transfers ever run at once. */
  lemma TransferBounded(t: Transfers, r: Remote, kind: Repository, limit: nat)
    requires |t.running| <= limit && (|t.running| < limit ==> ValidSync(r))
    ensures |Transferred(t, r, kind, limit).running| <= limit
    ensures |TransferredAsWritten(t, r, kind, limit).running| <= limit
  {
  }

  /** Polling keeps within the limit, starts only the head of the queue and
      only when a place is free, and a failure once seen stays recorded. */
  lemma PollBounded(t: Transfers, codes: seq<Option<int>>, kind: Repository, limit: nat)
    requires |codes| == |t.running| && |t.running| <= limit
    requires t.queued != [] ==> ValidSync(t.queued[0])
    ensures var (u, _) := Polled(t, codes, kind, limit);
      && |u.running| <= limit
      && (u.queued == t.queued || (t.queued != [] && u.queued == t.queued[1..]))
      && (forall x :: x in u.running ==> x in t.running || (t.queued != [] && x.remote == t.queued[0]))
      && (t.someFailed ==> u.someFailed)
      && ((exists i :: 0 <= i < |codes| && codes[i].Some? && codes[i] != Some(0)) ==> u.someFailed)
  {
    SweepFacts(t.running, codes);
  }

  /** The flag as written misses a repository vcssync cannot handle: the
      run still ends with exit status 0. */
  lemma UnsupportedUnflaggedAsWritten()
    ensures var r := Remote("pull", "~/notes", None, None, Some(24));
      var t := Transfers([], [], [], false);
      && !TransferredAsWritten(t, r, Unsupported, 3).someFailed
      && Transferred(t, r, Unsupported, 3).someFailed
  {
  }

  /** The module-level lists and flag of clients/vcssync.py:219-224, with
      parallel_transfers fixed at construction. */
  class Daemon {
    var transferers: seq<Transferer>
    var transferersQueued: seq<Remote>
    var transferersFailed: seq<Transferer>
    var someTransferFailed: bool
    const parallelTransfers: nat

    function State(): Transfers
      reads this
    {
      Transfers(transferers, transferersQueued, transferersFailed, someTransferFailed)
    }

    constructor (parallel: nat)
      ensures State() == Transfers([], [], [], false) && parallelTransfers == parallel
    {
      transferers := [];
      transferersQueued := [];
      transferersFailed := [];
      someTransferFailed := false;
      parallelTransfers := parallel;
    }

    /** transfer (with the flag set on an unsupported repository). */
    method Transfer(remote: Remote, kind: Repository)
      requires |transferers| < parallelTransfers ==> ValidSync(remote)
      modifies this
      ensures State() == Transferred(old(State()), remote, kind, parallelTransfers)
    {
      if |transferers| >= parallelTransfers {
        transferersQueued := transferersQueued + [remote];
        return;
      }
      if kind == Unsupported {
        someTransferFailed := true;
        return;
      }
      transferers := transferers + [Transferer(CommandLine(remote, kind), remote)];
    }

    /** poll: the loop over the running transferers, then the start of the
        queue's head and the idle check. */
    method Poll(codes: seq<Option<int>>, kind: Repository) returns (again: bool)
      requires |codes| == |transferers|
      requires transferersQueued != [] ==> ValidSync(transferersQueued[0])
      modifies this
      ensures (State(), again) == Polled(old(State()), codes, kind, parallelTransfers)
    {
      Sweep(codes);
      if |transferers| < parallelTransfers && transferersQueued != [] {
        var head := transferersQueued[0];
        transferersQueued := transferersQueued[1..];
        Transfer(head, kind);
      }
      if transferers == [] && transferersQueued == [] {
        transferersFailed := [];
        again := false;
      } else {
        again := true;
      }
    }

    /** The loop of poll over the running transferers. */
    method Sweep(codes: seq<Option<int>>)
      requires |codes| == |transferers|
      modifies this
      ensures State() == Swept(old(State()), codes)
    {
      var notFinished: seq<Transferer> := [];
      var i := 0;
      while i < |transferers|
        invariant i <= |transferers| && transferers == old(transferers)
        invariant notFinished == Unfinished(transferers[..i], codes[..i])
        invariant transferersFailed == old(transferersFailed) + Failed(transferers[..i], codes[..i])
        invariant someTransferFailed == (old(someTransferFailed) || Failed(transferers[..i], codes[..i]) != [])
        invariant transferersQueued == old(transferersQueued)
      {
        assert transferers[..i + 1][..i] == transferers[..i];
        assert codes[..i + 1][..i] == codes[..i];
        if codes[i].Some? {
          if codes[i] != Some(0) {
            transferersFailed := transferersFailed + [transferers[i]];
            someTransferFailed := true;
          }
        } else {
          notFinished := notFinished + [transferers[i]];
        }
        i := i + 1;
      }
      assert transferers[..i] == transferers && codes[..i] == codes;
      transferers := notFinished;
    }
  }

  // ---------------------------------------------------------------------
  // load_config

  predicate IsSpace(c: char) {
    c == ' ' || c == '\t' || c == '\n' || c == '\r' || c as int == 11 || c as int == 12
  }

  /** The index of the first character str.strip() keeps. */
  function Lead(s: string): (i: nat)
    ensures i <= |s| && (forall k :: 0 <= k < i ==> IsSpace(s[k])) && (i < |s| ==> !IsSpace(s[i]))
  {
    if s == [] || !IsSpace(s[0]) then 0 else 1 + Lead(s[1..])
  }

  /** One past the last character str.strip() keeps. */
  function Trail(s: string): (j: nat)
    ensures j <= |s| && (forall k :: j <= k < |s| ==> IsSpace(s[k])) && (j > 0 ==> !IsSpace(s[j - 1]))
  {
    if s == [] || !IsSpace(s[|s| - 1]) then |s| else Trail(s[..|s| - 1])
  }

  /** str.strip(). */
  function Strip(s: string): (t: string)
    ensures |t| == 0 || (!IsSpace(t[0]) && !IsSpace(t[|t| - 1]))
  {
    if Lead(s) < Trail(s) then s[Lead(s)..Trail(s)] else []
  }

  /** What load_config keeps of a line: a comment (its stripped text starts
      with //) becomes an empty line, any other line its stripped text. */
  function ConfigLine(line: string): (out: string)
    ensures |out| > 0 && out[|out| - 1] == '\n'
  {
    var l := Strip(line);
    if |l| >= 2 && l[..2] == "//" then "\n" else l + "\n"
  }

  /** The text handed to the JSON parser. */
  function ConfigText(lines: seq<string>): string {
    if lines == [] then "" else ConfigText(lines[..|lines| - 1]) + ConfigLine(lines[|lines| - 1])
  }

  function Newlines(s: string): nat {
    if s == [] then 0 else Newlines(s[..|s| - 1]) + (if s[|s| - 1] == '\n' then 1 else 0)
  }

  lemma NewlinesAppend(a: string, b: string)
    ensures Newlines(a + b) == Newlines(a) + Newlines(b)
    decreases |b|
  {
    if b != [] {
      assert (a + b)[..|a + b| - 1] == a + b[..|b| - 1];
      NewlinesAppend(a, b[..|b| - 1]);
    } else {
      assert a + b == a;
    }
  }

  lemma NoNewlines(s: string)
    requires forall k :: 0 <= k < |s| ==> s[k] != '\n'
    ensures Newlines(s) == 0
  {
    if s != [] {
      NoNewlines(s[..|s| - 1]);
    }
  }

  /** A line of the file carries its newline, if any, at its end. */
  predicate FileLine(line: string) {
    forall k :: 0 <= k < |line| - 1 ==> line[k] != '\n'
  }

  /** Each line gives exactly one line of the text, so the parser's line
      numbers are the file's. */
  lemma {:induction false} ConfigTextKeepsLines(lines: seq<string>)
    requires forall i :: 0 <= i < |lines| ==> FileLine(lines[i])
    ensures Newlines(ConfigText(lines)) == |lines|
  {
    if lines != [] {
      var init := lines[..|lines| - 1];
      ConfigTextKeepsLines(init);
      var line := lines[|lines| - 1];
      ConfigLineKeepsLine(line);
      NewlinesAppend(ConfigText(init), ConfigLine(line));
    }
  }

  /** One line of the file gives exactly one line of the text. */
  lemma ConfigLineKeepsLine(line: string)
    requires FileLine(line)
    ensures Newlines(ConfigLine(line)) == 1
  {
    var l := Strip(line);
    forall k | 0 <= k < |l|
      ensures l[k] != '\n'
    {
      assert l[k] == line[Lead(line) + k];
    }
    NoNewlines(l);
    if !(|l| >= 2 && l[..2] == "//") {
      NewlinesAppend(l, "\n");
    }
  }

  /** One element of a repository's array: a dictionary with the keys it
      has, or something else (on which .get raises AttributeError). */
  datatype Stanza = Dict(remote: Option<string>, sync: Option<string>, refs: Option<string>, freshness: Option<int>)
                  | NotADict

  /** The outcome of reading the parsed configuration: the remotes, or the
      exit because a stanza was not a dictionary, or the exit because there
      were no repositories. */
  datatype Loaded = Remotes(remotes: seq<Remote>) | BadStanza | NoRepositories

  /** The remote of one stanza: sync defaults to pull and freshness to the
      default; an unsupported sync is only reported, and the remote is
      kept. */
  function RemoteOf(directory: string, s: Stanza, defaultFreshness: int): (r: Remote)
    requires s.Dict?
    ensures r.sync == s.sync.GetOr("pull") && r.freshness == Some(s.freshness.GetOr(defaultFreshness))
    ensures r.directory == directory && r.remote == s.remote && r.refs == s.refs
  {
    Remote(s.sync.GetOr("pull"), directory, s.remote, s.refs, Some(s.freshness.GetOr(defaultFreshness)))
  }

  function AllDicts(config: seq<(string, seq<Stanza>)>): bool {
    forall i, j :: 0 <= i < |config| && 0 <= j < |config[i].1| ==> config[i].1[j].Dict?
  }

  function RemotesOf(config: seq<(string, seq<Stanza>)>, defaultFreshness: int): seq<Remote>
    requires AllDicts(config)
  {
    if config == [] then []
    else
      var (dir, stanzas) := config[|config| - 1];
      assert forall j :: 0 <= j < |stanzas| ==> stanzas[j].Dict?;
      RemotesOf(config[..|config| - 1], defaultFreshness) + StanzaRemotes(dir, stanzas, defaultFreshness)
  }

  /** The remotes of one repository's stanzas, in order. */
  function StanzaRemotes(dir: string, stanzas: seq<Stanza>, defaultFreshness: int): (rs: seq<Remote>)
    requires forall j :: 0 <= j < |stanzas| ==> stanzas[j].Dict?
    ensures |rs| == |stanzas|
    ensures forall j :: 0 <= j < |stanzas| ==> rs[j] == RemoteOf(dir, stanzas[j], defaultFreshness)
  {
    if stanzas == [] then []
    else StanzaRemotes(dir, stanzas[..|stanzas| - 1], defaultFreshness) + [RemoteOf(dir, stanzas[|stanzas| - 1], defaultFreshness)]
  }

  /** load_config after parsing: config lists the repositories in the order
      the dictionary iterates them. */
  function LoadConfig(config: seq<(string, seq<Stanza>)>, defaultFreshness: int): (l: Loaded)
    ensures l == BadStanza <==> !AllDicts(config)
    ensures l.Remotes? ==> l.remotes != []
  {
    if !AllDicts(config) then BadStanza
    else if RemotesOf(config, defaultFreshness) == [] then NoRepositories
    else Remotes(RemotesOf(config, defaultFreshness))
  }

  /** Every stanza becomes one remote of its repository, with the defaults
      filled in. */
  lemma {:induction false} RemotesOfStanzas(config: seq<(string, seq<Stanza>)>, defaultFreshness: int, i: nat, j: nat)
    requires AllDicts(config) && i < |config| && j < |config[i].1|
    ensures RemoteOf(config[i].0, config[i].1[j], defaultFreshness) in RemotesOf(config, defaultFreshness)
  {
    var init := config[..|config| - 1];
    if i < |config| - 1 {
      assert init[i] == config[i];
      RemotesOfStanzas(init, defaultFreshness, i, j);
    } else {
      var (dir, stanzas) := config[|config| - 1];
      assert forall k :: 0 <= k < |stanzas| ==> stanzas[k].Dict?;
      assert StanzaRemotes(dir, stanzas, defaultFreshness)[j] == RemoteOf(config[i].0, config[i].1[j], defaultFreshness);
    }
  }
}
