/** The package-cache file names and the job queue of the apt-woodchuck
    client (clients/apt-woodchuck.py).  Strings there are Python 2 byte
    strings, so characters are bytes. */
module AptWoodchuck {
  import opened Wrappers
  import opened Seqs

  type Byte = c: char | c as int < 256

  const APT_CACHE_DIRECTORY: seq<Byte> := "/var/cache/apt/archives"

  // ---------------------------------------------------------------------
  // escape

  /** curses.ascii.isprint. */
  predicate IsPrint(c: Byte) {
    0x20 <= c as int <= 0x7E
  }

  /** The characters escape replaces by "%xx". */
  predicate Bad(c: Byte, moreBad: seq<Byte>) {
    c in "_:%" + moreBad || !IsPrint(c) || c as int <= 0x20 || c as int >= 0x7F
  }

  predicate AnyBad(s: seq<Byte>, moreBad: seq<Byte>) {
    exists k :: 0 <= k < |s| && Bad(s[k], moreBad)
  }

  /** A lower-case hexadecimal digit, as "%02x" writes it. */
  function HexDigit(n: nat): (c: Byte)
    requires n < 16
    ensures IsHexDigit(c) && c != '%'
  {
    if n < 10 then ('0' as int + n) as char else ('a' as int + n - 10) as char
  }

  predicate IsHexDigit(c: Byte) {
    '0' <= c <= '9' || 'a' <= c <= 'f'
  }

  function HexValue(c: Byte): (n: nat)
    ensures n < 16
  {
    if '0' <= c <= '9' then c as int - '0' as int
    else if 'a' <= c <= 'f' then c as int - 'a' as int + 10
    else 0
  }

  /** What escape appends for one character. */
  function Piece(c: Byte, moreBad: seq<Byte>): seq<Byte> {
    if Bad(c, moreBad) then ['%', HexDigit(c as int / 16), HexDigit(c as int % 16)] else [c]
  }

  /** ''.join(escaped) once every character has been looked at. */
  function Pieces(s: seq<Byte>, moreBad: seq<Byte>): seq<Byte> {
    if s == [] then [] else Pieces(s[..|s| - 1], moreBad) + Piece(s[|s| - 1], moreBad)
  }

  /** escape: the input itself when no character needed escaping, the
      joined pieces otherwise. */
  function Escaped(s: seq<Byte>, moreBad: seq<Byte>): seq<Byte> {
    if AnyBad(s, moreBad) then Pieces(s, moreBad) else s
  }

  /** The loop of escape, with its have_one flag and its list of pieces. */
  method Escape(s: seq<Byte>, moreBad: seq<Byte>) returns (r: seq<Byte>)
    ensures r == Pieces(s, moreBad)
    ensures !AnyBad(s, moreBad) ==> r == s
  {
    var escaped: seq<seq<Byte>> := [];
    var haveOne := false;
    var i := 0;
    while i < |s|
      invariant i <= |s|
      invariant Concat(escaped) == Pieces(s[..i], moreBad)
      invariant haveOne <==> AnyBad(s[..i], moreBad)
    {
      var c := s[i];
      var piece: seq<Byte>;
      if Bad(c, moreBad) {
        haveOne := true;
        piece := ['%', HexDigit(c as int / 16), HexDigit(c as int % 16)];
      } else {
        piece := [c];
      }
      EscapeStep(escaped, s, i, moreBad);
      escaped := escaped + [piece];
      i := i + 1;
    }
    TakeAll(s);
    if !haveOne {
      PiecesUnescaped(s, moreBad);
      return s;
    }
    return Concat(escaped);
  }

  /** One more character's piece extends the escaped text by that piece. */
  lemma EscapeStep(escaped: seq<seq<Byte>>, s: seq<Byte>, i: nat, moreBad: seq<Byte>)
    requires i < |s| && Concat(escaped) == Pieces(s[..i], moreBad)
    ensures Concat(escaped + [Piece(s[i], moreBad)]) == Pieces(s[..i + 1], moreBad)
    ensures AnyBad(s[..i + 1], moreBad) <==> AnyBad(s[..i], moreBad) || Bad(s[i], moreBad)
  {
    assert s[..i + 1][..i] == s[..i];
    assert s[..i + 1] == s[..i] + [s[i]];
    var e := escaped + [Piece(s[i], moreBad)];
    assert e[..|e| - 1] == escaped;
    AnyBadSnoc(s[..i], s[i], moreBad);
  }

  lemma AnyBadSnoc(t: seq<Byte>, c: Byte, moreBad: seq<Byte>)
    ensures AnyBad(t + [c], moreBad) <==> AnyBad(t, moreBad) || Bad(c, moreBad)
  {
    var u := t + [c];
    assert forall k :: 0 <= k < |t| ==> u[k] == t[k];
    assert u[|t|] == c;
  }

  function Concat(pieces: seq<seq<Byte>>): seq<Byte> {
    if pieces == [] then [] else Concat(pieces[..|pieces| - 1]) + pieces[|pieces| - 1]
  }

  /** With nothing to escape the pieces spell the input, so both branches of
      escape agree. */
  lemma {:induction false} PiecesUnescaped(s: seq<Byte>, moreBad: seq<Byte>)
    requires !AnyBad(s, moreBad)
    ensures Pieces(s, moreBad) == s
  {
    if s != [] {
      var n := |s| - 1;
      assert !Bad(s[n], moreBad);
      assert !AnyBad(s[..n], moreBad) by {
        forall k | 0 <= k < n
          ensures !Bad(s[..n][k], moreBad)
        {
          assert s[..n][k] == s[k];
        }
      }
      PiecesUnescaped(s[..n], moreBad);
      assert s[..n] + [s[n]] == s;
    }
  }

  lemma EscapedIsPieces(s: seq<Byte>, moreBad: seq<Byte>)
    ensures Escaped(s, moreBad) == Pieces(s, moreBad)
  {
    if !AnyBad(s, moreBad) {
      PiecesUnescaped(s, moreBad);
    }
  }

  /** The inverse of escape: "%xy" gives the byte 0xxy, any other character
      itself. */
  function Unescape(t: seq<Byte>): seq<Byte>
    decreases |t|
  {
    if t == [] then []
    else if |t| >= 3 && t[|t| - 3] == '%' then
      Unescape(t[..|t| - 3]) + [(HexValue(t[|t| - 2]) * 16 + HexValue(t[|t| - 1])) as char]
    else Unescape(t[..|t| - 1]) + [t[|t| - 1]]
  }

  /** Every '%' in t starts a three-character escape. */
  predicate PercentStartsEscape(t: seq<Byte>) {
    forall k :: 0 <= k < |t| && t[k] == '%' ==> EscapeAt(t, k)
  }

  /** Two hexadecimal digits follow position k. */
  predicate EscapeAt(t: seq<Byte>, k: nat) {
    k + 2 < |t| && IsHexDigit(t[k + 1]) && IsHexDigit(t[k + 2])
  }

  lemma HexPair(c: Byte)
    ensures (HexValue(HexDigit(c as int / 16)) * 16 + HexValue(HexDigit(c as int % 16))) as char == c
  {
  }

  /** '%' in escaped text only ever starts an escape. */
  lemma {:induction false} PiecesPercent(s: seq<Byte>, moreBad: seq<Byte>)
    ensures PercentStartsEscape(Pieces(s, moreBad))
  {
    if s != [] {
      var n := |s| - 1;
      PiecesPercent(s[..n], moreBad);
      var p := Pieces(s[..n], moreBad);
      var t := p + Piece(s[n], moreBad);
      forall k | 0 <= k < |t| && t[k] == '%'
        ensures EscapeAt(t, k)
      {
        if k < |p| {
          assert p[k] == '%' && EscapeAt(p, k);
        }
      }
    }
  }

  /** Unescaping what escape produced gives back the input. */
  lemma {:induction false} UnescapePieces(s: seq<Byte>, moreBad: seq<Byte>)
    ensures Unescape(Pieces(s, moreBad)) == s
  {
    if s != [] {
      var n := |s| - 1;
      UnescapePieces(s[..n], moreBad);
      UnescapePiecesLast(s, moreBad);
    }
  }

  lemma UnescapePiecesLast(s: seq<Byte>, moreBad: seq<Byte>)
    requires s != [] && Unescape(Pieces(s[..|s| - 1], moreBad)) == s[..|s| - 1]
    ensures Unescape(Pieces(s, moreBad)) == s
  {
    var n := |s| - 1;
    var p := Pieces(s[..n], moreBad);
    assert Pieces(s, moreBad) == p + Piece(s[n], moreBad);
    PiecesPercent(s[..n], moreBad);
    UnescapeStep(p, s[n], moreBad);
    InitLast(s);
  }



  /** Unescaping one more piece gives one more character. */
  lemma UnescapeStep(p: seq<Byte>, c: Byte, moreBad: seq<Byte>)
    requires PercentStartsEscape(p)
    ensures Unescape(p + Piece(c, moreBad)) == Unescape(p) + [c]
  {
    if Bad(c, moreBad) {
      UnescapeLastEscape(p, HexDigit(c as int / 16), HexDigit(c as int % 16));
      HexPair(c);
    } else {
      assert |p| >= 2 ==> p[|p| - 2] != '%';
      UnescapeLastPlain(p, c);
    }
  }

  lemma UnescapeLastEscape(p: seq<Byte>, x: Byte, y: Byte)
    ensures Unescape(p + ['%', x, y]) == Unescape(p) + [(HexValue(x) * 16 + HexValue(y)) as char]
  {
    var t := p + ['%', x, y];
    assert t[..|t| - 3] == p;
  }

  lemma UnescapeLastPlain(p: seq<Byte>, c: Byte)
    requires |p| >= 2 ==> p[|p| - 2] != '%'
    ensures Unescape(p + [c]) == Unescape(p) + [c]
  {
    var t := p + [c];
    assert t[..|t| - 1] == p;
  }

  /** escape is injective: distinct names give distinct file names. */
  lemma EscapeInjective(s1: seq<Byte>, s2: seq<Byte>, moreBad: seq<Byte>)
    requires Escaped(s1, moreBad) == Escaped(s2, moreBad)
    ensures s1 == s2
  {
    EscapedIsPieces(s1, moreBad);
    EscapedIsPieces(s2, moreBad);
    UnescapePieces(s1, moreBad);
    UnescapePieces(s2, moreBad);
  }

  /** Escaped text holds none of the characters escape replaces, apart from
      '%' and the hexadecimal digits an escape is made of. */
  lemma {:induction false} PiecesAvoid(s: seq<Byte>, moreBad: seq<Byte>, c: Byte)
    requires Bad(c, moreBad) && c != '%' && !IsHexDigit(c)
    ensures c !in Pieces(s, moreBad)
  {
    if s != [] {
      PiecesAvoid(s[..|s| - 1], moreBad, c);
    }
  }

  lemma EscapedAvoids(s: seq<Byte>, moreBad: seq<Byte>, c: Byte)
    requires Bad(c, moreBad) && c != '%' && !IsHexDigit(c)
    ensures c !in Escaped(s, moreBad)
  {
    EscapedIsPieces(s, moreBad);
    PiecesAvoid(s, moreBad, c);
  }

  // ---------------------------------------------------------------------
  // apt_cache_filename

  /** os.path.join for two components. */
  function PathJoin(dir: seq<Byte>, name: seq<Byte>): (p: seq<Byte>)
    ensures |name| > 0 && name[0] == '/' ==> p == name
  {
    if |name| > 0 && name[0] == '/' then name
    else if dir == [] || dir[|dir| - 1] == '/' then dir + name
    else dir + "/" + name
  }

  function CacheBase(name: seq<Byte>, version: seq<Byte>, arch: seq<Byte>): seq<Byte> {
    Escaped(name, "") + "_" + Escaped(version, "") + "_" + Escaped(arch, ".") + ".deb"
  }

  /** apt_cache_filename: the archive file apt saves a version of a package
      under. */
  function CacheFilename(name: seq<Byte>, version: seq<Byte>, arch: seq<Byte>): (f: seq<Byte>)
    ensures name == [] || name[0] != '/' ==> f == APT_CACHE_DIRECTORY + "/" + CacheBase(name, version, arch)
  {
    var base := CacheBase(name, version, arch);
    assert name == [] || name[0] != '/' ==> base[0] != '/' by {
      if name == [] {
        assert Escaped(name, "") == [];
      } else if name[0] != '/' {
        EscapedIsPieces(name, "");
        PiecesFirst(name, "");
        assert base[0] == Escaped(name, "")[0];
      }
    }
    PathJoin(APT_CACHE_DIRECTORY, base)
  }

  lemma {:induction false} PiecesFirst(s: seq<Byte>, moreBad: seq<Byte>)
    requires s != []
    ensures Pieces(s, moreBad) != [] && Pieces(s, moreBad)[0] == Piece(s[0], moreBad)[0]
  {
    if |s| > 1 {
      PiecesFirst(s[..|s| - 1], moreBad);
    } else {
      assert s[..0] == [];
    }
  }

  /** str.split with a one-character separator. */
  function Split(t: seq<Byte>, sep: Byte): (parts: seq<seq<Byte>>)
    ensures |parts| > 0
  {
    if t == [] then [[]]
    else
      var parts := Split(t[..|t| - 1], sep);
      if t[|t| - 1] == sep then parts + [[]]
      else parts[..|parts| - 1] + [parts[|parts| - 1] + [t[|t| - 1]]]
  }

  lemma {:induction false} SplitNone(t: seq<Byte>, sep: Byte)
    requires sep !in t
    ensures Split(t, sep) == [t]
  {
    if t != [] {
      SplitNone(t[..|t| - 1], sep);
      assert t[..|t| - 1] + [t[|t| - 1]] == t;
    }
  }

  lemma SplitSnoc(t: seq<Byte>, c: Byte, sep: Byte)
    ensures var ps := Split(t, sep);
      Split(t + [c], sep) == if c == sep then ps + [[]] else ps[..|ps| - 1] + [ps[|ps| - 1] + [c]]
  {
    assert (t + [c])[..|t|] == t;
  }

  lemma {:induction false} SplitJoin(a: seq<Byte>, b: seq<Byte>, sep: Byte)
    ensures Split(a + [sep] + b, sep) == Split(a, sep) + Split(b, sep)
    decreases |b|
  {
    if b == [] {
      SplitSnoc(a, sep, sep);
      assert a + [sep] + b == a + [sep];
    } else {
      var n := |b| - 1;
      var c, b' := b[n], b[..n];
      var p := a + [sep] + b';
      assert p + [c] == a + [sep] + b;
      assert b' + [c] == b;
      SplitJoin(a, b', sep);
      SplitSnoc(p, c, sep);
      SplitSnoc(b', c, sep);
      var x, y := Split(a, sep), Split(b', sep);
      if c == sep {
        assert (x + y) + [[]] == x + (y + [[]]);
      } else {
        ExtendLast(x, y, c);
      }
    }
  }

  /** Extending the last part of x + y extends the last part of y. */
  lemma ExtendLast(x: seq<seq<Byte>>, y: seq<seq<Byte>>, c: Byte)
    requires y != []
    ensures var l := x + y;
      l[..|l| - 1] + [l[|l| - 1] + [c]] == x + (y[..|y| - 1] + [y[|y| - 1] + [c]])
  {
    var l := x + y;
    assert l[..|l| - 1] == x + y[..|y| - 1];
  }

  /** The file name's base splits at '_' into the three escaped fields. */
  lemma CacheBaseSplit(name: seq<Byte>, version: seq<Byte>, arch: seq<Byte>)
    ensures Split(CacheBase(name, version, arch), '_')
      == [Escaped(name, ""), Escaped(version, ""), Escaped(arch, ".") + ".deb"]
  {
    var n, v, a := Escaped(name, ""), Escaped(version, ""), Escaped(arch, ".");
    EscapedAvoids(name, "", '_');
    EscapedAvoids(version, "", '_');
    EscapedAvoids(arch, ".", '_');
    var d := a + ".deb";
    assert '_' !in d;
    SplitThree(n, v, d, '_');
    assert CacheBase(name, version, arch) == n + ['_'] + v + ['_'] + d;
  }

  lemma SplitThree(x: seq<Byte>, y: seq<Byte>, z: seq<Byte>, sep: Byte)
    requires sep !in x && sep !in y && sep !in z
    ensures Split(x + [sep] + y + [sep] + z, sep) == [x, y, z]
  {
    SplitNone(x, sep);
    SplitNone(y, sep);
    SplitNone(z, sep);
    SplitJoin(x, y, sep);
    SplitJoin(x + [sep] + y, z, sep);
  }

  /** The file name splits at '_' into exactly the three escaped fields,
      the last one ending in ".deb" and holding no other '.', and each
      field unescapes to what was asked for. */
  lemma CacheFilenameFields(name: seq<Byte>, version: seq<Byte>, arch: seq<Byte>)
    ensures var fields := Split(CacheBase(name, version, arch), '_');
      && |fields| == 3 && |fields[2]| >= 4
      && fields[2][|fields[2]| - 4..] == ".deb" && '.' !in fields[2][..|fields[2]| - 4]
      && Unescape(fields[0]) == name && Unescape(fields[1]) == version
      && Unescape(fields[2][..|fields[2]| - 4]) == arch
  {
    var a := Escaped(arch, ".");
    CacheBaseSplit(name, version, arch);
    EscapedAvoids(arch, ".", '.');
    assert (a + ".deb")[..|a + ".deb"| - 4] == a;
    EscapedIsPieces(name, "");
    EscapedIsPieces(version, "");
    EscapedIsPieces(arch, ".");
    UnescapePieces(name, "");
    UnescapePieces(version, "");
    UnescapePieces(arch, ".");
  }

  // ---------------------------------------------------------------------
  // Job

  /** The class-level queue of Job: the waiting keys in FIFO order and the
      key of the running job, if any.  A job is known by its key. */
  datatype Jobs = Jobs(queue: seq<string>, running: Option<string>)

  function Pending(j: Jobs): seq<string> {
    j.queue + (if j.running.Some? then [j.running.value] else [])
  }

  predicate Distinct(keys: seq<string>) {
    forall i, k :: 0 <= i < k < |keys| ==> keys[i] != keys[k]
  }

  /** Between calls no key is pending twice, and nothing waits while no job
      runs. */
  predicate Valid(j: Jobs) {
    Distinct(Pending(j)) && (j.running.None? ==> j.queue == [])
  }

  /** Job.__init__: the job is queued unless a queued or running job has the
      same key. */
  function Enqueued(j: Jobs, key: string): (u: Jobs)
    ensures u.running == j.running
    ensures key in Pending(j) ==> u == j
    ensures key !in Pending(j) ==> u.queue == j.queue + [key]
  {
    if key in Pending(j) then j else j.(queue := j.queue + [key])
  }

  /** Job.scheduler: when no job runs, the head of the queue starts. */
  function Scheduled(j: Jobs): (u: Jobs)
    ensures j.running.Some? || j.queue == [] ==> u == j
    ensures j.running.None? && j.queue != [] ==> u == Jobs(j.queue[1..], Some(j.queue[0]))
  {
    if j.running.Some? then j
    else if j.queue == [] then j
    else Jobs(j.queue[1..], Some(j.queue[0]))
  }

  /** The end of Job.run: the job stops running and the scheduler runs
      again. */
  function Finished(j: Jobs): (u: Jobs)
    requires j.running.Some?
    ensures u == Scheduled(j.(running := None))
  {
    Scheduled(j.(running := None))
  }

  /** Scheduling keeps every pending key, in order. */
  lemma ScheduledPending(j: Jobs)
    ensures multiset(Pending(Scheduled(j))) == multiset(Pending(j))
  {
    if j.running.None? && j.queue != [] {
      assert j.queue == [j.queue[0]] + j.queue[1..];
    }
  }

  /** Creating a job leaves the queue valid, leaves exactly one pending job
      with the key, and adds a key only when it was not pending. */
  lemma EnqueueKeepsValid(j: Jobs, key: string)
    requires Valid(j)
    ensures var u := Scheduled(Enqueued(j, key));
      && Valid(u)
      && key in Pending(u)
      && multiset(Pending(u)) == multiset(Pending(j)) + (if key in Pending(j) then multiset{} else multiset{key})
  {
    var e := Enqueued(j, key);
    if key in Pending(j) {
      assert j.running.Some?;
      assert Scheduled(e) == j;
    } else if j.running.None? {
      assert Scheduled(e) == Jobs([], Some(key));
      assert Pending(Scheduled(e)) == [key];
    } else {
      var r := j.running.value;
      assert Scheduled(e) == e;
      assert Pending(e) == j.queue + [key] + [r];
      assert Pending(j) == j.queue + [r];
      DistinctInsert(j.queue, key, r);
      assert multiset(j.queue + [key] + [r]) == multiset(j.queue + [r]) + multiset{key};
    }
  }

  lemma DistinctInsert(xs: seq<string>, y: string, z: string)
    requires Distinct(xs + [z]) && y !in xs + [z]
    ensures Distinct(xs + [y] + [z])
  {
    var u, v := xs + [z], xs + [y] + [z];
    assert forall i :: 0 <= i < |xs| ==> v[i] == u[i];
    assert v[|xs| + 1] == u[|xs|];
  }

  lemma DistinctRotate(xs: seq<string>, z: string)
    requires Distinct(xs + [z]) && xs != []
    ensures Distinct(xs[1..] + [xs[0]])
  {
    var u, v := xs + [z], xs[1..] + [xs[0]];
    assert forall i :: 0 <= i < |xs| - 1 ==> v[i] == u[i + 1];
    assert v[|xs| - 1] == u[0];
  }

  /** A finished job makes room for the oldest waiting job. */
  lemma FinishKeepsValid(j: Jobs)
    requires Valid(j) && j.running.Some?
    ensures var u := Finished(j);
      && Valid(u)
      && (j.queue != [] ==> u.running == Some(j.queue[0]) && u.queue == j.queue[1..])
      && (j.queue == [] ==> u == Jobs([], None))
  {
    var u := Finished(j);
    if j.queue != [] {
      assert Pending(u) == j.queue[1..] + [j.queue[0]];
      DistinctRotate(j.queue, j.running.value);
    }
  }

  /** Job's class attributes jobs and running. */
  class JobQueue {
    var jobs: seq<string>
    var running: Option<string>

    function State(): Jobs
      reads this
    {
      Jobs(jobs, running)
    }

    constructor ()
      ensures State() == Jobs([], None)
    {
      jobs := [];
      running := None;
    }

    /** Job.__init__: look for the key among the queued jobs and the running
        one, queue the job if it was not found, then run the scheduler. */
    method Enqueue(key: string) returns (queued: bool)
      modifies this
      ensures queued <==> key !in Pending(old(State()))
      ensures State() == Scheduled(Enqueued(old(State()), key))
    {
      var all := jobs + (if running.Some? then [running.value] else []);
      var found := false;
      var i := 0;
      while i < |all| && !found
        invariant i <= |all|
        invariant found <==> key in all[..i]
      {
        assert all[..i + 1] == all[..i] + [all[i]];
        found := all[i] == key;
        i := i + 1;
      }
      assert !found ==> all[..i] == all;
      queued := !found;
      if queued {
        jobs := jobs + [key];
      }
      Scheduler();
    }

    /** Job.scheduler. */
    method Scheduler()
      modifies this
      ensures State() == Scheduled(old(State()))
    {
      if running.Some? {
        return;
      }
      if jobs == [] {
        return;
      }
      running := Some(jobs[0]);
      jobs := jobs[1..];
    }

    /** The finally clause of Job.run. */
    method Finish()
      requires running.Some?
      modifies this
      ensures State() == Finished(old(State()))
    {
      running := None;
      Scheduler();
    }
  }
}
