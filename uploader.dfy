/** The pieces of src/smart-storage-logger-uploader.c that can be stated
    without the databases, wget and the clock: the registry of tables to
    upload, the sanitising of names, the packing of the hex uuid, the
    decision when to upload, and what a successful upload does to the
    registry. */
module Uploader {
  import opened Wrappers
  import opened Util

  /** struct table: its name, whether uploaded rows are deleted, the last
      ROWID uploaded (through) and the last ROWID queued (stake). */
  datatype Table = Table(name: string, delete: bool, through: nat, stake: nat)

  /** struct db: a database file and its tables, newest first. */
  datatype Db = Db(filename: string, tables: seq<Table>)

  /** The index of the db with this filename, if any. */
  function FindDb(dbs: seq<Db>, filename: string): (r: Option<nat>)
    ensures r.Some? ==>
      r.value < |dbs| && dbs[r.value].filename == filename
      && forall j :: 0 <= j < r.value ==> dbs[j].filename != filename
    ensures r.None? ==> forall j :: 0 <= j < |dbs| ==> dbs[j].filename != filename
  {
    if dbs == [] then None
    else if dbs[0].filename == filename then Some(0)
    else match FindDb(dbs[1..], filename)
      case None => None
      case Some(j) => Some(j + 1)
  }

  /** The index of the table with this name, if any. */
  function FindTable(ts: seq<Table>, name: string): (r: Option<nat>)
    ensures r.Some? ==>
      r.value < |ts| && ts[r.value].name == name
      && forall j :: 0 <= j < r.value ==> ts[j].name != name
    ensures r.None? ==> forall j :: 0 <= j < |ts| ==> ts[j].name != name
  {
    if ts == [] then None
    else if ts[0].name == name then Some(0)
    else match FindTable(ts[1..], name)
      case None => None
      case Some(j) => Some(j + 1)
  }

  /** One db node per filename and one table node per name within a db. */
  predicate Unique(dbs: seq<Db>) {
    (forall i, j :: 0 <= i < j < |dbs| ==> dbs[i].filename != dbs[j].filename)
    && (forall i :: 0 <= i < |dbs| ==> TablesUnique(dbs[i].tables))
  }

  predicate TablesUnique(ts: seq<Table>) {
    forall i, j :: 0 <= i < j < |ts| ==> ts[i].name != ts[j].name
  }

  /** What logger_uploader_table_register does to the registry.  stored is
      the through value upload.db holds for the pair, if it has a row; it
      overwrites through, and without a row the table keeps its through (0
      for a new one, from calloc).  A new table is prepended to its db's
      list, a new db to the list of dbs. */
  function Register(dbs: seq<Db>, filename: string, name: string, delete: bool, stored: Option<nat>): seq<Db> {
    match FindDb(dbs, filename)
    case None =>
      [Db(filename, [Table(name, delete, stored.GetOr(0), 0)])] + dbs
    case Some(d) =>
      var ts := dbs[d].tables;
      match FindTable(ts, name)
      case None =>
        dbs[d := Db(filename, [Table(name, delete, stored.GetOr(0), 0)] + ts)]
      case Some(t) =>
        dbs[d := Db(filename, ts[t := ts[t].(through := stored.GetOr(ts[t].through))])]
  }

  /** Whether the pair is registered, and with which delete flag. */
  predicate Has(dbs: seq<Db>, filename: string, name: string, delete: bool) {
    exists i, j :: 0 <= i < |dbs| && 0 <= j < |dbs[i].tables| && At(dbs, i, j, filename, name, delete)
  }

  /** The pair is at (i, j) with this flag. */
  predicate At(dbs: seq<Db>, i: nat, j: nat, filename: string, name: string, delete: bool) {
    i < |dbs| && j < |dbs[i].tables|
    && dbs[i].filename == filename && dbs[i].tables[j].name == name && dbs[i].tables[j].delete == delete
  }

  /** A registered pair is always registered with the same flag. */
  predicate Consistent(dbs: seq<Db>, filename: string, name: string, delete: bool) {
    forall i, j :: (0 <= i < |dbs| && 0 <= j < |dbs[i].tables| && dbs[i].filename == filename
                    && dbs[i].tables[j].name == name) ==> dbs[i].tables[j].delete == delete
  }

  /** Registering keeps one node per filename and per (filename, table),
      the pair is then registered, and every other pair is still there with
      its flag and no other pair appears. */
  lemma RegisterKeepsUnique(dbs: seq<Db>, filename: string, name: string, delete: bool, stored: Option<nat>,
                            f: string, n: string, del: bool)
    requires Unique(dbs) && Consistent(dbs, filename, name, delete)
    ensures Unique(Register(dbs, filename, name, delete, stored))
    ensures Has(Register(dbs, filename, name, delete, stored), filename, name, delete)
    ensures Has(dbs, f, n, del) ==> Has(Register(dbs, filename, name, delete, stored), f, n, del)
    ensures Has(Register(dbs, filename, name, delete, stored), f, n, del) ==>
      Has(dbs, f, n, del) || (f == filename && n == name && del == delete)
  {
    match FindDb(dbs, filename)
    case None =>
      RegisterNewDb(dbs, filename, name, delete, stored, f, n, del);
    case Some(d) =>
      match FindTable(dbs[d].tables, name)
      case None =>
        RegisterNewTable(dbs, d, filename, name, delete, stored, f, n, del);
      case Some(t) =>
        RegisterAgain(dbs, d, t, filename, name, delete, stored, f, n, del);
  }

  lemma RegisterNewDb(dbs: seq<Db>, filename: string, name: string, delete: bool, stored: Option<nat>,
                      f: string, n: string, del: bool)
    requires Unique(dbs) && FindDb(dbs, filename).None?
    ensures var r := Register(dbs, filename, name, delete, stored);
      Unique(r) && Has(r, filename, name, delete)
      && (Has(dbs, f, n, del) ==> Has(r, f, n, del))
      && (Has(r, f, n, del) ==> Has(dbs, f, n, del) || (f == filename && n == name && del == delete))
  {
    var db := Db(filename, [Table(name, delete, stored.GetOr(0), 0)]);
    var r := [db] + dbs;
    assert Register(dbs, filename, name, delete, stored) == r;
    assert At(r, 0, 0, filename, name, delete);
    ConsKeeps(dbs, db, r, f, n, del);
    ConsAddsOne(dbs, db, r, f, n, del);
  }

  lemma ConsKeeps(dbs: seq<Db>, db: Db, r: seq<Db>, f: string, n: string, del: bool)
    requires r == [db] + dbs
    ensures Has(dbs, f, n, del) ==> Has(r, f, n, del)
  {
    if Has(dbs, f, n, del) {
      var i, j :| 0 <= i < |dbs| && 0 <= j < |dbs[i].tables| && At(dbs, i, j, f, n, del);
      assert At(r, i + 1, j, f, n, del);
    }
  }

  lemma ConsAddsOne(dbs: seq<Db>, db: Db, r: seq<Db>, f: string, n: string, del: bool)
    requires r == [db] + dbs && |db.tables| == 1
    ensures Has(r, f, n, del) ==>
      Has(dbs, f, n, del) || (f == db.filename && n == db.tables[0].name && del == db.tables[0].delete)
  {
    if Has(r, f, n, del) {
      var i, j :| 0 <= i < |r| && 0 <= j < |r[i].tables| && At(r, i, j, f, n, del);
      if i > 0 {
        assert At(dbs, i - 1, j, f, n, del);
      }
    }
  }

  lemma RegisterNewTable(dbs: seq<Db>, d: nat, filename: string, name: string, delete: bool, stored: Option<nat>,
                         f: string, n: string, del: bool)
    requires Unique(dbs) && FindDb(dbs, filename) == Some(d) && FindTable(dbs[d].tables, name).None?
    ensures var r := Register(dbs, filename, name, delete, stored);
      Unique(r) && Has(r, filename, name, delete)
      && (Has(dbs, f, n, del) ==> Has(r, f, n, del))
      && (Has(r, f, n, del) ==> Has(dbs, f, n, del) || (f == filename && n == name && del == delete))
  {
    var e := Table(name, delete, stored.GetOr(0), 0);
    var r := dbs[d := Db(filename, [e] + dbs[d].tables)];
    assert Register(dbs, filename, name, delete, stored) == r;
    ReplaceKeepsUnique(dbs, d, [e] + dbs[d].tables);
    assert At(r, d, 0, filename, name, delete);
    PrependKeeps(dbs, d, e, r, f, n, del);
    PrependAddsOne(dbs, d, e, r, f, n, del);
  }

  lemma PrependKeeps(dbs: seq<Db>, d: nat, e: Table, r: seq<Db>, f: string, n: string, del: bool)
    requires d < |dbs| && r == dbs[d := Db(dbs[d].filename, [e] + dbs[d].tables)]
    ensures Has(dbs, f, n, del) ==> Has(r, f, n, del)
  {
    if Has(dbs, f, n, del) {
      var i, j :| 0 <= i < |dbs| && 0 <= j < |dbs[i].tables| && At(dbs, i, j, f, n, del);
      if i == d {
        assert At(r, d, j + 1, f, n, del);
      } else {
        assert At(r, i, j, f, n, del);
      }
    }
  }

  lemma PrependAddsOne(dbs: seq<Db>, d: nat, e: Table, r: seq<Db>, f: string, n: string, del: bool)
    requires d < |dbs| && r == dbs[d := Db(dbs[d].filename, [e] + dbs[d].tables)]
    ensures Has(r, f, n, del) ==> Has(dbs, f, n, del) || (f == dbs[d].filename && n == e.name && del == e.delete)
  {
    if Has(r, f, n, del) {
      var i, j :| 0 <= i < |r| && 0 <= j < |r[i].tables| && At(r, i, j, f, n, del);
      if i != d {
        assert At(dbs, i, j, f, n, del);
      } else if j > 0 {
        assert At(dbs, d, j - 1, f, n, del);
      }
    }
  }

  lemma RegisterAgain(dbs: seq<Db>, d: nat, t: nat, filename: string, name: string, delete: bool, stored: Option<nat>,
                      f: string, n: string, del: bool)
    requires Unique(dbs) && Consistent(dbs, filename, name, delete)
    requires FindDb(dbs, filename) == Some(d) && FindTable(dbs[d].tables, name) == Some(t)
    ensures var r := Register(dbs, filename, name, delete, stored);
      Unique(r) && Has(r, filename, name, delete)
      && (Has(dbs, f, n, del) ==> Has(r, f, n, del))
      && (Has(r, f, n, del) ==> Has(dbs, f, n, del) || (f == filename && n == name && del == delete))
  {
    var ts := dbs[d].tables;
    var ts' := ts[t := ts[t].(through := stored.GetOr(ts[t].through))];
    var r := dbs[d := Db(filename, ts')];
    assert Register(dbs, filename, name, delete, stored) == r;
    assert forall j :: 0 <= j < |ts| ==> ts'[j].name == ts[j].name && ts'[j].delete == ts[j].delete;
    ReplaceKeepsUnique(dbs, d, ts');
    assert At(r, d, t, filename, name, delete);
    SameNamesSameHas(dbs, d, ts', r, f, n, del);
  }

  /** Replacing a table list by one with the same names and flags changes
      no pair. */
  lemma SameNamesSameHas(dbs: seq<Db>, d: nat, ts: seq<Table>, r: seq<Db>, f: string, n: string, del: bool)
    requires d < |dbs| && r == dbs[d := Db(dbs[d].filename, ts)] && |ts| == |dbs[d].tables|
    requires forall j :: 0 <= j < |ts| ==> ts[j].name == dbs[d].tables[j].name && ts[j].delete == dbs[d].tables[j].delete
    ensures Has(dbs, f, n, del) <==> Has(r, f, n, del)
  {
    if Has(dbs, f, n, del) {
      var i, j :| 0 <= i < |dbs| && 0 <= j < |dbs[i].tables| && At(dbs, i, j, f, n, del);
      assert At(r, i, j, f, n, del);
    }
    if Has(r, f, n, del) {
      var i, j :| 0 <= i < |r| && 0 <= j < |r[i].tables| && At(r, i, j, f, n, del);
      assert At(dbs, i, j, f, n, del);
    }
  }

  /** Replacing the table list of one db by a list without repeated names
      keeps the registry free of repeats. */
  lemma ReplaceKeepsUnique(dbs: seq<Db>, d: nat, ts: seq<Table>)
    requires Unique(dbs) && d < |dbs| && TablesUnique(ts)
    ensures Unique(dbs[d := Db(dbs[d].filename, ts)])
  {
  }

  /** Registering a pair that is already registered adds no node. */
  lemma ReregisterAddsNothing(dbs: seq<Db>, filename: string, name: string, delete: bool, stored: Option<nat>)
    requires Unique(dbs) && Has(dbs, filename, name, delete)
    ensures |Register(dbs, filename, name, delete, stored)| == |dbs|
    ensures forall i :: 0 <= i < |dbs| ==>
      |Register(dbs, filename, name, delete, stored)[i].tables| == |dbs[i].tables|
  {
    var i, j :| 0 <= i < |dbs| && 0 <= j < |dbs[i].tables| && At(dbs, i, j, filename, name, delete);
    var d := FindDb(dbs, filename);
    assert d == Some(i);
    assert FindTable(dbs[i].tables, name).Some?;
  }

  /** The registry of the uploader: the global dbs list. */
  class Registry {
    var dbs: seq<Db>

    ghost predicate Valid()
      reads this
    {
      Unique(dbs)
    }

    constructor ()
      ensures Valid() && dbs == []
    {
      dbs := [];
    }

    /** logger_uploader_table_register.  The code asserts that a pair
        registered again has the same delete flag. */
    method TableRegister(filename: string, name: string, delete: bool, stored: Option<nat>)
      requires Valid()
      requires Consistent(dbs, filename, name, delete)
      modifies this
      ensures Valid()
      ensures dbs == Register(old(dbs), filename, name, delete, stored)
    {
      RegisterKeepsUnique(dbs, filename, name, delete, stored, filename, name, delete);
      var i := 0;
      while i < |dbs|
        invariant i <= |dbs|
        invariant forall j :: 0 <= j < i ==> dbs[j].filename != filename
      {
        if dbs[i].filename == filename {
          assert FindDb(dbs, filename) == Some(i);
          var ts := dbs[i].tables;
          var k := 0;
          while k < |ts|
            invariant k <= |ts|
            invariant forall j :: 0 <= j < k ==> ts[j].name != name
          {
            if ts[k].name == name {
              assert FindTable(ts, name) == Some(k);
              var through := if stored.Some? then stored.value else ts[k].through;
              dbs := dbs[i := Db(filename, ts[k := ts[k].(through := through)])];
              return;
            }
            k := k + 1;
          }
          assert FindTable(ts, name) == None;
          dbs := dbs[i := Db(filename, [Table(name, delete, if stored.Some? then stored.value else 0, 0)] + ts)];
          return;
        }
        i := i + 1;
      }
      assert FindDb(dbs, filename) == None;
      dbs := [Db(filename, [Table(name, delete, if stored.Some? then stored.value else 0, 0)])] + dbs;
    }

    /** The end of wget_output_cb: only when the server's reply contains
        "\nDanke\n" is every table's through moved up to its stake. */
    method UploadFinished(output: string)
      requires Valid()
      modifies this
      ensures Valid()
      ensures Contains(output, DANKE) ==> dbs == ThroughToStake(old(dbs))
      ensures !Contains(output, DANKE) ==> dbs == old(dbs)
    {
      var danke := ContainsLoop(output, DANKE);
      if !danke {
        return;
      }
      var i := 0;
      ghost var was := dbs;
      while i < |dbs|
        invariant |dbs| == |was| && i <= |dbs|
        invariant forall j :: 0 <= j < i ==> dbs[j] == Db(was[j].filename, StakeAll(was[j].tables))
        invariant forall j :: i <= j < |dbs| ==> dbs[j] == was[j]
      {
        var moved := StakeTables(dbs[i].tables);
        dbs := dbs[i := Db(dbs[i].filename, moved)];
        i := i + 1;
      }
      StakeKeepsUnique(was);
    }
  }

  /** The inner loop of wget_output_cb over one db's tables. */
  method StakeTables(ts: seq<Table>) returns (moved: seq<Table>)
    ensures moved == StakeAll(ts)
  {
    moved := [];
    var k := 0;
    while k < |ts|
      invariant k <= |ts| && |moved| == k
      invariant forall j :: 0 <= j < k ==> moved[j] == ts[j].(through := ts[j].stake)
    {
      moved := moved + [ts[k].(through := ts[k].stake)];
      k := k + 1;
    }
  }

  const DANKE: string := "\nDanke\n"

  /** strstr (s, t) != NULL */
  predicate Contains(s: string, t: string) {
    exists i :: 0 <= i <= |s| - |t| && OccursAt(s, t, i)
  }

  predicate OccursAt(s: string, t: string, i: nat)
    requires i + |t| <= |s|
  {
    s[i..i + |t|] == t
  }

  method ContainsLoop(s: string, t: string) returns (found: bool)
    ensures found == Contains(s, t)
  {
    var i := 0;
    while i + |t| <= |s|
      invariant i <= |s| + 1
      invariant forall j :: 0 <= j < i && j <= |s| - |t| ==> !OccursAt(s, t, j)
    {
      if s[i..i + |t|] == t {
        assert OccursAt(s, t, i);
        return true;
      }
      i := i + 1;
    }
    return false;
  }

  /** Every table with through := stake. */
  function StakeAll(ts: seq<Table>): seq<Table> {
    seq(|ts|, k requires 0 <= k < |ts| => ts[k].(through := ts[k].stake))
  }

  /** Every table of every db with through := stake; names, flags and
      stakes unchanged. */
  function ThroughToStake(dbs: seq<Db>): seq<Db> {
    seq(|dbs|, i requires 0 <= i < |dbs| => Db(dbs[i].filename, StakeAll(dbs[i].tables)))
  }

  /** After a successful upload, through equals stake everywhere, and the
      registry still has one node per filename and per table. */
  lemma StakeKeepsUnique(dbs: seq<Db>)
    requires Unique(dbs)
    ensures Unique(ThroughToStake(dbs))
    ensures forall i, k :: 0 <= i < |dbs| && 0 <= k < |dbs[i].tables| ==>
      ThroughToStake(dbs)[i].tables[k].through == dbs[i].tables[k].stake
  {
  }

  /** The characters sanitize_strings keeps. */
  predicate Alnum(c: char) {
    ('0' <= c <= '9') || ('a' <= c <= 'z') || ('A' <= c <= 'Z')
  }

  /** sanitize_strings: s1, or s1 "_" s2, with every character that is not
      a letter or a digit replaced by '_'.  The arguments are C strings. */
  method SanitizeStrings(s1: string, s2: Option<string>) returns (r: string)
    requires forall i :: 0 <= i < |s1| ==> s1[i] != '\0'
    requires s2.Some? ==> forall i :: 0 <= i < |s2.value| ==> s2.value[i] != '\0'
    ensures var joined := if s2.Some? then s1 + "_" + s2.value else s1;
      |r| == |joined|
      && forall i :: 0 <= i < |r| ==> r[i] == (if Alnum(joined[i]) then joined[i] else '_')
  {
    var joined := if s2.Some? then s1 + "_" + s2.value else s1;
    var s := new char[|joined| + 1];
    var i := 0;
    while i < |joined|
      invariant i <= |joined| && s[..i] == joined[..i]
    {
      s[i] := joined[i];
      i := i + 1;
    }
    s[|joined|] := '\0';
    var t := 0;
    while s[t] != '\0'
      invariant t <= |joined| && s[|joined|] == '\0'
      invariant forall j :: 0 <= j < t ==> s[j] == (if Alnum(joined[j]) then joined[j] else '_')
      invariant forall j :: t <= j < |joined| ==> s[j] == joined[j]
      decreases |joined| - t
    {
      if !Alnum(s[t]) {
        s[t] := '_';
      }
      t := t + 1;
    }
    r := s[..|joined|];
  }

  /** The name sanitize_strings gives has only letters, digits and '_', and
      keeps the letters and digits it was given in place. */
  lemma SanitizedIsIdentifier(s1: string, s2: Option<string>, r: string)
    requires var joined := if s2.Some? then s1 + "_" + s2.value else s1;
      |r| == |joined| && forall i :: 0 <= i < |r| ==> r[i] == (if Alnum(joined[i]) then joined[i] else '_')
    ensures forall i :: 0 <= i < |r| ==> Alnum(r[i]) || r[i] == '_'
    ensures s2.Some? ==> r[|s1|] == '_'
  {
  }

  newtype byte = x: int | 0 <= x < 256

  /** c2i as written: an upper-case digit is measured from 'a'. */
  function C2iAsWritten(c: char): int {
    if '0' <= c <= '9' then c as int - '0' as int
    else if 'a' <= c <= 'f' then c as int - 'a' as int + 10
    else if 'A' <= c <= 'F' then c as int - 'a' as int + 10
    else 0
  }

  /** c2i as intended: the value of a hex digit of either case. */
  function C2i(c: char): (v: nat)
    ensures v < 16
  {
    if '0' <= c <= '9' then c as int - '0' as int
    else if 'a' <= c <= 'f' then c as int - 'a' as int + 10
    else if 'A' <= c <= 'F' then c as int - 'A' as int + 10
    else 0
  }

  /** The upper-case branch gives 'A' the value -22, not 10; the corrected
      c2i agrees with the code on every other character. */
  lemma UpperCaseDigitMisread()
    ensures C2iAsWritten('A') == -22 && C2i('A') == 10
    ensures forall c: char :: !('A' <= c <= 'F') ==> C2iAsWritten(c) == C2i(c)
  {
  }

  predicate LowerHex(s: string) {
    forall i :: 0 <= i < |s| ==> ('0' <= s[i] <= '9') || ('a' <= s[i] <= 'f')
  }

  /** i2c: a nibble's lower-case hex digit. */
  function I2c(i: nat): (c: char)
    requires i < 16
    ensures ('0' <= c <= '9') || ('a' <= c <= 'f')
  {
    if i < 10 then ('0' as int + i) as char else ('a' as int + i - 10) as char
  }

  /** inplode's output byte from two digits: the first is the low nibble. */
  function PackByte(lo: char, hi: char): byte {
    (C2i(lo) + 16 * C2i(hi)) as byte
  }

  /** explode's two digits for a byte, low nibble first. */
  function UnpackByte(b: byte): string {
    [I2c(b as int % 16), I2c(b as int / 16)]
  }

  /** inplode on 32 digits, as a function of them. */
  function Pack(s: string): (r: seq<byte>)
    requires |s| == 32
    ensures |r| == 16 && forall i :: 0 <= i < 16 ==> r[i] == PackByte(s[2 * i], s[2 * i + 1])
  {
    seq(16, i requires 0 <= i < 16 => PackByte(s[2 * i], s[2 * i + 1]))
  }

  /** explode on 16 bytes, as a function of them: digit j is digit j % 2
      of byte j / 2. */
  function Unpack(b: seq<byte>): (r: string)
    requires |b| == 16
    ensures |r| == 32 && LowerHex(r)
  {
    seq(32, j requires 0 <= j < 32 => UnpackByte(b[j / 2])[j % 2])
  }

  /** The two digits of byte i sit at 2 * i and 2 * i + 1. */
  lemma UnpackAt(b: seq<byte>, i: nat)
    requires |b| == 16 && i < 16
    ensures Unpack(b)[2 * i] == I2c(b[i] as int % 16) && Unpack(b)[2 * i + 1] == I2c(b[i] as int / 16)
  {
    assert (2 * i) / 2 == i && (2 * i) % 2 == 0;
    assert (2 * i + 1) / 2 == i && (2 * i + 1) % 2 == 1;
  }

  lemma UnpackPairs(b: seq<byte>)
    requires |b| == 16
    ensures forall i :: 0 <= i < 16 ==>
      Unpack(b)[2 * i] == I2c(b[i] as int % 16) && Unpack(b)[2 * i + 1] == I2c(b[i] as int / 16)
  {
    forall i | 0 <= i < 16
      ensures Unpack(b)[2 * i] == I2c(b[i] as int % 16) && Unpack(b)[2 * i + 1] == I2c(b[i] as int / 16)
    {
      UnpackAt(b, i);
    }
  }

  lemma DigitRoundTrip(c: char)
    requires ('0' <= c <= '9') || ('a' <= c <= 'f')
    ensures I2c(C2i(c)) == c
  {
  }

  lemma NibbleRoundTrip(n: nat)
    requires n < 16
    ensures C2i(I2c(n)) == n
  {
  }

  /** Two digits packed into a byte and unpacked again come back. */
  lemma ByteRoundTrip(lo: char, hi: char)
    requires ('0' <= lo <= '9') || ('a' <= lo <= 'f')
    requires ('0' <= hi <= '9') || ('a' <= hi <= 'f')
    ensures UnpackByte(PackByte(lo, hi)) == [lo, hi]
  {
    var v := C2i(lo) + 16 * C2i(hi);
    assert v % 16 == C2i(lo) && v / 16 == C2i(hi);
    DigitRoundTrip(lo);
    DigitRoundTrip(hi);
  }

  /** Two 32-character strings agreeing on every pair of positions are equal. */
  lemma {:induction false} EqualByPairs(x: string, y: string)
    requires |x| == 32 && |y| == 32
    requires forall i :: 0 <= i < 16 ==> x[2 * i] == y[2 * i] && x[2 * i + 1] == y[2 * i + 1]
    ensures x == y
  {
    forall j | 0 <= j < 32 ensures x[j] == y[j] {
      var i := j / 2;
      assert j == 2 * i || j == 2 * i + 1;
    }
  }

  /** explode undoes inplode on 32 lower-case hex digits. */
  lemma UnpackPack(s: string)
    requires |s| == 32 && LowerHex(s)
    ensures Unpack(Pack(s)) == s
  {
    var r := Unpack(Pack(s));
    forall i | 0 <= i < 16 ensures r[2 * i] == s[2 * i] && r[2 * i + 1] == s[2 * i + 1] {
      UnpackAt(Pack(s), i);
      ByteRoundTrip(s[2 * i], s[2 * i + 1]);
    }
    EqualByPairs(r, s);
  }

  /** inplode undoes explode on any 16 bytes. */
  lemma PackUnpack(b: seq<byte>)
    requires |b| == 16
    ensures Pack(Unpack(b)) == b
  {
    var r := Pack(Unpack(b));
    forall i | 0 <= i < 16 ensures r[i] == b[i] {
      UnpackAt(b, i);
      NibbleRoundTrip(b[i] as int % 16);
      NibbleRoundTrip(b[i] as int / 16);
    }
  }

  /** inplode (uuid.str, uuid.str): the 32 digits at the start of the
      buffer are packed into its first 16 bytes, in place.  Byte i/2 is
      written only after digits i and i + 1 have been read, so the overlap
      does no harm. */
  method InplodeInPlace(buf: array<char>)
    requires buf.Length >= 32
    modifies buf
    ensures forall i :: 0 <= i < 16 ==> buf[i] as int == Pack(old(buf[..32]))[i] as int
    ensures buf[16..] == old(buf[16..])
  {
    ghost var s := buf[..32];
    var i := 0;
    while i < 32
      invariant i <= 32 && i % 2 == 0
      invariant forall j :: 0 <= j < i / 2 ==> buf[j] as int == Pack(s)[j] as int
      invariant forall j :: i <= j < buf.Length ==> buf[j] == old(buf[j])
      invariant forall j :: 16 <= j < buf.Length ==> buf[j] == old(buf[j])
    {
      buf[i / 2] := PackByte(buf[i], buf[i + 1]) as int as char;
      i := i + 2;
    }
  }

  /** explode (in, result). */
  method Explode(bytes: seq<byte>) returns (out: array<char>)
    requires |bytes| == 16
    ensures out.Length == 32 && out[..] == Unpack(bytes)
  {
    out := new char[32];
    var i := 0;
    while i < 16
      invariant i <= 16
      invariant forall k :: 0 <= k < i ==>
        out[2 * k] == I2c(bytes[k] as int % 16) && out[2 * k + 1] == I2c(bytes[k] as int / 16)
    {
      out[2 * i] := I2c(bytes[i] as int % 16);
      out[2 * i + 1] := I2c(bytes[i] as int / 16);
      i := i + 1;
    }
    UnpackPairs(bytes);
    EqualByPairs(out[..], Unpack(bytes));
  }

  /** The uuid's digits survive the trip through the buffer: packing them in
      place and exploding the result gives them back. */
  lemma InPlaceRoundTrip(s: string, packed: seq<char>)
    requires |s| == 32 && LowerHex(s) && |packed| >= 16
    requires forall i :: 0 <= i < 16 ==> packed[i] as int == Pack(s)[i] as int
    ensures forall i :: 0 <= i < 16 ==> 0 <= packed[i] as int < 256
    ensures Unpack(seq(16, i requires 0 <= i < 16 => packed[i] as int as byte)) == s
  {
    var b := seq(16, i requires 0 <= i < 16 => packed[i] as int as byte);
    assert b == Pack(s);
    UnpackPack(s);
  }

  const MIN_CONNECT_TIME: nat := 5 * 60 * 1000
  const SYNC_AGE: nat := 24 * 60 * 60 * 1000
  const MIN_INACTIVITY: nat := 2 * 60 * 1000
  const UPLOAD_RETRY_INTERVAL: nat := SYNC_AGE / 20

  /** The globals upload_schedule reads, in milliseconds. */
  datatype ScheduleState = ScheduleState(uploading: bool, connected: U64, inactive: U64,
                                         lastUpload: U64, lastUploadTry: U64)

  /** What upload_schedule does: nothing more, start an upload, or arm the
      timer again for a number of seconds. */
  datatype Decision = Idle | Upload | Rearm(seconds: nat)

  /** The four residual waits and the 1000 ms floor. */
  function Timeout(s: ScheduleState, n: U64): int {
    Max(Max(Max(Max(MIN_CONNECT_TIME - ToInt64(Sub64(n, s.connected)), 0),
                Max(MIN_INACTIVITY - ToInt64(Sub64(n, s.inactive)), 0)),
            Max(Max(SYNC_AGE - ToInt64(Sub64(n, s.lastUpload)), 0),
                Max(UPLOAD_RETRY_INTERVAL - ToInt64(Sub64(n, s.lastUploadTry)), 0))),
        1000)
  }

  /** Whether every condition for an upload holds at time n. */
  predicate Ready(s: ScheduleState, n: U64) {
    !s.uploading && s.connected != 0 && s.inactive != 0
    && Sub64(n, s.connected) >= MIN_CONNECT_TIME
    && Sub64(n, s.inactive) >= MIN_INACTIVITY
    && Sub64(n, s.lastUpload) >= SYNC_AGE
    && Sub64(n, s.lastUploadTry) >= UPLOAD_RETRY_INTERVAL
  }

  /** upload_schedule at time n. */
  function UploadSchedule(s: ScheduleState, n: U64): (d: Decision)
    ensures d == Upload <==> Ready(s, n)
    ensures d == Idle <==> s.uploading || s.connected == 0 || s.inactive == 0
    ensures d.Rearm? ==>
      d.seconds >= 1 && d.seconds * 1000 >= Timeout(s, n) && d.seconds * 1000 < Timeout(s, n) + 1000
  {
    if s.uploading || s.connected == 0 || s.inactive == 0 then Idle
    else if Ready(s, n) then Upload
    else Rearm((999 + Timeout(s, n)) / 1000)
  }

  /** When the timer is armed again, it waits at least as long as each of
      the four conditions still needs, while the clock behaves (no stored
      time after n). */
  lemma RearmWaitsLongEnough(s: ScheduleState, n: U64)
    requires UploadSchedule(s, n).Rearm?
    requires s.connected <= n && s.inactive <= n && s.lastUpload <= n && s.lastUploadTry <= n
    ensures var w := UploadSchedule(s, n).seconds * 1000;
      n - s.connected + w >= MIN_CONNECT_TIME && n - s.inactive + w >= MIN_INACTIVITY
      && n - s.lastUpload + w >= SYNC_AGE && n - s.lastUploadTry + w >= UPLOAD_RETRY_INTERVAL
  {
  }
}
