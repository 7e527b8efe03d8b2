/** The validation that object_register (src/murmeltier.c:189-510) does
    before it touches the database: the walk over the property table, the
    three argument errors in their fixed order, and the cookie-uniqueness
    refusal.  The property table is given in the order g_hash_table_foreach
    visits it; the rows the cookie query returns are a parameter. */
module MurmeltierRegister {
  import opened Wrappers
  import opened Dbus
  import opened Woodchuck
  import opened ServerApi

  // ---------------------------------------------------------------------
  // The three register entry points and their property lists.

  /** woodchuck_manager_manager_register, woodchuck_manager_stream_register
      and woodchuck_stream_object_register. */
  datatype RegisterKind = ManagerRegister | StreamRegister | ObjectRegister

  const MANAGER_PROPERTIES: seq<string> :=
    ["HumanReadableName", "DBusServiceName", "DBusObject", "Cookie", "Priority"]
  const STREAM_PROPERTIES: seq<string> :=
    ["HumanReadableName", "Cookie", "Priority", "Freshness", "ObjectsMostlyInline"]
  const OBJECT_PROPERTIES: seq<string> :=
    ["HumanReadableName", "Cookie", "Versions", "Filename", "Wakeup",
     "TriggerTarget", "TriggerEarliest", "TriggerLatest", "DownloadFrequency", "Priority"]
  const REQUIRED_PROPERTIES: seq<string> := ["HumanReadableName"]

  function Acceptable(k: RegisterKind): seq<string> {
    match k
    case ManagerRegister => MANAGER_PROPERTIES
    case StreamRegister => STREAM_PROPERTIES
    case ObjectRegister => OBJECT_PROPERTIES
  }

  function Required(k: RegisterKind): seq<string> {
    REQUIRED_PROPERTIES
  }

  /** The table the new row goes into, named in the cookie message. */
  function ObjectTable(k: RegisterKind): string {
    match k
    case ManagerRegister => "managers"
    case StreamRegister => "streams"
    case ObjectRegister => "objects"
  }

  predicate Distinct(xs: seq<string>) {
    forall i, j :: 0 <= i < j < |xs| ==> xs[i] != xs[j]
  }

  /** The lists are fixed per kind: no name twice, HumanReadableName the one
      required property and acceptable everywhere, Cookie acceptable
      everywhere, and Versions acceptable for objects only. */
  lemma PropertyLists(k: RegisterKind)
    ensures Distinct(Acceptable(k)) && Distinct(Required(k))
    ensures Required(k) == ["HumanReadableName"]
    ensures forall r :: r in Required(k) ==> r in Acceptable(k)
    ensures "Cookie" in Acceptable(k) && WellListed(Acceptable(k))
    ensures "Versions" in Acceptable(k) <==> k == ObjectRegister
  {
    assert MANAGER_PROPERTIES[3] == "Cookie";
    assert STREAM_PROPERTIES[1] == "Cookie";
    assert OBJECT_PROPERTIES[1] == "Cookie" && OBJECT_PROPERTIES[2] == "Versions";
  }

  // ---------------------------------------------------------------------
  // The walk over the property table (the nested function iter).

  /** The variables iter updates: the last unknown key, the first key with
      an unsupported value, which required properties were seen, the
      Versions rows, the cookie, and the (column, value) pairs appended to
      the insert statement. */
  datatype Scan = Scan(unknown: Option<string>, badType: Option<string>, have: seq<bool>,
                       versions: Option<seq<seq<Value>>>, cookie: Option<string>,
                       stored: seq<(string, PropValue)>)

  type Entry = (string, PropValue)

  function Initial(required: seq<string>): (s: Scan)
    ensures |s.have| == |required| && forall r :: 0 <= r < |required| ==> !s.have[r]
  {
    Scan(None, None, seq(|required|, _ => false), None, None, [])
  }

  /** The index of the first occurrence of key, as the loops with break
      find it. */
  function FirstIndex(xs: seq<string>, key: string): (r: Option<nat>)
    ensures r.Some? ==> r.value < |xs| && xs[r.value] == key
                        && forall j :: 0 <= j < r.value ==> xs[j] != key
    ensures r.None? <==> key !in xs
  {
    if xs == [] then None
    else if xs[0] == key then Some(0)
    else match FirstIndex(xs[1..], key)
      case None => None
      case Some(j) => Some(j + 1)
  }

  /** Versions must hold an a(stub) array (the dispatcher only ever builds
      an array value for that signature) and may be given once; every other
      value must be a string or a uint32. */
  function Check(s: Scan, key: string, v: PropValue): Scan {
    if key == "Versions" then
      if !v.PStructs? then s.(badType := Some(key))
      else if s.versions.Some? then s.(badType := Some(key))
      else s.(versions := Some(v.rows))
    else if v.PString? || v.PUint? then s.(stored := s.stored + [(key, v)])
    else s.(badType := Some(key))
  }

  /** One call of iter. */
  function Step(s: Scan, e: Entry, acceptable: seq<string>, required: seq<string>, unique: bool): (r: Scan)
    requires |s.have| == |required|
    ensures |r.have| == |required|
  {
    var (key, v) := e;
    if key !in acceptable then s.(unknown := Some(key))
    else
      var s1 := match FirstIndex(required, key)
                case Some(i) => s.(have := s.have[i := true])
                case None => s;
      var s2 := if s1.unknown.None? && s1.badType.None? then Check(s1, key, v) else s1;
      if unique && s2.cookie.None? && key == "Cookie" && v.PString? then s2.(cookie := Some(v.s)) else s2
  }

  /** The variables after the first n entries. */
  function ScanAll(es: seq<Entry>, n: nat, acceptable: seq<string>, required: seq<string>, unique: bool): (r: Scan)
    requires n <= |es|
    ensures |r.have| == |required|
  {
    if n == 0 then Initial(required)
    else Step(ScanAll(es, n - 1, acceptable, required, unique), es[n - 1], acceptable, required, unique)
  }

  /** g_hash_table_foreach (properties, iter, NULL). */
  method ScanProperties(es: seq<Entry>, acceptable: seq<string>, required: seq<string>, unique: bool)
    returns (s: Scan)
    ensures s == ScanAll(es, |es|, acceptable, required, unique)
  {
    var unknown: Option<string> := None;
    var badType: Option<string> := None;
    var have := seq(|required|, _ => false);
    var versions: Option<seq<seq<Value>>> := None;
    var cookie: Option<string> := None;
    var stored: seq<(string, PropValue)> := [];
    var n := 0;
    while n < |es|
      invariant n <= |es|
      invariant Scan(unknown, badType, have, versions, cookie, stored) == ScanAll(es, n, acceptable, required, unique)
    {
      var (key, v) := es[n];
      if key !in acceptable {
        unknown := Some(key);
      } else {
        var i := 0;
        while i < |required|
          invariant i <= |required| && forall j :: 0 <= j < i ==> required[j] != key
        {
          if required[i] == key {
            have := have[i := true];
            break;
          }
          i := i + 1;
        }
        if unknown.None? && badType.None? {
          if key == "Versions" {
            if !v.PStructs? {
              badType := Some(key);
            } else if versions.Some? {
              badType := Some(key);
            } else {
              versions := Some(v.rows);
            }
          } else if v.PString? || v.PUint? {
            stored := stored + [(key, v)];
          } else {
            badType := Some(key);
          }
        }
        if unique && cookie.None? && key == "Cookie" && v.PString? {
          cookie := Some(v.s);
        }
      }
      n := n + 1;
    }
    s := Scan(unknown, badType, have, versions, cookie, stored);
  }

  // ---------------------------------------------------------------------
  // What the scan finds, in terms of the table alone.

  predicate Unknown(es: seq<Entry>, i: nat, acceptable: seq<string>)
    requires i < |es|
  {
    es[i].0 !in acceptable
  }

  /** A value iter refuses for its key. */
  predicate BadValue(key: string, v: PropValue) {
    if key == "Versions" then !v.PStructs? else !(v.PString? || v.PUint?)
  }

  predicate Bad(es: seq<Entry>, i: nat, acceptable: seq<string>)
    requires i < |es|
  {
    es[i].0 in acceptable && BadValue(es[i].0, es[i].1)
  }

  /** A hash table holds each key once. */
  predicate KeysDistinct(es: seq<Entry>) {
    forall i, j :: 0 <= i < j < |es| ==> es[i].0 != es[j].0
  }

  /** What one call of iter does to each variable. */
  lemma StepFields(s: Scan, e: Entry, acceptable: seq<string>, required: seq<string>, unique: bool)
    requires |s.have| == |required|
    ensures var r, key, v := Step(s, e, acceptable, required, unique), e.0, e.1;
      var checked := key in acceptable && s.unknown.None? && s.badType.None?;
      && r.unknown == (if key !in acceptable then Some(key) else s.unknown)
      && r.badType == (if checked && (BadValue(key, v) || (key == "Versions" && s.versions.Some?)) then Some(key) else s.badType)
      && r.versions == (if checked && key == "Versions" && v.PStructs? && s.versions.None? then Some(v.rows) else s.versions)
      && r.stored == (if checked && key != "Versions" && !BadValue(key, v) then s.stored + [e] else s.stored)
      && r.cookie == (if key in acceptable && unique && s.cookie.None? && key == "Cookie" && v.PString? then Some(v.s) else s.cookie)
      && forall q :: 0 <= q < |required| ==>
           r.have[q] == (s.have[q] || (key in acceptable && FirstIndex(required, key) == Some(q)))
  {
  }

  /** The unknown key reported is the last unknown key visited, and there is
      one exactly when some key is not acceptable. */
  lemma {:induction false} ScanUnknown(es: seq<Entry>, n: nat, acceptable: seq<string>, required: seq<string>, unique: bool)
    requires n <= |es|
    ensures var u := ScanAll(es, n, acceptable, required, unique).unknown;
      (u.Some? <==> exists i :: 0 <= i < n && Unknown(es, i, acceptable))
      && (u.Some? ==> exists i :: 0 <= i < n && Unknown(es, i, acceptable) && es[i].0 == u.value
                        && forall j :: i < j < n ==> !Unknown(es, j, acceptable))
  {
    if n > 0 {
      ScanUnknown(es, n - 1, acceptable, required, unique);
      var s := ScanAll(es, n - 1, acceptable, required, unique);
      StepFields(s, es[n - 1], acceptable, required, unique);
      if !Unknown(es, n - 1, acceptable) && s.unknown.Some? {
        var i :| 0 <= i < n - 1 && Unknown(es, i, acceptable) && es[i].0 == s.unknown.value
                 && forall j :: i < j < n - 1 ==> !Unknown(es, j, acceptable);
        assert forall j :: i < j < n ==> !Unknown(es, j, acceptable);
      }
    }
  }

  /** Required property r is marked seen exactly when its name is a key of
      the table (the required names are acceptable and distinct). */
  lemma {:induction false} ScanHave(es: seq<Entry>, n: nat, acceptable: seq<string>, required: seq<string>, unique: bool, r: nat)
    requires n <= |es| && r < |required| && Distinct(required)
    requires forall q :: q in required ==> q in acceptable
    ensures ScanAll(es, n, acceptable, required, unique).have[r] <==> exists i :: 0 <= i < n && es[i].0 == required[r]
  {
    if n > 0 {
      ScanHave(es, n - 1, acceptable, required, unique, r);
      var s := ScanAll(es, n - 1, acceptable, required, unique);
      StepFields(s, es[n - 1], acceptable, required, unique);
      var key := es[n - 1].0;
      if key == required[r] {
        assert FirstIndex(required, key) == Some(r);
      }
    }
  }

  /** Versions rows are only kept after a Versions key has been seen. */
  lemma {:induction false} ScanVersionsSeen(es: seq<Entry>, n: nat, acceptable: seq<string>, required: seq<string>, unique: bool)
    requires n <= |es|
    ensures ScanAll(es, n, acceptable, required, unique).versions.Some? ==>
      exists i :: 0 <= i < n && es[i].0 == "Versions"
  {
    if n > 0 {
      ScanVersionsSeen(es, n - 1, acceptable, required, unique);
      StepFields(ScanAll(es, n - 1, acceptable, required, unique), es[n - 1], acceptable, required, unique);
    }
  }

  /** While no unknown key has been seen, the reported bad key is the first
      key with a refused value (a repeated Versions cannot occur when keys
      are distinct). */
  lemma {:induction false} ScanBad(es: seq<Entry>, n: nat, acceptable: seq<string>, required: seq<string>, unique: bool)
    requires n <= |es| && KeysDistinct(es)
    requires ScanAll(es, n, acceptable, required, unique).unknown.None?
    ensures var b := ScanAll(es, n, acceptable, required, unique).badType;
      (b.Some? <==> exists i :: 0 <= i < n && Bad(es, i, acceptable))
      && (b.Some? ==> exists i :: (0 <= i < n && Bad(es, i, acceptable) && es[i].0 == b.value
                                   && forall j :: 0 <= j < i ==> !Bad(es, j, acceptable)))
  {
    if n > 0 {
      var s := ScanAll(es, n - 1, acceptable, required, unique);
      StepFields(s, es[n - 1], acceptable, required, unique);
      ScanBad(es, n - 1, acceptable, required, unique);
      ScanVersionsSeen(es, n - 1, acceptable, required, unique);
      var key := es[n - 1].0;
      assert key in acceptable;
      if s.versions.Some? {
        var i :| 0 <= i < n - 1 && es[i].0 == "Versions";
        assert key != "Versions";
      }
      assert Bad(es, n - 1, acceptable) <==> BadValue(key, es[n - 1].1);
    }
  }

  /** Without unknown or refused keys, the insert statement gets exactly the
      entries other than Versions, in visiting order, and the Versions rows
      are kept exactly when Versions is a key. */
  lemma {:induction false} ScanStored(es: seq<Entry>, n: nat, acceptable: seq<string>, required: seq<string>, unique: bool)
    requires n <= |es|
    requires var s := ScanAll(es, n, acceptable, required, unique); s.unknown.None? && s.badType.None?
    ensures ScanAll(es, n, acceptable, required, unique).stored == NonVersions(es, n)
    ensures ScanAll(es, n, acceptable, required, unique).versions.Some? <==> HasVersions(es, n)
  {
    if n > 0 {
      var s := ScanAll(es, n - 1, acceptable, required, unique);
      StepFields(s, es[n - 1], acceptable, required, unique);
      ScanStored(es, n - 1, acceptable, required, unique);
    }
  }

  /** Some of the first n entries has the key Versions. */
  predicate HasVersions(es: seq<Entry>, n: nat)
    requires n <= |es|
  {
    exists i :: 0 <= i < n && es[i].0 == "Versions"
  }

  /** The first n entries other than Versions, in order. */
  function NonVersions(es: seq<Entry>, n: nat): (r: seq<Entry>)
    requires n <= |es|
    ensures forall e :: e in r ==> e.0 != "Versions"
  {
    if n == 0 then []
    else NonVersions(es, n - 1) + (if es[n - 1].0 == "Versions" then [] else [es[n - 1]])
  }

  /** The cookie is the string value of the Cookie key, when uniqueness is
      asked for and Cookie is acceptable. */
  lemma {:induction false} ScanCookie(es: seq<Entry>, n: nat, acceptable: seq<string>, required: seq<string>, unique: bool)
    requires n <= |es| && KeysDistinct(es)
    ensures var c := ScanAll(es, n, acceptable, required, unique).cookie;
      (c.Some? <==> unique && "Cookie" in acceptable && exists i :: 0 <= i < n && es[i].0 == "Cookie" && es[i].1.PString?)
      && (c.Some? ==> exists i :: 0 <= i < n && es[i] == ("Cookie", PString(c.value)))
  {
    if n > 0 {
      ScanCookie(es, n - 1, acceptable, required, unique);
      var s := ScanAll(es, n - 1, acceptable, required, unique);
      StepFields(s, es[n - 1], acceptable, required, unique);
      if s.cookie.Some? {
        var i :| 0 <= i < n - 1 && es[i] == ("Cookie", PString(s.cookie.value));
        assert es[n - 1].0 != "Cookie";
      }
      if es[n - 1].0 == "Cookie" && es[n - 1].1.PString? {
        var v := es[n - 1].1;
        assert es[n - 1] == ("Cookie", PString(v.s));
      }
    }
  }

  // ---------------------------------------------------------------------
  // The decision after the walk.

  /** A row of the object table as the cookie query sees it. */
  datatype ObjectRow = ObjectRow(uuid: string, cookie: Option<string>)

  /** What object_register does before the insert: refuse with a code and
      a message, or go on to insert stored and versions. */
  datatype Prelude =
    | Refuse(code: int, message: string)
    | Insert(stored: seq<Entry>, versions: Option<seq<seq<Value>>>)

  /** The names joined with ", ". */
  function Join(xs: seq<string>): string {
    if xs == [] then [] else if |xs| == 1 then xs[0] else Join(xs[..|xs| - 1]) + ", " + xs[|xs| - 1]
  }

  /** The required names not seen, in declaration order. */
  function Missing(required: seq<string>, have: seq<bool>): (r: seq<string>)
    requires |have| == |required|
    ensures r == [] <==> forall i :: 0 <= i < |required| ==> have[i]
  {
    if required == [] then []
    else (if have[0] then [] else [required[0]]) + Missing(required[1..], have[1..])
  }

  /** The uuids of the rows the query "select uuid from <table> where
      cookie = ..." returns, in table order. */
  function WithCookie(rows: seq<ObjectRow>, c: string): (r: seq<string>)
    ensures r == [] <==> forall i :: 0 <= i < |rows| ==> rows[i].cookie != Some(c)
  {
    if rows == [] then []
    else WithCookie(rows[..|rows| - 1], c) + (if rows[|rows| - 1].cookie == Some(c) then [rows[|rows| - 1].uuid] else [])
  }

  /** Lines 292-375 on the scanned variables: unknown property, then
      unsupported type, then missing required properties, then the cookie
      checks. */
  function Decision(table: string, s: Scan, unique: bool, rows: seq<ObjectRow>): Prelude
    requires |s.have| == |REQUIRED_PROPERTIES|
  {
    var missing := Missing(REQUIRED_PROPERTIES, s.have);
    if s.unknown.Some? then Refuse(INVALID_ARGS, "Unknown property: " + s.unknown.value)
    else if s.badType.Some? then Refuse(INVALID_ARGS, "Argument has unsupported type: " + s.badType.value)
    else if missing != [] then Refuse(INVALID_ARGS, "Missing required properties: " + Join(missing))
    else if unique && s.cookie.None? then Refuse(OBJECT_EXISTS, "Cookie NULL not unique.")
    else if unique && WithCookie(rows, s.cookie.value) != [] then
      Refuse(OBJECT_EXISTS, "Cookie '" + s.cookie.value + "' not unique.  Other " + table
                            + " with cookie: " + Join(WithCookie(rows, s.cookie.value)))
    else Insert(s.stored, s.versions)
  }

  function ScanOf(acceptable: seq<string>, es: seq<Entry>, unique: bool): (s: Scan)
    ensures |s.have| == |REQUIRED_PROPERTIES|
  {
    ScanAll(es, |es|, acceptable, REQUIRED_PROPERTIES, unique)
  }

  /** object_register up to the insert, for a table of acceptable property
      names and the name of the object table. */
  function Decide(acceptable: seq<string>, table: string, es: seq<Entry>, unique: bool, rows: seq<ObjectRow>): Prelude {
    Decision(table, ScanOf(acceptable, es, unique), unique, rows)
  }

  /** The three register entry points. */
  function Register(k: RegisterKind, es: seq<Entry>, unique: bool, rows: seq<ObjectRow>): Prelude {
    Decide(Acceptable(k), ObjectTable(k), es, unique, rows)
  }

  /** Every acceptable list names HumanReadableName and Cookie. */
  predicate WellListed(acceptable: seq<string>) {
    "HumanReadableName" in acceptable && "Cookie" in acceptable
  }

  predicate HasUnknown(acceptable: seq<string>, es: seq<Entry>) {
    exists i :: 0 <= i < |es| && Unknown(es, i, acceptable)
  }

  predicate HasBad(acceptable: seq<string>, es: seq<Entry>) {
    exists i :: 0 <= i < |es| && Bad(es, i, acceptable)
  }

  predicate HasName(es: seq<Entry>) {
    exists i :: 0 <= i < |es| && es[i].0 == "HumanReadableName"
  }

  /** The scan's view of the three argument errors. */
  lemma ScanErrors(acceptable: seq<string>, es: seq<Entry>, unique: bool)
    requires KeysDistinct(es) && WellListed(acceptable)
    ensures var s := ScanOf(acceptable, es, unique);
      (s.unknown.Some? <==> HasUnknown(acceptable, es))
      && (s.unknown.None? ==> (s.badType.Some? <==> HasBad(acceptable, es)))
      && (Missing(REQUIRED_PROPERTIES, s.have) == [] <==> HasName(es))
  {
    var a, req := acceptable, REQUIRED_PROPERTIES;
    ScanUnknown(es, |es|, a, req, unique);
    ScanHave(es, |es|, a, req, unique, 0);
    if ScanOf(acceptable, es, unique).unknown.None? {
      ScanBad(es, |es|, a, req, unique);
    }
  }

  /** INVALID_ARGS exactly when a key is unknown, a value has an
      unsupported type or HumanReadableName is missing. */
  lemma DecideInvalid(acceptable: seq<string>, table: string, es: seq<Entry>, unique: bool, rows: seq<ObjectRow>)
    requires WellListed(acceptable)
    requires KeysDistinct(es)
    ensures Decide(acceptable, table, es, unique, rows).Refuse? && Decide(acceptable, table, es, unique, rows).code == INVALID_ARGS
      <==> HasUnknown(acceptable, es) || HasBad(acceptable, es) || !HasName(es)
  {
    ScanErrors(acceptable, es, unique);
  }

  /** An unknown key is reported before anything else, naming an unknown
      key of the table. */
  lemma DecideUnknownFirst(acceptable: seq<string>, table: string, es: seq<Entry>, unique: bool, rows: seq<ObjectRow>)
    requires HasUnknown(acceptable, es)
    ensures exists i :: 0 <= i < |es| && Unknown(es, i, acceptable)
                        && Decide(acceptable, table, es, unique, rows) == Refuse(INVALID_ARGS, "Unknown property: " + es[i].0)
  {
    ScanUnknown(es, |es|, acceptable, REQUIRED_PROPERTIES, unique);
  }

  /** Without unknown keys, the first refused value is reported next. */
  lemma DecideBadSecond(acceptable: seq<string>, table: string, es: seq<Entry>, unique: bool, rows: seq<ObjectRow>)
    requires WellListed(acceptable)
    requires KeysDistinct(es) && !HasUnknown(acceptable, es) && HasBad(acceptable, es)
    ensures exists i :: (0 <= i < |es| && Bad(es, i, acceptable) && (forall j :: 0 <= j < i ==> !Bad(es, j, acceptable))
                         && Decide(acceptable, table, es, unique, rows) == Refuse(INVALID_ARGS, "Argument has unsupported type: " + es[i].0))
  {
    ScanErrors(acceptable, es, unique);
    ScanBad(es, |es|, acceptable, REQUIRED_PROPERTIES, unique);
  }

  /** Then a missing HumanReadableName, the one required property. */
  lemma DecideMissingThird(acceptable: seq<string>, table: string, es: seq<Entry>, unique: bool, rows: seq<ObjectRow>)
    requires WellListed(acceptable)
    requires KeysDistinct(es) && !HasUnknown(acceptable, es) && !HasBad(acceptable, es) && !HasName(es)
    ensures Decide(acceptable, table, es, unique, rows) == Refuse(INVALID_ARGS, "Missing required properties: " + "HumanReadableName")
  {
    ScanErrors(acceptable, es, unique);
    var s := ScanOf(acceptable, es, unique);
    assert !s.have[0];
    assert Missing(REQUIRED_PROPERTIES, s.have) == ["HumanReadableName"];
  }

  lemma DecisionInsert(table: string, s: Scan, unique: bool, rows: seq<ObjectRow>)
    requires |s.have| == |REQUIRED_PROPERTIES| && Decision(table, s, unique, rows).Insert?
    ensures s.unknown.None? && s.badType.None? && Missing(REQUIRED_PROPERTIES, s.have) == []
    ensures Decision(table, s, unique, rows) == Insert(s.stored, s.versions)
    ensures unique ==> s.cookie.Some? && WithCookie(rows, s.cookie.value) == []
  {
  }

  /** A registration that gets to the insert has every required property
      and only acceptable keys with supported values. */
  lemma DecideInsertValid(acceptable: seq<string>, table: string, es: seq<Entry>, unique: bool, rows: seq<ObjectRow>)
    requires WellListed(acceptable)
    requires KeysDistinct(es) && Decide(acceptable, table, es, unique, rows).Insert?
    ensures HasName(es) && !HasUnknown(acceptable, es) && !HasBad(acceptable, es)
  {
    DecisionInsert(table, ScanOf(acceptable, es, unique), unique, rows);
    ScanErrors(acceptable, es, unique);
  }

  /** It inserts exactly the entries other than Versions, and the Versions
      rows when Versions is given. */
  lemma DecideInsert(acceptable: seq<string>, table: string, es: seq<Entry>, unique: bool, rows: seq<ObjectRow>)
    requires Decide(acceptable, table, es, unique, rows).Insert?
    ensures Decide(acceptable, table, es, unique, rows).stored == NonVersions(es, |es|)
    ensures Decide(acceptable, table, es, unique, rows).versions.Some? <==> HasVersions(es, |es|)
  {
    var s := ScanOf(acceptable, es, unique);
    DecisionInsert(table, s, unique, rows);
    ScanStored(es, |es|, acceptable, REQUIRED_PROPERTIES, unique);
  }

  /** When uniqueness is asked for, a registration that gets to the insert
      has a string Cookie that no row of the table holds. */
  lemma DecideInsertUnique(acceptable: seq<string>, table: string, es: seq<Entry>, rows: seq<ObjectRow>)
    requires KeysDistinct(es) && Decide(acceptable, table, es, true, rows).Insert?
    ensures exists i, c :: 0 <= i < |es| && es[i] == ("Cookie", PString(c))
                           && forall j :: 0 <= j < |rows| ==> rows[j].cookie != Some(c)
  {
    var s := ScanOf(acceptable, es, true);
    DecisionInsert(table, s, true, rows);
    ScanCookie(es, |es|, acceptable, REQUIRED_PROPERTIES, true);
    var i :| 0 <= i < |es| && es[i] == ("Cookie", PString(s.cookie.value));
  }

  /** With uniqueness asked for and otherwise valid arguments, the
      registration is refused, with OBJECT_EXISTS, exactly when there is no
      string Cookie or some row already has it. */
  lemma DecideCookie(acceptable: seq<string>, table: string, es: seq<Entry>, rows: seq<ObjectRow>)
    requires WellListed(acceptable)
    requires KeysDistinct(es) && !HasUnknown(acceptable, es) && !HasBad(acceptable, es) && HasName(es)
    ensures Decide(acceptable, table, es, true, rows).Refuse? ==> Decide(acceptable, table, es, true, rows).code == OBJECT_EXISTS
    ensures Decide(acceptable, table, es, true, rows).Refuse? <==>
      forall i :: 0 <= i < |es| && es[i].0 == "Cookie" && es[i].1.PString? ==>
        exists j :: 0 <= j < |rows| && rows[j].cookie == Some(es[i].1.s)
  {
    ScanErrors(acceptable, es, true);
    var s := ScanOf(acceptable, es, true);
    ScanCookie(es, |es|, acceptable, REQUIRED_PROPERTIES, true);
    if s.cookie.Some? {
      var i :| 0 <= i < |es| && es[i] == ("Cookie", PString(s.cookie.value));
      forall i' | 0 <= i' < |es| && es[i'].0 == "Cookie" && es[i'].1.PString?
        ensures i' == i
      {
      }
    }
  }
}
