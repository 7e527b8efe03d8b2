/** Removing managers, streams and objects, and recording what happened to an
    object's files (src/murmeltier.c:585-774, 829-837, 987-999, 1131-1141 and
    1335-1424).  The database is a map from table name to the rows of that
    table in the order the database returns them; a row carries its uuid and
    its parent_uuid.  SQL errors, transactions that fail for reasons of their
    own and the text of the statements are not part of this model. */
module MurmeltierObjects {
  import opened Wrappers
  import opened Woodchuck
  import opened Util
  import Debug

  datatype Row = Row(uuid: string, parent: string)

  type Db = map<string, seq<Row>>

  /** The rows of table t; a table the map does not hold has none. */
  function Table(db: Db, t: string): seq<Row> {
    if t in db then db[t] else []
  }

  // ---------------------------------------------------------------------
  // The probe: how many rows "select uuid from <table> where uuid = u" and
  // "select uuid from <child> where parent_uuid = u" return together.

  /** The number of rows with uuid u (byParent false) or with parent u. */
  function Hits(rs: seq<Row>, byParent: bool, u: string): (n: nat)
    ensures n <= |rs|
    ensures n == 0 <==> forall k :: 0 <= k < |rs| ==> !Matches(rs[k], byParent, u)
  {
    if rs == [] then 0
    else Hits(rs[..|rs| - 1], byParent, u) + (if Matches(rs[|rs| - 1], byParent, u) then 1 else 0)
  }

  predicate Matches(r: Row, byParent: bool, u: string) {
    if byParent then r.parent == u else r.uuid == u
  }

  /** The rows of the child tables whose parent is u. */
  function ChildHits(db: Db, children: seq<string>, u: string): nat {
    if children == [] then 0
    else ChildHits(db, children[..|children| - 1], u) + Hits(Table(db, children[|children| - 1]), true, u)
  }

  /** The rows the probe statement of object_unregister returns. */
  function ProbeRows(db: Db, table: string, children: seq<string>, u: string): nat {
    Hits(Table(db, table), false, u) + ChildHits(db, children, u)
  }

  // ---------------------------------------------------------------------
  // abort_if_too_many_callback and the loop of sqlite3_exec around it

  /** What a callback returns (non-zero aborts the statement) and the
      counter it leaves behind. */
  datatype Step = Step(abort: bool, count: int)

  /** abort_if_too_many_callback as written: it tests the pointer `count`,
      never NULL, against 0, so it never aborts and always decrements. */
  function CallbackAsWritten(count: int): (s: Step)
    ensures !s.abort && s.count == count - 1
  {
    Step(false, count - 1)
  }

  /** The callback the comment at murmeltier.c:619-622 describes: abort once
      the counter, which starts at 1, has been used up. */
  function Callback(count: int): (s: Step)
    ensures s.abort <==> count == 0
    ensures s.count == if count == 0 then count else count - 1
  {
    if count == 0 then Step(true, count) else Step(false, count - 1)
  }

  /** sqlite3_exec calling cb once per row until it returns non-zero. */
  function Exec(cb: int -> Step, rows: nat, count: int): Step
    decreases rows
  {
    if rows == 0 then Step(false, count)
    else
      var s := cb(count);
      if s.abort then s else Exec(cb, rows - 1, s.count)
  }

  /** As written, every row decrements the counter and nothing aborts. */
  lemma {:induction false} ExecAsWritten(rows: nat, count: int)
    ensures Exec(CallbackAsWritten, rows, count) == Step(false, count - rows)
  {
    if rows > 0 {
      ExecAsWritten(rows - 1, count - 1);
    }
  }

  /** With the intended callback, a counter of c lets c rows through and
      aborts at the next one. */
  lemma {:induction false} ExecCorrected(rows: nat, count: nat)
    ensures Exec(Callback, rows, count).abort <==> rows > count
    ensures rows <= count ==> Exec(Callback, rows, count).count == count - rows
  {
    if rows > 0 && count > 0 {
      ExecCorrected(rows - 1, count - 1);
    }
  }

  // ---------------------------------------------------------------------
  // The deletion statements

  /** The rows of rs that do not match. */
  function Keep(rs: seq<Row>, byParent: bool, u: string): (kept: seq<Row>)
    ensures |kept| + Hits(rs, byParent, u) == |rs|
    ensures forall r :: r in kept <==> r in rs && !Matches(r, byParent, u)
  {
    if rs == [] then []
    else
      var last := rs[|rs| - 1];
      Keep(rs[..|rs| - 1], byParent, u) + (if Matches(last, byParent, u) then [] else [last])
  }

  /** The database after some deletions, with the number of rows removed. */
  datatype Deletion = Deletion(db: Db, removed: nat)

  /** "delete from t where uuid = u" (or "where parent_uuid = u"). */
  function DeleteFrom(d: Deletion, t: string, byParent: bool, u: string): (e: Deletion)
    ensures e.removed == d.removed + Hits(Table(d.db, t), byParent, u)
    ensures e.db.Keys == d.db.Keys
    ensures forall x :: x != t ==> Table(e.db, x) == Table(d.db, x)
    ensures Table(e.db, t) == Keep(Table(d.db, t), byParent, u)
  {
    if t in d.db then Deletion(d.db[t := Keep(d.db[t], byParent, u)], d.removed + Hits(d.db[t], byParent, u))
    else d
  }

  /** One such statement per table of ts, in order. */
  function DeleteFromAll(d: Deletion, ts: seq<string>, byParent: bool, u: string): (e: Deletion)
    ensures e.removed >= d.removed
    ensures e.db.Keys == d.db.Keys
    ensures forall x :: x !in ts ==> Table(e.db, x) == Table(d.db, x)
    decreases |ts|
  {
    if ts == [] then d
    else DeleteFromAll(DeleteFrom(d, ts[0], byParent, u), ts[1..], byParent, u)
  }

  /** The deletion statement of object_unregister: the row of u in its table,
      its rows in the secondary tables, then the rows of its children in the
      child tables. */
  function Delete(db: Db, table: string, secondary: seq<string>, children: seq<string>, u: string): (d: Deletion)
    ensures d.db.Keys == db.Keys
    ensures forall x :: x != table && x !in secondary && x !in children ==> Table(d.db, x) == Table(db, x)
  {
    DeleteFromAll(DeleteFromAll(DeleteFrom(Deletion(db, 0), table, false, u), secondary, false, u), children, true, u)
  }

  /** What a run of deletions leaves of a table: only rows that were there,
      none that match a statement run on that table, and every row that
      matches none of them. */
  lemma {:induction false} DeleteFromAllRows(d: Deletion, ts: seq<string>, byParent: bool, u: string, x: string, r: Row)
    ensures r in Table(DeleteFromAll(d, ts, byParent, u).db, x) ==> r in Table(d.db, x)
    ensures x in ts && Matches(r, byParent, u) ==> r !in Table(DeleteFromAll(d, ts, byParent, u).db, x)
    ensures r in Table(d.db, x) && !Matches(r, byParent, u) ==> r in Table(DeleteFromAll(d, ts, byParent, u).db, x)
    decreases |ts|
  {
    if ts != [] {
      var d1 := DeleteFrom(d, ts[0], byParent, u);
      DeleteFromAllRows(d1, ts[1..], byParent, u, x, r);
      if x in ts && x != ts[0] {
        assert x in ts[1..];
      }
    }
  }

  /** After the deletion statement no named table holds a row of u, no child
      table a row whose parent is u; every other row is still there, and
      nothing new is. */
  lemma DeleteRows(db: Db, table: string, secondary: seq<string>, children: seq<string>, u: string, x: string, r: Row)
    ensures var after := Table(Delete(db, table, secondary, children, u).db, x);
      && (r in after ==> r in Table(db, x))
      && ((x == table || x in secondary) && r.uuid == u ==> r !in after)
      && (x in children && r.parent == u ==> r !in after)
      && (r in Table(db, x) && r.uuid != u && r.parent != u ==> r in after)
  {
    var d0 := DeleteFrom(Deletion(db, 0), table, false, u);
    var d1 := DeleteFromAll(d0, secondary, false, u);
    DeleteFromAllRows(d0, secondary, false, u, x, r);
    DeleteFromAllRows(d1, children, true, u, x, r);
  }

  /** A statement that matches nothing keeps the table as it is. */
  lemma {:induction false} KeepAll(rs: seq<Row>, byParent: bool, u: string)
    requires Hits(rs, byParent, u) == 0
    ensures Keep(rs, byParent, u) == rs
  {
    if rs != [] {
      var init := rs[..|rs| - 1];
      assert Hits(init, byParent, u) == 0;
      KeepAll(init, byParent, u);
      assert init + [rs[|rs| - 1]] == rs;
    }
  }

  lemma KeepAllTable(d: Deletion, t: string, byParent: bool, u: string)
    requires Hits(Table(d.db, t), byParent, u) == 0
    ensures DeleteFrom(d, t, byParent, u) == d
  {
    if t in d.db {
      KeepAll(d.db[t], byParent, u);
      assert d.db[t := d.db[t]] == d.db;
    }
  }

  /** Nothing removed means nothing changed. */
  lemma {:induction false} DeleteFromAllNone(d: Deletion, ts: seq<string>, byParent: bool, u: string)
    requires DeleteFromAll(d, ts, byParent, u).removed == d.removed
    ensures DeleteFromAll(d, ts, byParent, u).db == d.db
    decreases |ts|
  {
    if ts != [] {
      var d1 := DeleteFrom(d, ts[0], byParent, u);
      assert DeleteFromAll(d, ts, byParent, u) == DeleteFromAll(d1, ts[1..], byParent, u);
      KeepAllTable(d, ts[0], byParent, u);
      DeleteFromAllNone(d1, ts[1..], byParent, u);
    }
  }

  lemma DeleteNone(db: Db, table: string, secondary: seq<string>, children: seq<string>, u: string)
    requires Delete(db, table, secondary, children, u).removed == 0
    ensures Delete(db, table, secondary, children, u).db == db
  {
    var d0 := DeleteFrom(Deletion(db, 0), table, false, u);
    var d1 := DeleteFromAll(d0, secondary, false, u);
    KeepAllTable(Deletion(db, 0), table, false, u);
    DeleteFromAllNone(d0, secondary, false, u);
    DeleteFromAllNone(d1, children, true, u);
  }

  // ---------------------------------------------------------------------
  // object_unregister

  /** The return code, the GError message if one is set, and the database
      afterwards. */
  datatype Outcome = Outcome(code: int, error: Option<string>, db: Db)

  /** object_unregister with the probe callback cb.  When only_if_no_descendents
      holds, the probe runs with the counter at 1: an abort means
      descendants, a counter still at 1 means no row at all, and otherwise
      the rows are deleted.  Without it, the managers table is refused and
      any other table is deleted from directly. */
  function UnregisterWith(cb: int -> Step, db: Db, u: string, table: string, secondary: seq<string>,
                          children: seq<string>, onlyIfNoDescendants: bool): (o: Outcome)
  {
    if onlyIfNoDescendants then
      var s := Exec(cb, ProbeRows(db, table, children, u), 1);
      if s.abort then Outcome(GENERIC, Some(u + " has descendents, not removing."), db)
      else if s.count == 1 then Outcome(NO_SUCH_OBJECT, None, db)
      else Outcome(SUCCESS, None, Delete(db, table, secondary, children, u).db)
    else if table == "managers" then Outcome(NOT_IMPLEMENTED, None, db)
    else
      var d := Delete(db, table, secondary, children, u);
      if d.removed == 0 then Outcome(GENERIC, Some("Object '" + u + "' does not exist"), d.db)
      else Outcome(SUCCESS, None, d.db)
  }

  /** object_unregister as written (abort_if_too_many_callback tests the
      pointer). */
  function UnregisterAsWritten(db: Db, u: string, table: string, secondary: seq<string>,
                               children: seq<string>, onlyIfNoDescendants: bool): (o: Outcome)
    ensures onlyIfNoDescendants && ProbeRows(db, table, children, u) == 0 ==> o == Outcome(NO_SUCH_OBJECT, None, db)
    ensures onlyIfNoDescendants && ProbeRows(db, table, children, u) > 0 ==>
      o == Outcome(SUCCESS, None, Delete(db, table, secondary, children, u).db)
  {
    ExecAsWritten(ProbeRows(db, table, children, u), 1);
    UnregisterWith(CallbackAsWritten, db, u, table, secondary, children, onlyIfNoDescendants)
  }

  /** object_unregister with the counter dereferenced: nothing found is
      NO_SUCH_OBJECT, exactly one row is deleted, and two or more rows (the
      object and a child, or several children) refuse the removal and leave
      the database as it was. */
  function Unregister(db: Db, u: string, table: string, secondary: seq<string>,
                      children: seq<string>, onlyIfNoDescendants: bool): (o: Outcome)
    ensures onlyIfNoDescendants ==>
      (o.code == NO_SUCH_OBJECT <==> ProbeRows(db, table, children, u) == 0)
    ensures onlyIfNoDescendants ==>
      (o.code == SUCCESS <==> ProbeRows(db, table, children, u) == 1)
    ensures onlyIfNoDescendants ==>
      (o.code == GENERIC <==> ProbeRows(db, table, children, u) >= 2)
    ensures onlyIfNoDescendants && o.code != SUCCESS ==> o.db == db
    ensures onlyIfNoDescendants && o.code == GENERIC ==> o.error == Some(u + " has descendents, not removing.")
    ensures o.code == SUCCESS ==> o.db == Delete(db, table, secondary, children, u).db
  {
    ExecCorrected(ProbeRows(db, table, children, u), 1);
    UnregisterWith(Callback, db, u, table, secondary, children, onlyIfNoDescendants)
  }

  /** Without only_if_no_descendents: managers are refused untouched; for
      other tables the call succeeds exactly when some row was removed, and
      otherwise reports that the object does not exist with the database
      unchanged. */
  lemma UnregisterUnconditional(db: Db, u: string, table: string, secondary: seq<string>, children: seq<string>)
    ensures table == "managers" ==>
      Unregister(db, u, table, secondary, children, false) == Outcome(NOT_IMPLEMENTED, None, db)
    ensures table != "managers" ==>
      (Unregister(db, u, table, secondary, children, false).code == SUCCESS <==>
       Delete(db, table, secondary, children, u).removed > 0)
    ensures table != "managers" && Delete(db, table, secondary, children, u).removed == 0 ==>
      Unregister(db, u, table, secondary, children, false)
        == Outcome(GENERIC, Some("Object '" + u + "' does not exist"), db)
  {
    if table != "managers" && Delete(db, table, secondary, children, u).removed == 0 {
      DeleteNone(db, table, secondary, children, u);
    }
  }

  // The three callers and their table lists.

  const MANAGER_CHILD_TABLES := ["managers", "streams", "stream_updates"]
  const STREAM_SECONDARY_TABLES := ["stream_updates"]
  const STREAM_CHILD_TABLES := ["objects", "object_versions", "object_instance_status",
                                "object_instance_files", "object_use"]
  const OBJECT_SECONDARY_TABLES := ["object_versions", "object_instance_status",
                                    "object_instance_files", "object_use"]

  /** woodchuck_manager_unregister. */
  function ManagerUnregister(db: Db, manager: string, onlyIfNoDescendants: bool): (o: Outcome)
    ensures !onlyIfNoDescendants ==> o == Outcome(NOT_IMPLEMENTED, None, db)
  {
    Unregister(db, manager, "managers", [], MANAGER_CHILD_TABLES, onlyIfNoDescendants)
  }

  /** woodchuck_stream_unregister. */
  function StreamUnregister(db: Db, stream: string, onlyIfEmpty: bool): Outcome {
    Unregister(db, stream, "streams", STREAM_SECONDARY_TABLES, STREAM_CHILD_TABLES, onlyIfEmpty)
  }

  /** woodchuck_object_unregister: always with only_if_no_descendents, and
      objects have no child tables. */
  function ObjectUnregister(db: Db, obj: string): Outcome {
    Unregister(db, obj, "objects", OBJECT_SECONDARY_TABLES, [], true)
  }

  /** A manager with a registered child stream is not removed when
      descendants are to be kept. */
  lemma ManagerWithStreamKept(db: Db, manager: string, i: nat, k: nat)
    requires i < |Table(db, "managers")| && Table(db, "managers")[i].uuid == manager
    requires k < |Table(db, "streams")| && Table(db, "streams")[k].parent == manager
    ensures ManagerUnregister(db, manager, true) == Outcome(GENERIC, Some(manager + " has descendents, not removing."), db)
  {
    assert Matches(Table(db, "managers")[i], false, manager);
    assert Matches(Table(db, "streams")[k], true, manager);
    var cs := MANAGER_CHILD_TABLES;
    assert cs[..|cs| - 1][..1] == ["managers"] && cs[..|cs| - 1][..1][..0] == [];
    assert ChildHits(db, cs[..|cs| - 1], manager) >= Hits(Table(db, "streams"), true, manager);
  }

  /** The removal the comment promises to refuse: a manager with one child
      stream is deleted as written, and the stream's row with it. */
  lemma DescendantsRemovedAsWritten()
    ensures var db := map["managers" := [Row("m", "")], "streams" := [Row("s", "m")]];
      && UnregisterAsWritten(db, "m", "managers", [], MANAGER_CHILD_TABLES, true).code == SUCCESS
      && Table(UnregisterAsWritten(db, "m", "managers", [], MANAGER_CHILD_TABLES, true).db, "streams") == []
      && ManagerUnregister(db, "m", true).code == GENERIC
  {
    var db := map["managers" := [Row("m", "")], "streams" := [Row("s", "m")]];
    ManagerWithStreamKept(db, "m", 0, 0);
    var cs := MANAGER_CHILD_TABLES;
    assert cs[..|cs| - 1][..1] == ["managers"] && cs[..|cs| - 1][..1][..0] == [];
    assert ProbeRows(db, "managers", cs, "m") > 0;
    DeleteRows(db, "managers", [], cs, "m", "streams", Row("s", "m"));
    assert Table(db, "streams") == [Row("s", "m")];
  }

  // ---------------------------------------------------------------------
  // woodchuck_object_files_deleted

  /** time_t. */
  type I64 = x: int | -0x8000_0000_0000_0000 <= x < 0x8000_0000_0000_0000

  /** The column assignment the update statement applies to the object's
      newest instance. */
  datatype Assignment = MarkDeleted | SetCompressedSize(size: int) | SetPreserveUntil(until: int)

  /** Either an error code with its message, or the assignment made. */
  datatype FilesDeletedResult = Refuse(code: int, error: Option<string>) | Apply(assignment: Assignment)

  /** The instance number the row callback records: -1 when the object has
      no row, 0 when its instance column is NULL, and otherwise the number
      atoi reads from the column (atoi is not part of this model, so the row
      holds that number). */
  function Instance(row: Option<Option<int>>): int {
    match row
    case None => -1
    case Some(None) => 0
    case Some(Some(n)) => n
  }

  /** printf's %d of a number: a minus sign before the magnitude's digits. */
  function SignedDecimal(n: int): (s: string)
    ensures |s| > 0
  {
    if n < 0 then "-" + Debug.Decimal(-n) else Debug.Decimal(n)
  }

  /** The number a %d text denotes. */
  function SignedValue(s: string): int {
    if |s| > 0 && s[0] == '-' then 0 - Debug.DecimalValue(s[1..]) else Debug.DecimalValue(s)
  }

  /** The text reads back as the number. */
  lemma SignedDecimalReadsBack(n: int)
    ensures SignedValue(SignedDecimal(n)) == n
  {
    if n < 0 {
      Debug.DecimalReadsBack(-n);
      assert SignedDecimal(n)[1..] == Debug.Decimal(-n);
    } else {
      Debug.DecimalReadsBack(n);
    }
  }

  const BAD_UPDATE_PREFIX := "Bad value for Update argument: "

  /** woodchuck_object_files_deleted: an object without a row (or whose
      instance reads as -1) is NO_SUCH_OBJECT; the Update argument then
      selects the assignment, and any value other than Deleted, Refused and
      Compressed is INVALID_ARGS, printed with %d.  The compressed size is
      Arg, and the preservation limit now + Arg, both computed in uint64_t
      and printed with PRId64. */
  function FilesDeleted(row: Option<Option<int>>, update: U32, arg: U64, now: I64): (r: FilesDeletedResult)
    ensures r == Refuse(NO_SUCH_OBJECT, None) <==> Instance(row) == -1
    ensures r.Apply? <==> Instance(row) != -1 && DeletionResponseOfCode(update).Some?
    ensures r.Refuse? && r.code == INVALID_ARGS <==> Instance(row) != -1 && DeletionResponseOfCode(update).None?
  {
    if Instance(row) == -1 then Refuse(NO_SUCH_OBJECT, None)
    else match DeletionResponseOfCode(update)
      case None => Refuse(INVALID_ARGS, Some(BAD_UPDATE_PREFIX + SignedDecimal(ToInt32(update))))
      case Some(Deleted) => Apply(MarkDeleted)
      case Some(Compressed) => Apply(SetCompressedSize(ToInt64(arg)))
      case Some(Refused) => Apply(SetPreserveUntil(ToInt64((now + arg) % UINT64_LIMIT)))
  }

  /** Each accepted Update value selects its own column: Deleted sets the
      deleted flag, Compressed the compressed size (Arg's bits read as
      int64_t, which as uint64_t are Arg again), and Refused the
      preservation limit, which is now + Arg whenever that does not
      overflow. */
  lemma FilesDeletedAssignment(row: Option<Option<int>>, r: DeletionResponse, arg: U64, now: I64)
    requires Instance(row) != -1
    ensures r == Deleted ==> FilesDeleted(row, r.Code(), arg, now) == Apply(MarkDeleted)
    ensures r == Compressed ==> FilesDeleted(row, r.Code(), arg, now).assignment.SetCompressedSize?
    ensures r == Compressed ==> FilesDeleted(row, r.Code(), arg, now).assignment.size % UINT64_LIMIT == arg
    ensures r == Refused ==> FilesDeleted(row, r.Code(), arg, now).assignment.SetPreserveUntil?
    ensures r == Refused ==> FilesDeleted(row, r.Code(), arg, now).assignment.until % UINT64_LIMIT == (now + arg) % UINT64_LIMIT
    ensures r == Refused && 0 <= now + arg < 0x8000_0000_0000_0000 ==>
      FilesDeleted(row, r.Code(), arg, now).assignment.until == now + arg
  {
    DeletionCodesRoundTrip(Precious, r);
  }

  /** The error message for a bad Update value names that value: read back
      as an int and taken modulo 2^32 it gives the Update argument. */
  lemma BadUpdateMessage(row: Option<Option<int>>, update: U32, arg: U64, now: I64)
    requires Instance(row) != -1 && update >= 3
    ensures FilesDeleted(row, update, arg, now).error.Some?
    ensures var e := FilesDeleted(row, update, arg, now).error.value;
      && |e| > |BAD_UPDATE_PREFIX|
      && e[..|BAD_UPDATE_PREFIX|] == BAD_UPDATE_PREFIX
      && SignedValue(e[|BAD_UPDATE_PREFIX|..]) % UINT32_LIMIT == update
  {
    var n := ToInt32(update);
    SignedDecimalReadsBack(n);
    var e := BAD_UPDATE_PREFIX + SignedDecimal(n);
    assert e[|BAD_UPDATE_PREFIX|..] == SignedDecimal(n);
    assert e[..|BAD_UPDATE_PREFIX|] == BAD_UPDATE_PREFIX;
  }
}
