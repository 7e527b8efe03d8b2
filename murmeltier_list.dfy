/** Listing managers (src/murmeltier.c:521-544 and 841-889): list_callback,
    which turns one result row into a tuple of nullable strings, and
    woodchuck_manager_list_managers, which lists all managers, the immediate
    children of a manager, or every descendant of a manager by walking the
    growing result list breadth first.  The managers table is a sequence of
    rows in the order the database returns them; a query "where parent_uuid
    = p" visits the rows with that parent in that order. */
module MurmeltierList {
  import opened Wrappers

  /** A column value; None is SQL NULL. */
  type Cell = Option<string>

  /** One tuple of the result list (a GPtrArray of strings). */
  type Tuple = seq<Cell>

  // ---------------------------------------------------------------------
  // list_callback

  /** The copy list_callback makes of one column: an empty parent_uuid
      becomes NULL, everything else is copied. */
  function Copied(name: string, cell: Cell): (c: Cell)
    ensures c.None? <==> cell.None? || (name == "parent_uuid" && cell == Some(""))
    ensures c.Some? ==> c == cell
  {
    if name == "parent_uuid" && cell == Some("") then None else cell
  }

  /** The tuple list_callback builds from the column names and values. */
  function RowOf(names: seq<string>, argv: seq<Cell>): (row: Tuple)
    requires |names| == |argv|
    ensures |row| == |argv|
    ensures forall i :: 0 <= i < |argv| && names[i] != "parent_uuid" ==> row[i] == argv[i]
    ensures forall i :: 0 <= i < |argv| && names[i] == "parent_uuid" ==>
      (argv[i] == Some("") ==> row[i].None?) && (argv[i] != Some("") ==> row[i] == argv[i])
  {
    seq(|argv|, i requires 0 <= i < |argv| => Copied(names[i], argv[i]))
  }

  /** list_callback: one tuple of argc fields appended to the list.  The
      source reads the first character of a parent_uuid value, so that value
      must not be NULL. */
  method ListCallback(list: seq<Tuple>, names: seq<string>, argv: seq<Cell>) returns (list': seq<Tuple>)
    requires |names| == |argv|
    requires forall i :: 0 <= i < |argv| && names[i] == "parent_uuid" ==> argv[i].Some?
    ensures list' == list + [RowOf(names, argv)]
  {
    var strct: Tuple := [];
    var i := 0;
    while i < |argv|
      invariant 0 <= i <= |argv|
      invariant |strct| == i
      invariant forall j :: 0 <= j < i ==> strct[j] == Copied(names[j], argv[j])
    {
      if names[i] == "parent_uuid" && argv[i].value == "" {
        strct := strct + [None];
      } else {
        strct := strct + [argv[i]];
      }
      i := i + 1;
    }
    assert strct == RowOf(names, argv);
    list' := list + [strct];
  }

  // ---------------------------------------------------------------------
  // The managers table

  /** A row of the managers table; parent_uuid is "" for a top-level
      manager. */
  datatype Manager = Manager(uuid: string, cookie: Cell, name: Cell, parent: string)

  /** The columns every manager query selects. */
  const MANAGER_COLUMNS: seq<string> := ["uuid", "Cookie", "HumanReadableName", "parent_uuid"]

  function Cells(m: Manager): seq<Cell> {
    [Some(m.uuid), m.cookie, m.name, Some(m.parent)]
  }

  /** The tuple a manager row becomes: uuid, Cookie, HumanReadableName as
      stored, and parent_uuid NULL for a top-level manager. */
  function ManagerRow(m: Manager): Tuple {
    [Some(m.uuid), m.cookie, m.name, if m.parent == "" then None else Some(m.parent)]
  }

  /** That is the tuple list_callback builds from the four selected
      columns. */
  lemma ManagerRowIsCallbackRow(m: Manager)
    ensures RowOf(MANAGER_COLUMNS, Cells(m)) == ManagerRow(m)
  {
    var row := RowOf(MANAGER_COLUMNS, Cells(m));
    assert MANAGER_COLUMNS[3] == "parent_uuid";
    assert row[3] == ManagerRow(m)[3];
  }

  /** The indices below n of the rows a query selects: those with parent
      uuid p, or all rows when p is None. */
  function Selected(db: seq<Manager>, p: Option<string>, n: nat): (ix: seq<nat>)
    requires n <= |db|
    ensures forall t :: 0 <= t < |ix| ==> ix[t] < n
  {
    if n == 0 then []
    else Selected(db, p, n - 1) + (if p.None? || db[n - 1].parent == p.value then [n - 1] else [])
  }

  /** A query selects, in increasing order, exactly the rows that match. */
  lemma {:induction false} SelectedMatches(db: seq<Manager>, p: Option<string>, n: nat)
    requires n <= |db|
    ensures forall t :: 0 <= t < |Selected(db, p, n)| ==> p.None? || db[Selected(db, p, n)[t]].parent == p.value
    ensures forall k :: 0 <= k < n && (p.None? || db[k].parent == p.value) ==> k in Selected(db, p, n)
    ensures forall s, t :: 0 <= s < t < |Selected(db, p, n)| ==> Selected(db, p, n)[s] < Selected(db, p, n)[t]
  {
    if n > 0 {
      SelectedMatches(db, p, n - 1);
      var pre := Selected(db, p, n - 1);
      var last: seq<nat> := if p.None? || db[n - 1].parent == p.value then [n - 1] else [];
      var ix := Selected(db, p, n);
      assert ix == pre + last;
      forall k | 0 <= k < n && (p.None? || db[k].parent == p.value)
        ensures k in ix
      {
        if k < n - 1 {
          assert k in pre;
        } else {
          assert ix[|pre|] == k;
        }
      }
      forall s, t | 0 <= s < t < |ix|
        ensures ix[s] < ix[t]
      {
        if t >= |pre| {
          assert ix[t] == n - 1;
          assert ix[s] == pre[s];
        }
      }
    }
  }

  /** The tuples of the rows at the given indices. */
  function Rows(db: seq<Manager>, ix: seq<nat>): (rows: seq<Tuple>)
    requires forall t :: 0 <= t < |ix| ==> ix[t] < |db|
    ensures |rows| == |ix| && forall t :: 0 <= t < |ix| ==> rows[t] == ManagerRow(db[ix[t]])
  {
    seq(|ix|, t requires 0 <= t < |ix| => ManagerRow(db[ix[t]]))
  }

  lemma RowsSnoc(db: seq<Manager>, ix: seq<nat>, k: nat)
    requires k < |db| && forall t :: 0 <= t < |ix| ==> ix[t] < |db|
    ensures Rows(db, ix + [k]) == Rows(db, ix) + [ManagerRow(db[k])]
  {
  }

  /** One sqlite3_exec of a manager query with list_callback: the selected
      rows' tuples, in table order, appended to the list. */
  method Select(db: seq<Manager>, p: Option<string>, list: seq<Tuple>) returns (list': seq<Tuple>)
    ensures list' == list + Rows(db, Selected(db, p, |db|))
  {
    list' := list;
    var k := 0;
    while k < |db|
      invariant 0 <= k <= |db|
      invariant list' == list + Rows(db, Selected(db, p, k))
    {
      if p.None? || db[k].parent == p.value {
        list' := ListCallback(list', MANAGER_COLUMNS, Cells(db[k]));
        ManagerRowIsCallbackRow(db[k]);
        RowsSnoc(db, Selected(db, p, k), k);
      }
      k := k + 1;
    }
  }

  // ---------------------------------------------------------------------
  // Descendants

  /** No two managers share a uuid. */
  predicate UniqueIds(db: seq<Manager>) {
    forall j, k :: 0 <= j < k < |db| ==> db[j].uuid != db[k].uuid
  }

  /** A parent row comes before its children.  Uuids are fresh random
      values when a row is inserted, and a child names an existing parent,
      so the parent relation of a table built by registration is acyclic
      and ordered this way. */
  predicate ParentsFirst(db: seq<Manager>) {
    forall j, k :: 0 <= j < |db| && 0 <= k < |db| && db[k].parent == db[j].uuid ==> j < k
  }

  /** Row k is a descendant of the manager with uuid m: its parent is m, or
      its parent row is such a descendant. */
  predicate Descendant(db: seq<Manager>, m: string, k: nat)
    requires k < |db|
    decreases k
  {
    db[k].parent == m || exists j :: 0 <= j < k && db[j].uuid == db[k].parent && Descendant(db, m, j)
  }

  /** A descendant comes after the row of the manager it descends from, so
      no descendant has the uuid it descends from. */
  lemma {:induction false} DescendantAfter(db: seq<Manager>, m: string, k: nat, r: nat)
    requires ParentsFirst(db) && k < |db| && r < |db| && db[r].uuid == m
    requires Descendant(db, m, k)
    ensures r < k
    decreases k
  {
    if db[k].parent != m {
      var j :| 0 <= j < k && db[j].uuid == db[k].parent && Descendant(db, m, j);
      DescendantAfter(db, m, j, r);
    }
  }

  /** A child of a descendant is a descendant. */
  lemma ChildDescends(db: seq<Manager>, m: string, j: nat, c: nat)
    requires ParentsFirst(db) && j < |db| && c < |db|
    requires Descendant(db, m, j) && db[c].parent == db[j].uuid
    ensures Descendant(db, m, c)
  {
    assert j < c;
  }

  /** A list closed under children holds every descendant. */
  lemma {:induction false} ClosedHoldsDescendants(db: seq<Manager>, m: string, found: seq<nat>, k: nat)
    requires forall t :: 0 <= t < |found| ==> found[t] < |db|
    requires forall c :: 0 <= c < |db| && db[c].parent == m ==> c in found
    requires forall c, t :: 0 <= c < |db| && 0 <= t < |found| && db[c].parent == db[found[t]].uuid ==> c in found
    requires k < |db| && Descendant(db, m, k)
    ensures k in found
    decreases k
  {
    if db[k].parent != m {
      var j :| 0 <= j < k && db[j].uuid == db[k].parent && Descendant(db, m, j);
      ClosedHoldsDescendants(db, m, found, j);
      var t :| 0 <= t < |found| && found[t] == j;
    }
  }

  /** x is one of the parents whose children have been fetched when i
      tuples have been taken from the list: m, then the uuids of the first
      i - 1 found rows. */
  ghost predicate Fetched(db: seq<Manager>, m: string, found: seq<nat>, i: nat, x: string)
    requires i <= |found| + 1 && forall t :: 0 <= t < |found| ==> found[t] < |db|
  {
    i > 0 && (x == m || exists t :: 0 <= t < i - 1 && db[found[t]].uuid == x)
  }

  /** The parent of the next query when i tuples have been taken. */
  ghost function Next(db: seq<Manager>, m: string, found: seq<nat>, i: nat): string
    requires i <= |found| && forall t :: 0 <= t < |found| ==> found[t] < |db|
  {
    if i == 0 then m else db[found[i - 1]].uuid
  }

  /** A tuple is the row of some descendant of m. */
  ghost predicate DescendantRow(db: seq<Manager>, m: string, r: Tuple)
  {
    exists k :: 0 <= k < |db| && Descendant(db, m, k) && r == ManagerRow(db[k])
  }

  /** The loop state of the recursive listing: the found rows are distinct
      descendants, their tuples are the list, and the found rows are
      exactly the children of the fetched parents. */
  ghost predicate Walk(db: seq<Manager>, m: string, managers: seq<Tuple>, found: seq<nat>, i: nat)
  {
    && i <= |found| + 1
    && |managers| == |found|
    && (forall t :: 0 <= t < |found| ==> found[t] < |db| && managers[t] == ManagerRow(db[found[t]]))
    && (forall t :: 0 <= t < |found| ==> Descendant(db, m, found[t]))
    && (forall s, t :: 0 <= s < t < |found| ==> found[s] != found[t])
    && (forall c :: 0 <= c < |db| ==> (c in found <==> Fetched(db, m, found, i, db[c].parent)))
  }

  /** The next parent has not been fetched before. */
  lemma NextFresh(db: seq<Manager>, m: string, managers: seq<Tuple>, found: seq<nat>, i: nat)
    requires UniqueIds(db) && ParentsFirst(db)
    requires Walk(db, m, managers, found, i) && i <= |found|
    ensures !Fetched(db, m, found, i, Next(db, m, found, i))
  {
    if i > 0 {
      var k := found[i - 1];
      if db[k].uuid == m {
        DescendantAfter(db, m, k, k);
      }
      forall t | 0 <= t < i - 1
        ensures db[found[t]].uuid != db[k].uuid
      {
        assert found[t] != k;
      }
    }
  }

  /** Fetching the next parent's children adds that parent. */
  lemma FetchedGrows(db: seq<Manager>, m: string, found: seq<nat>, ch: seq<nat>, i: nat, x: string)
    requires i <= |found| && forall t :: 0 <= t < |found| ==> found[t] < |db|
    requires forall t :: 0 <= t < |ch| ==> ch[t] < |db|
    ensures Fetched(db, m, found + ch, i + 1, x) <==> Fetched(db, m, found, i, x) || x == Next(db, m, found, i)
  {
    var f := found + ch;
    if i > 0 {
      assert forall t :: 0 <= t < i ==> f[t] == found[t];
      if x == db[found[i - 1]].uuid {
        assert f[i - 1] == found[i - 1];
      }
      if exists t :: 0 <= t < i && db[f[t]].uuid == x {
        var t :| 0 <= t < i && db[f[t]].uuid == x;
        assert f[t] == found[t];
      }
      if exists t :: 0 <= t < i - 1 && db[found[t]].uuid == x {
        var t :| 0 <= t < i - 1 && db[found[t]].uuid == x;
        assert f[t] == found[t];
      }
    }
  }

  /** The appended tuples are those of the appended rows. */
  lemma AppendRows(db: seq<Manager>, managers: seq<Tuple>, found: seq<nat>, ch: seq<nat>,
                   managers': seq<Tuple>, found': seq<nat>)
    requires |managers| == |found|
    requires forall t :: 0 <= t < |found| ==> found[t] < |db| && managers[t] == ManagerRow(db[found[t]])
    requires forall t :: 0 <= t < |ch| ==> ch[t] < |db|
    requires managers' == managers + Rows(db, ch) && found' == found + ch
    ensures |managers'| == |found'|
    ensures forall t :: 0 <= t < |found'| ==> found'[t] < |db| && managers'[t] == ManagerRow(db[found'[t]])
  {
    forall t | 0 <= t < |found'|
      ensures found'[t] < |db| && managers'[t] == ManagerRow(db[found'[t]])
    {
      if t >= |found| {
        assert managers'[t] == Rows(db, ch)[t - |found|];
      }
    }
  }

  /** The children of the next parent are descendants. */
  lemma AppendDescendants(db: seq<Manager>, m: string, found: seq<nat>, i: nat, ch: seq<nat>, found': seq<nat>)
    requires ParentsFirst(db) && i <= |found|
    requires forall t :: 0 <= t < |found| ==> found[t] < |db| && Descendant(db, m, found[t])
    requires ch == Selected(db, Some(Next(db, m, found, i)), |db|)
    requires found' == found + ch
    ensures forall t :: 0 <= t < |found'| ==> found'[t] < |db| && Descendant(db, m, found'[t])
  {
    SelectedMatches(db, Some(Next(db, m, found, i)), |db|);
    forall t | 0 <= t < |found'|
      ensures found'[t] < |db| && Descendant(db, m, found'[t])
    {
      if t >= |found| {
        assert found'[t] == ch[t - |found|];
        if i > 0 {
          ChildDescends(db, m, found[i - 1], found'[t]);
        }
      }
    }
  }

  /** Children of a parent not fetched before are new. */
  lemma AppendDistinct(db: seq<Manager>, m: string, found: seq<nat>, i: nat, ch: seq<nat>, found': seq<nat>)
    requires i <= |found| && forall t :: 0 <= t < |found| ==> found[t] < |db|
    requires forall s, t :: 0 <= s < t < |found| ==> found[s] != found[t]
    requires forall c :: 0 <= c < |db| ==> (c in found <==> Fetched(db, m, found, i, db[c].parent))
    requires !Fetched(db, m, found, i, Next(db, m, found, i))
    requires ch == Selected(db, Some(Next(db, m, found, i)), |db|)
    requires found' == found + ch
    ensures forall s, t :: 0 <= s < t < |found'| ==> found'[s] != found'[t]
  {
    SelectedMatches(db, Some(Next(db, m, found, i)), |db|);
    forall s, t | 0 <= s < t < |found'|
      ensures found'[s] != found'[t]
    {
      if s < |found| && t >= |found| {
        assert found'[t] == ch[t - |found|];
        assert found'[s] in found;
      } else if s >= |found| {
        assert found'[s] == ch[s - |found|] && found'[t] == ch[t - |found|];
      }
    }
  }

  /** After the fetch, the found rows are the children of the fetched
      parents, the next parent included. */
  lemma AppendClosed(db: seq<Manager>, m: string, found: seq<nat>, i: nat, ch: seq<nat>, found': seq<nat>)
    requires i <= |found| && forall t :: 0 <= t < |found| ==> found[t] < |db|
    requires forall c :: 0 <= c < |db| ==> (c in found <==> Fetched(db, m, found, i, db[c].parent))
    requires ch == Selected(db, Some(Next(db, m, found, i)), |db|)
    requires found' == found + ch
    ensures forall c :: 0 <= c < |db| ==> (c in found' <==> Fetched(db, m, found', i + 1, db[c].parent))
  {
    var parent := Next(db, m, found, i);
    SelectedMatches(db, Some(parent), |db|);
    forall c | 0 <= c < |db|
      ensures c in found' <==> Fetched(db, m, found', i + 1, db[c].parent)
    {
      FetchedGrows(db, m, found, ch, i, db[c].parent);
      if db[c].parent == parent {
        assert c in ch;
      }
    }
  }

  /** Fetching the children of the next parent keeps the walk. */
  lemma WalkStep(db: seq<Manager>, m: string, managers: seq<Tuple>, found: seq<nat>, i: nat,
                 ch: seq<nat>, managers': seq<Tuple>, found': seq<nat>)
    requires UniqueIds(db) && ParentsFirst(db)
    requires Walk(db, m, managers, found, i) && i <= |found|
    requires ch == Selected(db, Some(Next(db, m, found, i)), |db|)
    requires managers' == managers + Rows(db, ch) && found' == found + ch
    ensures Walk(db, m, managers', found', i + 1)
  {
    NextFresh(db, m, managers, found, i);
    AppendRows(db, managers, found, ch, managers', found');
    AppendDescendants(db, m, found, i, ch, found');
    AppendDistinct(db, m, found, i, ch, found');
    AppendClosed(db, m, found, i, ch, found');
  }

  /** The walk that has taken every tuple from the list has found exactly
      the descendants. */
  lemma WalkDone(db: seq<Manager>, m: string, managers: seq<Tuple>, found: seq<nat>)
    requires Walk(db, m, managers, found, |found| + 1)
    ensures forall k :: 0 <= k < |db| ==> (k in found <==> Descendant(db, m, k))
  {
    forall c, t | 0 <= c < |db| && 0 <= t < |found| && db[c].parent == db[found[t]].uuid
      ensures c in found
    {
      assert Fetched(db, m, found, |found| + 1, db[c].parent);
    }
    forall k | 0 <= k < |db| && Descendant(db, m, k)
      ensures k in found
    {
      ClosedHoldsDescendants(db, m, found, k);
    }
  }

  /** The list of a finished walk holds each descendant's tuple once and
      nothing else. */
  lemma WalkListing(db: seq<Manager>, m: string, managers: seq<Tuple>, found: seq<nat>)
    requires UniqueIds(db) && Walk(db, m, managers, found, |found| + 1)
    ensures forall k :: 0 <= k < |db| && Descendant(db, m, k) ==> ManagerRow(db[k]) in managers
    ensures forall t :: 0 <= t < |managers| ==> DescendantRow(db, m, managers[t])
    ensures forall s, t :: 0 <= s < t < |managers| ==> managers[s] != managers[t]
  {
    WalkDone(db, m, managers, found);
    forall k | 0 <= k < |db| && Descendant(db, m, k)
      ensures ManagerRow(db[k]) in managers
    {
      var t :| 0 <= t < |found| && found[t] == k;
      assert managers[t] == ManagerRow(db[k]);
    }
    forall t | 0 <= t < |managers|
      ensures DescendantRow(db, m, managers[t])
    {
      assert Descendant(db, m, found[t]) && managers[t] == ManagerRow(db[found[t]]);
    }
    forall s, t | 0 <= s < t < |managers|
      ensures managers[s] != managers[t]
    {
      assert managers[s][0] == Some(db[found[s]].uuid);
      assert managers[t][0] == Some(db[found[t]].uuid);
    }
  }

  /** The loop of the recursive branch (lines 855-878): after each query
      the next tuple of the list supplies the parent of the next query,
      until the list is used up.  found is the row index behind each
      tuple. */
  method Walker(db: seq<Manager>, m: string) returns (managers: seq<Tuple>, ghost found: seq<nat>)
    requires UniqueIds(db) && ParentsFirst(db)
    ensures Walk(db, m, managers, found, |found| + 1)
  {
    managers := [];
    var parent := m;
    var i := 0;
    found := [];
    while true
      invariant Walk(db, m, managers, found, i) && i <= |found|
      invariant parent == Next(db, m, found, i)
      decreases Untaken(db, found, i)
    {
      var managers', found' := WalkOnce(db, m, managers, found, i, parent);
      if i >= |managers'| {
        managers, found := managers', found';
        break;
      }
      parent := managers'[i][0].value;
      managers, found, i := managers', found', i + 1;
    }
  }

  /** One pass of that loop: the children of the current parent are
      appended to the list, and the next tuple, if any, names a new parent. */
  method WalkOnce(db: seq<Manager>, m: string, managers: seq<Tuple>, ghost found: seq<nat>, i: nat, parent: string)
    returns (managers': seq<Tuple>, ghost found': seq<nat>)
    requires UniqueIds(db) && ParentsFirst(db)
    requires Walk(db, m, managers, found, i) && i <= |found| && parent == Next(db, m, found, i)
    ensures Walk(db, m, managers', found', i + 1) && |managers'| == |found'|
    ensures i < |found'| ==> managers'[i][0] == Some(Next(db, m, found', i + 1))
    ensures i < |found'| ==> Untaken(db, found', i + 1) < Untaken(db, found, i)
  {
    ghost var ch := Selected(db, Some(parent), |db|);
    managers' := Select(db, Some(parent), managers);
    WalkStep(db, m, managers, found, i, ch, managers', found + ch);
    found' := found + ch;
    if i < |found'| {
      Advance(db, m, managers', found, ch, found', i);
    }
  }

  /** The recursive branch for a given manager: the result lists every
      descendant of the manager exactly once, and nothing else. */
  method ListDescendants(db: seq<Manager>, m: string) returns (managers: seq<Tuple>)
    requires UniqueIds(db) && ParentsFirst(db)
    ensures forall k :: 0 <= k < |db| && Descendant(db, m, k) ==> ManagerRow(db[k]) in managers
    ensures forall t :: 0 <= t < |managers| ==> DescendantRow(db, m, managers[t])
    ensures forall s, t :: 0 <= s < t < |managers| ==> managers[s] != managers[t]
  {
    ghost var found: seq<nat>;
    managers, found := Walker(db, m);
    WalkListing(db, m, managers, found);
  }

  /** The rows not among the first i found. */
  ghost function Untaken(db: seq<Manager>, found: seq<nat>, i: nat): set<nat>
    requires i <= |found|
  {
    set k | 0 <= k < |db| && k !in found[..i]
  }

  /** Taking one more distinct found row shrinks the rows not yet taken. */
  lemma DropOne(db: seq<Manager>, found: seq<nat>, ch: seq<nat>, found': seq<nat>, i: nat)
    requires found' == found + ch && i < |found'| && i <= |found| && found'[i] < |db|
    requires forall s, t :: 0 <= s < t < |found'| ==> found'[s] != found'[t]
    ensures Untaken(db, found', i + 1) < Untaken(db, found, i)
  {
    assert found'[..i + 1] == found[..i] + [found'[i]];
    assert found'[..i] == found[..i];
    assert forall s :: 0 <= s < i ==> found'[s] != found'[i];
    assert found'[i] !in found[..i];
    assert found'[i] in Untaken(db, found, i);
  }

  /** Moving on to the next tuple of the list: its uuid is the next parent,
      and one more row is taken. */
  lemma Advance(db: seq<Manager>, m: string, managers': seq<Tuple>, found: seq<nat>, ch: seq<nat>,
                found': seq<nat>, i: nat)
    requires Walk(db, m, managers', found', i + 1) && found' == found + ch && i < |found'| && i <= |found|
    ensures managers'[i][0] == Some(Next(db, m, found', i + 1))
    ensures Untaken(db, found', i + 1) < Untaken(db, found, i)
  {
    DropOne(db, found, ch, found', i);
  }

  /** woodchuck_manager_list_managers: every manager when recursive without
      a manager, the immediate children of the manager (top-level managers
      for none) when not recursive, and the descendants otherwise. */
  method ListManagers(db: seq<Manager>, manager: Option<string>, recursive: bool) returns (managers: seq<Tuple>)
    requires recursive && manager.Some? ==> UniqueIds(db) && ParentsFirst(db)
    ensures recursive && manager.None? ==> managers == Rows(db, Selected(db, None, |db|))
    ensures !recursive ==> managers == Rows(db, Selected(db, Some(manager.GetOr("")), |db|))
    ensures recursive && manager.Some? ==>
      forall k :: 0 <= k < |db| && Descendant(db, manager.value, k) ==> ManagerRow(db[k]) in managers
    ensures recursive && manager.Some? ==> forall t :: 0 <= t < |managers| ==> DescendantRow(db, manager.value, managers[t])
    ensures recursive && manager.Some? ==> forall s, t :: 0 <= s < t < |managers| ==> managers[s] != managers[t]
  {
    if recursive && manager.None? {
      managers := Select(db, None, []);
      assert [] + Rows(db, Selected(db, None, |db|)) == Rows(db, Selected(db, None, |db|));
    } else if recursive {
      managers := ListDescendants(db, manager.value);
    } else {
      managers := Select(db, Some(manager.GetOr("")), []);
      assert [] + Rows(db, Selected(db, Some(manager.GetOr("")), |db|)) == Rows(db, Selected(db, Some(manager.GetOr("")), |db|));
    }
  }

  /** Listing everything gives every row once, in table order. */
  lemma {:induction false} SelectAllInOrder(db: seq<Manager>, n: nat)
    requires n <= |db|
    ensures Selected(db, None, n) == seq(n, k => k)
  {
    if n > 0 {
      SelectAllInOrder(db, n - 1);
      assert seq(n, k => k) == seq(n - 1, k => k) + [n - 1];
    }
  }
}
