/** The bookkeeping of the ptrace process monitor
    (src/process-monitor-ptrace.c and src/process-monitor-ptrace.h): the
    callback kinds, the tree of thread control blocks (tcbs) a traced
    process and the threads it starts form, and the per-thread load buckets.
    ptrace itself, signals, /proc and the callback queue are not part of this
    model.  A tcb is addressed by its pid, the key of the tcbs hash table,
    rather than by pointer. */
module ProcessMonitor {
  import opened Wrappers
  import opened Util

  /** enum wc_process_monitor_cbs (src/process-monitor-ptrace.h:29-37). */
  const OPEN_CB: int := 1
  const CLOSE_CB: int := 2
  const UNLINK_CB: int := 3
  const RENAME_CB: int := 4
  const EXIT_CB: int := 5
  const TRACING_CB: int := 6
  /** The pseudo-callback a delayed free is queued as. */
  const FREE_CB: int := -1

  /** wc_process_monitor_cb_str. */
  function CbStr(cb: int): (name: string)
    ensures name == "free" <==> cb == FREE_CB
    ensures name == "unknown" <==> !(cb == FREE_CB || OPEN_CB <= cb <= TRACING_CB)
    ensures OPEN_CB <= cb <= TRACING_CB ==> CbOfStr(name) == Some(cb)
  {
    if cb == OPEN_CB then "open"
    else if cb == CLOSE_CB then "close"
    else if cb == UNLINK_CB then "unlink"
    else if cb == RENAME_CB then "rename"
    else if cb == EXIT_CB then "exit"
    else if cb == TRACING_CB then "tracing"
    else if cb == FREE_CB then "free"
    else "unknown"
  }

  /** The partner of CbStr on the six callbacks. */
  function CbOfStr(name: string): Option<int> {
    if name == "open" then Some(OPEN_CB)
    else if name == "close" then Some(CLOSE_CB)
    else if name == "unlink" then Some(UNLINK_CB)
    else if name == "rename" then Some(RENAME_CB)
    else if name == "exit" then Some(EXIT_CB)
    else if name == "tracing" then Some(TRACING_CB)
    else None
  }

  /** The callbacks are numbered consecutively from 1, and no two kinds
      share a name. */
  lemma CbStrsDistinct(a: int, b: int)
    requires CbStr(a) == CbStr(b)
    ensures a == b || (CbStr(a) == "unknown" && CbStr(b) == "unknown")
  {
    if OPEN_CB <= a <= TRACING_CB {
      assert CbOfStr(CbStr(a)) == Some(a);
    }
  }

  type Pid = int

  /** The tree fields of struct tcb. */
  datatype Tcb = Tcb(parent: Option<Pid>, children: seq<Pid>, topLevel: bool, zombie: bool, stopTracing: bool)

  type Tcbs = map<Pid, Tcb>

  /** How process_trace ends: the pid is traced, or the server dies on a
      NULL dereference (the attach failed) or on the assertion that the pid
      was not top-level yet. */
  datatype TraceOutcome = Traced | NullDereference | AssertionFailed

  predicate NoDup<T(==)>(s: seq<T>) {
    forall i, j :: 0 <= i < j < |s| ==> s[i] != s[j]
  }

  /** g_slist_remove: drop the first occurrence of x. */
  function Remove<T(==,!new)>(s: seq<T>, x: T): (r: seq<T>)
    ensures x !in s ==> r == s
    ensures |r| == if x in s then |s| - 1 else |s|
    ensures forall y :: y in r ==> y in s
    ensures NoDup(s) ==> NoDup(r) && (forall y :: y in r <==> y in s && y != x)
  {
    if s == [] then []
    else if s[0] == x then s[1..]
    else
      var rest := Remove(s[1..], x);
      assert forall y :: y in rest ==> y in s[1..];
      assert NoDup(s) ==> NoDup(s[1..]) && s[0] !in s[1..] by {
        if NoDup(s) {
          forall i, j | 0 <= i < j < |s[1..]| ensures s[1..][i] != s[1..][j] {
            assert s[1..][i] == s[i + 1] && s[1..][j] == s[j + 1];
          }
          forall k | 0 <= k < |s[1..]| ensures s[1..][k] != s[0] {
            assert s[1..][k] == s[k + 1];
          }
        }
      }
      var r := [s[0]] + rest;
      assert NoDup(s) ==> NoDup(r) by {
        if NoDup(s) {
          forall i, j | 0 <= i < j < |r| ensures r[i] != r[j] {
            if i == 0 {
              assert r[j] == rest[j - 1] && rest[j - 1] in rest;
            } else {
              assert r[i] == rest[i - 1] && r[j] == rest[j - 1];
            }
          }
        }
      }
      r
  }

  /** The links of one tcb agree with the others': its parent lists it
      among its children, sits strictly higher in the tree, and is stopping
      whenever it is; its children name it as their parent; a top-level tcb
      has no parent, and only a top-level tcb is a zombie. */
  ghost predicate Linked(m: Tcbs, depth: map<Pid, nat>, p: Pid) {
    p in m && p in depth &&
    var t := m[p];
    NoDup(t.children)
    && (t.parent.Some? ==>
          t.parent.value in m && t.parent.value in depth && p in m[t.parent.value].children
          && depth[t.parent.value] < depth[p]
          && (t.stopTracing ==> m[t.parent.value].stopTracing))
    && (t.topLevel ==> t.parent.None?)
    && (t.zombie ==> t.topLevel)
    && (forall c :: c in t.children ==> c in m && m[c].parent == Some(p))
  }

  /** The invariant of the tcb table.  depth is a ghost numbering that
      grows from parent to child, so the parent links have no cycle. */
  ghost predicate Tree(m: Tcbs, depth: map<Pid, nat>) {
    depth.Keys == m.Keys && forall p {:trigger Linked(m, depth, p)} :: p in m ==> Linked(m, depth, p)
  }

  /** x is r or lies below r. */
  ghost predicate Descends(m: Tcbs, depth: map<Pid, nat>, x: Pid, r: Pid)
    requires Tree(m, depth) && x in m
    decreases depth[x]
  {
    assert Linked(m, depth, x);
    x == r || (m[x].parent.Some? && Descends(m, depth, m[x].parent.value, r))
  }

  /** Following parent links from x reaches a top-level tcb: what the walk
      in callback_enqueue asserts. */
  ghost predicate HasTopLevel(m: Tcbs, depth: map<Pid, nat>, x: Pid)
    requires Tree(m, depth) && x in m
    decreases depth[x]
  {
    assert Linked(m, depth, x);
    m[x].topLevel || (m[x].parent.Some? && HasTopLevel(m, depth, m[x].parent.value))
  }

  lemma {:induction false} DescendsDepth(m: Tcbs, depth: map<Pid, nat>, x: Pid, r: Pid)
    requires Tree(m, depth) && x in m && Descends(m, depth, x, r)
    ensures r in m && depth[r] <= depth[x]
    ensures x != r ==> depth[r] < depth[x]
    decreases depth[x]
  {
    if x != r {
      assert Linked(m, depth, x);
      DescendsDepth(m, depth, m[x].parent.value, r);
    }
  }

  /** The ancestors of a tcb form a chain. */
  lemma {:induction false} AncestorsChain(m: Tcbs, depth: map<Pid, nat>, x: Pid, a: Pid, b: Pid)
    requires Tree(m, depth) && x in m
    requires Descends(m, depth, x, a) && Descends(m, depth, x, b)
    ensures a in m && b in m
    ensures Descends(m, depth, a, b) || Descends(m, depth, b, a)
    decreases depth[x]
  {
    DescendsDepth(m, depth, x, a);
    DescendsDepth(m, depth, x, b);
    if x != a && x != b {
      assert Linked(m, depth, x);
      AncestorsChain(m, depth, m[x].parent.value, a, b);
    }
  }

  /** A tcb has at most one top-level ancestor, the pid callbacks report. */
  lemma TopLevelUnique(m: Tcbs, depth: map<Pid, nat>, x: Pid, a: Pid, b: Pid)
    requires Tree(m, depth) && x in m
    requires Descends(m, depth, x, a) && Descends(m, depth, x, b)
    ensures a in m && b in m
    ensures m[a].topLevel && m[b].topLevel ==> a == b
  {
    AncestorsChain(m, depth, x, a, b);
    assert Linked(m, depth, a) && Linked(m, depth, b);
  }

  /** A tcb strictly below r lies below one of r's children. */
  lemma {:induction false} BelowSomeChild(m: Tcbs, depth: map<Pid, nat>, y: Pid, r: Pid)
    requires Tree(m, depth) && y in m && r in m && y != r && Descends(m, depth, y, r)
    ensures exists c :: c in m[r].children && c in m && Descends(m, depth, y, c)
    decreases depth[y]
  {
    var p := m[y].parent.value;
    assert Linked(m, depth, y);
    if p != r {
      BelowSomeChild(m, depth, p, r);
      var c :| c in m[r].children && c in m && Descends(m, depth, p, c);
      assert Descends(m, depth, y, c);
    }
  }

  /** Descends reads only the parent links. */
  lemma {:induction false} DescendsParents(m: Tcbs, m': Tcbs, depth: map<Pid, nat>, x: Pid, r: Pid)
    requires Tree(m, depth) && Tree(m', depth) && x in m && m'.Keys == m.Keys
    requires forall p :: p in m ==> m'[p].parent == m[p].parent
    ensures Descends(m, depth, x, r) == Descends(m', depth, x, r)
    decreases depth[x]
  {
    assert Linked(m, depth, x);
    if m[x].parent.Some? {
      DescendsParents(m, m', depth, m[x].parent.value, r);
    }
  }

  /** x lies below c, and c's parent is p, so x lies below p. */
  lemma {:induction false} DescendsThroughParent(m: Tcbs, depth: map<Pid, nat>, x: Pid, c: Pid, p: Pid)
    requires Tree(m, depth) && x in m && c in m && m[c].parent == Some(p)
    requires Descends(m, depth, x, c)
    ensures Descends(m, depth, x, p)
    decreases depth[x]
  {
    assert Linked(m, depth, c);
    if x == c {
      assert Descends(m, depth, p, p);
    } else {
      assert Linked(m, depth, x);
      DescendsThroughParent(m, depth, m[x].parent.value, c, p);
    }
  }

  /** x lies below one of ks. */
  ghost predicate BelowAny(m: Tcbs, depth: map<Pid, nat>, x: Pid, ks: seq<Pid>)
    requires Tree(m, depth) && x in m
  {
    exists j :: 0 <= j < |ks| && Descends(m, depth, x, ks[j])
  }

  /** Below r means r itself or below one of r's children. */
  lemma BelowChildren(m: Tcbs, depth: map<Pid, nat>, y: Pid, r: Pid)
    requires Tree(m, depth) && y in m && r in m
    ensures Descends(m, depth, y, r) <==> y == r || BelowAny(m, depth, y, m[r].children)
  {
    var ks := m[r].children;
    assert Linked(m, depth, r);
    if y != r && Descends(m, depth, y, r) {
      BelowSomeChild(m, depth, y, r);
      var c :| c in ks && c in m && Descends(m, depth, y, c);
      var j :| 0 <= j < |ks| && ks[j] == c;
      assert Descends(m, depth, y, ks[j]);
    }
    if BelowAny(m, depth, y, ks) {
      var j :| 0 <= j < |ks| && Descends(m, depth, y, ks[j]);
      DescendsThroughParent(m, depth, y, ks[j], r);
    }
  }

  /** A parent does not lie below its child. */
  lemma ParentNotBelowChild(m: Tcbs, depth: map<Pid, nat>, r: Pid, c: Pid)
    requires Tree(m, depth) && r in m && c in m && m[c].parent == Some(r)
    ensures !Descends(m, depth, r, c)
  {
    assert Linked(m, depth, c);
    if Descends(m, depth, r, c) {
      DescendsDepth(m, depth, r, c);
    }
  }

  /** No child of r lies below another child of r. */
  lemma SiblingsApart(m: Tcbs, depth: map<Pid, nat>, r: Pid, i: nat)
    requires Tree(m, depth) && r in m && i < |m[r].children|
    ensures m[r].children[i] in m
    ensures !BelowAny(m, depth, m[r].children[i], m[r].children[..i])
  {
    var ks := m[r].children;
    assert Linked(m, depth, r);
    assert forall c :: c in ks ==> c in m && m[c].parent == Some(r);
    assert ks[i] in ks;
    forall j | 0 <= j < i ensures !Descends(m, depth, ks[i], ks[..i][j]) {
      assert ks[..i][j] == ks[j] && ks[j] in ks && ks[j] != ks[i];
      assert Linked(m, depth, ks[i]);
      ParentNotBelowChild(m, depth, r, ks[j]);
    }
  }

  /** A tcb with no parent and no children can join a parent: one just
      created is such a tcb. */
  ghost predicate Adoptable(t: Tcb) {
    t.parent.None? && t.children == [] && !t.topLevel && !t.stopTracing
  }

  lemma AdoptKeepsTree(m: Tcbs, depth: map<Pid, nat>, t: Pid, p: Pid)
    requires Tree(m, depth) && t in m && p in m && t != p && Adoptable(m[t])
    ensures Tree(m[t := m[t].(parent := Some(p))][p := m[p].(children := [t] + m[p].children)],
                 depth[t := depth[p] + 1])
  {
    var m' := m[t := m[t].(parent := Some(p))][p := m[p].(children := [t] + m[p].children)];
    var depth' := depth[t := depth[p] + 1];
    assert Linked(m, depth, p);
    assert Linked(m, depth, t);
    assert t !in m[p].children;
    assert t in m'[p].children;
    forall x | x in m' ensures Linked(m', depth', x) {
      assert Linked(m, depth, x);
      if x != t && m[x].parent.Some? {
        var px := m[x].parent.value;
        assert px != t;
        assert Linked(m, depth, px);
        assert x in m[px].children;
        if px == p {
          assert m'[p].children == [t] + m[p].children;
          assert x in m'[px].children;
        }
      }
      if x == p {
        forall i, j | 0 <= i < j < |m'[p].children| ensures m'[p].children[i] != m'[p].children[j] {
          if i > 0 {
            assert m'[p].children[i] == m[p].children[i - 1];
          } else {
            assert m[p].children[j - 1] in m[p].children;
          }
          assert m'[p].children[j] == m[p].children[j - 1];
        }
      }
    }
  }

  lemma DetachKeepsTree(m: Tcbs, depth: map<Pid, nat>, t: Pid)
    requires Tree(m, depth) && t in m && m[t].parent.Some?
    ensures Linked(m, depth, t)
    ensures var q := m[t].parent.value;
      Tree(m[t := m[t].(parent := None)][q := m[q].(children := Remove(m[q].children, t))], depth)
  {
    var q := m[t].parent.value;
    assert Linked(m, depth, t);
    var m' := m[t := m[t].(parent := None)][q := m[q].(children := Remove(m[q].children, t))];
    assert Linked(m, depth, q);
    forall x | x in m' ensures Linked(m', depth, x) {
      assert Linked(m, depth, x);
    }
  }

  lemma FreeKeepsTree(m: Tcbs, depth: map<Pid, nat>, t: Pid)
    requires Tree(m, depth) && t in m && m[t].parent.None? && m[t].children == []
    ensures Tree(m - {t}, depth - {t})
    ensures forall x :: x in m && x != t ==> t !in m[x].children && m[x].parent != Some(t)
  {
    forall x | x in m && x != t ensures t !in m[x].children && m[x].parent != Some(t) {
      assert Linked(m, depth, x);
    }
    forall x | x in m - {t} ensures Linked(m - {t}, depth - {t}, x) {
      assert Linked(m, depth, x);
    }
  }

  /** Setting the parent of every tcb in ks to p. */
  function Reparented(m: Tcbs, ks: seq<Pid>, p: Option<Pid>): (r: Tcbs)
    ensures r.Keys == m.Keys && |r| == |m|
  {
    var r := map x | x in m :: if x in ks then m[x].(parent := p) else m[x];
    assert r.Keys == m.Keys;
    r
  }

  /** Reparenting one more tcb of a list. */
  lemma ReparentedStep(m: Tcbs, ks: seq<Pid>, i: nat, p: Option<Pid>)
    requires i < |ks| && ks[i] in m && ks[i] !in ks[..i]
    ensures Reparented(m, ks[..i], p)[ks[i]] == m[ks[i]]
    ensures Reparented(m, ks[..i + 1], p) == Reparented(m, ks[..i], p)[ks[i] := m[ks[i]].(parent := p)]
  {
    assert ks[..i + 1] == ks[..i] + [ks[i]];
    var a := Reparented(m, ks[..i + 1], p);
    var b := Reparented(m, ks[..i], p)[ks[i] := m[ks[i]].(parent := p)];
    forall x | x in m ensures a[x] == b[x] {
      assert x in ks[..i + 1] <==> x in ks[..i] || x == ks[i];
    }
    assert a == b;
  }

  /** The first half of thread_untrace: t's parent takes over t's children,
      appended after its own. */
  function Inherited(m: Tcbs, t: Pid): (m1: Tcbs)
    requires t in m && m[t].parent.Some? && m[t].parent.value in m
    requires forall c :: c in m[t].children ==> c in m
    requires var q := m[t].parent.value; q != t && t !in m[t].children && q !in m[t].children
    ensures var q := m[t].parent.value; var ks := m[t].children;
      && m1.Keys == m.Keys && |m1| == |m|
      && m1[t] == m[t].(children := [])
      && m1[q] == m[q].(children := m[q].children + ks)
      && (forall c :: c in ks ==> m1[c] == m[c].(parent := Some(q)))
      && (forall x :: x in m && x != t && x != q && x !in ks ==> m1[x] == m[x])
  {
    var q := m[t].parent.value;
    var ks := m[t].children;
    Reparented(m, ks, Some(q))[q := m[q].(children := m[q].children + ks)][t := m[t].(children := [])]
  }

  lemma InheritKeepsTree(m: Tcbs, depth: map<Pid, nat>, t: Pid)
    requires Tree(m, depth) && t in m && m[t].parent.Some?
    ensures Linked(m, depth, t) && Linked(m, depth, m[t].parent.value)
    ensures Tree(Inherited(m, t), depth)
  {
    assert Linked(m, depth, t);
    assert Linked(m, depth, m[t].parent.value);
    var m' := Inherited(m, t);
    forall x | x in m' ensures Linked(m', depth, x) {
      if x in m[t].children {
        InheritLinkedChild(m, depth, t, x);
      } else if x == m[t].parent.value {
        InheritLinkedParent(m, depth, t);
      } else {
        InheritLinkedOther(m, depth, t, x);
      }
    }
  }

  lemma InheritLinkedChild(m: Tcbs, depth: map<Pid, nat>, t: Pid, x: Pid)
    requires Tree(m, depth) && t in m && m[t].parent.Some? && Linked(m, depth, t)
    requires Linked(m, depth, m[t].parent.value)
    requires x in m[t].children
    ensures Linked(Inherited(m, t), depth, x)
  {
    var q := m[t].parent.value;
    var m' := Inherited(m, t);
    assert Linked(m, depth, x);
    assert m'[x] == m[x].(parent := Some(q));
    assert x in m'[q].children;
    forall c | c in m[x].children ensures c in m' && m'[c].parent == Some(x) {
      assert Linked(m, depth, c);
      assert c != t && c != q && c !in m[t].children;
    }
  }

  lemma InheritLinkedParent(m: Tcbs, depth: map<Pid, nat>, t: Pid)
    requires Tree(m, depth) && t in m && m[t].parent.Some? && Linked(m, depth, t)
    requires Linked(m, depth, m[t].parent.value)
    ensures Linked(Inherited(m, t), depth, m[t].parent.value)
  {
    var q := m[t].parent.value;
    var ks := m[t].children;
    var m' := Inherited(m, t);
    var cs := m[q].children + ks;
    assert m'[q] == m[q].(children := cs);
    forall i, j | 0 <= i < j < |cs| ensures cs[i] != cs[j] {
      if j >= |m[q].children| && i < |m[q].children| {
        assert cs[i] == m[q].children[i] && cs[j] == ks[j - |m[q].children|];
        assert m[cs[i]].parent == Some(q) && m[cs[j]].parent == Some(t);
      } else if i >= |m[q].children| {
        assert cs[i] == ks[i - |m[q].children|] && cs[j] == ks[j - |m[q].children|];
      }
    }
    forall c | c in cs ensures c in m' && m'[c].parent == Some(q) {
      if c !in ks {
        assert c in m[q].children;
        assert Linked(m, depth, c);
      }
    }
    if m[q].parent.Some? {
      var pq := m[q].parent.value;
      assert Linked(m, depth, pq);
      assert pq != t && pq !in ks;
    }
  }

  lemma InheritLinkedOther(m: Tcbs, depth: map<Pid, nat>, t: Pid, x: Pid)
    requires Tree(m, depth) && t in m && m[t].parent.Some? && Linked(m, depth, t)
    requires Linked(m, depth, m[t].parent.value)
    requires x in m && x !in m[t].children && x != m[t].parent.value
    ensures Linked(Inherited(m, t), depth, x)
  {
    var q := m[t].parent.value;
    var m' := Inherited(m, t);
    assert Linked(m, depth, x);
    if m[x].parent.Some? {
      var px := m[x].parent.value;
      assert Linked(m, depth, px);
      if px == q {
        assert x in m'[q].children;
      } else if px in m[t].children {
        assert m'[px] == m[px].(parent := Some(q));
      } else if px != t {
        assert m'[px] == m[px];
      }
    }
    if x != t {
      forall c | c in m[x].children ensures c in m' && m'[c].parent == Some(x) {
        assert Linked(m, depth, c);
        if c in m[t].children {
          assert false;
        } else if c == q {
          assert m'[q].parent == m[q].parent;
        }
      }
    }
  }

  /** The reparenting of thread_untrace, which happens only when t has
      children. */
  ghost function ChildrenToParent(m: Tcbs, depth: map<Pid, nat>, t: Pid): (m1: Tcbs)
    requires Tree(m, depth) && t in m && m[t].parent.Some?
    ensures Linked(m, depth, t)
    ensures var q := m[t].parent.value; var ks := m[t].children;
      && m1.Keys == m.Keys && |m1| == |m| && q != t && t !in ks && q !in ks && q in m
      && m1[t] == m[t].(children := [])
      && m1[q] == m[q].(children := m[q].children + ks)
      && (forall c :: c in ks ==> m1[c] == m[c].(parent := Some(q)))
      && (forall x :: x in m && x != t && x != q && x !in ks ==> m1[x] == m[x])
  {
    var q := m[t].parent.value;
    assert Linked(m, depth, t);
    assert Linked(m, depth, q);
    var ks := m[t].children;
    if ks != [] then Inherited(m, t)
    else
      assert m[q].children + ks == m[q].children;
      m
  }

  /** Everything thread_untrace does to the table for a detached thread t
      (the C asserts a tcb with children that is not top-level has a
      parent). */
  ghost function Untraced(m: Tcbs, depth: map<Pid, nat>, t: Pid): Tcbs
    requires Tree(m, depth) && t in m
    requires m[t].children != [] && !m[t].topLevel ==> m[t].parent.Some?
  {
    assert Linked(m, depth, t);
    var tc := m[t];
    if tc.children != [] && tc.topLevel then m[t := tc.(zombie := true)]
    else if tc.parent.None? then m - {t}
    else
      var q := tc.parent.value;
      var m1 := ChildrenToParent(m, depth, t);
      var left := Remove(m1[q].children, t);
      var m2 := m1[t := m1[t].(parent := None)][q := m1[q].(children := left)];
      if left == [] && m1[q].zombie then m2 - {q} - {t} else m2 - {t}
  }

  /** The effect of thread_untrace.  A top-level tcb with children is only
      marked a zombie.  Any other is removed; its children get its parent as
      their parent and are appended to that parent's children, from which t
      itself is removed; the parent is removed too when that leaves a zombie
      without children; nothing else changes. */
  lemma UntracedShape(m: Tcbs, depth: map<Pid, nat>, t: Pid)
    requires Tree(m, depth) && t in m
    requires m[t].children != [] && !m[t].topLevel ==> m[t].parent.Some?
    ensures var r := Untraced(m, depth, t);
      m[t].children != [] && m[t].topLevel ==> r == m[t := m[t].(zombie := true)]
    ensures var r := Untraced(m, depth, t); var par := m[t].parent; var ks := m[t].children;
      m[t].children == [] || !m[t].topLevel ==>
        && t !in r && r.Keys <= m.Keys
        && (forall c :: c in ks ==> c in r && r[c] == m[c].(parent := par))
        && (par.Some? ==>
              var q := par.value; var left := Remove(m[q].children, t) + ks;
              && (q in r <==> !(left == [] && m[q].zombie))
              && (q in r ==> r[q] == m[q].(children := left)))
        && (forall x :: x in m && x != t && x !in ks && Some(x) != par ==> x in r && r[x] == m[x])
  {
    assert Linked(m, depth, t);
    if m[t].parent.Some? && (m[t].children == [] || !m[t].topLevel) {
      UntracedWithParent(m, depth, t);
    }
  }

  lemma UntracedWithParent(m: Tcbs, depth: map<Pid, nat>, t: Pid)
    requires Tree(m, depth) && t in m && m[t].parent.Some?
    requires m[t].children == [] || !m[t].topLevel
    ensures var r := Untraced(m, depth, t); var q := m[t].parent.value; var ks := m[t].children;
      var left := Remove(m[q].children, t) + ks;
      && t !in r && r.Keys <= m.Keys
      && (forall c :: c in ks ==> c in r && r[c] == m[c].(parent := Some(q)))
      && (q in r <==> !(left == [] && m[q].zombie))
      && (q in r ==> r[q] == m[q].(children := left))
      && (forall x :: x in m && x != t && x !in ks && x != q ==> x in r && r[x] == m[x])
  {
    var q := m[t].parent.value;
    var ks := m[t].children;
    var m1 := ChildrenToParent(m, depth, t);
    assert Linked(m, depth, q);
    assert t in m[q].children;
    var left := Remove(m1[q].children, t);
    RemoveAppend(m[q].children, ks, t);
    assert left == Remove(m[q].children, t) + ks;
    var m2 := m1[t := m1[t].(parent := None)][q := m1[q].(children := left)];
    var r := Untraced(m, depth, t);
    assert r == if left == [] && m1[q].zombie then m2 - {q} - {t} else m2 - {t};
    DetachedShape(m, m1, r, t, q, ks, left);
  }

  /** The map operations of the detaching branch of thread_untrace, apart
      from how the children were handed to the parent. */
  lemma DetachedShape(m: Tcbs, m1: Tcbs, r: Tcbs, t: Pid, q: Pid, ks: seq<Pid>, left: seq<Pid>)
    requires m1.Keys == m.Keys && q != t && t !in ks && q !in ks && q in m && t in m
    requires m1[q].zombie == m[q].zombie
    requires forall c :: c in ks ==> c in m && m1[c] == m[c].(parent := Some(q))
    requires forall x :: x in m && x != t && x != q && x !in ks ==> m1[x] == m[x]
    requires var m2 := m1[t := m1[t].(parent := None)][q := m1[q].(children := left)];
      r == if left == [] && m1[q].zombie then m2 - {q} - {t} else m2 - {t}
    requires m1[q] == m[q].(children := m1[q].children)
    ensures t !in r && r.Keys <= m.Keys
    ensures forall c :: c in ks ==> c in r && r[c] == m[c].(parent := Some(q))
    ensures q in r <==> !(left == [] && m[q].zombie)
    ensures q in r ==> r[q] == m[q].(children := left)
    ensures forall x :: x in m && x != t && x !in ks && x != q ==> x in r && r[x] == m[x]
  {
  }

  lemma {:induction false} RemoveAppend(a: seq<Pid>, b: seq<Pid>, x: Pid)
    requires x in a
    ensures Remove(a + b, x) == Remove(a, x) + b
  {
    if a[0] != x {
      assert (a + b)[1..] == a[1..] + b;
      RemoveAppend(a[1..], b, x);
    } else {
      assert (a + b)[1..] == a[1..] + b;
    }
  }

  /** The stopping state of process_untrace: x and every tcb below it are
      marked as stopping. */
  ghost function StopBelow(m: Tcbs, depth: map<Pid, nat>, x: Pid): Tcbs
    requires Tree(m, depth)
  {
    map y | y in m :: m[y].(stopTracing := m[y].stopTracing || Descends(m, depth, y, x))
  }

  /** StopBelow keeps the table a tree: a tcb newly stopping has its parent
      stopping too, provided x's parent already was. */
  lemma StopBelowKeepsTree(m: Tcbs, depth: map<Pid, nat>, x: Pid)
    requires Tree(m, depth) && x in m
    requires m[x].parent.Some? ==> m[x].parent.value in m && m[m[x].parent.value].stopTracing
    ensures Tree(StopBelow(m, depth, x), depth)
    ensures forall y :: y in m ==> (StopBelow(m, depth, x)[y].stopTracing <==> m[y].stopTracing || Descends(m, depth, y, x))
  {
    var r := StopBelow(m, depth, x);
    forall y | y in r ensures Linked(r, depth, y) {
      assert Linked(m, depth, y);
      var t := m[y];
      if t.parent.Some? {
        var p := t.parent.value;
        if Descends(m, depth, y, x) && y != x {
          assert Descends(m, depth, p, x);
        }
      }
      forall c | c in t.children ensures c in r && r[c].parent == Some(y) {
      }
    }
  }

  /** The state during the children loop of stop: x is marked and the
      subtrees of the children ks[..i] handled so far. */
  ghost function StopPrefix(m: Tcbs, depth: map<Pid, nat>, x: Pid, ks: seq<Pid>): Tcbs
    requires Tree(m, depth)
  {
    map y | y in m :: m[y].(stopTracing := m[y].stopTracing || y == x || BelowAny(m, depth, y, ks))
  }

  lemma StopPrefixStart(m: Tcbs, depth: map<Pid, nat>, x: Pid)
    requires Tree(m, depth) && x in m
    requires m[x].parent.Some? ==> m[x].parent.value in m && m[m[x].parent.value].stopTracing
    ensures StopPrefix(m, depth, x, []) == m[x := m[x].(stopTracing := true)]
    ensures Tree(m[x := m[x].(stopTracing := true)], depth)
  {
    var r := m[x := m[x].(stopTracing := true)];
    forall y | y in r ensures Linked(r, depth, y) {
      assert Linked(m, depth, y);
    }
    forall y | y in m ensures StopPrefix(m, depth, x, [])[y] == r[y] {
      assert !BelowAny(m, depth, y, []);
    }
    assert StopPrefix(m, depth, x, []) == r;
  }

  /** One step of the loop: the next child is not yet stopping, its parent
      x is, and stopping below it extends the prefix by that child. */
  lemma StopPrefixNext(m: Tcbs, depth: map<Pid, nat>, x: Pid, i: nat)
    requires Tree(m, depth) && x in m && i < |m[x].children| && !m[x].stopTracing
    requires Tree(StopPrefix(m, depth, x, m[x].children[..i]), depth)
    ensures var c := m[x].children[i]; var mi := StopPrefix(m, depth, x, m[x].children[..i]);
      && c in mi && !mi[c].stopTracing && mi[c].parent == Some(x) && mi[x].stopTracing
      && StopBelow(mi, depth, c) == StopPrefix(m, depth, x, m[x].children[..i + 1])
  {
    var ks := m[x].children;
    var c := ks[i];
    var mi := StopPrefix(m, depth, x, ks[..i]);
    SiblingsApart(m, depth, x, i);
    assert Linked(m, depth, x);
    assert Linked(m, depth, c);
    assert c != x;
    forall y | y in m ensures Descends(mi, depth, y, c) == Descends(m, depth, y, c) {
      DescendsParents(mi, m, depth, y, c);
    }
    forall y | y in m
      ensures StopBelow(mi, depth, c)[y] == StopPrefix(m, depth, x, ks[..i + 1])[y]
    {
      assert ks[..i + 1][i] == c;
      if BelowAny(m, depth, y, ks[..i + 1]) && !Descends(m, depth, y, c) {
        var j :| 0 <= j < i + 1 && Descends(m, depth, y, ks[..i + 1][j]);
        assert ks[..i + 1][j] == ks[..i][j];
      }
      if BelowAny(m, depth, y, ks[..i]) {
        var j :| 0 <= j < i && Descends(m, depth, y, ks[..i][j]);
        assert ks[..i + 1][j] == ks[..i][j];
      }
    }
    assert StopBelow(mi, depth, c) == StopPrefix(m, depth, x, ks[..i + 1]);
  }

  lemma StopPrefixAll(m: Tcbs, depth: map<Pid, nat>, x: Pid)
    requires Tree(m, depth) && x in m
    ensures StopPrefix(m, depth, x, m[x].children) == StopBelow(m, depth, x)
  {
    forall y | y in m ensures Descends(m, depth, y, x) <==> y == x || BelowAny(m, depth, y, m[x].children) {
      BelowChildren(m, depth, y, x);
    }
  }

  lemma SubsetCard(a: set<Pid>, b: set<Pid>)
    requires a <= b
    ensures |a| <= |b|
  {
    assert b == a + (b - a);
    assert a * (b - a) == {};
  }

  /** The table of traced threads: the tcbs hash table and tcb_count. */
  class Tracer {
    var tcbs: Tcbs
    var tcbCount: int
    ghost var depth: map<Pid, nat>

    ghost predicate Valid()
      reads this
    {
      tcbCount == |tcbs| && Tree(tcbs, depth)
    }

    ghost function Unstopped(): set<Pid>
      reads this
    {
      set y | y in tcbs && !tcbs[y].stopTracing
    }

    constructor ()
      ensures Valid() && tcbs == map[]
    {
      tcbs := map[];
      tcbCount := 0;
      depth := map[];
    }

    /** tcb_parent_set: setting the parent a tcb already has changes nothing;
        setting none detaches it from its parent; a new parent puts the tcb
        at the head of the parent's children. */
    method ParentSet(t: Pid, parent: Option<Pid>)
      requires Valid() && t in tcbs
      requires parent.Some? ==> parent.value in tcbs && parent.value != t
      requires parent.Some? && tcbs[t].parent != parent ==> Adoptable(tcbs[t])
      modifies this
      ensures Valid() && tcbCount == old(tcbCount)
      ensures t in tcbs && tcbs[t] == old(tcbs[t]).(parent := parent)
      ensures old(tcbs[t].parent).Some? ==> old(tcbs[t].parent).value in old(tcbs)
      ensures old(tcbs[t].parent) == parent ==> tcbs == old(tcbs)
      ensures parent.None? && old(tcbs[t].parent).Some? ==>
        var q := old(tcbs[t].parent).value;
        tcbs == old(tcbs)[t := old(tcbs[t]).(parent := None)][q := old(tcbs[q]).(children := Remove(old(tcbs[q].children), t))]
      ensures parent.Some? && old(tcbs[t].parent) != parent ==>
        var p := parent.value;
        tcbs == old(tcbs)[t := old(tcbs[t]).(parent := parent)][p := old(tcbs[p]).(children := [t] + old(tcbs[p].children))]
    {
      var cur := tcbs[t].parent;
      assert Linked(tcbs, depth, t);
      if cur == parent {
        return;
      }
      if parent.None? {
        var q := cur.value;
        DetachKeepsTree(tcbs, depth, t);
        tcbs := tcbs[t := tcbs[t].(parent := None)][q := tcbs[q].(children := Remove(tcbs[q].children, t))];
        return;
      }
      var p := parent.value;
      AdoptKeepsTree(tcbs, depth, t, p);
      tcbs := tcbs[t := tcbs[t].(parent := parent)][p := tcbs[p].(children := [t] + tcbs[p].children)];
      depth := depth[t := depth[p] + 1];
    }

    /** thread_trace: a traced pid keeps its record and only has its parent
        set, as ParentSet describes; an untraced one gets a new record,
        provided the thread is attached (attached says whether it already
        was or PTRACE_ATTACH succeeded), adopted by the parent if any, and
        the count grows by one.  No other record changes. */
    method ThreadTrace(pid: Pid, parent: Option<Pid>, attached: bool) returns (ok: bool)
      requires Valid()
      requires parent.Some? ==> parent.value in tcbs && parent.value != pid
      requires pid in tcbs && parent.Some? && tcbs[pid].parent != parent ==> Adoptable(tcbs[pid])
      modifies this
      ensures Valid()
      ensures ok <==> old(pid in tcbs) || attached
      ensures ok ==> pid in tcbs && tcbs[pid].parent == parent
      ensures !ok ==> tcbs == old(tcbs) && tcbCount == old(tcbCount)
      // A new record.
      ensures ok && old(pid !in tcbs) ==> tcbCount == old(tcbCount) + 1
      ensures ok && old(pid !in tcbs) && parent.None? ==>
        tcbs == old(tcbs)[pid := Tcb(None, [], false, false, false)]
      ensures ok && old(pid !in tcbs) && parent.Some? ==>
        var p := parent.value;
        tcbs == old(tcbs)[pid := Tcb(parent, [], false, false, false)][p := old(tcbs[p]).(children := [pid] + old(tcbs[p].children))]
      // A traced pid: tcb_parent_set.
      ensures old(pid in tcbs) ==> tcbCount == old(tcbCount)
      ensures old(pid in tcbs) && old(tcbs[pid].parent).Some? ==> old(tcbs[pid].parent).value in old(tcbs)
      ensures old(pid in tcbs) && old(tcbs[pid].parent) == parent ==> tcbs == old(tcbs)
      ensures old(pid in tcbs) && parent.None? && old(tcbs[pid].parent).Some? ==>
        var q := old(tcbs[pid].parent).value;
        tcbs == old(tcbs)[pid := old(tcbs[pid]).(parent := None)][q := old(tcbs[q]).(children := Remove(old(tcbs[q].children), pid))]
      ensures old(pid in tcbs) && parent.Some? && old(tcbs[pid].parent) != parent ==>
        var p := parent.value;
        tcbs == old(tcbs)[pid := old(tcbs[pid]).(parent := parent)][p := old(tcbs[p]).(children := [pid] + old(tcbs[p].children))]
    {
      if pid in tcbs {
        ParentSet(pid, parent);
        return true;
      }
      if !attached {
        return false;
      }
      ghost var m0 := tcbs;
      TcbNew(pid);
      ghost var m1 := tcbs;
      ParentSet(pid, parent);
      if parent.Some? {
        var blank := Tcb(None, [], false, false, false);
        assert m1[parent.value] == m0[parent.value];
        assert m1[pid := blank.(parent := parent)] == m0[pid := blank.(parent := parent)];
      }
      ok := true;
    }

    /** The new record of thread_trace: a tcb with no parent, no children
        and no flags set is inserted, and the count grows by one. */
    method TcbNew(pid: Pid)
      requires Valid() && pid !in tcbs
      modifies this
      ensures Valid()
      ensures tcbs == old(tcbs)[pid := Tcb(None, [], false, false, false)] && tcbCount == old(tcbCount) + 1
    {
      var blank := Tcb(None, [], false, false, false);
      ghost var m' := tcbs[pid := blank];
      forall x | x in m' ensures Linked(m', depth[pid := 0], x) {
        if x != pid {
          assert Linked(tcbs, depth, x);
        }
      }
      tcbs := tcbs[pid := blank];
      depth := depth[pid := 0];
      tcbCount := tcbCount + 1;
    }

    /** process_trace: trace pid with no parent and mark it top-level.  A
        failed attach makes thread_trace return NULL, which process_trace
        dereferences; a pid that is already top-level fails the assertion.
        Neither changes the table before the server goes down. */
    method ProcessTrace(pid: Pid, attached: bool) returns (r: TraceOutcome)
      requires Valid()
      modifies this
      ensures Valid()
      ensures r == NullDereference <==> old(pid !in tcbs) && !attached
      ensures r == AssertionFailed <==> old(pid in tcbs) && old(tcbs[pid].topLevel)
      ensures !r.Traced? ==> tcbs == old(tcbs) && tcbCount == old(tcbCount)
      ensures r.Traced? && old(pid !in tcbs) ==>
        tcbs == old(tcbs)[pid := Tcb(None, [], true, false, false)] && tcbCount == old(tcbCount) + 1
      ensures r.Traced? && old(pid in tcbs) && old(tcbs[pid].parent).None? ==>
        tcbs == old(tcbs)[pid := old(tcbs[pid]).(topLevel := true)] && tcbCount == old(tcbCount)
      ensures r.Traced? && old(pid in tcbs) && old(tcbs[pid].parent).Some? ==>
        var q := old(tcbs[pid].parent).value;
        q in old(tcbs) && tcbCount == old(tcbCount)
        && tcbs == old(tcbs)[pid := old(tcbs[pid]).(parent := None, topLevel := true)][q := old(tcbs[q]).(children := Remove(old(tcbs[q].children), pid))]
    {
      if pid in tcbs {
        assert Linked(tcbs, depth, pid);
      }
      var ok := ThreadTrace(pid, None, attached);
      if !ok {
        return NullDereference;
      }
      var tc := tcbs[pid];
      if tc.topLevel {
        return AssertionFailed;
      }
      MarkTopLevel(pid);
      r := Traced;
    }

    /** tcb->top_level = true on a tcb without a parent. */
    method MarkTopLevel(pid: Pid)
      requires Valid() && pid in tcbs && tcbs[pid].parent.None?
      modifies this
      ensures Valid() && tcbCount == old(tcbCount)
      ensures tcbs == old(tcbs)[pid := old(tcbs[pid]).(topLevel := true)]
    {
      var tc := tcbs[pid];
      assert Linked(tcbs, depth, pid);
      ghost var m' := tcbs[pid := tc.(topLevel := true)];
      forall x | x in m' ensures Linked(m', depth, x) {
        assert Linked(tcbs, depth, x);
      }
      tcbs := tcbs[pid := tc.(topLevel := true)];
    }

    /** tcb_free: remove a detached, childless tcb from the table. */
    method TcbFree(t: Pid)
      requires Valid() && t in tcbs && tcbs[t].parent.None? && tcbs[t].children == []
      modifies this
      ensures Valid()
      ensures tcbs == old(tcbs) - {t} && tcbCount == old(tcbCount) - 1
    {
      FreeKeepsTree(tcbs, depth, t);
      tcbs := tcbs - {t};
      depth := depth - {t};
      tcbCount := tcbCount - 1;
    }

    /** The reparenting loop of thread_untrace. */
    method Inherit(t: Pid)
      requires Valid() && t in tcbs && tcbs[t].parent.Some?
      modifies this
      ensures Valid() && tcbCount == old(tcbCount) && depth == old(depth)
      ensures old(Linked(tcbs, depth, t) && Linked(tcbs, depth, tcbs[t].parent.value))
      ensures tcbs == Inherited(old(tcbs), t)
    {
      ghost var m := tcbs;
      InheritKeepsTree(m, depth, t);
      var q := tcbs[t].parent.value;
      var ks := tcbs[t].children;
      assert forall c :: c in ks ==> c in m;
      assert Reparented(m, ks[..0], Some(q)) == m;
      var i := 0;
      while i < |ks|
        invariant 0 <= i <= |ks|
        invariant depth == old(depth) && tcbCount == old(tcbCount)
        invariant tcbs == Reparented(m, ks[..i], Some(q))
      {
        assert ks[i] in ks && ks[i] !in ks[..i];
        ReparentedStep(m, ks, i, Some(q));
        tcbs := tcbs[ks[i] := tcbs[ks[i]].(parent := Some(q))];
        i := i + 1;
      }
      assert ks[..i] == ks;
      assert tcbs[q] == m[q] && tcbs[t] == m[t];
      tcbs := tcbs[q := tcbs[q].(children := tcbs[q].children + ks)][t := tcbs[t].(children := [])];
    }

    /** thread_untrace for a detached thread (see UntracedShape). */
    method ThreadUntrace(t: Pid)
      requires Valid() && t in tcbs
      requires tcbs[t].children != [] && !tcbs[t].topLevel ==> tcbs[t].parent.Some?
      modifies this
      ensures Valid()
      ensures tcbs == Untraced(old(tcbs), old(depth), t)
    {
      ghost var m := tcbs;
      assert Linked(m, depth, t);
      var tc := tcbs[t];
      if tc.children != [] && tc.topLevel {
        ghost var m' := tcbs[t := tc.(zombie := true)];
        forall x | x in m' ensures Linked(m', depth, x) {
          assert Linked(tcbs, depth, x);
        }
        tcbs := tcbs[t := tc.(zombie := true)];
        return;
      }
      if tc.children != [] {
        Inherit(t);
      }
      if tcbs[t].parent.Some? {
        assert Linked(tcbs, depth, t);
        Detach(t);
      } else {
        TcbFree(t);
      }
    }

    /** The end of thread_untrace for a childless tcb with a parent: t leaves
        its parent's children and is freed, and so is the parent when that
        leaves a zombie without children. */
    method Detach(t: Pid)
      requires Valid() && t in tcbs && tcbs[t].parent.Some? && tcbs[t].children == []
      requires tcbs[t].parent.value in tcbs
      modifies this
      ensures Valid()
      ensures var m := old(tcbs); var q := m[t].parent.value; var left := Remove(m[q].children, t);
        var m2 := m[t := m[t].(parent := None)][q := m[q].(children := left)];
        tcbs == if left == [] && m[q].zombie then m2 - {q} - {t} else m2 - {t}
    {
      var self := tcbs[t];
      var q := self.parent.value;
      DetachKeepsTree(tcbs, depth, t);
      var left := Remove(tcbs[q].children, t);
      var freeTop := left == [] && tcbs[q].zombie;
      tcbs := tcbs[t := self.(parent := None)][q := tcbs[q].(children := left)];
      if freeTop {
        assert Linked(tcbs, depth, q);
        TcbFree(q);
      }
      TcbFree(t);
    }

    /** The nested stop of process_untrace. */
    method Stop(x: Pid)
      requires Valid() && x in tcbs && !tcbs[x].stopTracing
      requires tcbs[x].parent.Some? ==> tcbs[x].parent.value in tcbs && tcbs[tcbs[x].parent.value].stopTracing
      modifies this
      decreases |Unstopped()|
      ensures Valid() && depth == old(depth) && tcbCount == old(tcbCount)
      ensures Unstopped() <= old(Unstopped())
      ensures tcbs == StopBelow(old(tcbs), old(depth), x)
    {
      ghost var m0 := tcbs;
      ghost var u0 := Unstopped();
      StopPrefixStart(m0, depth, x);
      tcbs := tcbs[x := tcbs[x].(stopTracing := true)];
      var ks := tcbs[x].children;
      var i := 0;
      while i < |ks|
        invariant 0 <= i <= |ks|
        invariant Valid() && depth == old(depth) && tcbCount == old(tcbCount)
        invariant Unstopped() <= u0 - {x}
        invariant tcbs == StopPrefix(m0, depth, x, ks[..i])
      {
        StopPrefixNext(m0, depth, x, i);
        SubsetCard(Unstopped(), u0 - {x});
        Stop(ks[i]);
        i := i + 1;
      }
      assert ks[..i] == ks;
      StopPrefixAll(m0, depth, x);
    }

    /** process_untrace: nothing happens for a pid that is not traced, that
        was not traced explicitly, or that is already stopping; otherwise
        the pid's tcb and every tcb below it start stopping. */
    method ProcessUntrace(pid: Pid)
      requires Valid()
      requires pid in tcbs && !tcbs[pid].topLevel ==> tcbs[pid].parent.Some?
      modifies this
      ensures Valid() && depth == old(depth) && tcbCount == old(tcbCount)
      ensures pid !in old(tcbs) || !old(tcbs[pid].topLevel) || old(tcbs[pid].stopTracing) ==> tcbs == old(tcbs)
      ensures pid in old(tcbs) && old(tcbs[pid].topLevel) && !old(tcbs[pid].stopTracing) ==>
        tcbs == StopBelow(old(tcbs), old(depth), pid)
    {
      if pid !in tcbs || !tcbs[pid].topLevel || tcbs[pid].stopTracing {
        return;
      }
      assert Linked(tcbs, depth, pid);
      Stop(pid);
    }

    /** The walk of callback_enqueue from a thread up to the top-level tcb
        of its process, whose pid the callback reports. */
    method TopLevelOf(x: Pid) returns (tl: Pid)
      requires Valid() && x in tcbs && HasTopLevel(tcbs, depth, x)
      ensures tl in tcbs && tcbs[tl].topLevel && tcbs[tl].parent.None?
      ensures Descends(tcbs, depth, x, tl)
    {
      tl := x;
      while !tcbs[tl].topLevel
        invariant tl in tcbs && HasTopLevel(tcbs, depth, tl) && Descends(tcbs, depth, x, tl)
        decreases depth[tl]
      {
        var p := tcbs[tl].parent.value;
        assert Linked(tcbs, depth, tl);
        DescendsThroughParent(tcbs, depth, x, tl, p);
        tl := p;
      }
      assert Linked(tcbs, depth, tl);
    }
  }

  /** The load buckets of struct load. */
  const CALLBACK_COUNT_BUCKETS: nat := 10
  const CALLBACK_COUNT_BUCKET_WIDTH: nat := 1000

  class Load {
    var callbackCount: array<int>
    var eventCount: array<int>
    var callbackCountReset: array<U64>
    var bucket: nat

    ghost predicate Valid()
      reads this
    {
      callbackCount.Length == CALLBACK_COUNT_BUCKETS && eventCount.Length == CALLBACK_COUNT_BUCKETS
      && callbackCountReset.Length == CALLBACK_COUNT_BUCKETS && bucket < CALLBACK_COUNT_BUCKETS
      && callbackCount != eventCount
    }

    /** A zero-filled struct load, as g_malloc0 leaves it. */
    constructor ()
      ensures Valid() && fresh(callbackCount) && fresh(eventCount) && fresh(callbackCountReset)
      ensures bucket == 0
      ensures forall i :: 0 <= i < CALLBACK_COUNT_BUCKETS ==>
        callbackCount[i] == 0 && eventCount[i] == 0 && callbackCountReset[i] == 0
    {
      callbackCount := new int[CALLBACK_COUNT_BUCKETS](_ => 0);
      eventCount := new int[CALLBACK_COUNT_BUCKETS](_ => 0);
      callbackCountReset := new U64[CALLBACK_COUNT_BUCKETS](_ => 0);
      bucket := 0;
    }

    /** The nested update of load_increment at time n: once the current
        bucket is more than a bucket width old, move to the next bucket
        (wrapping after the last), restart it at n with one callback and no
        events; otherwise count one more callback in the current bucket. */
    method Update(n: U64)
      requires Valid()
      modifies this, callbackCount, eventCount, callbackCountReset
      ensures Valid()
      ensures callbackCount == old(callbackCount) && eventCount == old(eventCount)
      ensures callbackCountReset == old(callbackCountReset)
      ensures Sub64(n, old(callbackCountReset[bucket])) > CALLBACK_COUNT_BUCKET_WIDTH ==>
        && bucket == (old(bucket) + 1) % CALLBACK_COUNT_BUCKETS
        && callbackCountReset[..] == old(callbackCountReset[..])[bucket := n]
        && callbackCount[..] == old(callbackCount[..])[bucket := 1]
        && eventCount[..] == old(eventCount[..])[bucket := 0]
      ensures Sub64(n, old(callbackCountReset[bucket])) <= CALLBACK_COUNT_BUCKET_WIDTH ==>
        && bucket == old(bucket)
        && callbackCountReset[..] == old(callbackCountReset[..])
        && callbackCount[..] == old(callbackCount[..])[bucket := old(callbackCount[bucket]) + 1]
        && eventCount[..] == old(eventCount[..])
    {
      if Sub64(n, callbackCountReset[bucket]) > CALLBACK_COUNT_BUCKET_WIDTH {
        bucket := bucket + 1;
        if bucket == CALLBACK_COUNT_BUCKETS {
          bucket := 0;
        }
        callbackCountReset[bucket] := n;
        callbackCount[bucket] := 1;
        eventCount[bucket] := 0;
      } else {
        callbackCount[bucket] := callbackCount[bucket] + 1;
      }
    }
  }

  /** load_increment: the thread's load and the global load are updated
      alike at the same time n, each as Load.Update describes. */
  method LoadIncrement(tcbLoad: Load, globalLoad: Load, n: U64)
    requires tcbLoad != globalLoad && tcbLoad.Valid() && globalLoad.Valid()
    requires {tcbLoad.callbackCount, tcbLoad.eventCount} !! {globalLoad.callbackCount, globalLoad.eventCount}
    requires tcbLoad.callbackCountReset != globalLoad.callbackCountReset
    modifies tcbLoad, tcbLoad.callbackCount, tcbLoad.eventCount, tcbLoad.callbackCountReset
    modifies globalLoad, globalLoad.callbackCount, globalLoad.eventCount, globalLoad.callbackCountReset
    ensures tcbLoad.Valid() && globalLoad.Valid()
    ensures tcbLoad.callbackCount == old(tcbLoad.callbackCount) && tcbLoad.eventCount == old(tcbLoad.eventCount)
    ensures tcbLoad.callbackCountReset == old(tcbLoad.callbackCountReset)
    ensures globalLoad.callbackCount == old(globalLoad.callbackCount) && globalLoad.eventCount == old(globalLoad.eventCount)
    ensures globalLoad.callbackCountReset == old(globalLoad.callbackCountReset)
    // The thread's load.
    ensures Sub64(n, old(tcbLoad.callbackCountReset[tcbLoad.bucket])) > CALLBACK_COUNT_BUCKET_WIDTH ==>
      && tcbLoad.bucket == (old(tcbLoad.bucket) + 1) % CALLBACK_COUNT_BUCKETS
      && tcbLoad.callbackCountReset[..] == old(tcbLoad.callbackCountReset[..])[tcbLoad.bucket := n]
      && tcbLoad.callbackCount[..] == old(tcbLoad.callbackCount[..])[tcbLoad.bucket := 1]
      && tcbLoad.eventCount[..] == old(tcbLoad.eventCount[..])[tcbLoad.bucket := 0]
    ensures Sub64(n, old(tcbLoad.callbackCountReset[tcbLoad.bucket])) <= CALLBACK_COUNT_BUCKET_WIDTH ==>
      && tcbLoad.bucket == old(tcbLoad.bucket)
      && tcbLoad.callbackCountReset[..] == old(tcbLoad.callbackCountReset[..])
      && tcbLoad.callbackCount[..] == old(tcbLoad.callbackCount[..])[tcbLoad.bucket := old(tcbLoad.callbackCount[tcbLoad.bucket]) + 1]
      && tcbLoad.eventCount[..] == old(tcbLoad.eventCount[..])
    // The global load.
    ensures Sub64(n, old(globalLoad.callbackCountReset[globalLoad.bucket])) > CALLBACK_COUNT_BUCKET_WIDTH ==>
      && globalLoad.bucket == (old(globalLoad.bucket) + 1) % CALLBACK_COUNT_BUCKETS
      && globalLoad.callbackCountReset[..] == old(globalLoad.callbackCountReset[..])[globalLoad.bucket := n]
      && globalLoad.callbackCount[..] == old(globalLoad.callbackCount[..])[globalLoad.bucket := 1]
      && globalLoad.eventCount[..] == old(globalLoad.eventCount[..])[globalLoad.bucket := 0]
    ensures Sub64(n, old(globalLoad.callbackCountReset[globalLoad.bucket])) <= CALLBACK_COUNT_BUCKET_WIDTH ==>
      && globalLoad.bucket == old(globalLoad.bucket)
      && globalLoad.callbackCountReset[..] == old(globalLoad.callbackCountReset[..])
      && globalLoad.callbackCount[..] == old(globalLoad.callbackCount[..])[globalLoad.bucket := old(globalLoad.callbackCount[globalLoad.bucket]) + 1]
      && globalLoad.eventCount[..] == old(globalLoad.eventCount[..])
  {
    tcbLoad.Update(n);
    globalLoad.Update(n);
  }
}
