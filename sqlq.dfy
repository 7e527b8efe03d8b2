/** The SQL command queue of src/sqlq.c: commands are appended to a
    fixed-size buffer and sent to the database, wrapped in one transaction,
    when the buffer cannot take the next command, when a flush is forced, or
    when the delayed-flush timer fires.  The database is represented by the
    statements sent to sqlite3_exec; whether "begin transaction" succeeds is
    a parameter.  The timer is a flag: set while a delayed flush is
    scheduled. */
module Sqlq {
  import opened Wrappers

  const BEGIN: string := "begin transaction"
  const END: string := "end transaction"

  /** A C string: no NUL inside. */
  predicate CString(s: string) {
    forall i :: 0 <= i < |s| ==> s[i] != '\0'
  }

  /** The text of a command; NULL stands for none. */
  function TextOf(command: Option<string>): string {
    if command.Some? then command.value else ""
  }

  /** The commands of flush that are not NULL and not empty, in order. */
  function NonEmpty(c: seq<Option<string>>): (r: seq<string>)
    ensures |r| <= |c|
  {
    if c == [] then []
    else (if c[0].Some? && c[0].value != "" then [c[0].value] else []) + NonEmpty(c[1..])
  }

  /** What flush sends to the database: nothing when both strings are NULL
      or empty; otherwise "begin transaction", and only when that succeeds
      the non-empty commands followed by "end transaction". */
  function FlushStatements(c1: Option<string>, c2: Option<string>, beginOk: bool): seq<string> {
    var cmds := NonEmpty([c1, c2]);
    if cmds == [] then []
    else if !beginOk then [BEGIN]
    else [BEGIN] + cmds + [END]
  }

  /** flush sends nothing for two empty commands, and otherwise brackets the
      non-empty ones, in their order, in one transaction. */
  lemma FlushBrackets(c1: Option<string>, c2: Option<string>)
    ensures (c1.None? || c1.value == "") && (c2.None? || c2.value == "") <==> FlushStatements(c1, c2, true) == []
    ensures c1.Some? && c1.value != "" && c2.Some? && c2.value != "" ==>
      FlushStatements(c1, c2, true) == [BEGIN, c1.value, c2.value, END]
    ensures c1.Some? && c1.value != "" && (c2.None? || c2.value == "") ==>
      FlushStatements(c1, c2, true) == [BEGIN, c1.value, END]
    ensures (c1.None? || c1.value == "") && c2.Some? && c2.value != "" ==>
      FlushStatements(c1, c2, true) == [BEGIN, c2.value, END]
    ensures FlushStatements(c1, c2, false) == FlushStatements(c1, c2, true)[..if FlushStatements(c1, c2, true) == [] then 0 else 1]
  {
    assert [c1, c2][1..] == [c2];
    assert [c2][1..] == [];
    assert NonEmpty([c2]) == (if c2.Some? && c2.value != "" then [c2.value] else []) + NonEmpty([]);
    assert NonEmpty([c1, c2]) == (if c1.Some? && c1.value != "" then [c1.value] else []) + NonEmpty([c2]);
  }

  /** The first loop of flush: the index of the first command that is
      neither NULL nor empty, or |c| when there is none. */
  method FirstCommand(c: seq<Option<string>>) returns (i: nat)
    ensures i <= |c| && NonEmpty(c[..i]) == []
    ensures i < |c| ==> c[i].Some? && c[i].value != ""
  {
    i := 0;
    while i < |c|
      invariant i <= |c| && NonEmpty(c[..i]) == []
    {
      if c[i].Some? && c[i].value != "" {
        return;
      }
      NonEmptySnoc(c[..i], c[i]);
      assert c[..i + 1] == c[..i] + [c[i]];
      i := i + 1;
    }
  }

  /** The second loop of flush: send the commands that are neither NULL nor
      empty, in order. */
  method SendCommands(c: seq<Option<string>>) returns (sent: seq<string>)
    ensures sent == NonEmpty(c)
  {
    sent := [];
    var i := 0;
    while i < |c|
      invariant i <= |c| && sent == NonEmpty(c[..i])
    {
      NonEmptySnoc(c[..i], c[i]);
      assert c[..i + 1] == c[..i] + [c[i]];
      if c[i].None? || c[i].value == "" {
        i := i + 1;
        continue;
      }
      sent := sent + [c[i].value];
      i := i + 1;
    }
    assert c[..i] == c;
  }

  /** flush. */
  method Flush(c1: Option<string>, c2: Option<string>, beginOk: bool) returns (sent: seq<string>)
    ensures sent == FlushStatements(c1, c2, beginOk)
  {
    var c := [c1, c2];
    var i := FirstCommand(c);
    if i == |c| {
      assert c[..i] == c;
      return [];
    }
    FirstNonEmpty(c, i);
    if !beginOk {
      return [BEGIN];
    }
    var cmds := SendCommands(c);
    sent := [BEGIN] + cmds + [END];
  }

  lemma FirstNonEmpty(c: seq<Option<string>>, i: nat)
    requires i < |c| && c[i].Some? && c[i].value != ""
    ensures NonEmpty(c) != []
  {
    assert c == c[..i] + ([c[i]] + c[i + 1..]);
    NonEmptyAppend(c[..i], [c[i]] + c[i + 1..]);
    NonEmptyAppend([c[i]], c[i + 1..]);
    assert [c[i]][1..] == [];
  }

  lemma NonEmptySnoc(a: seq<Option<string>>, x: Option<string>)
    ensures NonEmpty(a + [x]) == NonEmpty(a) + if x.Some? && x.value != "" then [x.value] else []
  {
    NonEmptyAppend(a, [x]);
    assert [x][1..] == [];
  }

  lemma {:induction false} NonEmptyAppend(a: seq<Option<string>>, b: seq<Option<string>>)
    ensures NonEmpty(a + b) == NonEmpty(a) + NonEmpty(b)
  {
    if a == [] {
      assert a + b == b;
    } else {
      assert (a + b)[1..] == a[1..] + b;
      NonEmptyAppend(a[1..], b);
    }
  }

  /** Whether the code's constructor leaves room for the NUL that a flush
      stores at buffer[used]: with used == 0 that needs capacity > 0. */
  predicate NulStoreInBounds(capacity: int, used: int) {
    0 <= used < capacity
  }

  /** The capacity sqlq_new_static computes from the buffer size. */
  function CapacityOf(size: int, headerSize: nat): int {
    size - headerSize
  }

  /** The check sqlq_new_static makes on the size it is given. */
  predicate SizeAcceptedAsWritten(size: int, headerSize: nat) {
    headerSize <= size
  }

  /** The code's check accepts a buffer exactly the size of the header; its
      capacity is 0, and the first flush stores the NUL at buffer[0], outside
      the buffer. */
  lemma HeaderOnlyBufferAccepted(headerSize: nat)
    ensures SizeAcceptedAsWritten(headerSize, headerSize)
    ensures CapacityOf(headerSize, headerSize) == 0 && !NulStoreInBounds(CapacityOf(headerSize, headerSize), 0)
  {
  }

  /** struct sqlq: the command buffer after the header, the number of bytes
      in use, the flush delay and whether a delayed flush is scheduled.
      sent is the log of statements sent to the database. */
  class Queue {
    const buffer: array<char>
    var used: nat
    var flushDelay: int
    var flushPending: bool
    var sent: seq<string>

    /** There is always room for the terminating NUL, the buffered text is a
        C string, and a queue without delay holds nothing and has no timer,
        since every append to it flushes. */
    ghost predicate Valid()
      reads this, buffer
    {
      used < buffer.Length
      && CString(buffer[..used])
      && (flushDelay == 0 ==> used == 0 && !flushPending)
    }

    /** The commands buffered and not yet sent. */
    ghost function Pending(): string
      reads this, buffer
      requires used <= buffer.Length
    {
      buffer[..used]
    }

    /** sqlq_new_static on a buffer of size bytes whose first headerSize
        bytes hold the header.  The code asserts only headerSize <= size
        (see HeaderOnlyBufferAccepted); this requires room for one byte. */
    constructor (size: int, headerSize: nat, delay: int)
      requires headerSize < size
      ensures Valid() && fresh(buffer)
      ensures buffer.Length == size - headerSize
      ensures used == 0 && flushDelay == delay && !flushPending && sent == []
    {
      buffer := new char[size - headerSize](_ => '\0');
      used := 0;
      flushDelay := delay;
      flushPending := false;
      sent := [];
    }

    /** sqlq_append.  A queue without delay always flushes.  When a flush is
        forced or the command (with its NUL) does not fit, the buffered text
        and the command are flushed and the timer cancelled; otherwise the
        command is copied after the buffered text and the timer scheduled if
        it was not.  Returns whether text is buffered. */
    method Append(forceFlush: bool, command: Option<string>, beginOk: bool) returns (buffered: bool)
      requires Valid()
      requires command.Some? ==> CString(command.value)
      modifies this, buffer
      ensures Valid()
      ensures flushDelay == old(flushDelay)
      ensures buffered <==> used != 0
      ensures var len := if command.Some? then |command.value| else 0;
        var flushes := forceFlush || old(flushDelay) == 0 || len + 1 > buffer.Length - old(used);
        && (flushes ==>
              && used == 0 && !flushPending
              && sent == old(sent) + FlushStatements(Some(old(Pending())), command, beginOk)
              && buffer[..] == old(buffer[..])[old(used) := '\0'])
        && (!flushes ==>
              && used == old(used) + len && flushPending && sent == old(sent)
              && Pending() == old(Pending()) + TextOf(command)
              && buffer[used..] == old(buffer[..])[used..])
    {
      var force := forceFlush;
      if flushDelay == 0 {
        force := true;
      }
      var len := if command.Some? then |command.value| else 0;
      if force || !(len + 1 <= buffer.Length - used) {
        var pending := buffer[..used];
        buffer[used] := '\0';
        used := 0;
        var statements := Flush(Some(pending), command, beginOk);
        sent := sent + statements;
        if flushPending {
          flushPending := false;
        }
      } else {
        var cmd := TextOf(command);
        var u := used;
        var k := 0;
        while k < len
          invariant 0 <= k <= len && u + len < buffer.Length
          invariant used == u && flushPending == old(flushPending) && sent == old(sent)
          invariant flushDelay == old(flushDelay)
          invariant buffer[..u] == old(buffer[..u])
          invariant forall j :: 0 <= j < k ==> buffer[u + j] == cmd[j]
          invariant forall j :: u + k <= j < buffer.Length ==> buffer[j] == old(buffer[j])
        {
          buffer[u + k] := cmd[k];
          k := k + 1;
        }
        assert buffer[..u + len] == old(buffer[..u]) + cmd;
        assert buffer[u + len..] == old(buffer[u + len..]);
        used := u + len;
        if !flushPending {
          flushPending := true;
        }
      }
      buffered := used != 0;
    }

    /** sqlq_flush: a forced append of nothing. */
    method FlushQueue(beginOk: bool)
      requires Valid()
      modifies this, buffer
      ensures Valid() && used == 0 && !flushPending && flushDelay == old(flushDelay)
      ensures sent == old(sent) + FlushStatements(Some(old(Pending())), None, beginOk)
    {
      var _ := Append(true, None, beginOk);
    }

    /** do_delayed_flush: the timer fires once and flushes the queue. */
    method DelayedFlush(beginOk: bool)
      requires Valid() && flushPending
      modifies this, buffer
      ensures Valid() && used == 0 && !flushPending && flushDelay == old(flushDelay)
      ensures sent == old(sent) + FlushStatements(Some(old(Pending())), None, beginOk)
    {
      flushPending := false;
      FlushQueue(beginOk);
    }

    /** sqlq_flush_delay_set: an equal delay changes nothing; otherwise the
        queue is flushed, so no timer is pending, and the delay is set. */
    method FlushDelaySet(delay: int, beginOk: bool)
      requires Valid()
      modifies this, buffer
      ensures Valid() && flushDelay == delay
      ensures old(flushDelay) == delay ==> used == old(used) && flushPending == old(flushPending) && sent == old(sent)
      ensures old(flushDelay) != delay ==>
        && used == 0 && !flushPending
        && sent == old(sent) + FlushStatements(Some(old(Pending())), None, beginOk)
    {
      if flushDelay == delay {
        return;
      }
      FlushQueue(beginOk);
      flushDelay := delay;
    }
  }

  /** A flush sends the buffered text before the command that did not fit. */
  lemma FlushOrder(pending: string, command: string)
    requires pending != "" && command != ""
    ensures FlushStatements(Some(pending), Some(command), true) == [BEGIN, pending, command, END]
  {
    FlushBrackets(Some(pending), Some(command));
  }
}
