/** The command shell of the woodchuck-cli client
    (clients/woodchuck-cli.py): the dispatch of a typed command to the one
    command it abbreviates, the stack of object lists the user walks with
    up and down, and the indentation clean-up of help. */
module WoodchuckCli {
  import opened Wrappers
  import opened Util
  import Debug

  predicate StartsWith(s: string, prefix: string) {
    |prefix| <= |s| && s[..|prefix|] == prefix
  }

  /** s[k:] in Python: empty once k passes the end. */
  function Drop(s: string, k: nat): (r: string)
    ensures |r| == if k >= |s| then 0 else |s| - k
  {
    if k >= |s| then [] else s[k..]
  }

  // ---------------------------------------------------------------------
  // commands

  /** Shell.commands: the names of the class's cmd_ attributes with the
      prefix removed, in the order the class dictionary lists them. */
  function CommandsOf(entries: seq<string>): seq<string> {
    if entries == [] then []
    else
      var last := entries[|entries| - 1];
      CommandsOf(entries[..|entries| - 1]) + (if StartsWith(last, "cmd_") then [last[4..]] else [])
  }

  /** The loop that builds the list. */
  method Commands(entries: seq<string>) returns (c: seq<string>)
    ensures c == CommandsOf(entries)
  {
    c := [];
    var i := 0;
    while i < |entries|
      invariant i <= |entries| && c == CommandsOf(entries[..i])
    {
      assert entries[..i + 1][..i] == entries[..i];
      if StartsWith(entries[i], "cmd_") {
        c := c + [entries[i][4..]];
      }
      i := i + 1;
    }
    assert entries[..i] == entries;
  }

  /** A name is a command exactly when the class has an attribute cmd_name. */
  lemma {:induction false} CommandsOfIff(entries: seq<string>, name: string)
    ensures name in CommandsOf(entries) <==> "cmd_" + name in entries
  {
    if entries != [] {
      var init, last := entries[..|entries| - 1], entries[|entries| - 1];
      CommandsOfIff(init, name);
      assert entries == init + [last];
      if StartsWith(last, "cmd_") {
        assert last == "cmd_" + last[4..];
        if last == "cmd_" + name {
          assert last[4..] == name;
        }
      }
    }
  }

  // ---------------------------------------------------------------------
  // process

  datatype Dispatch = Unknown(message: string) | Ambiguous(message: string) | Invoke(name: string)

  /** The commands the typed word abbreviates, in order. */
  function Matches(names: seq<string>, command: string): (ms: seq<string>)
    ensures |ms| <= |names|
  {
    if names == [] then []
    else
      var last := names[|names| - 1];
      Matches(names[..|names| - 1], command) + (if StartsWith(last, command) then [last] else [])
  }

  lemma {:induction false} MatchesIff(names: seq<string>, command: string, x: string)
    ensures x in Matches(names, command) <==> x in names && StartsWith(x, command)
  {
    if names != [] {
      MatchesIff(names[..|names| - 1], command, x);
      assert names == names[..|names| - 1] + [names[|names| - 1]];
    }
  }

  /** ' '.join(words). */
  function JoinWords(words: seq<string>): string {
    if words == [] then ""
    else if |words| == 1 then words[0]
    else JoinWords(words[..|words| - 1]) + " " + words[|words| - 1]
  }

  /** The ambiguity message as written: each match loses len('cmd_')
      characters although the prefix was already removed. */
  function AmbiguousMessageAsWritten(command: string, matches: seq<string>): string {
    "'" + command + "' is ambiguous (matches: " + JoinWords(DropEach(matches, 4)) + ")"
  }

  function DropEach(words: seq<string>, k: nat): (r: seq<string>)
    ensures |r| == |words|
  {
    if words == [] then [] else DropEach(words[..|words| - 1], k) + [Drop(words[|words| - 1], k)]
  }

  /** The ambiguity message naming the matching commands. */
  function AmbiguousMessage(command: string, matches: seq<string>): string {
    "'" + command + "' is ambiguous (matches: " + JoinWords(matches) + ")"
  }

  /** Shell.process: no match is an unknown command, several are ambiguous,
      and exactly one is invoked. */
  function Dispatched(names: seq<string>, command: string): Dispatch {
    var ms := Matches(names, command);
    if |ms| == 0 then Unknown("Unknown command " + command + ".  Type 'help' for help.")
    else if |ms| > 1 then Ambiguous(AmbiguousMessage(command, ms))
    else Invoke(ms[0])
  }

  /** The loop of Shell.process that collects the matches. */
  method Process(names: seq<string>, command: string) returns (d: Dispatch)
    ensures d == Dispatched(names, command)
  {
    var matches: seq<string> := [];
    var i := 0;
    while i < |names|
      invariant i <= |names| && matches == Matches(names[..i], command)
    {
      assert names[..i + 1][..i] == names[..i];
      if StartsWith(names[i], command) {
        matches := matches + [names[i]];
      }
      i := i + 1;
    }
    assert names[..i] == names;
    if |matches| == 0 {
      return Unknown("Unknown command " + command + ".  Type 'help' for help.");
    }
    if |matches| > 1 {
      return Ambiguous(AmbiguousMessage(command, matches));
    }
    return Invoke(matches[0]);
  }

  /** A command runs exactly when it is the only one the word abbreviates,
      and the word is unknown exactly when it abbreviates none. */
  lemma DispatchedIff(names: seq<string>, command: string, name: string)
    ensures Dispatched(names, command) == Invoke(name) <==> Matches(names, command) == [name]
    ensures Dispatched(names, command).Invoke? ==> Dispatched(names, command).name in names
    ensures Dispatched(names, command).Unknown? <==> forall x :: x in names ==> !StartsWith(x, command)
  {
    var ms := Matches(names, command);
    if |ms| == 1 {
      MatchesIff(names, command, ms[0]);
    }
    if ms != [] {
      MatchesIff(names, command, ms[0]);
    }
    forall x | x in names && StartsWith(x, command)
      ensures ms != []
    {
      MatchesIff(names, command, x);
    }
  }

  /** The shell's commands. */
  const SHELL_COMMANDS: seq<string> := ["up", "down", "select", "print", "del", "set", "help"]

  /** No command's name abbreviates another, so each full name runs its
      own command; "d" and "s" are ambiguous. */
  lemma ShellNamesDispatch()
    ensures forall k :: 0 <= k < |SHELL_COMMANDS| ==> Dispatched(SHELL_COMMANDS, SHELL_COMMANDS[k]) == Invoke(SHELL_COMMANDS[k])
    ensures Dispatched(SHELL_COMMANDS, "d").Ambiguous? && Dispatched(SHELL_COMMANDS, "s").Ambiguous?
  {
    var names := SHELL_COMMANDS;
    forall k | 0 <= k < |names|
      ensures Dispatched(names, names[k]) == Invoke(names[k])
    {
      forall i | 0 <= i < |names| && StartsWith(names[i], names[k])
        ensures i == k
      {
        ShellNamesDistinct(i, k);
      }
      MatchesOne(names, names[k], k);
    }
    TwoMatches(names, "d", 1, 4);
    TwoMatches(names, "s", 2, 5);
  }

  lemma ShellNamesDistinct(i: nat, k: nat)
    requires i < 7 && k < 7 && StartsWith(SHELL_COMMANDS[i], SHELL_COMMANDS[k])
    ensures i == k
  {
    var names := SHELL_COMMANDS;
    assert names[i][0] == names[k][0];
    assert |names[k]| > 2 ==> names[i][2] == names[k][2];
    assert i == 0 || i == 1 || i == 2 || i == 3 || i == 4 || i == 5 || i == 6;
    assert k == 0 || k == 1 || k == 2 || k == 3 || k == 4 || k == 5 || k == 6;
  }

  /** The only name the word abbreviates is the one matched. */
  lemma {:induction false} MatchesOne(names: seq<string>, command: string, j: nat)
    requires j < |names| && StartsWith(names[j], command)
    requires forall i :: 0 <= i < |names| && StartsWith(names[i], command) ==> i == j
    ensures Matches(names, command) == [names[j]]
  {
    var n := |names| - 1;
    var init := names[..n];
    if j < n {
      forall i | 0 <= i < |init| && StartsWith(init[i], command)
        ensures i == j
      {
        assert init[i] == names[i];
      }
      assert init[j] == names[j];
      MatchesOne(init, command, j);
    } else {
      MatchesNone(init, command);
    }
  }

  lemma {:induction false} MatchesNone(names: seq<string>, command: string)
    requires forall i :: 0 <= i < |names| ==> !StartsWith(names[i], command)
    ensures Matches(names, command) == []
  {
    if names != [] {
      var init := names[..|names| - 1];
      assert forall i :: 0 <= i < |init| ==> init[i] == names[i];
      MatchesNone(init, command);
    }
  }

  /** Two different names the word abbreviates make it ambiguous. */
  lemma TwoMatches(names: seq<string>, command: string, i: nat, j: nat)
    requires i < |names| && j < |names| && names[i] != names[j]
    requires StartsWith(names[i], command) && StartsWith(names[j], command)
    ensures Dispatched(names, command).Ambiguous?
  {
    var ms := Matches(names, command);
    MatchesIff(names, command, names[i]);
    MatchesIff(names, command, names[j]);
    var a :| 0 <= a < |ms| && ms[a] == names[i];
    var b :| 0 <= b < |ms| && ms[b] == names[j];
    assert a != b;
  }

  /** The message as written lists nothing readable for "d": both matches
      are no longer than the four characters it drops. */
  lemma AmbiguousNamesLostAsWritten()
    ensures JoinWords(DropEach(["down", "del"], 4)) == " "
    ensures JoinWords(["down", "del"]) == "down del"
  {
    var ms: seq<string> := ["down", "del"];
    assert ms[..1] == ["down"];
    assert ms[..1][..0] == [];
    assert DropEach(ms, 4) == ["", ""];
    assert ["", ""][..1] == [""];
  }

  // ---------------------------------------------------------------------
  // int()

  predicate IsDigit(c: char) { '0' <= c <= '9' }

  predicate AllDigits(s: string) {
    forall k :: 0 <= k < |s| ==> IsDigit(s[k])
  }

  /** int(s) for a decimal literal with an optional sign; anything else
      raises ValueError (None here). */
  function ParseInt(s: string): (r: Option<int>)
    ensures r.Some? <==> (|s| > 0 && AllDigits(s)) || (|s| > 1 && (s[0] == '-' || s[0] == '+') && AllDigits(s[1..]))
  {
    if |s| > 0 && AllDigits(s) then Some(Debug.DecimalValue(s))
    else if |s| > 1 && s[0] == '-' && AllDigits(s[1..]) then Some(0 - Debug.DecimalValue(s[1..]))
    else if |s| > 1 && s[0] == '+' && AllDigits(s[1..]) then Some(Debug.DecimalValue(s[1..]))
    else None
  }

  /** int() reads back what str() writes, with or without a minus sign. */
  lemma ParseDecimal(n: nat)
    ensures ParseInt(Debug.Decimal(n)) == Some(n)
    ensures ParseInt("-" + Debug.Decimal(n)) == Some(0 - n)
  {
    Debug.DecimalReadsBack(n);
    var m := "-" + Debug.Decimal(n);
    assert m[1..] == Debug.Decimal(n);
    assert !IsDigit(m[0]);
  }

  // ---------------------------------------------------------------------
  // The object stack

  /** An object of the stack, known by its cookie; None once deleted. */
  type Cookie = string

  /** object_stack_index, object_stack and object_stack_parent. */
  datatype Stack = Stack(index: int, frames: seq<seq<Option<Cookie>>>, parents: seq<int>)

  const EMPTY: Stack := Stack(-1, [], [])

  /** Once the managers are pushed: the index names a frame and every frame
      but the first has the index of its parent. */
  predicate Valid(s: Stack) {
    0 <= s.index < |s.frames| && |s.parents| == |s.frames| - 1
  }

  /** objects(). */
  function Objects(s: Stack): (objs: seq<Option<Cookie>>)
    requires -1 <= s.index < |s.frames|
    ensures s.index == -1 ==> objs == []
  {
    if s.index == -1 then [] else s.frames[s.index]
  }

  /** object_get: None outside the current frame. */
  function ObjectGet(s: Stack, i: int): (o: Option<Cookie>)
    requires 0 <= s.index < |s.frames|
    ensures !(0 <= i < |Objects(s)|) ==> o == None
    ensures 0 <= i < |Objects(s)| ==> o == Objects(s)[i]
  {
    if 0 <= i < |s.frames[s.index]| then s.frames[s.index][i] else None
  }

  /** object_clear. */
  function Cleared(s: Stack, i: nat): (u: Stack)
    requires 0 <= s.index < |s.frames| && i < |s.frames[s.index]|
    ensures u.index == s.index && |u.frames| == |s.frames| && u.parents == s.parents
  {
    s.(frames := s.frames[s.index := s.frames[s.index][i := None]])
  }

  /** After object_clear the object is gone and no other one changed. */
  lemma ClearThenGet(s: Stack, i: nat, j: int)
    requires 0 <= s.index < |s.frames| && i < |s.frames[s.index]|
    ensures ObjectGet(Cleared(s, i), i) == None
    ensures j != i ==> ObjectGet(Cleared(s, i), j) == ObjectGet(s, j)
  {
  }

  /** The outcome of up or down: the stack moved, or a message and no
      change. */
  datatype Moved = Moved | Refused(message: string)

  /** cmd_up as written: index := max(index - delta, 0). */
  function UpAsWritten(s: Stack, args: seq<string>): (r: (Stack, Moved))
    ensures r.1.Refused? ==> r.0 == s
  {
    if |args| > 1 then (s, Refused("up takes at most one integer argument"))
    else if s.index == 0 then (s, Refused("Already at bottom of stack."))
    else if args != [] && ParseInt(args[0]).None? then (s, Refused(args[0] + " is not an integer"))
    else
      var delta := if args == [] then 1 else ParseInt(args[0]).value;
      (s.(index := Max(s.index - delta, 0)), Moved)
  }

  /** cmd_down as written: index := min(index + delta, len(stack) - 1). */
  function DownAsWritten(s: Stack, args: seq<string>): (r: (Stack, Moved))
    ensures r.1.Refused? ==> r.0 == s
  {
    if |args| > 1 then (s, Refused("down takes at most one integer argument"))
    else if s.index == |s.frames| - 1 then (s, Refused("Already at top of stack."))
    else if args != [] && ParseInt(args[0]).None? then (s, Refused(args[0] + " is not an integer"))
    else
      var delta := if args == [] then 1 else ParseInt(args[0]).value;
      (s.(index := Min(s.index + delta, |s.frames| - 1)), Moved)
  }

  /** cmd_up with the new index also kept below the top of the stack. */
  function Up(s: Stack, args: seq<string>): (r: (Stack, Moved))
    ensures r.1 == UpAsWritten(s, args).1
  {
    var (u, m) := UpAsWritten(s, args);
    if m.Moved? then (u.(index := Min(u.index, |s.frames| - 1)), m) else (u, m)
  }

  /** cmd_down with the new index also kept above the bottom of the stack. */
  function Down(s: Stack, args: seq<string>): (r: (Stack, Moved))
    ensures r.1 == DownAsWritten(s, args).1
  {
    var (u, m) := DownAsWritten(s, args);
    if m.Moved? then (u.(index := Max(u.index, 0)), m) else (u, m)
  }

  /** Whether the argument, if any, is a non-negative count. */
  predicate Forward(args: seq<string>) {
    args == [] || (ParseInt(args[0]).Some? && ParseInt(args[0]).value >= 0)
  }

  /** up moves delta frames toward the bottom, stopping there, refuses at
      the bottom and on bad arguments, and keeps the stack valid; for a
      non-negative count it is the code as written. */
  lemma UpMoves(s: Stack, args: seq<string>)
    requires Valid(s)
    ensures var (u, m) := Up(s, args);
      && Valid(u) && u.frames == s.frames && u.parents == s.parents
      && (m.Refused? <==> |args| > 1 || s.index == 0 || (args != [] && ParseInt(args[0]).None?))
      && (m.Moved? && args == [] ==> u.index == s.index - 1)
      && (Forward(args) ==> Up(s, args) == UpAsWritten(s, args))
  {
  }

  /** down moves delta frames toward the top, stopping there, refuses at
      the top and on bad arguments, and keeps the stack valid; for a
      non-negative count it is the code as written. */
  lemma DownMoves(s: Stack, args: seq<string>)
    requires Valid(s)
    ensures var (u, m) := Down(s, args);
      && Valid(u) && u.frames == s.frames && u.parents == s.parents
      && (m.Refused? <==> |args| > 1 || s.index == |s.frames| - 1 || (args != [] && ParseInt(args[0]).None?))
      && (m.Moved? && args == [] ==> u.index == s.index + 1)
      && (Forward(args) ==> Down(s, args) == DownAsWritten(s, args))
  {
  }

  /** With a negative count the code as written leaves the stack: "up -2"
      from the top of a two-frame stack sets the index to 3, "down -3" from
      the bottom to -3. */
  lemma NegativeDeltaLeavesStackAsWritten()
    ensures var s := Stack(1, [[], []], [0]);
      && Valid(s) && !Valid(UpAsWritten(s, ["-2"]).0) && UpAsWritten(s, ["-2"]).0.index == 3
      && Valid(Up(s, ["-2"]).0)
    ensures var s := Stack(0, [[], []], [0]);
      && Valid(s) && !Valid(DownAsWritten(s, ["-3"]).0) && DownAsWritten(s, ["-3"]).0.index == -3
      && Valid(Down(s, ["-3"]).0)
  {
    assert ParseInt("-2") == Some(-2) by {
      assert "-2"[1..] == "2";
      assert Debug.DecimalValue("2") == Debug.DecimalValue("") * 10 + 2;
    }
    assert ParseInt("-3") == Some(-3) by {
      assert "-3"[1..] == "3";
      assert Debug.DecimalValue("3") == Debug.DecimalValue("") * 10 + 3;
    }
  }

  /** Python's l[i:-1] = xs for i >= 0: the elements from i up to, but
      not including, the last are replaced (xs is inserted at i when that
      range is empty). */
  function SliceAssign<T>(l: seq<T>, i: nat, xs: seq<T>): (r: seq<T>)
    ensures i >= |l| ==> r == l + xs
  {
    var lo := Min(i, |l|);
    var hi := Max(if |l| == 0 then 0 else |l| - 1, lo);
    l[..lo] + xs + l[hi..]
  }

  /** objects_push as written. */
  function PushedAsWritten(s: Stack, objs: seq<Option<Cookie>>, parent: int): (u: Stack)
    requires s.index >= -1
    ensures u.index == s.index + 1
  {
    var parents := if s.index >= 0 then SliceAssign(s.parents, s.index, [parent]) else s.parents;
    Stack(s.index + 1, SliceAssign(s.frames, s.index + 1, [objs]), parents)
  }

  /** objects_push as its comment describes it: the frames above the
      current one are dropped before the new frame goes on top. */
  function Pushed(s: Stack, objs: seq<Option<Cookie>>, parent: int): (u: Stack)
    requires s == EMPTY || Valid(s)
    ensures Valid(u) && u.index == s.index + 1 && Objects(u) == objs
    ensures u.frames[..s.index + 1] == s.frames[..s.index + 1]
    ensures s.index >= 0 ==> u.parents[s.index] == parent
  {
    if s.index == -1 then Stack(0, [objs], [])
    else Stack(s.index + 1, s.frames[..s.index + 1] + [objs], s.parents[..s.index] + [parent])
  }

  /** Pushing from the top frame, the code as written does what the comment
      says; this is every push until the user moves up. */
  lemma PushAtTop(s: Stack, objs: seq<Option<Cookie>>, parent: int)
    requires s == EMPTY || (Valid(s) && s.index == |s.frames| - 1)
    ensures PushedAsWritten(s, objs, parent) == Pushed(s, objs, parent)
  {
    if s.index >= 0 {
      assert s.frames[..s.index + 1] == s.frames;
      assert s.parents[..s.index] == s.parents;
    }
  }

  /** After "up", pushing as written keeps the old top frame above the new
      one, where "down" finds it. */
  lemma PushKeepsStaleFrameAsWritten()
    ensures var s := Stack(0, [[Some("a")], [Some("b")], [Some("c")]], [0, 0]);
      && Valid(s)
      && PushedAsWritten(s, [Some("d")], 0).frames == [[Some("a")], [Some("d")], [Some("c")]]
      && Pushed(s, [Some("d")], 0).frames == [[Some("a")], [Some("d")]]
  {
  }

  /** The module's stack globals. */
  class ObjectStack {
    var index: int
    var frames: seq<seq<Option<Cookie>>>
    var parents: seq<int>

    function State(): Stack
      reads this
    {
      Stack(index, frames, parents)
    }

    constructor ()
      ensures State() == EMPTY
    {
      index := -1;
      frames := [];
      parents := [];
    }

    /** objects_push. */
    method Push(objs: seq<Option<Cookie>>, parent: int)
      requires State() == EMPTY || Valid(State())
      modifies this
      ensures State() == Pushed(old(State()), objs, parent)
    {
      if index >= 0 {
        parents := parents[..index] + [parent];
      }
      frames := frames[..index + 1] + [objs];
      index := index + 1;
    }

    /** cmd_up. */
    method CmdUp(args: seq<string>) returns (m: Moved)
      modifies this
      ensures (State(), m) == Up(old(State()), args)
    {
      if |args| > 1 {
        return Refused("up takes at most one integer argument");
      }
      if index == 0 {
        return Refused("Already at bottom of stack.");
      }
      var delta := 1;
      if args != [] {
        var n := ParseInt(args[0]);
        if n.None? {
          return Refused(args[0] + " is not an integer");
        }
        delta := n.value;
      }
      index := Min(Max(index - delta, 0), |frames| - 1);
      return Moved;
    }

    /** cmd_down. */
    method CmdDown(args: seq<string>) returns (m: Moved)
      modifies this
      ensures (State(), m) == Down(old(State()), args)
    {
      if |args| > 1 {
        return Refused("down takes at most one integer argument");
      }
      if index == |frames| - 1 {
        return Refused("Already at top of stack.");
      }
      var delta := 1;
      if args != [] {
        var n := ParseInt(args[0]);
        if n.None? {
          return Refused(args[0] + " is not an integer");
        }
        delta := n.value;
      }
      index := Max(Min(index + delta, |frames| - 1), 0);
      return Moved;
    }

    /** object_clear. */
    method Clear(i: nat)
      requires 0 <= index < |frames| && i < |frames[index]|
      modifies this
      ensures State() == Cleared(old(State()), i)
    {
      frames := frames[index := frames[index][i := None]];
    }
  }

  // ---------------------------------------------------------------------
  // cmd_help

  /** The first n characters of line are spaces. */
  predicate SpacesUpTo(line: string, n: nat) {
    n <= |line| && forall k :: 0 <= k < n ==> line[k] == ' '
  }

  /** The position of the first character of line that is not a space. */
  function FirstNonSpace(line: string): (r: Option<nat>)
    ensures r.Some? ==> r.value < |line| && line[r.value] != ' ' && SpacesUpTo(line, r.value)
    ensures r.None? ==> SpacesUpTo(line, |line|)
  {
    if line == [] then None
    else if line[0] != ' ' then Some(0)
    else match FirstNonSpace(line[1..])
      case None => None
      case Some(f) => Some(f + 1)
  }

  /** The first non-space is the one after the leading spaces. */
  lemma {:induction false} FirstNonSpaceIs(line: string, i: nat)
    requires i < |line| && line[i] != ' ' && SpacesUpTo(line, i)
    ensures FirstNonSpace(line) == Some(i)
  {
    if i > 0 {
      assert line[1..][i - 1] == line[i];
      assert SpacesUpTo(line[1..], i - 1) by {
        assert forall k :: 0 <= k < i - 1 ==> line[1..][k] == line[k + 1];
      }
      FirstNonSpaceIs(line[1..], i - 1);
    }
  }

  /** A line of spaces has no first non-space. */
  lemma {:induction false} FirstNonSpaceNone(line: string)
    requires SpacesUpTo(line, |line|)
    ensures FirstNonSpace(line) == None
  {
    if line != [] {
      assert SpacesUpTo(line[1..], |line| - 1) by {
        assert forall k :: 0 <= k < |line| - 1 ==> line[1..][k] == line[k + 1];
      }
      FirstNonSpaceNone(line[1..]);
    }
  }

  /** leading_whitespace: the least indentation of the lines that hold a
      non-space, starting from 1000. */
  function MinLead(lines: seq<string>): (m: nat)
    ensures m <= 1000
  {
    if lines == [] then 1000
    else
      var m := MinLead(lines[..|lines| - 1]);
      match FirstNonSpace(lines[|lines| - 1])
      case None => m
      case Some(f) => Min(m, f)
  }

  /** The doc lines of cmd_help after the clean-up: every line after the
      first loses leading_whitespace characters. */
  function Dedented(lines: seq<string>): (out: seq<string>)
    ensures |out| == |lines|
  {
    if lines == [] then []
    else
      var lw := MinLead(lines[1..]);
      if lw == 0 then lines
      else [lines[0]] + DropAll(lines[1..], lw)
  }

  /** Every line cut at m. */
  function DropAll(lines: seq<string>, m: nat): (r: seq<string>)
    ensures |r| == |lines|
  {
    if lines == [] then [] else [Drop(lines[0], m)] + DropAll(lines[1..], m)
  }

  lemma {:induction false} DropAllAt(lines: seq<string>, m: nat, k: nat)
    requires k < |lines|
    ensures DropAll(lines, m)[k] == Drop(lines[k], m)
  {
    if k > 0 {
      assert lines[1..][k - 1] == lines[k];
      DropAllAt(lines[1..], m, k - 1);
    }
  }

  /** A line after the first loses leading_whitespace characters. */
  lemma DedentedAt(lines: seq<string>, k: nat)
    requires 0 < k < |lines|
    ensures Dedented(lines)[k] == Drop(lines[k], MinLead(lines[1..]))
  {
    if MinLead(lines[1..]) == 0 {
      assert lines[k][0..] == lines[k];
    } else {
      assert lines[1..][k - 1] == lines[k];
      DropAllAt(lines[1..], MinLead(lines[1..]), k - 1);
    }
  }

  /** The two loops of cmd_help: the first finds each line's indentation
      and keeps the least, the second cuts it off. */
  method Dedent(lines: seq<string>) returns (out: seq<string>)
    ensures out == Dedented(lines)
  {
    if lines == [] {
      return [];
    }
    var rest := lines[1..];
    var lw := LeastIndentation(rest);
    out := lines;
    if lw != 0 {
      var j := 0;
      while j < |rest|
        invariant j <= |rest| && |out| == |lines| && out[0] == lines[0]
        invariant forall k :: 0 <= k < j ==> out[k + 1] == Drop(rest[k], lw)
        invariant forall k :: j < k < |lines| ==> out[k] == lines[k]
      {
        out := out[j + 1 := Drop(rest[j], lw)];
        j := j + 1;
      }
      forall k | 0 <= k < |rest|
        ensures out[k + 1] == DropAll(rest, lw)[k]
      {
        DropAllAt(rest, lw, k);
      }
      assert out == [lines[0]] + DropAll(rest, lw);
    }
  }

  /** The first loop of cmd_help: leading_whitespace starts at 1000 and
      drops to the indentation of each line that holds a non-space. */
  method LeastIndentation(rest: seq<string>) returns (lw: nat)
    ensures lw == MinLead(rest)
  {
    lw := 1000;
    var l := 0;
    while l < |rest|
      invariant l <= |rest| && lw == MinLead(rest[..l])
    {
      var i := Indentation(rest[l]);
      assert rest[..l + 1][..l] == rest[..l];
      if i < |rest[l]| {
        lw := Min(lw, i);
      }
      l := l + 1;
    }
    assert rest[..l] == rest;
  }

  /** The inner loop of cmd_help: the index of the first character that is
      not a space, or the length of an all-space line. */
  method Indentation(line: string) returns (i: nat)
    ensures i <= |line|
    ensures FirstNonSpace(line) == if i < |line| then Some(i) else None
  {
    i := 0;
    while i < |line| && line[i] == ' '
      invariant SpacesUpTo(line, i)
    {
      i := i + 1;
    }
    if i < |line| {
      FirstNonSpaceIs(line, i);
    } else {
      FirstNonSpaceNone(line);
    }
  }

  /** The least indentation is met: some line has exactly that many leading
      spaces. */
  predicate LeadAt(lines: seq<string>, k: int, m: nat) {
    0 <= k < |lines| && FirstNonSpace(lines[k]) == Some(m)
  }

  lemma {:induction false} MinLeadBound(lines: seq<string>, k: nat)
    requires k < |lines| && FirstNonSpace(lines[k]).Some?
    ensures MinLead(lines) <= FirstNonSpace(lines[k]).value
  {
    if k < |lines| - 1 {
      assert lines[..|lines| - 1][k] == lines[k];
      MinLeadBound(lines[..|lines| - 1], k);
    }
  }

  lemma {:induction false} MinLeadMet(lines: seq<string>) returns (k: nat)
    requires MinLead(lines) < 1000
    ensures LeadAt(lines, k, MinLead(lines))
  {
    var init := lines[..|lines| - 1];
    var f := FirstNonSpace(lines[|lines| - 1]);
    if f.Some? && f.value <= MinLead(init) {
      k := |lines| - 1;
    } else {
      k := MinLeadMet(init);
      assert init[k] == lines[k];
    }
  }

  /** help removes only spaces: each line after the first that holds text
      keeps its text and its indentation relative to the others, and when
      the least indentation is below 1000 some line ends up flush left. */
  lemma DedentKeepsText(lines: seq<string>, k: nat)
    requires 0 < k < |lines| && FirstNonSpace(lines[k]).Some?
    ensures var out := Dedented(lines);
      var lw := MinLead(lines[1..]);
      && FirstNonSpace(out[k]) == Some(FirstNonSpace(lines[k]).value - lw)
      && out[k] == lines[k][lw..]
  {
    var lw := MinLead(lines[1..]);
    var f := FirstNonSpace(lines[k]).value;
    MinLeadAt(lines, k);
    DedentedAt(lines, k);
    DropKeepsText(lines[k], lw, f);
  }

  /** leading_whitespace is at most the indentation of each later line. */
  lemma MinLeadAt(lines: seq<string>, k: nat)
    requires 0 < k < |lines| && FirstNonSpace(lines[k]).Some?
    ensures MinLead(lines[1..]) <= FirstNonSpace(lines[k]).value
  {
    assert lines[1..][k - 1] == lines[k];
    MinLeadBound(lines[1..], k - 1);
  }

  /** Cutting no more than the leading spaces keeps the text. */
  lemma DropKeepsText(line: string, m: nat, f: nat)
    requires FirstNonSpace(line) == Some(f) && m <= f
    ensures Drop(line, m) == line[m..] && FirstNonSpace(Drop(line, m)) == Some(f - m)
  {
    FirstNonSpaceDrop(line, f, m);
  }

  lemma FirstNonSpaceDrop(line: string, f: nat, m: nat)
    requires FirstNonSpace(line) == Some(f) && m <= f
    ensures FirstNonSpace(line[m..]) == Some(f - m)
  {
    var t := line[m..];
    assert t[f - m] == line[f];
    assert SpacesUpTo(t, f - m) by {
      assert forall i :: 0 <= i < f - m ==> t[i] == line[m + i];
    }
    FirstNonSpaceIs(t, f - m);
  }

  lemma DedentFlushLeft(lines: seq<string>) returns (k: nat)
    requires |lines| > 1 && MinLead(lines[1..]) < 1000
    ensures 0 < k < |lines| && FirstNonSpace(Dedented(lines)[k]) == Some(0)
  {
    var j := MinLeadMet(lines[1..]);
    k := j + 1;
    assert lines[1..][j] == lines[k];
    DedentKeepsText(lines, k);
  }
}
