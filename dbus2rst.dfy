/** The D-Bus interface documentation converter (doc/dbus2rst.py): the
    clean-up of a comment's indentation, and the handlers the XML parser
    calls for each start tag, end tag and comment, with the nesting they
    enforce.  Files are modelled as (name, content) pairs, the last one
    being the open output file. */
module Dbus2Rst {
  import opened Wrappers
  import opened Util
  import Debug
  import opened Seqs

  function Spaces(n: nat): (s: string)
    ensures |s| == n
  {
    seq(n, _ => ' ')
  }

  /** s[k:] in Python. */
  function Drop(s: string, k: nat): (r: string)
    ensures k <= |s| ==> r == s[k..]
    ensures k > |s| ==> r == []
  {
    if k >= |s| then [] else s[k..]
  }

  // ---------------------------------------------------------------------
  // str.expandtabs and str.splitlines

  /** The line boundaries of str.splitlines. */
  predicate IsBreak(c: char) {
    c == '\n' || c == '\r' || c == '\U{0b}' || c == '\U{0c}' || '\U{1c}' <= c <= '\U{1e}'
    || c == '\U{85}' || c == '\U{2028}' || c == '\U{2029}'
  }

  predicate NoTab(s: string) {
    forall k :: 0 <= k < |s| ==> s[k] != '\t'
  }

  predicate NoBreak(s: string) {
    forall k :: 0 <= k < |s| ==> !IsBreak(s[k])
  }

  /** expandtabs() from the given column: a tab becomes spaces up to the
      next multiple of 8, and "\n" or "\r" (only those) starts a new
      column count. */
  function ExpandFrom(s: string, column: nat): (r: string)
    ensures NoTab(r)
    decreases |s|
  {
    if s == [] then []
    else if s[0] == '\t' then Spaces(8 - column % 8) + ExpandFrom(s[1..], column + 8 - column % 8)
    else if s[0] == '\n' || s[0] == '\r' then [s[0]] + ExpandFrom(s[1..], 0)
    else [s[0]] + ExpandFrom(s[1..], column + 1)
  }

  function ExpandTabs(s: string): (r: string)
    ensures NoTab(r)
  {
    ExpandFrom(s, 0)
  }

  /** The length of the first line of s. */
  function LineEnd(s: string): (i: nat)
    ensures i <= |s| && NoBreak(s[..i]) && (i < |s| ==> IsBreak(s[i]))
  {
    if s == [] || IsBreak(s[0]) then 0
    else
      var i := 1 + LineEnd(s[1..]);
      assert forall k :: 1 <= k < i ==> s[..i][k] == s[1..][..i - 1][k - 1];
      i
  }

  /** splitlines() of the text expat hands the handlers: the lines end at
      any of Python's line boundaries (IsBreak), "\r\n" counting as one,
      and a final line break opens no empty line. */
  function SplitLines(s: string): (lines: seq<string>)
    ensures forall i :: 0 <= i < |lines| ==> NoBreak(lines[i]) && (NoTab(s) ==> NoTab(lines[i]))
    decreases |s|
  {
    if s == [] then []
    else
      var i := LineEnd(s);
      if i == |s| then [s]
      else
        var next := if s[i] == '\r' && i + 1 < |s| && s[i + 1] == '\n' then i + 2 else i + 1;
        assert NoTab(s) ==> NoTab(s[next..]) && NoTab(s[..i]) by {
          if NoTab(s) {
            assert forall k :: 0 <= k < |s| - next ==> s[next..][k] == s[next + k];
            assert forall k :: 0 <= k < i ==> s[..i][k] == s[k];
          }
        }
        [s[..i]] + SplitLines(s[next..])
  }

  /** The lines of text, each followed by a newline. */
  function Render(lines: seq<string>, indent: nat): string {
    if lines == [] then "" else Spaces(indent) + lines[0] + "\n" + Render(lines[1..], indent)
  }

  lemma SplitLinesFirst(a: string, b: string)
    requires NoBreak(a)
    ensures SplitLines(a + "\n" + b) == [a] + SplitLines(b)
  {
    var s := a + "\n" + b;
    LineEndOf(a, b);
    assert s[..|a|] == a;
    assert s[|a| + 1..] == b;
  }

  lemma LineEndOf(a: string, b: string)
    requires NoBreak(a)
    ensures LineEnd(a + "\n" + b) == |a|
    decreases |a|
  {
    if a != [] {
      assert (a + "\n" + b)[1..] == a[1..] + "\n" + b;
      LineEndOf(a[1..], b);
    }
  }

  // ---------------------------------------------------------------------
  // fix_whitespace

  /** The number of leading spaces. */
  function Lead(line: string): (n: nat)
    ensures n <= |line| && (forall k :: 0 <= k < n ==> line[k] == ' ') && (n < |line| ==> line[n] != ' ')
  {
    if line == [] || line[0] != ' ' then 0 else 1 + Lead(line[1..])
  }

  predicate Blank(line: string) {
    Lead(line) == |line|
  }

  /** min_len: the least indentation of the lines that are not blank. */
  function MinIndent(lines: seq<string>): (m: Option<nat>)
    ensures m.None? <==> forall k :: 0 <= k < |lines| ==> Blank(lines[k])
  {
    if lines == [] then None
    else
      var m := MinIndent(lines[..|lines| - 1]);
      var last := lines[|lines| - 1];
      assert forall k :: 0 <= k < |lines| - 1 ==> lines[..|lines| - 1][k] == lines[k];
      if Blank(last) then m
      else if m.None? || Lead(last) < m.value then Some(Lead(last))
      else m
  }

  /** The first line loses all of its indentation. */
  function CleanFirst(line: string): (r: string)
    ensures Lead(r) == 0 && r == line[Lead(line)..]
  {
    line[Lead(line)..]
  }

  /** Another line: empty when blank, otherwise cut by the least
      indentation m. */
  function CleanOther(line: string, m: nat): string {
    if Blank(line) then "" else Drop(line, m)
  }

  function CleanRest(lines: seq<string>, m: nat): (r: seq<string>)
    ensures |r| == |lines|
  {
    if lines == [] then [] else [CleanOther(lines[0], m)] + CleanRest(lines[1..], m)
  }

  lemma {:induction false} CleanRestAt(lines: seq<string>, m: nat, k: nat)
    requires k < |lines|
    ensures CleanRest(lines, m)[k] == CleanOther(lines[k], m)
  {
    if k > 0 {
      assert lines[1..][k - 1] == lines[k];
      CleanRestAt(lines[1..], m, k - 1);
    }
  }

  /** The lines fix_whitespace writes out, before indentation. */
  function Cleaned(lines: seq<string>): (r: seq<string>)
    requires lines != []
    ensures |r| == |lines|
  {
    [CleanFirst(lines[0])] + CleanRest(lines[1..], MinIndent(lines[1..]).GetOr(0))
  }

  /** fix_whitespace(text, indent). */
  function FixedWhitespace(text: string, indent: nat): (out: string)
    ensures SplitLines(ExpandTabs(text)) == [] ==> out == "\n"
  {
    var lines := SplitLines(ExpandTabs(text));
    if lines == [] then "\n" else Render(Cleaned(lines), indent) + "\n"
  }

  /** line[min_len:], where min_len may be None. */
  function Sliced(line: string, m: Option<nat>): string {
    if m.None? then line else Drop(line, m.value)
  }

  function SliceAll(lines: seq<string>, m: Option<nat>): (r: seq<string>)
    ensures |r| == |lines|
  {
    if lines == [] then [] else [Sliced(lines[0], m)] + SliceAll(lines[1..], m)
  }

  lemma {:induction false} SliceAllAt(lines: seq<string>, m: Option<nat>, k: nat)
    requires k < |lines|
    ensures SliceAll(lines, m)[k] == Sliced(lines[k], m)
  {
    if k > 0 {
      assert lines[1..][k - 1] == lines[k];
      SliceAllAt(lines[1..], m, k - 1);
    }
  }

  /** What the first loop of fix_whitespace leaves in lines[l]. */
  function Pass1(line: string, first: bool): string {
    if Blank(line) then "" else if first then line[Lead(line)..] else line
  }

  /** The loops of fix_whitespace over the lines, rewriting them in place
      and tracking min_len, then the padding of the first line and the
      join. */
  method FixWhitespace(text: string, indent: nat) returns (out: string)
    ensures out == FixedWhitespace(text, indent)
  {
    var lines := SplitLines(ExpandTabs(text));
    if lines == [] {
      return "\n";
    }
    ghost var original := lines;
    var minLen: Option<nat> := None;
    var l := 0;
    while l < |lines|
      invariant l <= |lines| == |original|
      invariant Untouched(lines, original, l) && Passed(lines, original, l)
      invariant minLen == MinIndent(original[1..Max(l, 1)])
    {
      ghost var before := lines;
      ghost var oldMin := minLen;
      var cleaned, m := FirstPassLine(lines[l], l == 0, minLen);
      lines := lines[l := cleaned];
      minLen := m;
      PassStep(original, before, lines, l);
      MinLenStep(original, l, oldMin, minLen);
      l := l + 1;
    }
    assert original[1..Max(l, 1)] == original[1..];
    if minLen.Some? && lines[0] != "" {
      lines := lines[0 := Spaces(minLen.value) + lines[0]];
    }
    var sliced := SliceAll(lines, minLen);
    SlicedIsCleaned(original, lines, minLen);
    out := Render(sliced, indent) + "\n";
  }

  /** Writing the leading spaces back in front of the rest of the line
      gives the line itself. */
  lemma PaddedLead(line: string, n: nat)
    requires n == Lead(line)
    ensures Spaces(n) + line[n..] == line
  {
    var p := Spaces(n) + line[n..];
    assert forall k :: 0 <= k < |line| ==> p[k] == line[k] by {
      forall k | 0 <= k < |line|
        ensures p[k] == line[k]
      {
        if k < n {
          assert p[k] == Spaces(n)[k] == ' ';
        }
      }
    }
  }

  /** What one round of the first loop makes of min_len. */
  function NextMin(line: string, first: bool, m: Option<nat>): Option<nat> {
    if first || Blank(line) then m
    else if m.None? || Lead(line) < m.value then Some(Lead(line))
    else m
  }

  /** The body of the first loop of fix_whitespace, on lines[l]: it
      counts the indentation, writes it back as spaces, then empties a
      blank line, strips the first line, or lowers min_len. */
  method FirstPassLine(line: string, first: bool, minLen: Option<nat>) returns (cleaned: string, newMin: Option<nat>)
    requires NoTab(line)
    ensures cleaned == Pass1(line, first)
    ensures newMin == NextMin(line, first, minLen)
  {
    var spaces := LeadingSpaces(line);
    PaddedLead(line, spaces);
    cleaned := Spaces(spaces) + line[spaces..];
    newMin := minLen;
    if spaces == |cleaned| {
      cleaned := "";
    } else if first {
      cleaned := cleaned[spaces..];
    } else if minLen.None? || spaces < minLen.value {
      newMin := Some(spaces);
    }
  }

  /** One round of the first loop keeps its invariant. */
  lemma PassStep(original: seq<string>, before: seq<string>, after: seq<string>, l: nat)
    requires l < |before| == |original|
    requires Untouched(before, original, l) && Passed(before, original, l)
    requires after == before[l := Pass1(original[l], l == 0)]
    ensures |after| == |original|
    ensures Untouched(after, original, l + 1) && Passed(after, original, l + 1)
  {
  }

  /** The lines from l on are still as split. */
  predicate Untouched(lines: seq<string>, original: seq<string>, l: nat)
    requires |lines| == |original|
  {
    forall k :: l <= k < |lines| ==> lines[k] == original[k]
  }

  /** The lines before l have been through the first loop. */
  predicate Passed(lines: seq<string>, original: seq<string>, l: nat)
    requires l <= |lines| == |original|
  {
    forall k :: 0 <= k < l ==> lines[k] == Pass1(original[k], k == 0)
  }

  /** The inner loop of fix_whitespace: it counts spaces, stepping over
      a tab without counting it, which on a tab would never end; the
      lines have no tabs left. */
  method LeadingSpaces(line: string) returns (spaces: nat)
    requires NoTab(line)
    ensures spaces == Lead(line)
  {
    spaces := 0;
    while spaces < |line| && (line[spaces] == ' ' || line[spaces] == '\t')
      invariant spaces <= |line| && forall k :: 0 <= k < spaces ==> line[k] == ' '
      decreases |line| - spaces
    {
      if line[spaces] == ' ' {
        spaces := spaces + 1;
      }
    }
    LeadIsFirstNonSpace(line, spaces);
  }

  lemma {:induction false} LeadIsFirstNonSpace(line: string, n: nat)
    requires n <= |line| && (forall k :: 0 <= k < n ==> line[k] == ' ') && (n < |line| ==> line[n] != ' ')
    ensures Lead(line) == n
  {
    if n > 0 {
      LeadIsFirstNonSpace(line[1..], n - 1);
    }
  }

  /** One round of the first loop keeps min_len the least indentation of
      the lines after the first seen so far. */
  lemma MinLenStep(original: seq<string>, l: nat, m: Option<nat>, m': Option<nat>)
    requires l < |original|
    requires m == MinIndent(original[1..Max(l, 1)])
    requires m' == NextMin(original[l], l == 0, m)
    ensures m' == MinIndent(original[1..Max(l + 1, 1)])
  {
    if l >= 1 {
      MinIndentStep(original, l);
    }
  }

  lemma MinIndentStep(lines: seq<string>, l: nat)
    requires 1 <= l < |lines|
    ensures var m := MinIndent(lines[1..l]);
      MinIndent(lines[1..l + 1]) ==
        if Blank(lines[l]) then m
        else if m.None? || Lead(lines[l]) < m.value then Some(Lead(lines[l]))
        else m
  {
    assert lines[1..l + 1][..l - 1] == lines[1..l];
  }

  lemma SlicedIsCleaned(original: seq<string>, lines: seq<string>, minLen: Option<nat>)
    requires original != [] && |lines| == |original| && minLen == MinIndent(original[1..])
    requires lines[0] == (if minLen.Some? && Pass1(original[0], true) != "" then Spaces(minLen.value) + Pass1(original[0], true)
                          else Pass1(original[0], true))
    requires forall k :: 1 <= k < |lines| ==> lines[k] == Pass1(original[k], false)
    ensures SliceAll(lines, minLen) == Cleaned(original)
  {
    var c := Cleaned(original);
    var r := SliceAll(lines, minLen);
    SlicedFirst(original[0], minLen);
    SliceAllAt(lines, minLen, 0);
    forall k | 1 <= k < |lines|
      ensures r[k] == c[k]
    {
      assert c[k] == CleanRest(original[1..], minLen.GetOr(0))[k - 1];
      assert original[1..][k - 1] == original[k];
      CleanRestAt(original[1..], minLen.GetOr(0), k - 1);
      SliceAllAt(lines, minLen, k);
      SlicedOther(original[k], minLen);
    }
  }

  /** The first line, padded to min_len and cut again, loses its
      indentation. */
  lemma SlicedFirst(line: string, m: Option<nat>)
    ensures Sliced(if m.Some? && Pass1(line, true) != "" then Spaces(m.value) + Pass1(line, true) else Pass1(line, true), m)
      == CleanFirst(line)
  {
    if m.Some? && !Blank(line) {
      var p := line[Lead(line)..];
      assert (Spaces(m.value) + p)[m.value..] == p;
    }
  }

  /** Another line, cut at min_len, is the cleaned line. */
  lemma SlicedOther(line: string, m: Option<nat>)
    ensures Sliced(Pass1(line, false), m) == CleanOther(line, m.GetOr(0))
  {
    if m.None? && !Blank(line) {
      assert line[0..] == line;
    }
  }

  lemma {:induction false} MinIndentBound(lines: seq<string>, k: nat)
    requires k < |lines| && !Blank(lines[k])
    ensures MinIndent(lines).Some? && MinIndent(lines).value <= Lead(lines[k])
  {
    var init := lines[..|lines| - 1];
    if k < |lines| - 1 {
      assert init[k] == lines[k];
      MinIndentBound(init, k);
    }
  }

  lemma {:induction false} MinIndentMet(lines: seq<string>) returns (k: nat)
    requires MinIndent(lines).Some?
    ensures k < |lines| && !Blank(lines[k]) && Lead(lines[k]) == MinIndent(lines).value
  {
    var init := lines[..|lines| - 1];
    var last := lines[|lines| - 1];
    if !Blank(last) && (MinIndent(init).None? || Lead(last) < MinIndent(init).value) {
      k := |lines| - 1;
    } else {
      k := MinIndentMet(init);
      assert init[k] == lines[k];
    }
  }

  /** The output's lines are the cleaned lines, each after indent spaces,
      and then one empty line. */
  lemma {:induction false} RenderLines(lines: seq<string>, indent: nat)
    requires forall k :: 0 <= k < |lines| ==> NoBreak(lines[k])
    ensures SplitLines(Render(lines, indent) + "\n") == Indented(lines, indent) + [""]
  {
    if lines == [] {
      assert SplitLines("\n") == [""] by {
        assert LineEnd("\n") == 0;
        assert "\n"[1..] == "";
      }
    } else {
      var first := Spaces(indent) + lines[0];
      var rest := Render(lines[1..], indent) + "\n";
      IndentedNoBreak(lines[0], indent);
      RenderLines(lines[1..], indent);
      RenderCons(lines, indent);
      SplitLinesFirst(first, rest);
      ConcatAssoc([first], Indented(lines[1..], indent), [""]);
    }
  }

  lemma RenderCons(lines: seq<string>, indent: nat)
    requires lines != []
    ensures Render(lines, indent) + "\n" == (Spaces(indent) + lines[0]) + "\n" + (Render(lines[1..], indent) + "\n")
  {
  }


  lemma IndentedNoBreak(line: string, indent: nat)
    requires NoBreak(line)
    ensures NoBreak(Spaces(indent) + line)
  {
    var first := Spaces(indent) + line;
    assert forall k :: 0 <= k < |first| ==> first[k] == ' ' || first[k] == line[k - indent];
  }

  function Indented(lines: seq<string>, indent: nat): (r: seq<string>)
    ensures |r| == |lines|
  {
    if lines == [] then [] else [Spaces(indent) + lines[0]] + Indented(lines[1..], indent)
  }

  /** Each line is preceded by indent spaces. */
  lemma {:induction false} IndentedAt(lines: seq<string>, indent: nat, k: nat)
    requires k < |lines|
    ensures Indented(lines, indent)[k] == Spaces(indent) + lines[k]
  {
    if k > 0 {
      assert lines[1..][k - 1] == lines[k];
      IndentedAt(lines[1..], indent, k - 1);
    }
  }

  lemma DropNoBreak(line: string, m: nat)
    requires NoBreak(line)
    ensures NoBreak(Drop(line, m)) && NoBreak(line[Lead(line)..])
  {
    if m <= |line| {
      assert forall k :: 0 <= k < |line| - m ==> line[m..][k] == line[m + k];
    }
    var n := Lead(line);
    assert forall k :: 0 <= k < |line| - n ==> line[n..][k] == line[n + k];
  }

  /** fix_whitespace keeps the number of lines and adds one empty line:
      the output splits into the cleaned input lines, each after indent
      spaces, followed by "". */
  lemma FixedWhitespaceLines(text: string, indent: nat)
    requires SplitLines(ExpandTabs(text)) != []
    ensures var lines := SplitLines(ExpandTabs(text));
      SplitLines(FixedWhitespace(text, indent)) == Indented(Cleaned(lines), indent) + [""]
  {
    var lines := SplitLines(ExpandTabs(text));
    var c := Cleaned(lines);
    forall k | 0 <= k < |c|
      ensures NoBreak(c[k])
    {
      DropNoBreak(lines[k], MinIndent(lines[1..]).GetOr(0));
      if k > 0 {
        assert c[k] == CleanRest(lines[1..], MinIndent(lines[1..]).GetOr(0))[k - 1];
        assert lines[1..][k - 1] == lines[k];
        CleanRestAt(lines[1..], MinIndent(lines[1..]).GetOr(0), k - 1);
      }
    }
    RenderLines(c, indent);
  }

  /** Blank lines come out empty, the first line flush left, and every
      other line loses the least indentation of the lines after the first,
      so their relative indentation is kept and one of them ends up flush
      left. */
  lemma CleanedIndentation(lines: seq<string>, k: nat)
    requires 0 < k < |lines|
    ensures var c := Cleaned(lines);
      && Lead(c[0]) == 0
      && (Blank(lines[k]) ==> c[k] == "")
      && (!Blank(lines[k]) ==>
            && MinIndent(lines[1..]).Some? && MinIndent(lines[1..]).value <= Lead(lines[k])
            && c[k] == Drop(lines[k], MinIndent(lines[1..]).value)
            && Lead(c[k]) == Lead(lines[k]) - MinIndent(lines[1..]).value)
  {
    var c := Cleaned(lines);
    var m := MinIndent(lines[1..]);
    assert lines[1..][k - 1] == lines[k];
    assert c[k] == CleanRest(lines[1..], m.GetOr(0))[k - 1];
    CleanRestAt(lines[1..], m.GetOr(0), k - 1);
    if !Blank(lines[k]) {
      MinIndentBound(lines[1..], k - 1);
      LeadDrop(lines[k], m.value);
    }
  }

  lemma LeadDrop(line: string, m: nat)
    requires m <= Lead(line)
    ensures Lead(line[m..]) == Lead(line) - m
  {
    var t := line[m..];
    assert forall i :: 0 <= i < |t| ==> t[i] == line[m + i];
  }

  lemma CleanedFlushLeft(lines: seq<string>) returns (k: nat)
    requires |lines| > 1 && MinIndent(lines[1..]).Some?
    ensures 0 < k < |lines| && !Blank(lines[k]) && Lead(Cleaned(lines)[k]) == 0
  {
    var j := MinIndentMet(lines[1..]);
    k := j + 1;
    assert lines[1..][j] == lines[k];
    CleanedIndentation(lines, k);
  }

  // ---------------------------------------------------------------------
  // The element handlers

  /** The value of last_comment: never bound, None, or the text. */
  datatype Comment = Unbound | NoComment | Text(text: string)

  datatype Error = ValueError(args: seq<string>) | KeyError(key: string) | NameError(name: string)

  /** The module's globals: the open interface and method, the method's
      accumulated text and argument names, the pending comment, and the
      files written so far. */
  datatype Converter = Converter(outputDir: string, interface: Option<string>, methodName: Option<string>,
                                 methodComment: string, args: seq<Option<string>>, lastComment: Comment,
                                 files: seq<(string, string)>)

  /** The globals as the script binds them: last_comment is not among
      them. */
  function InitialAsWritten(outputDir: string): Converter {
    Converter(outputDir, None, None, "", [], Unbound, [])
  }

  /** The globals with last_comment bound to None. */
  function Initial(outputDir: string): Converter {
    Converter(outputDir, None, None, "", [], NoComment, [])
  }

  /** Between events: a method lies inside an interface, and inside an
      interface there is an output file and last_comment is bound. */
  predicate Valid(c: Converter) {
    (c.methodName.Some? ==> c.interface.Some?) && (c.interface.Some? ==> c.files != [] && c.lastComment != Unbound)
  }

  /** Appending to the open output file. */
  function Write(c: Converter, text: string): (u: Converter)
    requires c.files != []
    ensures |u.files| == |c.files| && u.files[..|c.files| - 1] == c.files[..|c.files| - 1]
  {
    var n := |c.files| - 1;
    c.(files := c.files[n := (c.files[n].0, c.files[n].1 + text)])
  }

  function LowerChar(ch: char): char {
    if 'A' <= ch <= 'Z' then (ch as int - 'A' as int + 'a' as int) as char else ch
  }

  /** str.lower() of an ASCII tag name. */
  function Lower(s: string): (r: string)
    ensures |r| == |s|
  {
    if s == [] then [] else [LowerChar(s[0])] + Lower(s[1..])
  }

  /** A name with no upper-case letter is its own lower case. */
  lemma {:induction false} LowerKeeps(s: string)
    requires forall k :: 0 <= k < |s| ==> !('A' <= s[k] <= 'Z')
    ensures Lower(s) == s
  {
    if s != [] {
      LowerKeeps(s[1..]);
    }
  }

  /** Python truthiness of method: set and not empty. */
  predicate Truthy(m: Option<string>) {
    m.Some? && m.value != ""
  }

  function Dashes(n: nat): (s: string)
    ensures |s| == n
  {
    seq(n, _ => '-')
  }

  /** The heading of an interface's file. */
  function InterfaceHeader(name: string): string {
    name + "\n" + Dashes(|name|) + "\n" + "\n" + ".. class:: " + name + "\n\n"
  }

  /** One <arg>'s line in the method's text. */
  function ParamLine(attrs: map<string, string>, comment: string): string {
    "        :param " + (if "direction" in attrs then attrs["direction"] else "in") + " "
      + (if "name" in attrs then attrs["name"] else "") + " "
      + (if "type" in attrs then attrs["type"] else "") + ":\n"
      + FixedWhitespace(comment, 12)
  }

  /** The argument list of a method's signature: unnamed arguments are
      called arg0, arg1, ... by position. */
  function ArgList(args: seq<Option<string>>): string {
    if args == [] then ""
    else
      var n := |args| - 1;
      ArgList(args[..n]) + (if n != 0 then ", " else "")
        + (if args[n].None? then "arg" + Debug.Decimal(n) else args[n].value)
  }

  function FunctionHeader(name: string, args: seq<Option<string>>, comment: string): string {
    "    .. function:: " + name + " (" + ArgList(args) + ")\n" + "\n" + comment + "\n"
  }

  /** start_element for <interface>: it opens the interface's file,
      writes the heading and the pending comment. */
  function StartInterface(c: Converter, attrs: map<string, string>): (r: (Converter, Option<Error>))
    requires Valid(c)
    ensures r.1.Some? && r.1.value.ValueError? ==> r.0 == c
    ensures r.1.None? ==> Valid(r.0) && r.0.lastComment == NoComment
  {
    if c.interface.Some? then (c, Some(ValueError(["Nested <interface>s not allowed."])))
    else if "name" !in attrs then (c, Some(KeyError("name")))
    else
      var i := attrs["name"];
      var u := c.(interface := Some(i), files := c.files + [(c.outputDir + "/" + i + ".rst", InterfaceHeader(i))]);
      match c.lastComment
      case Unbound => (u, Some(NameError("last_comment")))
      case NoComment => (u.(lastComment := NoComment), None)
      case Text(t) => (Write(u, FixedWhitespace(t, 4)).(lastComment := NoComment), None)
  }

  /** start_element for <method>: it opens the method, whose text starts
      with the pending comment. */
  function StartMethod(c: Converter, attrs: map<string, string>): (r: (Converter, Option<Error>))
    requires Valid(c)
    ensures r.1.Some? ==> r.0 == c
    ensures r.1.None? ==> Valid(r.0) && r.0.lastComment == NoComment
  {
    if c.interface.None? then (c, Some(ValueError(["<method>s outside of <interface>s not allowed."])))
    else if c.methodName.Some? then (c, Some(ValueError(["Nest <method>s not allowed."])))
    else if "name" !in attrs then (c, Some(KeyError("name")))
    else
      var comment := if c.lastComment.Text? then FixedWhitespace(c.lastComment.text, 8) else "";
      (c.(methodName := Some(attrs["name"]), methodComment := comment, args := [], lastComment := NoComment), None)
  }

  /** start_element for <arg>: a parameter line is added to the method's
      text and the name to its arguments. */
  function StartArg(c: Converter, attrs: map<string, string>): (r: (Converter, Option<Error>))
    requires Valid(c)
    ensures r.1.Some? ==> r.0 == c
    ensures r.1.None? ==> Valid(r.0) && r.0.lastComment == NoComment
  {
    if c.methodName.None? then (c, Some(ValueError(["<arg>s outside of <method>s not allowed."])))
    else
      var comment := if c.lastComment.Text? then c.lastComment.text else "";
      var arg := if "name" in attrs then Some(attrs["name"]) else None;
      (c.(methodComment := c.methodComment + ParamLine(attrs, comment), args := c.args + [arg],
          lastComment := NoComment), None)
  }

  /** start_element for <property>: the property is written out. */
  function StartProperty(c: Converter, attrs: map<string, string>): (r: (Converter, Option<Error>))
    requires Valid(c)
    ensures r.1.Some? ==> r.0 == c
    ensures r.1.None? ==> Valid(r.0) && r.0.lastComment == NoComment
  {
    if Truthy(c.methodName) then (c, Some(ValueError(["<property>s not allowed in <method>s."])))
    else if c.interface.None? then (c, Some(ValueError(["<method>s outside of <interface>s not allowed."])))
    else if "name" !in attrs then (c, Some(KeyError("name")))
    else
      var doc := if c.lastComment.Text? then FixedWhitespace(c.lastComment.text, 8) else "";
      (Write(c, "    .. data:: " + attrs["name"] + "\n\n" + doc).(lastComment := NoComment), None)
  }

  /** start_element.  The error, if any, is the exception raised, with the
      globals as far as they were changed before it. */
  function StartElement(c: Converter, name: string, attrs: map<string, string>): (r: (Converter, Option<Error>))
    requires Valid(c)
    ensures r.1.Some? && r.1.value.ValueError? ==> r.0 == c
    ensures r.1.None? ==> Valid(r.0) && r.0.lastComment == NoComment
  {
    var n := Lower(name);
    if n == "node" then (c.(lastComment := NoComment), None)
    else if n == "interface" then StartInterface(c, attrs)
    else if n == "method" then StartMethod(c, attrs)
    else if n == "arg" then StartArg(c, attrs)
    else if n == "property" then StartProperty(c, attrs)
    else (c, Some(ValueError(["Unknown tag <" + n + ">"])))
  }

  /** end_element. */
  function EndElement(c: Converter, name: string): (r: (Converter, Option<Error>))
    requires Valid(c)
    ensures r.1.Some? ==> r.0 == c && r.1.value.ValueError?
    ensures r.1.None? ==> Valid(r.0) && r.0.lastComment == NoComment
  {
    var n := Lower(name);
    if n == "method" then
      if c.methodName.None? then (c, Some(ValueError(["</method>, but no <method>."])))
      else
        var u := Write(c, FunctionHeader(c.methodName.value, c.args, c.methodComment));
        (u.(methodName := None, methodComment := "", lastComment := NoComment), None)
    else if n == "interface" then
      if c.interface.None? then (c, Some(ValueError(["</interface>, but no <interface>."])))
      else if c.methodName.Some? then (c, Some(ValueError(["</interface>, but no in a <method>."])))
      else (c.(interface := None, lastComment := NoComment), None)
    else if n == "node" || n == "arg" || n == "property" then (c.(lastComment := NoComment), None)
    else (c, Some(ValueError(["</%s> unexpected.", n])))
  }

  /** comment: the text is kept, joined to a pending comment by a blank
      line.  (The clean-up the handler computes first is discarded.) */
  function CommentEvent(c: Converter, data: string): (r: (Converter, Option<Error>))
    ensures r.1.Some? <==> c.lastComment == Unbound
    ensures r.1.Some? ==> r.0 == c && r.1.value == NameError("last_comment")
    ensures r.1.None? ==> r.0 == c.(lastComment := r.0.lastComment) && r.0.lastComment.Text?
  {
    match c.lastComment
    case Unbound => (c, Some(NameError("last_comment")))
    case NoComment => (c.(lastComment := Text(data)), None)
    case Text(t) => (c.(lastComment := Text(t + "\n\n" + data)), None)
  }

  /** Every tag a start tag accepts raises no ValueError exactly when it is
      correctly nested. */
  lemma StartNesting(c: Converter, name: string, attrs: map<string, string>)
    requires Valid(c)
    ensures var e := StartElement(c, name, attrs).1;
      var isValueError := e.Some? && e.value.ValueError?;
      && (Lower(name) == "node" ==> e.None?)
      && (Lower(name) == "interface" ==> (isValueError <==> c.interface.Some?))
      && (Lower(name) == "method" ==> (isValueError <==> c.interface.None? || c.methodName.Some?))
      && (Lower(name) == "arg" ==> (isValueError <==> c.methodName.None?))
      && (Lower(name) == "property" ==> (isValueError <==> Truthy(c.methodName) || c.interface.None?))
      && (Lower(name) !in {"node", "interface", "method", "arg", "property"} ==> isValueError)
      && ("name" in attrs && c.lastComment != Unbound ==> e.None? || isValueError)
  {
    var n := Lower(name);
    if n == "interface" {
      assert StartElement(c, name, attrs) == StartInterface(c, attrs);
    } else if n == "method" {
      assert StartElement(c, name, attrs) == StartMethod(c, attrs);
    } else if n == "arg" {
      assert StartElement(c, name, attrs) == StartArg(c, attrs);
    } else if n == "property" {
      assert StartElement(c, name, attrs) == StartProperty(c, attrs);
    }
  }

  /** An end tag raises exactly when it closes what is not open. */
  lemma EndNesting(c: Converter, name: string)
    requires Valid(c)
    ensures var e := EndElement(c, name).1;
      && (Lower(name) == "method" ==> (e.Some? <==> c.methodName.None?))
      && (Lower(name) == "interface" ==> (e.Some? <==> c.interface.None? || c.methodName.Some?))
      && (Lower(name) in {"node", "arg", "property"} ==> e.None?)
      && (Lower(name) !in {"node", "interface", "method", "arg", "property"} ==> e.Some?)
  {
  }

  /** A method with no arguments and no comment writes its signature to the
      interface's file and closes again. */
  lemma MethodBlock(c: Converter, m: string)
    requires Valid(c) && c.interface.Some? && c.methodName.None? && c.lastComment == NoComment
    ensures var (u, e) := StartElement(c, "method", map["name" := m]);
      && e.None? && u.methodName == Some(m)
      && var (v, f) := EndElement(u, "method");
      && f.None? && v.interface == c.interface && v.methodName.None?
      && v.files == c.files[|c.files| - 1 := (c.files[|c.files| - 1].0, c.files[|c.files| - 1].1 + FunctionHeader(m, [], ""))]
  {
    LowerKeeps("method");
  }

  datatype Event = StartTag(name: string, attrs: map<string, string>) | EndTag(tag: string) | CommentText(data: string)

  /** The handlers over a document's events, stopping at the first
      exception. */
  function Run(c: Converter, events: seq<Event>): (r: (Converter, Option<Error>))
    requires Valid(c)
    ensures r.1.None? ==> Valid(r.0)
    decreases |events|
  {
    if events == [] then (c, None)
    else
      var (u, e) := match events[0]
        case StartTag(n, a) => StartElement(c, n, a)
        case EndTag(n) => EndElement(c, n)
        case CommentText(d) => CommentEvent(c, d);
      if e.Some? then (u, e) else Run(u, events[1..])
  }

  /** Once last_comment is bound no handler raises NameError. */
  lemma {:induction false} BoundNeverNameError(c: Converter, events: seq<Event>)
    requires Valid(c) && c.lastComment != Unbound
    ensures Run(c, events).1.None? || !Run(c, events).1.value.NameError?
    decreases |events|
  {
    if events != [] {
      var (u, e) := match events[0]
        case StartTag(n, a) => StartElement(c, n, a)
        case EndTag(n) => EndElement(c, n)
        case CommentText(d) => CommentEvent(c, d);
      if e.None? {
        BoundNeverNameError(u, events[1..]);
      }
    }
  }

  /** As written, a comment before the root element raises NameError;
      with last_comment bound to None the same document converts. */
  lemma CommentBeforeRootAsWritten(dir: string)
    ensures var doc := [CommentText(" Woodchuck "), StartTag("node", map[]), EndTag("node")];
      && Run(InitialAsWritten(dir), doc).1 == Some(NameError("last_comment"))
      && Run(Initial(dir), doc).1 == None
  {
    var doc := [CommentText(" Woodchuck "), StartTag("node", map[]), EndTag("node")];
    assert CommentEvent(InitialAsWritten(dir), " Woodchuck ").1.Some?;
    LowerKeeps("node");
    var c1 := Initial(dir).(lastComment := Text(" Woodchuck "));
    var c2 := c1.(lastComment := NoComment);
    assert Run(Initial(dir), doc) == Run(c1, doc[1..]);
    assert StartElement(c1, "node", map[]) == (c2, None);
    assert Run(c1, doc[1..]) == Run(c2, doc[1..][1..]);
    assert doc[1..][1..] == [EndTag("node")];
    assert EndElement(c2, "node") == (c2, None);
  }

  /** The globals the handlers share. */
  class Handlers {
    var outputDir: string
    var interface: Option<string>
    var methodName: Option<string>
    var methodComment: string
    var args: seq<Option<string>>
    var lastComment: Comment
    var files: seq<(string, string)>

    function State(): Converter
      reads this
    {
      Converter(outputDir, interface, methodName, methodComment, args, lastComment, files)
    }

    constructor (dir: string)
      ensures State() == Initial(dir)
    {
      outputDir := dir;
      interface := None;
      methodName := None;
      methodComment := "";
      args := [];
      lastComment := NoComment;
      files := [];
    }

    method WriteOut(text: string)
      requires files != []
      modifies this
      ensures State() == Write(old(State()), text)
    {
      var n := |files| - 1;
      files := files[n := (files[n].0, files[n].1 + text)];
    }

    method OpenInterface(attrs: map<string, string>) returns (err: Option<Error>)
      requires Valid(State())
      modifies this
      ensures (State(), err) == StartInterface(old(State()), attrs)
    {
      if interface.Some? {
        return Some(ValueError(["Nested <interface>s not allowed."]));
      }
      if "name" !in attrs {
        return Some(KeyError("name"));
      }
      var i := attrs["name"];
      interface := Some(i);
      files := files + [(outputDir + "/" + i + ".rst", InterfaceHeader(i))];
      if lastComment.Unbound? {
        return Some(NameError("last_comment"));
      }
      if lastComment.Text? {
        WriteOut(FixedWhitespace(lastComment.text, 4));
      }
      lastComment := NoComment;
      return None;
    }

    method OpenMethod(attrs: map<string, string>) returns (err: Option<Error>)
      requires Valid(State())
      modifies this
      ensures (State(), err) == StartMethod(old(State()), attrs)
    {
      if interface.None? {
        return Some(ValueError(["<method>s outside of <interface>s not allowed."]));
      }
      if methodName.Some? {
        return Some(ValueError(["Nest <method>s not allowed."]));
      }
      if "name" !in attrs {
        return Some(KeyError("name"));
      }
      methodName := Some(attrs["name"]);
      methodComment := if lastComment.Text? then FixedWhitespace(lastComment.text, 8) else "";
      args := [];
      lastComment := NoComment;
      return None;
    }

    method AddArg(attrs: map<string, string>) returns (err: Option<Error>)
      requires Valid(State())
      modifies this
      ensures (State(), err) == StartArg(old(State()), attrs)
    {
      if methodName.None? {
        return Some(ValueError(["<arg>s outside of <method>s not allowed."]));
      }
      methodComment := methodComment + ParamLine(attrs, if lastComment.Text? then lastComment.text else "");
      args := args + [if "name" in attrs then Some(attrs["name"]) else None];
      lastComment := NoComment;
      return None;
    }

    method AddProperty(attrs: map<string, string>) returns (err: Option<Error>)
      requires Valid(State())
      modifies this
      ensures (State(), err) == StartProperty(old(State()), attrs)
    {
      if Truthy(methodName) {
        return Some(ValueError(["<property>s not allowed in <method>s."]));
      }
      if interface.None? {
        return Some(ValueError(["<method>s outside of <interface>s not allowed."]));
      }
      if "name" !in attrs {
        return Some(KeyError("name"));
      }
      WriteOut("    .. data:: " + attrs["name"] + "\n\n"
               + (if lastComment.Text? then FixedWhitespace(lastComment.text, 8) else ""));
      lastComment := NoComment;
      return None;
    }

    /** start_element. */
    method Start(name: string, attrs: map<string, string>) returns (err: Option<Error>)
      requires Valid(State())
      modifies this
      ensures (State(), err) == StartElement(old(State()), name, attrs)
    {
      var n := Lower(name);
      if n == "node" {
        lastComment := NoComment;
        err := None;
      } else if n == "interface" {
        err := OpenInterface(attrs);
      } else if n == "method" {
        err := OpenMethod(attrs);
      } else if n == "arg" {
        err := AddArg(attrs);
      } else if n == "property" {
        err := AddProperty(attrs);
      } else {
        err := Some(ValueError(["Unknown tag <" + n + ">"]));
      }
    }

    /** end_element. */
    method End(name: string) returns (err: Option<Error>)
      requires Valid(State())
      modifies this
      ensures (State(), err) == EndElement(old(State()), name)
    {
      var n := Lower(name);
      if n == "method" {
        if methodName.None? {
          return Some(ValueError(["</method>, but no <method>."]));
        }
        WriteOut(FunctionHeader(methodName.value, args, methodComment));
        methodName := None;
        methodComment := "";
      } else if n == "interface" {
        if interface.None? {
          return Some(ValueError(["</interface>, but no <interface>."]));
        }
        if methodName.Some? {
          return Some(ValueError(["</interface>, but no in a <method>."]));
        }
        interface := None;
      } else if n == "node" || n == "arg" || n == "property" {
      } else {
        return Some(ValueError(["</%s> unexpected.", n]));
      }
      lastComment := NoComment;
      return None;
    }

    /** comment. */
    method OnComment(data: string) returns (err: Option<Error>)
      modifies this
      ensures (State(), err) == CommentEvent(old(State()), data)
    {
      err := None;
      match lastComment
      case Unbound =>
        err := Some(NameError("last_comment"));
      case NoComment =>
        lastComment := Text(data);
      case Text(t) =>
        lastComment := Text(t + "\n\n" + data);
    }
  }
}
