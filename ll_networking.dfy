/** split_line of src/ll-networking-linux.c: the tokenizer the monitor uses
    on the lines of /proc/net/dev and /proc/net/route.  The line is a C
    string in a character array; the fields are the indices at which the
    tokens start, and the tokens are terminated in place by overwriting a
    separator with a NUL. */
module LlNetworking {

  /** The two characters that separate tokens. */
  predicate Blank(c: char) {
    c == ' ' || c == '\t'
  }

  /** The end of the token that starts at i: the first blank or NUL at or
      after i.  A newline is not a separator, so it stays in the token. */
  function TokenEnd(s: seq<char>, i: nat): (e: nat)
    requires i <= |s|
    ensures i <= e <= |s|
    ensures e < |s| ==> Blank(s[e]) || s[e] == '\0'
    decreases |s| - i
  {
    if i == |s| || Blank(s[i]) || s[i] == '\0' then i else TokenEnd(s, i + 1)
  }

  /** A token holds no blank and no NUL. */
  lemma {:induction false} TokenHasNoSeparator(s: seq<char>, i: nat, j: nat)
    requires i <= |s| && i <= j < TokenEnd(s, i)
    ensures !Blank(s[j]) && s[j] != '\0'
    decreases |s| - i
  {
    if i < j {
      TokenHasNoSeparator(s, i + 1, j);
    }
  }

  /** In a NUL-terminated string every token ends inside the string. */
  lemma TokenEndsInside(s: seq<char>, i: nat)
    requires i < |s| && s[|s| - 1] == '\0'
    ensures TokenEnd(s, i) < |s|
  {
    if TokenEnd(s, i) == |s| {
      TokenHasNoSeparator(s, i, |s| - 1);
    }
  }

  /** Where the scan stops: at the first NUL, or at the fieldsSize-th token
      when the line has more.  With fields found, it stops at the end of the
      last one; with none, at the start of the line. */
  function StopAt(s: seq<char>, fields: seq<nat>): nat
    requires forall k :: 0 <= k < |fields| ==> fields[k] <= |s|
  {
    if fields == [] then 0 else TokenEnd(s, fields[|fields| - 1])
  }

  /** strspn (p, " \t") */
  method SkipBlanks(line: array<char>, p: nat) returns (q: nat)
    requires p < line.Length && line[line.Length - 1] == '\0'
    ensures p <= q < line.Length && !Blank(line[q])
    ensures forall j :: p <= j < q ==> Blank(line[j])
  {
    q := p;
    while Blank(line[q])
      invariant p <= q < line.Length
      invariant forall j :: p <= j < q ==> Blank(line[j])
      decreases line.Length - q
    {
      q := q + 1;
    }
  }

  /** strcspn (p, " \t"), which stops at the NUL too. */
  method SkipToken(line: array<char>, p: nat) returns (q: nat)
    requires p < line.Length && line[line.Length - 1] == '\0'
    ensures q == TokenEnd(line[..], p) && q < line.Length
  {
    q := p;
    while line[q] != '\0' && !Blank(line[q])
      invariant p <= q < line.Length
      invariant TokenEnd(line[..], p) == TokenEnd(line[..], q)
      decreases line.Length - q
    {
      q := q + 1;
    }
  }

  /** The end of a token depends only on the text from its start on. */
  lemma {:induction false} TokenEndFrom(a: seq<char>, b: seq<char>, i: nat)
    requires |a| == |b| && i <= |a|
    requires forall j :: i <= j < |a| ==> a[j] == b[j]
    ensures TokenEnd(a, i) == TokenEnd(b, i)
    decreases |a| - i
  {
    if i < |a| && !Blank(a[i]) && a[i] != '\0' {
      TokenEndFrom(a, b, i + 1);
    }
  }

  /** Every character of l is that of s, or a blank of s turned into NUL. */
  predicate OnlyBlanksNulled(s: seq<char>, l: seq<char>) {
    |l| == |s| && forall j :: 0 <= j < |l| ==> l[j] == s[j] || (l[j] == '\0' && Blank(s[j]))
  }

  /** l and s agree from a up to b. */
  predicate Same(l: seq<char>, s: seq<char>, a: nat, b: nat)
    requires a <= b <= |l| && b <= |s|
  {
    forall j :: a <= j < b ==> l[j] == s[j]
  }

  /** Only blanks from a up to b. */
  predicate AllBlank(s: seq<char>, a: nat, b: nat)
    requires a <= b <= |s|
  {
    forall j :: a <= j < b ==> Blank(s[j])
  }

  /** Every character of l is that of s, or a separator of s (a blank or
      the newline) turned into NUL. */
  predicate OnlySeparatorsNulled(s: seq<char>, l: seq<char>) {
    |l| == |s| && forall j :: 0 <= j < |l| ==> l[j] == s[j] || (l[j] == '\0' && (Blank(s[j]) || s[j] == '\n'))
  }

  /** The fields start at non-blanks, in order, each after the end of the
      token before it, with only blanks before the first and between two. */
  predicate FieldsInOrder(s: seq<char>, fields: seq<nat>) {
    (forall k :: 0 <= k < |fields| ==> fields[k] < |s| && !Blank(s[fields[k]]))
    && (|fields| > 0 ==> AllBlank(s, 0, fields[0]))
    && (forall k :: 0 <= k < |fields| - 1 ==> Follows(s, fields[k], fields[k + 1]))
  }

  /** The token at b comes after the one at a, with only blanks between. */
  predicate Follows(s: seq<char>, a: nat, b: nat) {
    a <= |s| && a <= TokenEnd(s, a) < b <= |s| && AllBlank(s, TokenEnd(s, a), b)
  }

  /** The first n fields are whole tokens of s, unchanged in l and
      terminated there by a NUL. */
  predicate Terminated(s: seq<char>, l: seq<char>, fields: seq<nat>, n: int)
    requires |l| == |s| && n <= |fields|
    requires forall k :: 0 <= k < |fields| ==> fields[k] < |s|
  {
    forall k :: 0 <= k < n ==>
      var e := TokenEnd(s, fields[k]);
      e < |l| && l[e] == '\0' && Same(l, s, fields[k], e)
  }

  /** The state of split_line between two tokens: p is at the end of the
      last token, whose terminator has not been written yet. */
  predicate Scanning(s: seq<char>, l: seq<char>, fields: seq<nat>, p: nat, fieldsSize: int) {
    |s| > 0 && s[|s| - 1] == '\0' && p < |s|
    && |fields| <= (if fieldsSize < 0 then 0 else fieldsSize)
    && OnlyBlanksNulled(s, l)
    && (forall j :: p <= j < |l| ==> l[j] == s[j])
    && FieldsInOrder(s, fields)
    && (forall k :: 0 <= k < |fields| - 1 ==> TokenEnd(s, fields[k]) < p)
    && (fields == [] ==> p == 0)
    && (fields != [] ==> p == TokenEnd(s, fields[|fields| - 1]) && Same(l, s, fields[|fields| - 1], p))
    && Terminated(s, l, fields, |fields| - 1)
  }

  /** One turn of the loop of split_line keeps Scanning: l1 is l0 with the
      separator at p nulled (when it is a blank), start the first
      non-blank after it, and the new token ends at TokenEnd. */
  lemma ScanStep(s: seq<char>, l0: seq<char>, l1: seq<char>, fields: seq<nat>, p: nat, p1: nat, start: nat, fieldsSize: int)
    requires Scanning(s, l0, fields, p, fieldsSize) && l0[p] != '\0' && |fields| < fieldsSize
    requires if Blank(l0[p]) then l1 == l0[p := '\0'] && p1 == p + 1 else l1 == l0 && p1 == p
    requires p1 <= start < |l1| && !Blank(l1[start]) && forall j :: p1 <= j < start ==> Blank(l1[j])
    ensures Scanning(s, l1, fields + [start], TokenEnd(s, start), fieldsSize)
  {
    var e := TokenEnd(s, start);
    TokenEndsInside(s, start);
    LineStep(s, l0, l1, p, p1, start);
    TokenEndFrom(l1, s, start);
    assert Same(l1, s, start, e);
    if fields != [] {
      var last := fields[|fields| - 1];
      assert Same(l1, s, last, p);
      FieldsSnoc(s, fields, start);
      OrderSnoc(s, fields, start, p);
      TerminatedSnoc(s, l0, l1, fields, start, p);
    } else {
      FieldsSnoc(s, fields, start);
    }
  }

  /** The line side of one turn: only the blank at p changed, and the
      text from the new token on is still the original. */
  lemma LineStep(s: seq<char>, l0: seq<char>, l1: seq<char>, p: nat, p1: nat, start: nat)
    requires OnlyBlanksNulled(s, l0) && p < |s| && l0[p] != '\0'
    requires forall j :: p <= j < |l0| ==> l0[j] == s[j]
    requires if Blank(l0[p]) then l1 == l0[p := '\0'] && p1 == p + 1 else l1 == l0 && p1 == p
    requires p1 <= start < |l1| && forall j :: p1 <= j < start ==> Blank(l1[j])
    ensures OnlyBlanksNulled(s, l1) && AllBlank(s, p, start)
    ensures forall j :: start <= j < |l1| ==> l1[j] == s[j]
    ensures forall j :: 0 <= j < |l1| && j != p ==> l1[j] == l0[j]
  {
    forall j | p <= j < start
      ensures Blank(s[j])
    {
      assert l0[j] == s[j];
      if j >= p1 {
        assert l1[j] == l0[j];
      }
    }
  }

  /** Every token found so far ends before the end of the new one. */
  lemma OrderSnoc(s: seq<char>, fields: seq<nat>, start: nat, p: nat)
    requires fields != [] && forall k :: 0 <= k < |fields| ==> fields[k] <= |s|
    requires p == TokenEnd(s, fields[|fields| - 1]) && p < start <= |s|
    requires forall k :: 0 <= k < |fields| - 1 ==> TokenEnd(s, fields[k]) < p
    ensures var f := fields + [start];
      forall k :: 0 <= k < |f| - 1 ==> TokenEnd(s, f[k]) < TokenEnd(s, start)
  {
    var f := fields + [start];
    forall k | 0 <= k < |f| - 1
      ensures TokenEnd(s, f[k]) < TokenEnd(s, start)
    {
      assert f[k] == fields[k];
    }
  }

  lemma TerminatedSnoc(s: seq<char>, l0: seq<char>, l1: seq<char>, fields: seq<nat>, start: nat, p: nat)
    requires |l0| == |s| == |l1| && fields != [] && start < |s|
    requires forall k :: 0 <= k < |fields| ==> fields[k] < |s|
    requires Terminated(s, l0, fields, |fields| - 1)
    requires p == TokenEnd(s, fields[|fields| - 1]) < |s| && l1[p] == '\0'
    requires Same(l1, s, fields[|fields| - 1], p)
    requires forall j :: 0 <= j < |l1| && j != p ==> l1[j] == l0[j]
    requires forall k :: 0 <= k < |fields| - 1 ==> TokenEnd(s, fields[k]) < p
    ensures Terminated(s, l1, fields + [start], |fields|)
  {
    var f := fields + [start];
    forall k | 0 <= k < |fields|
      ensures var e := TokenEnd(s, f[k]); e < |l1| && l1[e] == '\0' && Same(l1, s, f[k], e)
    {
      assert f[k] == fields[k];
      if k < |fields| - 1 {
        TerminatorAt(s, l0, l1, fields, p, k);
      }
    }
  }

  lemma TerminatorAt(s: seq<char>, l0: seq<char>, l1: seq<char>, fields: seq<nat>, p: nat, k: nat)
    requires |l0| == |s| == |l1| && k < |fields| - 1
    requires forall k :: 0 <= k < |fields| ==> fields[k] < |s|
    requires Terminated(s, l0, fields, |fields| - 1)
    requires forall j :: 0 <= j < |l1| && j != p ==> l1[j] == l0[j]
    requires TokenEnd(s, fields[k]) < p
    ensures var e := TokenEnd(s, fields[k]); e < |l1| && l1[e] == '\0' && Same(l1, s, fields[k], e)
  {
    var e := TokenEnd(s, fields[k]);
    assert e < |l0| && l0[e] == '\0' && Same(l0, s, fields[k], e);
    TerminatorKept(s, l0, l1, fields[k], e, p);
  }

  /** A token terminated before p stays terminated after a store at p. */
  lemma TerminatorKept(s: seq<char>, l0: seq<char>, l1: seq<char>, a: nat, e: nat, p: nat)
    requires a <= e < p && |s| == |l0| == |l1| && e < |s|
    requires l0[e] == '\0' && Same(l0, s, a, e)
    requires forall j :: 0 <= j < |l1| && j != p ==> l1[j] == l0[j]
    ensures l1[e] == '\0' && Same(l1, s, a, e)
  {
    SameElsewhere(s, l0, l1, a, e, p);
  }

  /** Agreement on a range survives a store outside it. */
  lemma SameElsewhere(s: seq<char>, l0: seq<char>, l1: seq<char>, a: nat, b: nat, p: nat)
    requires a <= b <= |s| == |l0| == |l1| && Same(l0, s, a, b) && b < p
    requires forall j :: 0 <= j < |l1| && j != p ==> l1[j] == l0[j]
    ensures Same(l1, s, a, b)
  {
  }

  lemma FieldsSnoc(s: seq<char>, fields: seq<nat>, start: nat)
    requires FieldsInOrder(s, fields) && start < |s| && !Blank(s[start])
    requires fields == [] ==> AllBlank(s, 0, start)
    requires fields != [] ==>
      TokenEnd(s, fields[|fields| - 1]) < start
      && AllBlank(s, TokenEnd(s, fields[|fields| - 1]), start)
    ensures FieldsInOrder(s, fields + [start])
  {
    var f := fields + [start];
    FollowsSnoc(s, fields, start);
    StartsSnoc(s, fields, start);
    if fields != [] {
      assert f[0] == fields[0];
    }
  }

  lemma FollowsSnoc(s: seq<char>, fields: seq<nat>, start: nat)
    requires forall k :: 0 <= k < |fields| - 1 ==> Follows(s, fields[k], fields[k + 1])
    requires fields != [] ==> Follows(s, fields[|fields| - 1], start)
    ensures var f := fields + [start]; forall k :: 0 <= k < |f| - 1 ==> Follows(s, f[k], f[k + 1])
  {
    var f := fields + [start];
    var n := |fields|;
    forall k | 0 <= k < n - 1
      ensures Follows(s, f[k], f[k + 1])
    {
      assert f[k] == fields[k] && f[k + 1] == fields[k + 1];
    }
    if n > 0 {
      assert f[n - 1] == fields[n - 1] && f[n] == start;
    }
  }

  lemma StartsSnoc(s: seq<char>, fields: seq<nat>, start: nat)
    requires forall k :: 0 <= k < |fields| ==> fields[k] < |s| && !Blank(s[fields[k]])
    requires start < |s| && !Blank(s[start])
    ensures var f := fields + [start]; forall k :: 0 <= k < |f| ==> f[k] < |s| && !Blank(s[f[k]])
  {
    var f := fields + [start];
    forall k | 0 <= k < |f|
      ensures f[k] < |s| && !Blank(s[f[k]])
    {
      if k < |fields| {
        assert f[k] == fields[k];
      }
    }
  }

  /** After the final store, what split_line promises. */
  lemma ScanDone(s: seq<char>, l: seq<char>, l2: seq<char>, fields: seq<nat>, p: nat, fieldsSize: int)
    requires Scanning(s, l, fields, p, fieldsSize) && (l[p] == '\0' || |fields| >= fieldsSize)
    requires l2 == if Blank(l[p]) || l[p] == '\n' then l[p := '\0'] else l
    ensures FieldsInOrder(s, fields) && Terminated(s, l2, fields, |fields|)
    ensures |fields| < fieldsSize ==> StopAt(s, fields) < |s| && s[StopAt(s, fields)] == '\0'
    ensures OnlySeparatorsNulled(s, l2)
  {
    if fields != [] {
      var last := fields[|fields| - 1];
      assert Same(l2, s, last, p);
    }
  }

  /** split_line.  The array must hold a terminating NUL in its last slot, as
      every C string buffer does.  The result lists where each field starts;
      the number of fields is its length. */
  method SplitLine(line: array<char>, fieldsSize: int) returns (fields: seq<nat>)
    requires line.Length > 0 && line[line.Length - 1] == '\0'
    modifies line
    // At most fieldsSize fields.
    ensures |fields| <= if fieldsSize < 0 then 0 else fieldsSize
    // The fields start in order, each after the end of the one before it,
    // and leading blanks are skipped: only blanks come before the first
    // field and between two fields, and no field starts at a blank.
    ensures FieldsInOrder(old(line[..]), fields)
    // Each field is a whole token, unchanged, terminated by a NUL: it
    // contains no blank, and a newline in it stays.
    ensures forall k :: 0 <= k < |fields| ==> fields[k] < line.Length
    ensures Terminated(old(line[..]), line[..], fields, |fields|)
    // No token is left out: with fewer than fieldsSize fields, the text
    // ends where the last field ends (or at the start, with no field).
    ensures |fields| < fieldsSize ==>
      StopAt(old(line[..]), fields) < line.Length && old(line[..])[StopAt(old(line[..]), fields)] == '\0'
    // The only characters changed are separators, overwritten by NUL.
    ensures OnlySeparatorsNulled(old(line[..]), line[..])
  {
    ghost var s := line[..];
    fields := [];
    var p := 0;
    while line[p] != '\0' && |fields| < fieldsSize
      invariant Scanning(s, line[..], fields, p, fieldsSize)
      decreases line.Length - p
    {
      ghost var l0 := line[..];
      ghost var p0 := p;
      // The separator that ended the previous token becomes its NUL.
      if line[p] == ' ' || line[p] == '\t' {
        line[p] := '\0';
        p := p + 1;
      }
      ghost var l1 := line[..];
      ghost var p1 := p;
      // strspn (p, " \t")
      p := SkipBlanks(line, p);
      var start := p;
      // strcspn (p, " \t")
      p := SkipToken(line, p);
      TokenEndFrom(line[..], s, start);
      ScanStep(s, l0, l1, fields, p0, p1, start, fieldsSize);
      fields := fields + [start];
    }
    ghost var l := line[..];
    if line[p] == ' ' || line[p] == '\t' || line[p] == '\n' {
      line[p] := '\0';
    }
    ScanDone(s, l, line[..], fields, p, fieldsSize);
  }
}
