/** process_message (src/murmeltier-dbus-server.c:35-1037) as the code runs
    it: a pointer walk over the path, cursors over the argument stream, a
    hash table filled entry by entry, counters for arrays and structs, and
    variables ret, error, error_name and reply assigned across the labels out
    and bad_signature.  Each method is proved to compute the corresponding
    function of DispatchSpec. */
module DbusServer {
  import opened Wrappers
  import opened Dbus
  import opened Woodchuck
  import opened ServerApi
  import opened DispatchSpec

  /** Lines 95-129: path starts just after the root; the returned p is where
      the object's id begins. */
  method ResolveObjectPath(path: string, iface0: Iface) returns (kind: Kind, p: nat, iface: Iface)
    requires StartsWith(path, PATH_ROOT)
    ensures p <= |path|
    ensures Resolution(kind, path[p..], iface) == ResolvePath(path[|PATH_ROOT|..], iface0)
  {
    p := |PATH_ROOT|;
    kind := NoKind;
    iface := iface0;
    ghost var rest := path[p..];
    if p == |path| {
      kind := RootKind;
      if iface != IWoodchuck {
        iface := NoIface;
      }
    } else if path[p] == '/' {
      p := p + 1;
      assert path[p..] == rest[1..];
      if StartsWith(path[p..], "manager/") {
        assert path[p + 8..] == path[p..][8..];
        p := p + 8;
        kind := ManagerKind;
        if iface != IManager {
          iface := NoIface;
        }
      } else if StartsWith(path[p..], "stream/") {
        assert path[p + 7..] == path[p..][7..];
        p := p + 7;
        kind := StreamKind;
        if iface != IStream {
          iface := NoIface;
        }
      }
      if StartsWith(path[p..], "object/") {
        assert path[p + 7..] == path[p..][7..];
        p := p + 7;
        kind := ObjectKind;
        if iface != IObject {
          iface := NoIface;
        }
      }
    }
  }

  /** Lines 269-373: decode the elements of an a(stub) property.  struct_len
      is counted on the first element; a later element may be shorter, but
      each of its fields must have the type the first element has there.
      For a later element longer than the first the code reads types[] past
      its end; that element is rejected whatever the read returns, so the
      model skips the comparison. */
  method DecodeStructs(elems: seq<Value>) returns (rows: Option<seq<seq<Value>>>)
    ensures rows == DecodeStubArray(elems)
  {
    var first := if |elems| > 0 then FieldsOf(elems[0]) else [];
    var structLen := 0;
    while structLen < |first|
      invariant structLen <= |first|
    {
      structLen := structLen + 1;
    }
    var types: seq<GType> := seq(structLen, _ => GString);
    var out: seq<seq<Value>> := [];
    var j := 0;
    while j < |elems|
      invariant 0 <= j <= |elems|
      invariant structLen == StructLen(elems) == |types|
      invariant j > 0 ==> forall k :: 0 <= k < structLen ==> GTypeOf(FieldsOf(elems[0])[k]) == Some(types[k])
      invariant forall jj :: 0 <= jj < j ==> ElementOk(elems, jj)
      invariant out == RowsOf(elems)[..j]
    {
      if !elems[j].Struct? {
        assert !ElementOk(elems, j);
        return None;
      }
      var fields := elems[j].fields;
      var strct: seq<Value> := [];
      var k := 0;
      while k < |fields|
        invariant 0 <= k <= |fields|
        invariant |types| == structLen
        invariant forall kk :: 0 <= kk < k ==> FieldOk(elems, j, kk)
        invariant j == 0 ==> forall kk :: 0 <= kk < k ==> GTypeOf(fields[kk]) == Some(types[kk])
        invariant j > 0 ==> forall kk :: 0 <= kk < structLen ==> GTypeOf(FieldsOf(elems[0])[kk]) == Some(types[kk])
        invariant strct == fields[..k]
      {
        var g := GTypeOf(fields[k]);
        if g.None? {
          assert !FieldOk(elems, j, k);
          assert !ElementOk(elems, j);
          return None;
        }
        if j == 0 {
          types := types[k := g.value];
        } else if k < structLen && types[k] != g.value {
          assert !FieldOk(elems, j, k);
          assert !ElementOk(elems, j);
          return None;
        }
        strct := strct + [fields[k]];
        k := k + 1;
        if k > structLen {
          assert !FieldOk(elems, j, k - 1);
          assert !ElementOk(elems, j);
          return None;
        }
      }
      assert strct == fields;
      out := out + [strct];
      j := j + 1;
      assert RowsOf(elems)[..j] == RowsOf(elems)[..j - 1] + [FieldsOf(elems[j - 1])];
    }
    assert out == RowsOf(elems);
    rows := Some(out);
  }

  /** Once an entry is rejected the decoded dictionary stays rejected. */
  lemma {:induction false} DictBadStays(es: seq<Value>, n: nat, m: nat)
    requires n <= m <= |es|
    requires DecodeDict(es, n).DictBad?
    ensures DecodeDict(es, m) == DecodeDict(es, n)
    decreases m - n
  {
    if n < m {
      assert DecodeDict(es, n + 1) == DecodeDict(es, n);
      DictBadStays(es, n + 1, m);
    }
  }


  /** One dictionary entry, lines 191-407.  queued holds the a(stub) arrays
      it put on array_of_structs_to_free. */
  method DecodeEntryStep(e: Value) returns (res: EntryResult, queued: seq<seq<seq<Value>>>)
    ensures res == DecodeEntry(e)
    ensures |queued| == res.queued
  {
    queued := [];
    if !e.DictEntry? || !e.key.Str? {
      return EntryBad(0), queued;
    }
    var key := e.key.s;
    if e.val.Variant? {
      var inner := e.val.inner;
      if inner.Str? {
        res := EntryOk(key, PString(inner.s), 0);
      } else if inner.U32? {
        res := EntryOk(key, PUint(inner.u), 0);
      } else if inner.U64? {
        res := EntryOk(key, PUint64(inner.t), 0);
      } else if inner.Array? {
        if Sig(inner) != STUB_ARRAY_SIG {
          return EntryBad(0), queued;
        }
        var rows := DecodeStructs(inner.elems);
        queued := [rows.GetOr([])];
        if rows.None? {
          return EntryBad(1), queued;
        }
        res := EntryOk(key, PStructs(rows.value), 1);
      } else {
        res := EntryBad(0);
      }
    } else if e.val.Str? {
      res := EntryOk(key, PString(e.val.s), 0);
    } else {
      res := EntryBad(0);
    }
  }

  /** Lines 162-425: the optional property array, then exactly one boolean.
      toFree is array_of_structs_to_free. */
  method DecodeRegister(args: seq<Value>) returns (r: Registration, toFree: seq<seq<seq<Value>>>)
    ensures r == DecodeRegisterArgs(args)
    ensures |toFree| == r.pending
  {
    var props: Props := map[];
    toFree := [];
    var outer := 0;
    if outer < |args| && args[outer].Array? {
      var entries := args[outer].elems;
      var arrayCount := 0;
      while arrayCount < |entries|
        invariant arrayCount <= |entries|
      {
        arrayCount := arrayCount + 1;
      }
      var i := 0;
      while i < |entries|
        invariant 0 <= i <= |entries|
        invariant DecodeDict(entries, i) == DictOk(props, |toFree|)
      {
        var res, queued := DecodeEntryStep(entries[i]);
        toFree := queued + toFree;
        if res.EntryBad? {
          DictBadStays(entries, i + 1, |entries|);
          return RegBad(|toFree|), toFree;
        }
        props := props[res.key := res.value];
        i := i + 1;
      }
      outer := outer + 1;
    }
    assert outer == 1 ==> args[outer..] == args[1..];
    if outer >= |args| || !args[outer].Bool? {
      return RegBad(|toFree|), toFree;
    }
    var onlyIfUnique := args[outer].b;
    outer := outer + 1;
    if outer < |args| {
      return RegBad(|toFree|), toFree;
    }
    r := RegOk(props, onlyIfUnique, |toFree|);
  }

  method HandleRegisterCall(k: Kind, id: string, m: Message, svc: CoreService)
    returns (x: Exit, toFree: seq<seq<seq<Value>>>)
    ensures x == HandleRegister(k, id, m, svc)
    ensures |toFree| == x.pending
  {
    var r;
    r, toFree := DecodeRegister(m.args);
    if r.RegBad? {
      return BadSignature(REGISTER_SIG, r.pending), toFree;
    }
    var c: Call<string>;
    if k == RootKind {
      c := svc.managerRegister(r.props, r.onlyIfUnique);
    } else if k == ManagerKind && m.member == "ManagerRegister" {
      c := svc.managerManagerRegister(id, r.props, r.onlyIfUnique);
    } else if k == ManagerKind {
      c := svc.managerStreamRegister(id, r.props, r.onlyIfUnique);
    } else {
      c := svc.streamObjectRegister(id, r.props, r.onlyIfUnique);
    }
    var reply: seq<Value> := [];
    if c.code == 0 {
      reply := reply + [Str(c.out)];
    }
    x := Exit(ToOut, c.code, c.error, None, REGISTER_SIG, reply, |toFree|);
  }

  /** Lines 585-627: one struct per row, with a NULL string sent as "" and
      nothing appended to a struct unless the call succeeded. */
  method EncodeList(rows: Rows, arity: nat, ret: int) returns (v: Value)
    ensures v == EncodeRows(rows, arity, ret)
  {
    var structs: seq<Value> := [];
    var i := 0;
    while i < |rows|
      invariant 0 <= i <= |rows|
      invariant |structs| == i
      invariant forall j :: 0 <= j < i ==> structs[j] == EncodeRow(rows[j], ret)
    {
      var strct := rows[i];
      var fields: seq<Value> := [];
      var f := 0;
      while f < |strct|
        invariant 0 <= f <= |strct|
        invariant ret == 0 ==> |fields| == f && forall g :: 0 <= g < f ==> fields[g] == Str(strct[g].GetOr(""))
        invariant ret != 0 ==> fields == []
      {
        var value := if strct[f].None? then "" else strct[f].value;
        if ret == 0 {
          fields := fields + [Str(value)];
        }
        f := f + 1;
      }
      structs := structs + [Struct(fields)];
      i := i + 1;
    }
    v := Array(RowType(arity), structs);
  }

  /** Lines 463-630. */
  method HandleListCall(k: Kind, id: string, m: Message, svc: CoreService) returns (x: Exit)
    ensures x == HandleList(k, id, m, svc)
  {
    var a := m.args;
    var it := 0;
    var cookie := "";
    var recurse := true;
    var expected: string;
    if m.member == "LookupManagerByCookie" {
      expected := "sb";
      if it >= |a| || !a[it].Str? {
        return BadSignature(expected, 0);
      }
      cookie := a[it].s;
      it := it + 1;
      if it >= |a| || !a[it].Bool? {
        return BadSignature(expected, 0);
      }
      recurse := a[it].b;
      it := it + 1;
    } else if StartsWith(m.member, "Lookup") {
      expected := "s";
      if it >= |a| || !a[it].Str? {
        return BadSignature(expected, 0);
      }
      cookie := a[it].s;
      it := it + 1;
    } else if m.member == "ListManagers" {
      expected := "b";
      if it < |a| && a[it].Bool? {
        recurse := a[it].b;
        it := it + 1;
      }
    } else {
      expected := "";
    }
    if it < |a| {
      return BadSignature(expected, 0);
    }
    assert DecodeListArgs(m.member, a) == Some(ListArgs(cookie, recurse));
    var (c, arity) := ListCall(k, id, m.member, ListArgs(cookie, recurse), svc);
    if c.out.Some? {
      var v := EncodeList(c.out.value, arity, c.code);
      x := Exit(ToOut, c.code, c.error, None, expected, [v], 0);
    } else if c.code == 0 {
      x := Exit(Aborted, c.code, c.error, None, expected, [], 0);
    } else {
      x := Exit(ToOut, c.code, c.error, None, expected, [], 0);
    }
  }

  /** Lines 686-708: count the elements, allocate that many versions, and
      read each (expected size, utility) struct into its slot. */
  method ReadVersions(elems: seq<Value>) returns (versions: seq<Version>)
    ensures versions == VersionsOf(elems)
  {
    var count := 0;
    while count < |elems|
      invariant count <= |elems|
    {
      count := count + 1;
    }
    var buf := new Version[count](_ => Version(0, 0));
    var i := 0;
    while i < |elems|
      invariant 0 <= i <= |elems| == buf.Length
      invariant forall j :: 0 <= j < i ==> buf[j] == VersionOf(elems[j])
      modifies buf
    {
      buf[i] := VersionOf(elems[i]);
      i := i + 1;
    }
    versions := buf[..];
  }

  /** Lines 866-897: the same for the (filename, dedicated, deletion policy)
      structs of DownloadStatus. */
  method ReadFiles(elems: seq<Value>) returns (files: seq<FileInfo>)
    ensures files == FilesOf(elems)
  {
    var count := 0;
    while count < |elems|
      invariant count <= |elems|
    {
      count := count + 1;
    }
    var buf := new FileInfo[count](_ => FileInfo("", false, 0));
    var i := 0;
    while i < |elems|
      invariant 0 <= i <= |elems| == buf.Length
      invariant forall j :: 0 <= j < i ==> buf[j] == FileInfoOf(elems[j])
      modifies buf
    {
      buf[i] := FileInfoOf(elems[i]);
      i := i + 1;
    }
    files := buf[..];
  }

  /** Lines 631-966: the methods with a fixed signature.  The signature
      string is compared first; then the arguments are read. */
  /** Lines 901-920: DownloadStatus and UpdateStatus once the arguments
      have the expected shape, status and indicator passed in the order the
      header declares them (the code passes them swapped; see
      DispatchFindings). */
  method TransferStatusCall(k: Kind, id: string, m: Message, svc: CoreService) returns (x: Exit)
    requires Sigs(m.args) == ExpectedSig(TransferStatus, m.member)
    requires HasShape(m.args, ArgCodes(TransferStatus, m.member))
    ensures x == HandleFixed(TransferStatus, k, id, m, svc)
  {
    var a := m.args;
    if m.member == "DownloadStatus" {
      ShapeConstructors(a, "uutttuta");
      var tr := Transfer(a[0].u, a[1].u, a[2].t, a[3].t, a[4].t, a[5].u);
      var files := ReadFiles(a[7].elems);
      x := Called(svc.objectDownloadStatus(id, tr, a[6].t, files), "uutttuta(sbu)", []);
    } else {
      ShapeConstructors(a, "uutttuuuu");
      var tr := Transfer(a[0].u, a[1].u, a[2].t, a[3].t, a[4].t, a[5].u);
      x := Called(svc.streamUpdateStatus(id, tr, a[6].u, a[7].u, a[8].u), "uutttuuuu", []);
    }
  }

  /** What the type codes of a shape say about the arguments'
      constructors. */
  lemma ShapeConstructors(a: seq<Value>, codes: string)
    requires HasShape(a, codes)
    ensures forall i :: 0 <= i < |a| && codes[i] == 'u' ==> a[i].U32?
    ensures forall i :: 0 <= i < |a| && codes[i] == 't' ==> a[i].U64?
    ensures forall i :: 0 <= i < |a| && codes[i] == 'a' ==> a[i].Array?
  {
  }

  method HandleFixedCall(h: Handler, k: Kind, id: string, m: Message, svc: CoreService) returns (x: Exit)
    requires h != Register && h != ListOrLookup && h != NoHandler
    ensures x == HandleFixed(h, k, id, m, svc)
  {
    var expected := ExpectedSig(h, m.member);
    var a := m.args;
    if Sigs(a) != expected {
      return BadSignature(expected, 0);
    }
    if h == ObjectDelete {
      return Called(svc.objectDelete(id), expected, []);
    }
    var codes := ArgCodes(h, m.member);
    if !HasShape(a, codes) {
      return BadSignature(expected, 0);
    }
    match h {
      case DeleteSubtree =>
        if k == ManagerKind {
          x := Called(svc.managerDelete(id, a[0].b), expected, []);
        } else {
          x := Called(svc.streamDelete(id, a[0].b), expected, []);
        }
      case DownloadDesirability =>
        var versions := ReadVersions(a[1].elems);
        var c := svc.downloadDesirability(a[0].u, versions);
        x := Called(c, expected, [U32(c.out.0), U32(c.out.1)]);
      case FeedbackSubscribe =>
        var c := svc.managerFeedbackSubscribe(id, a[0].b);
        x := Called(c, expected, [Str(c.out)]);
      case FeedbackUnsubscribe =>
        x := Called(svc.managerFeedbackUnsubscribe(id, a[0].s), expected, []);
      case FeedbackAck =>
        x := Called(svc.managerFeedbackAck(id, a[0].s, a[1].u), expected, []);
      case ObjectDownload =>
        x := Called(svc.objectDownload(id, a[0].u), expected, []);
      case TransferStatus =>
        x := TransferStatusCall(k, id, m, svc);
      case ObjectUsed =>
        x := Called(svc.objectUse(id, a[0].t, a[1].t, a[2].t), expected, []);
      case FilesDeleted =>
        x := Called(svc.objectFilesDeleted(id, a[0].u, a[1].t), expected, []);
    }
  }

  /** The interface number of lines 67-75. */
  method InterfaceNumber(s: string) returns (iface: Iface)
    ensures iface == InterfaceOf(s)
  {
    iface := NoIface;
    if s == "org.woodchuck" {
      iface := IWoodchuck;
    }
    if s == "org.woodchuck.manager" {
      iface := IManager;
    }
    if s == "org.woodchuck.stream" {
      iface := IStream;
    }
    if s == "org.woodchuck.object" {
      iface := IObject;
    }
  }

  /** Lines 95-976: from the path below the root to the handler's exit. */
  method RouteCall(m: Message, iface: Iface, svc: CoreService) returns (x: Exit, toFree: seq<seq<seq<Value>>>)
    requires StartsWith(m.path, PATH_ROOT) && iface == InterfaceOf(m.iface)
    ensures x == Route(m, svc)
    ensures |toFree| == x.pending
  {
    var kind, p, iface' := ResolveObjectPath(m.path, iface);
    var id := m.path[p..];
    toFree := [];
    var hexDigits := Strspn(id, HEX_DIGITS);
    if kind == NoKind || hexDigits != |id| {
      x := Exit(ToOut, GENERIC, Some(NoSuchObjectMessage(m)), Some(DBUS_ERROR_UNKNOWN_OBJECT), "", [], 0);
    } else if iface' == NoIface {
      x := BadMethod(m, Some(DBUS_ERROR_UNKNOWN_INTERFACE));
    } else {
      x, toFree := HandleCall(kind, id, m, svc);
    }
  }

  /** Lines 147-976: the handler the member names. */
  method HandleCall(kind: Kind, id: string, m: Message, svc: CoreService) returns (x: Exit, toFree: seq<seq<seq<Value>>>)
    ensures x == Handle(kind, id, m, svc)
    ensures |toFree| == x.pending
  {
    toFree := [];
    var h := HandlerOf(kind, m.member);
    if h == Register {
      x, toFree := HandleRegisterCall(kind, id, m, svc);
    } else if h == ListOrLookup {
      x := HandleListCall(kind, id, m, svc);
    } else if h == NoHandler {
      x := BadMethod(m, None);
    } else {
      x := HandleFixedCall(h, kind, id, m, svc);
    }
  }

  /** process_message.  released counts the arrays of
      array_of_structs_to_free the loop at out frees: in the intended
      reading the loop runs on every path that returns, bad_signature
      included, so every array a handler queued is released. */
  method ProcessMessage(m: Message, svc: CoreService) returns (response: Response, released: nat)
    ensures response == Dispatch(m, svc)
    ensures !StartsWith(m.path, PATH_ROOT) ==> released == 0
    ensures StartsWith(m.path, PATH_ROOT) && Route(m, svc).jump != Aborted ==> released == Route(m, svc).pending
  {
    var iface := InterfaceNumber(m.iface);
    if !StartsWith(m.path, PATH_ROOT) {
      return NotForUs, 0;
    }
    var x, toFree := RouteCall(m, iface, svc);
    if x.jump == Aborted {
      return AssertionFailure, 0;
    }
    // out: release every queued array.
    released := 0;
    while toFree != []
      invariant released + |toFree| == x.pending
      decreases |toFree|
    {
      toFree := toFree[1..];
      released := released + 1;
    }
    var error := x.error;
    var errorName := x.errorName;
    if x.jump == ToBadSignature {
      error := Some(BadSignatureMessage(m, x.expectedSig));
      errorName := Some(DBUS_ERROR_INVALID_ARGS);
    }
    if x.ret != 0 && error.None? {
      error := Some(FailureMessage(m, x.ret));
    }
    if x.ret != 0 && errorName.None? {
      errorName := Some(ErrorName(x.ret));
    }
    if error.Some? {
      if x.ret == 0 {
        response := AssertionFailure;
      } else {
        response := ErrorReply(errorName.GetOr(DBUS_ERROR_FAILED), error.value);
      }
    } else {
      response := MethodReturn(x.reply);
    }
  }
}
