/** What the dispatcher promises its callers, proved of DispatchSpec.Dispatch
    (and so, through DbusServer.ProcessMessage's postcondition, of the
    imperative dispatcher). */
module DispatchProps {
  import opened Wrappers
  import opened Dbus
  import opened Woodchuck
  import opened ServerApi
  import opened DispatchSpec

  /** The resolution of a path below the root, with the message's
      interface. */
  function Resolved(m: Message): Resolution
    requires StartsWith(m.path, PATH_ROOT)
  {
    ResolvePath(m.path[|PATH_ROOT|..], InterfaceOf(m.iface))
  }

  /** An object id: lower-case hex digits only, possibly none. */
  predicate IsHexId(id: string) {
    forall k :: 0 <= k < |id| ==> id[k] in HEX_DIGITS
  }

  /** The message reaches a handler: a kind, a hex id, the kind's
      interface. */
  predicate Reaches(m: Message) {
    StartsWith(m.path, PATH_ROOT) && Resolved(m).kind != NoKind
    && IsHexId(Resolved(m).id) && Resolved(m).iface != NoIface
  }

  function HandlerFor(m: Message): Handler
    requires Reaches(m)
  {
    HandlerOf(Resolved(m).kind, m.member)
  }

  predicate IsFixed(h: Handler) {
    h != Register && h != ListOrLookup && h != NoHandler
  }

  // ---------------------------------------------------------------------
  // Path and interface.

  /** Lines 78-80: the handler answers nothing exactly for paths that do
      not start with the root; every other call gets one reply (or stops
      at an assertion). */
  lemma NotForUsIff(m: Message, svc: CoreService)
    ensures Dispatch(m, svc) == NotForUs <==> !StartsWith(m.path, PATH_ROOT)
  {
    if StartsWith(m.path, PATH_ROOT) {
      var x := Route(m, svc);
      assert Finalise(m, x) != NotForUs;
    }
  }

  lemma HexIdIsStrspn(id: string)
    ensures IsHexId(id) <==> Strspn(id, HEX_DIGITS) == |id|
  {
  }

  lemma PrefixAfterSlash(rest: string, p: string)
    requires rest != [] && rest[0] == '/' && p != [] && p[0] == '/'
    ensures StartsWith(rest, p) <==> StartsWith(rest[1..], p[1..])
  {
    if |rest| >= |p| {
      assert rest[..|p|] == [rest[0]] + rest[1..][..|p| - 1];
      assert p == [p[0]] + p[1..];
    }
  }

  /** The kinds a path can select (lines 95-129): the empty remainder, or a
      slash followed by manager/, stream/ or object/. */
  lemma ResolveKindIff(rest: string, i: Iface)
    ensures ResolvePath(rest, i).kind != NoKind <==>
      rest == "" || StartsWith(rest, "/manager/") || StartsWith(rest, "/stream/") || StartsWith(rest, "/object/")
  {
    if rest != "" && rest[0] == '/' {
      var q := rest[1..];
      PrefixAfterSlash(rest, "/manager/");
      PrefixAfterSlash(rest, "/stream/");
      PrefixAfterSlash(rest, "/object/");
      assert "/manager/"[1..] == "manager/";
      assert "/stream/"[1..] == "stream/";
      assert "/object/"[1..] == "object/";
      var r := ResolvePath(rest, i);
      if StartsWith(q, "manager/") {
        assert r.kind == ManagerKind || r.kind == ObjectKind;
      } else if StartsWith(q, "stream/") {
        assert r.kind == StreamKind || r.kind == ObjectKind;
      } else {
        assert r.kind != NoKind <==> StartsWith(q, "object/");
      }
    }
  }

  lemma ResolveManager(id: string, i: Iface)
    requires !StartsWith(id, "object/")
    ensures ResolvePath("/manager/" + id, i) == Resolution(ManagerKind, id, KeepIf(i, IManager))
  {
    var rest := "/manager/" + id;
    assert rest[1..] == "manager/" + id;
    assert ("manager/" + id)[..8] == "manager/";
    assert ("manager/" + id)[8..] == id;
  }

  lemma ResolveStream(id: string, i: Iface)
    requires !StartsWith(id, "object/")
    ensures ResolvePath("/stream/" + id, i) == Resolution(StreamKind, id, KeepIf(i, IStream))
  {
    var rest := "/stream/" + id;
    assert rest[1..] == "stream/" + id;
    assert ("stream/" + id)[0] == 's';
    assert ("stream/" + id)[..7] == "stream/";
    assert ("stream/" + id)[7..] == id;
  }

  lemma ResolveObject(id: string, i: Iface)
    ensures ResolvePath("/object/" + id, i) == Resolution(ObjectKind, id, KeepIf(i, IObject))
  {
    var rest := "/object/" + id;
    var q := "object/" + id;
    assert rest[1..] == q;
    assert q[0] == 'o';
    assert q[..7] == "object/";
    assert q[7..] == id;
  }

  /** Line 121 is not an else branch: after manager/ (or stream/) a further
      object/ selects the object kind, whose interface can then never match,
      because the manager test already zeroed every interface but the
      manager's. */
  lemma ResolveManagerObject(id: string, i: Iface)
    ensures ResolvePath("/manager/object/" + id, i) == Resolution(ObjectKind, id, NoIface)
  {
    var rest := "/manager/object/" + id;
    var q := "manager/object/" + id;
    assert rest[1..] == q;
    assert q[..8] == "manager/";
    assert q[8..] == "object/" + id;
    assert ("object/" + id)[..7] == "object/";
    assert ("object/" + id)[7..] == id;
  }

  /** So every call on /org/woodchuck/manager/object/<hex> is refused as an
      unknown interface, whatever its interface and member. */
  lemma ManagerObjectUnknownInterface(m: Message, svc: CoreService, id: string)
    requires m.path == PATH_ROOT + "/manager/object/" + id && IsHexId(id)
    ensures Dispatch(m, svc) == ErrorReply(DBUS_ERROR_UNKNOWN_INTERFACE, NotUnderstoodMessage(m))
  {
    assert m.path[..|PATH_ROOT|] == PATH_ROOT;
    assert m.path[|PATH_ROOT|..] == "/manager/object/" + id;
    ResolveManagerObject(id, InterfaceOf(m.iface));
  }

  /** Lines 131-140: no kind, or an id with a character outside [0-9a-f],
      gives UnknownObject. */
  lemma UnknownObjectReply(m: Message, svc: CoreService)
    requires StartsWith(m.path, PATH_ROOT)
    requires Resolved(m).kind == NoKind || !IsHexId(Resolved(m).id)
    ensures Dispatch(m, svc) == ErrorReply(DBUS_ERROR_UNKNOWN_OBJECT, NoSuchObjectMessage(m))
  {
    HexIdIsStrspn(Resolved(m).id);
  }

  /** Lines 99-127 and 142-146: a message whose interface is not the one
      bound to the object's kind gives UnknownInterface. */
  lemma InterfaceMismatchReply(m: Message, svc: CoreService)
    requires StartsWith(m.path, PATH_ROOT)
    requires Resolved(m).kind != NoKind && IsHexId(Resolved(m).id)
    requires InterfaceOf(m.iface) != BoundInterface(Resolved(m).kind)
    ensures Dispatch(m, svc) == ErrorReply(DBUS_ERROR_UNKNOWN_INTERFACE, NotUnderstoodMessage(m))
  {
    HexIdIsStrspn(Resolved(m).id);
  }

  /** Lines 967-976: a method no handler takes gives UnknownMethod. */
  lemma NoHandlerReply(m: Message, svc: CoreService)
    requires Reaches(m) && HandlerFor(m) == NoHandler
    ensures Dispatch(m, svc) == ErrorReply(DBUS_ERROR_UNKNOWN_METHOD, NotUnderstoodMessage(m))
  {
    HexIdIsStrspn(Resolved(m).id);
  }

  /** A message that reaches a handler is handled by it. */
  lemma ReachesHandle(m: Message, svc: CoreService)
    requires Reaches(m)
    ensures Route(m, svc) == Handle(Resolved(m).kind, Resolved(m).id, m, svc)
  {
    HexIdIsStrspn(Resolved(m).id);
  }

  // ---------------------------------------------------------------------
  // Error finalisation, lines 996-1036.

  /** A method return is sent exactly when control reached out normally
      with success and no error; it carries the handler's reply. */
  lemma FinaliseReturnIff(m: Message, x: Exit)
    ensures Finalise(m, x).MethodReturn? <==> x.jump == ToOut && x.ret == 0 && x.error.None?
    ensures Finalise(m, x).MethodReturn? ==> Finalise(m, x).args == x.reply
  {
  }

  /** A failure code with no error set: the message and the name both come
      from the code. */
  lemma FinaliseFailure(m: Message, x: Exit)
    requires x.jump == ToOut && x.ret != 0 && x.error.None? && x.errorName.None?
    ensures Finalise(m, x) == ErrorReply(ErrorName(x.ret), FailureMessage(m, x.ret))
  {
  }

  /** A failure code with an error the Core Service set: its message is
      kept, and the name comes from the code. */
  lemma FinaliseServiceError(m: Message, x: Exit)
    requires x.jump == ToOut && x.ret != 0 && x.error.Some? && x.errorName.None?
    ensures Finalise(m, x) == ErrorReply(ErrorName(x.ret), x.error.value)
  {
  }

  /** Lines 998-1004: a bad signature is InvalidArgs naming the expected and
      the actual signature. */
  lemma FinaliseBadSignature(m: Message, expected: string, pending: nat)
    ensures Finalise(m, BadSignature(expected, pending))
         == ErrorReply(DBUS_ERROR_INVALID_ARGS, BadSignatureMessage(m, expected))
  {
  }

  /** Line 1020: an error set by a call that returned success trips the
      assertion. */
  lemma FinaliseErrorOnSuccess(m: Message, x: Exit)
    requires x.jump == ToOut && x.ret == 0 && x.error.Some?
    ensures Finalise(m, x) == AssertionFailure
  {
  }

  // ---------------------------------------------------------------------
  // Fixed signatures.

  /** The basic type each of the codes s, u, t and b names. */
  function BasicOfCode(c: char): DType {
    if c == 's' then TString else if c == 'u' then TUint32 else if c == 't' then TUint64 else TBoolean
  }

  function TypesOfCodes(codes: string): (ts: seq<DType>)
    ensures |ts| == |codes|
    ensures forall i :: 0 <= i < |codes| ==> ts[i] == BasicOfCode(codes[i])
  {
    seq(|codes|, i requires 0 <= i < |codes| => BasicOfCode(codes[i]))
  }

  predicate BasicCodes(codes: string) {
    forall i :: 0 <= i < |codes| ==> codes[i] in "sutb"
  }

  lemma {:induction false} TypeSigsAppend(a: seq<DType>, b: seq<DType>)
    ensures TypeSigs(a + b) == TypeSigs(a) + TypeSigs(b)
  {
    if a != [] {
      assert (a + b)[1..] == a[1..] + b;
      TypeSigsAppend(a[1..], b);
    } else {
      assert a + b == b;
    }
  }

  /** A string of basic codes is the signature of the types it names. */
  lemma {:induction false} TypeSigsOfCodes(codes: string)
    requires BasicCodes(codes)
    ensures TypeSigs(TypesOfCodes(codes)) == codes
    ensures WfTypes(TypesOfCodes(codes))
  {
    if codes != [] {
      assert TypesOfCodes(codes)[1..] == TypesOfCodes(codes[1..]);
      TypeSigsOfCodes(codes[1..]);
      assert codes == [codes[0]] + codes[1..];
    }
  }

  /** The argument types the expected signature of each fixed method
      spells. */
  function ExpectedTypes(h: Handler, member: string): seq<DType> {
    match h
    case DownloadDesirability => TypesOfCodes("u") + [TArray(TStruct(TypesOfCodes("tu")))]
    case TransferStatus =>
      if member == "DownloadStatus" then TypesOfCodes("uutttut") + [TArray(TStruct(TypesOfCodes("sbu")))]
      else TypesOfCodes(ExpectedSig(h, member))
    case _ => TypesOfCodes(ExpectedSig(h, member))
  }

  /** The signature of an array of structs of basic fields. */
  lemma ArrayOfStructSig(codes: string)
    requires BasicCodes(codes) && codes != []
    ensures TypeSigs([TArray(TStruct(TypesOfCodes(codes)))]) == "a(" + codes + ")"
    ensures WfType(TArray(TStruct(TypesOfCodes(codes))))
  {
    TypeSigsOfCodes(codes);
    var t := TArray(TStruct(TypesOfCodes(codes)));
    assert TypeSig(t) == "a(" + TypeSigs(TypesOfCodes(codes)) + ")";
    assert TypeSigs([t]) == TypeSig(t) + TypeSigs([]);
  }

  /** Basic codes followed by one array of structs of basic fields. */
  lemma CodesThenArraySig(head: string, fields: string)
    requires BasicCodes(head) && BasicCodes(fields) && fields != []
    ensures WfTypes(TypesOfCodes(head) + [TArray(TStruct(TypesOfCodes(fields)))])
    ensures TypeSigs(TypesOfCodes(head) + [TArray(TStruct(TypesOfCodes(fields)))]) == head + "a(" + fields + ")"
  {
    TypeSigsOfCodes(head);
    ArrayOfStructSig(fields);
    TypeSigsAppend(TypesOfCodes(head), [TArray(TStruct(TypesOfCodes(fields)))]);
  }

  lemma DesirabilityTypesSig()
    ensures WfTypes(ExpectedTypes(DownloadDesirability, "DownloadDesirability"))
    ensures TypeSigs(ExpectedTypes(DownloadDesirability, "DownloadDesirability")) == "ua(tu)"
  {
    CodesThenArraySig("u", "tu");
  }

  lemma DownloadStatusTypesSig()
    ensures WfTypes(ExpectedTypes(TransferStatus, "DownloadStatus"))
    ensures TypeSigs(ExpectedTypes(TransferStatus, "DownloadStatus")) == "uutttuta(sbu)"
  {
    assert BasicCodes("uutttut");
    CodesThenArraySig("uutttut", "sbu");
    assert "uutttut" + "a(" + "sbu" + ")" == "uutttuta(sbu)";
  }

  lemma ExpectedTypesSig(h: Handler, member: string)
    requires IsFixed(h)
    ensures WfTypes(ExpectedTypes(h, member))
    ensures TypeSigs(ExpectedTypes(h, member)) == ExpectedSig(h, member)
  {
    match h {
      case DownloadDesirability => DesirabilityTypesSig();
      case TransferStatus =>
        if member == "DownloadStatus" {
          DownloadStatusTypesSig();
        } else {
          assert BasicCodes("uutttuuuu");
          TypeSigsOfCodes("uutttuuuu");
        }
      case DeleteSubtree => TypeSigsOfCodes("b");
      case FeedbackSubscribe => TypeSigsOfCodes("b");
      case FeedbackUnsubscribe => TypeSigsOfCodes("s");
      case FeedbackAck => TypeSigsOfCodes("su");
      case ObjectDelete => TypeSigsOfCodes("");
      case ObjectDownload => TypeSigsOfCodes("u");
      case ObjectUsed => TypeSigsOfCodes("ttt");
      case FilesDeleted => TypeSigsOfCodes("ut");
    }
  }

  /** The code dbus_message_get_args sees for an argument of a type. */
  function TypeCode(t: DType): char {
    match t
    case TString => 's'
    case TUint32 => 'u'
    case TUint64 => 't'
    case TBoolean => 'b'
    case TArray(_) => 'a'
    case _ => '?'
  }

  lemma ArgCodesOfTypes(h: Handler, member: string)
    requires IsFixed(h) && h != ObjectDelete
    ensures |ArgCodes(h, member)| == |ExpectedTypes(h, member)|
    ensures forall i :: 0 <= i < |ExpectedTypes(h, member)| ==> TypeCode(ExpectedTypes(h, member)[i]) == ArgCodes(h, member)[i]
  {
  }

  lemma CodeOfType(v: Value)
    ensures CodeOf(v) == TypeCode(TypeOf(v))
  {
  }

  lemma {:induction false} ShapeOfTypes(args: seq<Value>, ts: seq<DType>, codes: string)
    requires TypesOf(args) == ts && |codes| == |ts|
    requires forall i :: 0 <= i < |ts| ==> TypeCode(ts[i]) == codes[i]
    ensures HasShape(args, codes)
  {
    forall i | 0 <= i < |args| ensures CodeOf(args[i]) == codes[i] {
      CodeOfType(args[i]);
    }
  }

  /** Lines 631-966: a fixed method compares the signature byte for byte; a
      mismatch is InvalidArgs "Expected <expected> got <actual>". */
  lemma SignatureMismatchReply(m: Message, svc: CoreService)
    requires Reaches(m) && IsFixed(HandlerFor(m))
    requires Sigs(m.args) != ExpectedSig(HandlerFor(m), m.member)
    ensures Dispatch(m, svc)
         == ErrorReply(DBUS_ERROR_INVALID_ARGS, BadSignatureMessage(m, ExpectedSig(HandlerFor(m), m.member)))
  {
    ReachesHandle(m, svc);
  }

  /** Once the signature matches, reading the arguments cannot fail on a
      well-typed message: the Core Service is called. */
  lemma SignatureMatchCalls(h: Handler, k: Kind, id: string, m: Message, svc: CoreService)
    requires IsFixed(h) && AllWellTyped(m.args)
    requires Sigs(m.args) == ExpectedSig(h, m.member)
    ensures HandleFixed(h, k, id, m, svc).jump == ToOut
  {
    if h != ObjectDelete {
      var ts := ExpectedTypes(h, m.member);
      ExpectedTypesSig(h, m.member);
      SigsDetermineTypes(m.args, ts);
      ArgCodesOfTypes(h, m.member);
      ShapeOfTypes(m.args, ts, ArgCodes(h, m.member));
    }
  }

  /** The versions of a well-typed a(tu) are read field by field: no
      element is read as the zero default. */
  lemma WellTypedVersions(elems: seq<Value>)
    requires WellTyped(Array(TStruct([TUint64, TUint32]), elems))
    ensures forall i :: 0 <= i < |elems| ==>
      elems[i].Struct? && |elems[i].fields| == 2 && elems[i].fields[0].U64? && elems[i].fields[1].U32?
      && VersionsOf(elems)[i] == Version(elems[i].fields[0].t, elems[i].fields[1].u)
  {
    forall i | 0 <= i < |elems|
      ensures elems[i].Struct? && |elems[i].fields| == 2 && elems[i].fields[0].U64? && elems[i].fields[1].U32?
    {
      assert TypeOf(elems[i]) == TStruct([TUint64, TUint32]);
      TypeOfBasic(elems[i].fields[0]);
      TypeOfBasic(elems[i].fields[1]);
    }
  }

  /** The same for the a(sbu) file list of DownloadStatus. */
  lemma WellTypedFiles(elems: seq<Value>)
    requires WellTyped(Array(TStruct([TString, TBoolean, TUint32]), elems))
    ensures forall i :: 0 <= i < |elems| ==>
      elems[i].Struct? && |elems[i].fields| == 3
      && elems[i].fields[0].Str? && elems[i].fields[1].Bool? && elems[i].fields[2].U32?
      && FilesOf(elems)[i] == FileInfo(elems[i].fields[0].s, elems[i].fields[1].b, elems[i].fields[2].u)
  {
    forall i | 0 <= i < |elems|
      ensures elems[i].Struct? && |elems[i].fields| == 3
        && elems[i].fields[0].Str? && elems[i].fields[1].Bool? && elems[i].fields[2].U32?
    {
      assert TypeOf(elems[i]) == TStruct([TString, TBoolean, TUint32]);
      TypeOfBasic(elems[i].fields[0]);
      TypeOfBasic(elems[i].fields[1]);
      TypeOfBasic(elems[i].fields[2]);
    }
  }

  // ---------------------------------------------------------------------
  // List and lookup methods.

  /** The element signatures of the replies: (ssss), (sss) and (ss). */
  lemma RowTypeSigs()
    ensures TypeSig(RowType(4)) == "(ssss)"
    ensures TypeSig(RowType(3)) == "(sss)"
    ensures TypeSig(RowType(2)) == "(ss)"
  {
    assert RowType(2).fields == [TString, TString];
    assert RowType(3).fields == [TString, TString, TString];
    assert RowType(4).fields == [TString, TString, TString, TString];
    assert TypeSigs([TString]) == "s";
    assert TypeSigs([TString, TString]) == "ss";
    assert TypeSigs([TString, TString, TString]) == "sss";
    assert TypeSigs([TString, TString, TString, TString]) == "ssss";
  }

  /** ListManagers rows have four strings; LookupManagerByCookie,
      ListStreams and ListObjects three; the other lookups two. */
  lemma ListArity(k: Kind, id: string, member: string, a: ListArgs, svc: CoreService)
    requires HandlerOf(k, member) == ListOrLookup
    ensures ListCall(k, id, member, a, svc).1 ==
      if member == "ListManagers" then 4
      else if member == "LookupStreamByCookie" || member == "LookupObjectByCookie" then 2
      else 3
  {
  }

  /** A reply holds one struct per row; on success each NULL field is sent
      as the empty string and every other string as it is. */
  lemma EncodeRowsContents(rows: Rows, arity: nat, ret: int)
    ensures var v := EncodeRows(rows, arity, ret);
      v.Array? && v.elemType == RowType(arity) && |v.elems| == |rows| &&
      forall i :: 0 <= i < |rows| ==>
        && v.elems[i].Struct?
        && (ret == 0 ==> |v.elems[i].fields| == |rows[i]|)
        && (ret == 0 ==> forall f :: 0 <= f < |rows[i]| ==>
              v.elems[i].fields[f] == Str(if rows[i][f].Some? then rows[i][f].value else ""))
  {
  }

  /** An empty list is still sent, as an empty array. */
  lemma EmptyListReply(arity: nat, ret: int)
    ensures EncodeRows([], arity, ret) == Array(RowType(arity), [])
  {
  }

  /** On well-typed arguments and basic codes, matching the codes one by one
      is the same as matching the signature. */
  lemma ShapeIffSig(args: seq<Value>, codes: string)
    requires AllWellTyped(args) && BasicCodes(codes)
    ensures HasShape(args, codes) <==> Sigs(args) == codes
  {
    TypeSigsOfCodes(codes);
    var ts := TypesOfCodes(codes);
    if HasShape(args, codes) {
      forall i | 0 <= i < |args| ensures TypesOf(args)[i] == ts[i] {
        TypeOfBasicCode(args[i], codes[i]);
      }
      assert TypesOf(args) == ts;
    }
    if Sigs(args) == codes {
      SigsDetermineTypes(args, ts);
      forall i | 0 <= i < |ts| ensures TypeCode(ts[i]) == codes[i] {
        BasicCodeRoundTrip(codes[i]);
      }
      ShapeOfTypes(args, ts, codes);
    }
  }

  lemma TypeOfBasicCode(v: Value, c: char)
    requires c in "sutb" && CodeOf(v) == c
    ensures TypeOf(v) == BasicOfCode(c)
  {
  }

  lemma BasicCodeRoundTrip(c: char)
    requires c in "sutb"
    ensures TypeCode(BasicOfCode(c)) == c
  {
  }

  /** The list arguments are accepted exactly when their signature is the
      expected one; ListManagers also accepts none. */
  lemma ListArgsIff(member: string, args: seq<Value>)
    requires AllWellTyped(args)
    ensures DecodeListArgs(member, args).Some? <==>
      Sigs(args) == ListExpectedSig(member) || (member == "ListManagers" && args == [])
  {
    var codes := ListExpectedSig(member);
    assert BasicCodes(codes);
    ShapeIffSig(args, codes);
    if member == "LookupManagerByCookie" {
      if |args| == 2 {
        assert HasShape(args, "sb") <==> args[0].Str? && args[1].Bool?;
      }
    } else if StartsWith(member, "Lookup") {
      assert codes == "s";
      if |args| == 1 {
        assert HasShape(args, "s") <==> args[0].Str?;
        assert DecodeListArgs(member, args).Some? <==> args[0].Str?;
      } else {
        assert |Sigs(args)| >= |TypesOf(args)| == |args|;
        assert member[1] == "Lookup"[1] != "ListManagers"[1];
      }
    } else if member == "ListManagers" {
      if |args| == 1 {
        assert HasShape(args, "b") <==> args[0].Bool?;
      }
    }
  }

  /** A list call that succeeds with a list replies with the encoded rows;
      one that succeeds without a list trips the assertion at line 624. */
  lemma ListReply(m: Message, svc: CoreService)
    requires Reaches(m) && HandlerFor(m) == ListOrLookup && DecodeListArgs(m.member, m.args).Some?
    ensures var (c, arity) := ListCall(Resolved(m).kind, Resolved(m).id, m.member, DecodeListArgs(m.member, m.args).value, svc);
      (c.code == 0 && c.error.None? && c.out.Some? ==> Dispatch(m, svc) == MethodReturn([EncodeRows(c.out.value, arity, 0)]))
      && (c.code == 0 && c.out.None? ==> Dispatch(m, svc) == AssertionFailure)
  {
    ReachesHandle(m, svc);
  }
}
