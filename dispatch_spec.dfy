/** What process_message (src/murmeltier-dbus-server.c:35-1037) does with one
    method call, written as functions: root stripping, path resolution,
    interface and method checks, argument decoding, the Core Service call,
    reply encoding and error finalisation.  The imperative dispatcher in
    module DbusServer is proved to compute Dispatch. */
module DispatchSpec {
  import opened Wrappers
  import opened Dbus
  import opened Woodchuck
  import opened ServerApi

  /** A method call: object path, interface, member and arguments. */
  datatype Message = Message(path: string, iface: string, member: string, args: seq<Value>)

  /** What the handler does with a call: nothing (the path is not below the
      woodchuck root, and no reply is sent), or exactly one reply, a method
      return or an error.  AssertionFailure stands for an assert in the code
      that aborts the server. */
  datatype Response =
    | NotForUs
    | MethodReturn(args: seq<Value>)
    | ErrorReply(name: string, message: string)
    | AssertionFailure

  /** The object kinds a path can name, and the interfaces. */
  datatype Kind = NoKind | RootKind | ManagerKind | StreamKind | ObjectKind
  datatype Iface = NoIface | IWoodchuck | IManager | IStream | IObject

  const PATH_ROOT := "/org/woodchuck"
  const HEX_DIGITS := "0123456789abcdef"

  predicate StartsWith(s: string, prefix: string) {
    |prefix| <= |s| && s[..|prefix|] == prefix
  }

  /** The interface each object kind answers on. */
  function BoundInterface(k: Kind): Iface {
    match k
    case NoKind => NoIface
    case RootKind => IWoodchuck
    case ManagerKind => IManager
    case StreamKind => IStream
    case ObjectKind => IObject
  }

  /** The interface number of lines 67-75: four independent tests, the last
      matching one winning. */
  function InterfaceOf(s: string): (i: Iface)
    ensures i == IWoodchuck <==> s == "org.woodchuck"
    ensures i == IManager <==> s == "org.woodchuck.manager"
    ensures i == IStream <==> s == "org.woodchuck.stream"
    ensures i == IObject <==> s == "org.woodchuck.object"
  {
    var i1 := if s == "org.woodchuck" then IWoodchuck else NoIface;
    var i2 := if s == "org.woodchuck.manager" then IManager else i1;
    var i3 := if s == "org.woodchuck.stream" then IStream else i2;
    if s == "org.woodchuck.object" then IObject else i3
  }

  /** Where a path below the root leads: a kind, the remaining text (the
      object's id) and the interface, zeroed when it is not the kind's. */
  datatype Resolution = Resolution(kind: Kind, id: string, iface: Iface)

  function KeepIf(i: Iface, bound: Iface): Iface {
    if i == bound then i else NoIface
  }

  /** Lines 95-129.  The "object/" test is not an else branch: it also runs on
      what follows "manager/" or "stream/". */
  function ResolvePath(rest: string, i: Iface): (r: Resolution)
    ensures r.iface == NoIface || r.iface == i
    ensures r.kind == NoKind ==> r.iface == i
    ensures r.kind != NoKind && r.iface != NoIface ==> r.iface == BoundInterface(r.kind)
  {
    if rest == "" then Resolution(RootKind, "", KeepIf(i, IWoodchuck))
    else if rest[0] == '/' then
      var q := rest[1..];
      var first :=
        if StartsWith(q, "manager/") then Resolution(ManagerKind, q[8..], KeepIf(i, IManager))
        else if StartsWith(q, "stream/") then Resolution(StreamKind, q[7..], KeepIf(i, IStream))
        else Resolution(NoKind, q, i);
      if StartsWith(first.id, "object/") then
        Resolution(ObjectKind, first.id[7..], KeepIf(first.iface, IObject))
      else first
    else Resolution(NoKind, rest, i)
  }

  /** strspn: the length of the longest prefix of s made of chars in accept. */
  function Strspn(s: string, accept: string): (n: nat)
    ensures n <= |s|
    ensures forall k :: 0 <= k < n ==> s[k] in accept
    ensures n < |s| ==> s[n] !in accept
  {
    if s == [] || s[0] !in accept then 0 else 1 + Strspn(s[1..], accept)
  }

  /** The handler selected by (kind, method), lines 151-976. */
  datatype Handler =
    | Register
    | ListOrLookup
    | DeleteSubtree
    | DownloadDesirability
    | FeedbackSubscribe
    | FeedbackUnsubscribe
    | FeedbackAck
    | ObjectDelete
    | ObjectDownload
    | TransferStatus
    | ObjectUsed
    | FilesDeleted
    | NoHandler

  function HandlerOf(k: Kind, member: string): Handler {
    if (k == RootKind && member == "ManagerRegister")
       || (k == ManagerKind && member == "ManagerRegister")
       || (k == ManagerKind && member == "StreamRegister")
       || (k == StreamKind && member == "ObjectRegister") then Register
    else if (k == RootKind && member == "ListManagers")
       || (k == RootKind && member == "LookupManagerByCookie")
       || (k == ManagerKind && member == "ListManagers")
       || (k == ManagerKind && member == "LookupManagerByCookie")
       || (k == ManagerKind && member == "ListStreams")
       || (k == ManagerKind && member == "LookupStreamByCookie")
       || (k == StreamKind && member == "ListObjects")
       || (k == StreamKind && member == "LookupObjectByCookie") then ListOrLookup
    else if (k == ManagerKind || k == StreamKind) && member == "Delete" then DeleteSubtree
    else if k == RootKind && member == "DownloadDesirability" then DownloadDesirability
    else if k == ManagerKind && member == "FeedbackSubscribe" then FeedbackSubscribe
    else if k == ManagerKind && member == "FeedbackUnsubscribe" then FeedbackUnsubscribe
    else if k == ManagerKind && member == "FeedbackAck" then FeedbackAck
    else if k == ObjectKind && member == "Delete" then ObjectDelete
    else if k == ObjectKind && member == "Download" then ObjectDownload
    else if (k == ObjectKind && member == "DownloadStatus")
       || (k == StreamKind && member == "UpdateStatus") then TransferStatus
    else if k == ObjectKind && member == "Used" then ObjectUsed
    else if k == ObjectKind && member == "FilesDeleted" then FilesDeleted
    else NoHandler
  }

  // ---------------------------------------------------------------------
  // Register methods: an optional property dictionary and a boolean.

  const REGISTER_SIG := "a{sv}b"
  const STUB_ARRAY_SIG := "a(stub)"

  /** The GType a struct field of an a(stub) property is stored as. */
  datatype GType = GString | GUint | GUint64 | GBoolean

  function GTypeOf(v: Value): Option<GType> {
    match v
    case Str(_) => Some(GString)
    case U32(_) => Some(GUint)
    case U64(_) => Some(GUint64)
    case Bool(_) => Some(GBoolean)
    case _ => None
  }

  function FieldsOf(v: Value): seq<Value> {
    if v.Struct? then v.fields else []
  }

  /** struct_len: the number of fields of the first element (0 for an empty
      array). */
  function StructLen(elems: seq<Value>): nat {
    if |elems| > 0 then |FieldsOf(elems[0])| else 0
  }

  /** The checks on field k of element j (lines 304-366): a basic type among
      s, u, t and b; in a later element, a position the first element has,
      holding the same type as there. */
  predicate FieldOk(elems: seq<Value>, j: nat, k: nat)
    requires j < |elems| && k < |FieldsOf(elems[j])|
  {
    var g := GTypeOf(FieldsOf(elems[j])[k]);
    g.Some? && (j == 0 || (k < StructLen(elems) && g == GTypeOf(FieldsOf(elems[0])[k])))
  }

  predicate ElementOk(elems: seq<Value>, j: nat)
    requires j < |elems|
  {
    elems[j].Struct? && forall k :: 0 <= k < |FieldsOf(elems[j])| ==> FieldOk(elems, j, k)
  }

  function RowsOf(elems: seq<Value>): (rows: seq<seq<Value>>)
    ensures |rows| == |elems|
    ensures forall j :: 0 <= j < |elems| ==> rows[j] == FieldsOf(elems[j])
  {
    seq(|elems|, j requires 0 <= j < |elems| => FieldsOf(elems[j]))
  }

  /** The rows of an a(stub) property, or None when the checks fail. */
  function DecodeStubArray(elems: seq<Value>): Option<seq<seq<Value>>> {
    if forall j :: 0 <= j < |elems| ==> ElementOk(elems, j) then Some(RowsOf(elems)) else None
  }

  /** One dictionary entry (lines 191-407).  queued counts the a(stub)
      arrays queued for release while decoding it. */
  datatype EntryResult =
    | EntryOk(key: string, value: PropValue, queued: nat)
    | EntryBad(queued: nat)

  function DecodeVariant(key: string, inner: Value): EntryResult {
    match inner
    case Str(s) => EntryOk(key, PString(s), 0)
    case U32(u) => EntryOk(key, PUint(u), 0)
    case U64(t) => EntryOk(key, PUint64(t), 0)
    case Array(_, elems) =>
      if Sig(inner) != STUB_ARRAY_SIG then EntryBad(0)
      else (match DecodeStubArray(elems)
            case Some(rows) => EntryOk(key, PStructs(rows), 1)
            case None => EntryBad(1))
    case _ => EntryBad(0)
  }

  function DecodeEntry(e: Value): EntryResult {
    if !e.DictEntry? || !e.key.Str? then EntryBad(0)
    else match e.val
      case Variant(inner) => DecodeVariant(e.key.s, inner)
      case Str(s) => EntryOk(e.key.s, PString(s), 0)
      case _ => EntryBad(0)
  }

  /** The dictionary after its first n entries: entries are inserted in order,
      so a later entry with the same key replaces an earlier one. */
  datatype Dict = DictOk(props: Props, pending: nat) | DictBad(pending: nat)

  function DecodeDict(es: seq<Value>, n: nat): Dict
    requires n <= |es|
  {
    if n == 0 then DictOk(map[], 0)
    else match DecodeDict(es, n - 1)
      case DictBad(p) => DictBad(p)
      case DictOk(props, p) =>
        (match DecodeEntry(es[n - 1])
         case EntryBad(a) => DictBad(p + a)
         case EntryOk(k, v, a) => DictOk(props[k := v], p + a))
  }

  datatype Registration =
    | RegOk(props: Props, onlyIfUnique: bool, pending: nat)
    | RegBad(pending: nat)

  /** Lines 166-425: an optional array, then exactly one boolean. */
  function DecodeRegisterArgs(args: seq<Value>): Registration {
    var dict := if |args| > 0 && args[0].Array? then DecodeDict(args[0].elems, |args[0].elems|) else DictOk(map[], 0);
    var rest := if |args| > 0 && args[0].Array? then args[1..] else args;
    match dict
    case DictBad(p) => RegBad(p)
    case DictOk(props, p) =>
      if |rest| == 1 && rest[0].Bool? then RegOk(props, rest[0].b, p) else RegBad(p)
  }

  // ---------------------------------------------------------------------
  // Where control goes after a handler.

  /** ToOut is the label out (reached by falling through a handler, by the
      unknown-object test and by bad_method); ToBadSignature the label
      bad_signature; Aborted an assertion that fails. */
  datatype Jump = ToOut | ToBadSignature | Aborted

  /** The variables of process_message when control leaves the handlers.
      pending counts the arrays queued in array_of_structs_to_free. */
  datatype Exit = Exit(jump: Jump, ret: int, error: Option<string>, errorName: Option<string>,
                       expectedSig: string, reply: seq<Value>, pending: nat)

  function NoSuchObjectMessage(m: Message): string {
    m.path + ": No such object."
  }

  function NotUnderstoodMessage(m: Message): string {
    m.path + " does not understand message " + m.iface + "." + m.member
  }

  function BadSignatureMessage(m: Message, expected: string): string {
    m.path + ": " + m.iface + "." + m.member + ": Expected " + expected + " got " + Sigs(m.args) + "."
  }

  function FailureMessage(m: Message, code: int): string {
    m.path + ": " + m.iface + "." + m.member + ": " + ErrorMessage(code) + "."
  }

  /** bad_method, lines 969-976: keeps an error name already chosen. */
  function BadMethod(m: Message, errorName: Option<string>): Exit {
    Exit(ToOut, GENERIC, Some(NotUnderstoodMessage(m)),
         Some(errorName.GetOr(DBUS_ERROR_UNKNOWN_METHOD)), "", [], 0)
  }

  function BadSignature(expected: string, pending: nat): Exit {
    Exit(ToBadSignature, GENERIC, None, None, expected, [], pending)
  }

  /** A handler that called the Core Service: the reply is appended only on
      success. */
  function Called<T>(c: Call<T>, expected: string, reply: seq<Value>): Exit {
    Exit(ToOut, c.code, c.error, None, expected, if c.code == 0 then reply else [], 0)
  }

  /** The Core Service call of a register method (lines 428-443). */
  function RegisterCall(k: Kind, id: string, member: string, props: Props, unique: bool, svc: CoreService): Call<string> {
    if k == RootKind then svc.managerRegister(props, unique)
    else if k == ManagerKind && member == "ManagerRegister" then svc.managerManagerRegister(id, props, unique)
    else if k == ManagerKind then svc.managerStreamRegister(id, props, unique)
    else svc.streamObjectRegister(id, props, unique)
  }

  function HandleRegister(k: Kind, id: string, m: Message, svc: CoreService): Exit {
    match DecodeRegisterArgs(m.args)
    case RegBad(p) => BadSignature(REGISTER_SIG, p)
    case RegOk(props, unique, p) =>
      var c := RegisterCall(k, id, m.member, props, unique, svc);
      Called(c, REGISTER_SIG, [Str(c.out)]).(pending := p)
  }

  // ---------------------------------------------------------------------
  // List and lookup methods.

  /** The decoded arguments; cookie is only read by the Lookup methods, which
      always set it. */
  datatype ListArgs = ListArgs(cookie: string, recurse: bool)

  function ListExpectedSig(member: string): string {
    if member == "LookupManagerByCookie" then "sb"
    else if StartsWith(member, "Lookup") then "s"
    else if member == "ListManagers" then "b"
    else ""
  }

  /** Lines 478-534.  recurse defaults to true. */
  function DecodeListArgs(member: string, args: seq<Value>): Option<ListArgs> {
    if member == "LookupManagerByCookie" then
      if |args| == 2 && args[0].Str? && args[1].Bool? then Some(ListArgs(args[0].s, args[1].b)) else None
    else if StartsWith(member, "Lookup") then
      if |args| == 1 && args[0].Str? then Some(ListArgs(args[0].s, true)) else None
    else if member == "ListManagers" then
      if args == [] then Some(ListArgs("", true))
      else if |args| == 1 && args[0].Bool? then Some(ListArgs("", args[0].b))
      else None
    else if args == [] then Some(ListArgs("", true))
    else None
  }

  /** The Core Service call of a list method and the number of strings in
      each of its rows (lines 536-583). */
  function ListCall(k: Kind, id: string, member: string, a: ListArgs, svc: CoreService): (Call<Option<Rows>>, nat) {
    if k == RootKind && member == "ListManagers" then (svc.listManagers(a.recurse), 4)
    else if k == RootKind then (svc.lookupManagerByCookie(a.cookie, a.recurse), 3)
    else if k == ManagerKind && member == "LookupManagerByCookie" then (svc.managerLookupManagerByCookie(id, a.cookie, a.recurse), 3)
    else if k == ManagerKind && member == "ListManagers" then (svc.managerListManagers(id, a.recurse), 4)
    else if k == ManagerKind && member == "ListStreams" then (svc.managerListStreams(id), 3)
    else if k == ManagerKind then (svc.managerLookupStreamByCookie(id, a.cookie), 2)
    else if member == "ListObjects" then (svc.streamListObjects(id), 3)
    else (svc.streamLookupObjectByCookie(id, a.cookie), 2)
  }

  /** The struct of n strings, (ss), (sss) or (ssss). */
  function RowType(n: nat): DType {
    TStruct(seq(n, _ => TString))
  }

  function EncodeRow(row: seq<Option<string>>, ret: int): Value {
    Struct(if ret == 0 then seq(|row|, i requires 0 <= i < |row| => Str(row[i].GetOr(""))) else [])
  }

  /** Lines 585-627: an array of structs, NULL strings sent as "", fields
      appended only on success. */
  function EncodeRows(rows: Rows, arity: nat, ret: int): Value {
    Array(RowType(arity), seq(|rows|, i requires 0 <= i < |rows| => EncodeRow(rows[i], ret)))
  }

  function HandleList(k: Kind, id: string, m: Message, svc: CoreService): Exit {
    var expected := ListExpectedSig(m.member);
    match DecodeListArgs(m.member, m.args)
    case None => BadSignature(expected, 0)
    case Some(a) =>
      var (c, arity) := ListCall(k, id, m.member, a, svc);
      match c.out
      case Some(rows) => Exit(ToOut, c.code, c.error, None, expected, [EncodeRows(rows, arity, c.code)], 0)
      case None => Exit(if c.code == 0 then Aborted else ToOut, c.code, c.error, None, expected, [], 0)
  }

  // ---------------------------------------------------------------------
  // Methods with a fixed signature: the signature is compared as a string,
  // then dbus_message_get_args reads the arguments.

  function VersionOf(v: Value): Version {
    match v
    case Struct(fs) =>
      if |fs| == 2 && fs[0].U64? && fs[1].U32? then Version(fs[0].t, fs[1].u) else Version(0, 0)
    case _ => Version(0, 0)
  }

  function FileInfoOf(v: Value): FileInfo {
    match v
    case Struct(fs) =>
      if |fs| == 3 && fs[0].Str? && fs[1].Bool? && fs[2].U32? then FileInfo(fs[0].s, fs[1].b, fs[2].u)
      else FileInfo("", false, 0)
    case _ => FileInfo("", false, 0)
  }

  /** Lines 686-708, with the counting loop advancing over the array: one
      version per element. */
  function VersionsOf(elems: seq<Value>): (vs: seq<Version>)
    ensures |vs| == |elems|
  {
    seq(|elems|, i requires 0 <= i < |elems| => VersionOf(elems[i]))
  }

  function FilesOf(elems: seq<Value>): (fs: seq<FileInfo>)
    ensures |fs| == |elems|
  {
    seq(|elems|, i requires 0 <= i < |elems| => FileInfoOf(elems[i]))
  }

  function ExpectedSig(h: Handler, member: string): string {
    match h
    case DeleteSubtree => "b"
    case DownloadDesirability => "ua(tu)"
    case FeedbackSubscribe => "b"
    case FeedbackUnsubscribe => "s"
    case FeedbackAck => "su"
    case ObjectDelete => ""
    case ObjectDownload => "u"
    case TransferStatus => if member == "DownloadStatus" then "uutttuta(sbu)" else "uutttuuuu"
    case ObjectUsed => "ttt"
    case FilesDeleted => "ut"
    case _ => ""
  }

  /** The type code of an argument as dbus_message_get_args checks it. */
  function CodeOf(v: Value): char {
    match v
    case Str(_) => 's'
    case U32(_) => 'u'
    case U64(_) => 't'
    case Bool(_) => 'b'
    case Array(_, _) => 'a'
    case _ => '?'
  }

  /** The arguments have, one by one, the given type codes. */
  predicate HasShape(args: seq<Value>, codes: string) {
    |args| == |codes| && forall i :: 0 <= i < |args| ==> CodeOf(args[i]) == codes[i]
  }

  /** The type codes dbus_message_get_args and the iterator reads of each
      fixed method take from the arguments (an array counts as 'a'). */
  function ArgCodes(h: Handler, member: string): string {
    match h
    case DeleteSubtree => "b"
    case DownloadDesirability => "ua"
    case FeedbackSubscribe => "b"
    case FeedbackUnsubscribe => "s"
    case FeedbackAck => "su"
    case ObjectDownload => "u"
    case TransferStatus => if member == "DownloadStatus" then "uutttuta" else "uutttuuuu"
    case ObjectUsed => "ttt"
    case FilesDeleted => "ut"
    case _ => ""
  }

  /** Lines 631-966.  ObjectDelete only compares the signature; the other
      methods then read their arguments, which HasShape stands for. */
  function HandleFixed(h: Handler, k: Kind, id: string, m: Message, svc: CoreService): Exit
    requires h != Register && h != ListOrLookup && h != NoHandler
  {
    var expected := ExpectedSig(h, m.member);
    var a := m.args;
    if Sigs(a) != expected then BadSignature(expected, 0)
    else if h == ObjectDelete then Called(svc.objectDelete(id), expected, [])
    else if !HasShape(a, ArgCodes(h, m.member)) then BadSignature(expected, 0)
    else match h
      case DeleteSubtree =>
        Called(if k == ManagerKind then svc.managerDelete(id, a[0].b) else svc.streamDelete(id, a[0].b), expected, [])
      case DownloadDesirability =>
        var c := svc.downloadDesirability(a[0].u, VersionsOf(a[1].elems));
        Called(c, expected, [U32(c.out.0), U32(c.out.1)])
      case FeedbackSubscribe =>
        var c := svc.managerFeedbackSubscribe(id, a[0].b);
        Called(c, expected, [Str(c.out)])
      case FeedbackUnsubscribe =>
        Called(svc.managerFeedbackUnsubscribe(id, a[0].s), expected, [])
      case FeedbackAck =>
        Called(svc.managerFeedbackAck(id, a[0].s, a[1].u), expected, [])
      case ObjectDownload =>
        Called(svc.objectDownload(id, a[0].u), expected, [])
      case TransferStatus =>
        // Status and indicator in the order the header declares them.
        var tr := Transfer(a[0].u, a[1].u, a[2].t, a[3].t, a[4].t, a[5].u);
        if m.member == "DownloadStatus" then
          Called(svc.objectDownloadStatus(id, tr, a[6].t, FilesOf(a[7].elems)), expected, [])
        else
          Called(svc.streamUpdateStatus(id, tr, a[6].u, a[7].u, a[8].u), expected, [])
      case ObjectUsed =>
        Called(svc.objectUse(id, a[0].t, a[1].t, a[2].t), expected, [])
      case FilesDeleted =>
        Called(svc.objectFilesDeleted(id, a[0].u, a[1].t), expected, [])
  }

  function Handle(k: Kind, id: string, m: Message, svc: CoreService): Exit {
    var h := HandlerOf(k, m.member);
    if h == Register then HandleRegister(k, id, m, svc)
    else if h == ListOrLookup then HandleList(k, id, m, svc)
    else if h == NoHandler then BadMethod(m, None)
    else HandleFixed(h, k, id, m, svc)
  }

  /** Lines 78-146 and the handlers. */
  function Route(m: Message, svc: CoreService): Exit
    requires StartsWith(m.path, PATH_ROOT)
  {
    var r := ResolvePath(m.path[|PATH_ROOT|..], InterfaceOf(m.iface));
    if r.kind == NoKind || Strspn(r.id, HEX_DIGITS) != |r.id| then
      Exit(ToOut, GENERIC, Some(NoSuchObjectMessage(m)), Some(DBUS_ERROR_UNKNOWN_OBJECT), "", [], 0)
    else if r.iface == NoIface then BadMethod(m, Some(DBUS_ERROR_UNKNOWN_INTERFACE))
    else Handle(r.kind, r.id, m, svc)
  }

  /** Lines 996-1036: a bad signature, a failure code without a message, or a
      failure code without an error name each fill in what is missing; any
      error replaces the method return. */
  function Finalise(m: Message, x: Exit): Response {
    if x.jump == Aborted then AssertionFailure
    else
      var error := if x.jump == ToBadSignature then Some(BadSignatureMessage(m, x.expectedSig)) else x.error;
      var name := if x.jump == ToBadSignature then Some(DBUS_ERROR_INVALID_ARGS) else x.errorName;
      var error' := if x.ret != 0 && error.None? then Some(FailureMessage(m, x.ret)) else error;
      var name' := if x.ret != 0 && name.None? then Some(ErrorName(x.ret)) else name;
      if error'.Some? then
        if x.ret == 0 then AssertionFailure
        else ErrorReply(name'.GetOr(DBUS_ERROR_FAILED), error'.value)
      else MethodReturn(x.reply)
  }

  /** process_message. */
  function Dispatch(m: Message, svc: CoreService): Response {
    if !StartsWith(m.path, PATH_ROOT) then NotForUs else Finalise(m, Route(m, svc))
  }
}
