/** Three places where src/murmeltier-dbus-server.c does not do what the
    surrounding code evidently intends.  Each is written here as the code
    does it, with the input that shows the difference; the rest of the model
    uses the intended behaviour (DbusServer.ProcessMessage, the Transfer
    built in HandleFixed, DbusServer.ReadVersions). */
module DispatchFindings {
  import opened Wrappers
  import opened Dbus
  import opened Woodchuck
  import opened ServerApi
  import opened DispatchSpec
  import opened DispatchProps
  import opened RegisterProps

  // ---------------------------------------------------------------------
  // Arrays queued before a bad signature are never released.

  /** The label bad_signature (line 996) lies after the loop at lines
      979-994 that frees array_of_structs_to_free, so a jump to it skips the
      loop: the number of queued arrays still allocated when
      process_message returns. */
  function UnreleasedAsWritten(x: Exit): (n: nat)
    ensures n <= x.pending
    ensures x.jump == ToOut ==> n == 0
  {
    if x.jump == ToBadSignature then x.pending else 0
  }

  /** A ManagerRegister call whose property dictionary holds an a(stub)
      property but which lacks the trailing boolean. */
  const LeakingCall := Message(PATH_ROOT, "org.woodchuck", "ManagerRegister",
    [Array(TDictEntry(TString, TVariant), [DictEntry(Str("Versions"), Variant(Array(STUB_TYPE, [])))])])

  lemma BadSignatureLeaks(svc: CoreService)
    ensures Route(LeakingCall, svc).jump == ToBadSignature
    ensures UnreleasedAsWritten(Route(LeakingCall, svc)) == 1
    ensures Dispatch(LeakingCall, svc)
         == ErrorReply(DBUS_ERROR_INVALID_ARGS, BadSignatureMessage(LeakingCall, REGISTER_SIG))
  {
    LeakingRoute(svc);
  }

  /** The call reaches the root object's register handler, which jumps to
      the bad-signature exit with the stub array still pending. */
  lemma LeakingRoute(svc: CoreService)
    ensures StartsWith(LeakingCall.path, PATH_ROOT)
    ensures Route(LeakingCall, svc) == BadSignature(REGISTER_SIG, 1)
  {
    var m := LeakingCall;
    assert StartsWith(m.path, PATH_ROOT);
    assert m.path[|PATH_ROOT|..] == "";
    LeakingArgs();
  }

  /** The dictionary decodes, leaving the stub array allocated, and the
      missing boolean fails the signature. */
  lemma LeakingArgs()
    ensures DecodeRegisterArgs(LeakingCall.args) == RegBad(1)
  {
    var m := LeakingCall;
    StubTypeSig();
    assert DecodeStubArray([]) == Some([]);
    assert DecodeEntry(m.args[0].elems[0]) == EntryOk("Versions", PStructs([]), 1);
    assert DecodeDict(m.args[0].elems, 1) == DictOk(map["Versions" := PStructs([])], 1);
  }

  // ---------------------------------------------------------------------
  // DownloadStatus and UpdateStatus swap status and indicator.

  /** Lines 901-903 and 917-920 pass indicator where the header's prototypes
      (src/murmeltier-dbus-server.h:121-148) expect status, and status where
      they expect indicator. */
  function TransferAsWritten(status: nat, indicator: nat, up: nat, down: nat, time: nat, duration: nat): (t: Transfer)
    ensures t.status == indicator && t.indicator == status
  {
    Transfer(indicator, status, up, down, time, duration)
  }

  /** Whenever the two differ, the Core Service sees the wrong status. */
  lemma TransferSwapShows(status: nat, indicator: nat, up: nat, down: nat, time: nat, duration: nat)
    requires status != indicator
    ensures TransferAsWritten(status, indicator, up, down, time, duration).status != status
    ensures TransferAsWritten(status, indicator, up, down, time, duration)
         != Transfer(status, indicator, up, down, time, duration)
  {
  }

  /** What a fixed method's arguments are once their signature matches. */
  lemma MatchedShape(m: Message)
    requires Reaches(m) && IsFixed(HandlerFor(m)) && HandlerFor(m) != ObjectDelete
    requires AllWellTyped(m.args) && Sigs(m.args) == ExpectedSig(HandlerFor(m), m.member)
    ensures HasShape(m.args, ArgCodes(HandlerFor(m), m.member))
  {
    var h := HandlerFor(m);
    var ts := ExpectedTypes(h, m.member);
    ExpectedTypesSig(h, m.member);
    SigsDetermineTypes(m.args, ts);
    ArgCodesOfTypes(h, m.member);
    ShapeOfTypes(m.args, ts, ArgCodes(h, m.member));
  }

  /** Corrected, a DownloadStatus call on an object hands the Core Service
      its first argument as the status and its second as the indicator, as
      the prototype in src/murmeltier-dbus-server.h declares, followed by
      the four transfer figures, the object's size and the files. */
  lemma DownloadStatusKeepsOrder(m: Message, svc: CoreService)
    requires Reaches(m) && Resolved(m).kind == ObjectKind && m.member == "DownloadStatus"
    requires AllWellTyped(m.args) && Sigs(m.args) == "uutttuta(sbu)"
    ensures var a := m.args;
      |a| == 8 && a[0].U32? && a[1].U32? && a[2].U64? && a[3].U64? && a[4].U64? && a[5].U32? && a[6].U64? && a[7].Array?
      && Route(m, svc) == Called(svc.objectDownloadStatus(Resolved(m).id,
           Transfer(a[0].u, a[1].u, a[2].t, a[3].t, a[4].t, a[5].u), a[6].t, FilesOf(a[7].elems)), "uutttuta(sbu)", [])
  {
    ReachesHandle(m, svc);
    DownloadStatusHandler();
    MatchedShape(m);
    DownloadStatusFixed(Resolved(m).kind, Resolved(m).id, m, svc);
  }

  /** The DownloadStatus branch of the fixed methods. */
  lemma DownloadStatusFixed(k: Kind, id: string, m: Message, svc: CoreService)
    requires m.member == "DownloadStatus" && Sigs(m.args) == "uutttuta(sbu)" && HasShape(m.args, "uutttuta")
    ensures var a := m.args;
      |a| == 8 && a[0].U32? && a[1].U32? && a[2].U64? && a[3].U64? && a[4].U64? && a[5].U32? && a[6].U64? && a[7].Array?
      && HandleFixed(TransferStatus, k, id, m, svc) == Called(svc.objectDownloadStatus(id,
           Transfer(a[0].u, a[1].u, a[2].t, a[3].t, a[4].t, a[5].u), a[6].t, FilesOf(a[7].elems)), "uutttuta(sbu)", [])
  {
    ShapeCodes(m.args, "uutttuta");
  }

  /** The same for an UpdateStatus call on a stream, followed by the
      object's counts. */
  lemma UpdateStatusKeepsOrder(m: Message, svc: CoreService)
    requires Reaches(m) && Resolved(m).kind == StreamKind && m.member == "UpdateStatus"
    requires AllWellTyped(m.args) && Sigs(m.args) == "uutttuuuu"
    ensures var a := m.args;
      |a| == 9 && a[0].U32? && a[1].U32? && a[2].U64? && a[3].U64? && a[4].U64? && a[5].U32?
      && a[6].U32? && a[7].U32? && a[8].U32?
      && Route(m, svc) == Called(svc.streamUpdateStatus(Resolved(m).id,
           Transfer(a[0].u, a[1].u, a[2].t, a[3].t, a[4].t, a[5].u), a[6].u, a[7].u, a[8].u), "uutttuuuu", [])
  {
    ReachesHandle(m, svc);
    UpdateStatusHandler();
    MatchedShape(m);
    UpdateStatusFixed(Resolved(m).kind, Resolved(m).id, m, svc);
  }

  /** The UpdateStatus branch of the fixed methods. */
  lemma UpdateStatusFixed(k: Kind, id: string, m: Message, svc: CoreService)
    requires m.member == "UpdateStatus" && Sigs(m.args) == "uutttuuuu" && HasShape(m.args, "uutttuuuu")
    ensures var a := m.args;
      |a| == 9 && a[0].U32? && a[1].U32? && a[2].U64? && a[3].U64? && a[4].U64? && a[5].U32?
      && a[6].U32? && a[7].U32? && a[8].U32?
      && HandleFixed(TransferStatus, k, id, m, svc) == Called(svc.streamUpdateStatus(id,
           Transfer(a[0].u, a[1].u, a[2].t, a[3].t, a[4].t, a[5].u), a[6].u, a[7].u, a[8].u), "uutttuuuu", [])
  {
    ShapeCodes(m.args, "uutttuuuu");
  }

  /** DownloadStatus on an object and UpdateStatus on a stream are taken by
      the transfer-status handler. */
  lemma DownloadStatusHandler()
    ensures HandlerOf(ObjectKind, "DownloadStatus") == TransferStatus
  {
  }

  lemma UpdateStatusHandler()
    ensures HandlerOf(StreamKind, "UpdateStatus") == TransferStatus
  {
  }

  /** What the type codes of a shape say about the arguments' constructors. */
  lemma ShapeCodes(a: seq<Value>, codes: string)
    requires HasShape(a, codes)
    ensures forall i :: 0 <= i < |a| && codes[i] == 'u' ==> a[i].U32?
    ensures forall i :: 0 <= i < |a| && codes[i] == 't' ==> a[i].U64?
    ensures forall i :: 0 <= i < |a| && codes[i] == 'a' ==> a[i].Array?
  {
  }

  // ---------------------------------------------------------------------
  // DownloadDesirability never finishes counting a non-empty array.

  /** Lines 686-688: the loop that counts the versions tests the iterator's
      current type but never advances it.  fuel bounds the number of
      iterations looked at; finished says whether the loop left. */
  method CountVersionsAsWritten(elems: seq<Value>, fuel: nat) returns (finished: bool, count: nat)
    ensures |elems| > 0 ==> !finished && count == fuel
    ensures |elems| == 0 ==> finished && count == 0
  {
    var position := 0;
    count := 0;
    var steps := 0;
    while position < |elems| && steps < fuel
      invariant position == 0 && count == steps <= fuel
      invariant |elems| == 0 ==> steps == 0
      decreases fuel - steps
    {
      count := count + 1;
      steps := steps + 1;
    }
    finished := position >= |elems|;
  }
}
