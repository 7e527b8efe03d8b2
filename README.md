# Woodchuck, modelled in Dafny

Woodchuck is a service that schedules background transfers on mobile
devices. Applications register managers, streams and objects with it over
D-Bus. It watches the network, the battery and user activity to pick good
times to move data.

This project models the service's D-Bus message dispatcher,
`process_message`, together with the pieces of the rest of the
daemon and its clients whose logic can be stated without the operating
system. Each modelled source file becomes one Dafny module.

The dispatcher is modelled twice:

- **DispatchSpec** is a specification as functions. It strips the
  `/org/woodchuck` root and resolves the object path to a kind and a hex
  id. It checks the interface and picks the handler. It checks or decodes
  the arguments, calls the Core Service and finalises exactly one reply.
- **DbusServer** is the code's own shape: methods with loops over the
  argument cursor. `DbusServer.ProcessMessage` is proved to compute
  `DispatchSpec.Dispatch`.

Both take the corrected reading at three places where the code does not
do what it evidently intends (see "## Findings"). The release loop of the
queued `a(stub)` arrays also runs on the bad_signature path
(src/murmeltier-dbus-server.c:979-1004). DownloadStatus and UpdateStatus
pass status and indicator in the order the header declares
(src/murmeltier-dbus-server.c:901-920). The loop that counts the versions
advances over the array (src/murmeltier-dbus-server.c:686-689). Module
DispatchFindings models each of the three as written.

What the dispatcher promises is proved about the specification in:

- DispatchProps (routing, error replies, signatures, lists);
- RegisterProps (the register dictionary and its `a(stub)` property).

The D-Bus type system is modelled in Dbus, covering the type codes s, u,
t, b, v, a, () and {} of the "Type System" section of the D-Bus
Specification. Argument lists are lists of typed values. The Core Service
(the database side of the daemon) is a record of uninterpreted functions,
one per entry point, in ServerApi.

The rest of the daemon, its clients and tools are modelled module by
module:

- **Daemon parts.** Util holds the helper macros of util.h. Schedule
  covers the expected-size arithmetic and NetworkMedium the medium masks.
  The NetworkMonitor modules cover the NetworkManager and ICD2 monitors,
  ProcessMonitor the ptrace process tree, and Sqlq the SQL statement
  queue. ServiceMonitor, SignalHandler, UserActivityMonitor and
  BatteryMonitor cover the remaining monitors. LlNetworking models the
  /proc line tokenizer and Debug the hex dump.
- **The Core Service.** MurmeltierRegister, MurmeltierList and
  MurmeltierObjects cover the checks of object registration, the manager
  listing, and the removal of managers, streams and objects together with
  the recording of deleted files.
- **Uploader.** It models the smart-storage logger's upload registry.
- **Clients.** WoodchuckClient covers the Python client library's error
  mapping and feedback reference count. VcsSync covers the
  version-control synchroniser, AptWoodchuck the apt cache file names and
  job queue, and WoodchuckCli the interactive shell.
- **Tools.** Dbus2Rst covers the converter from D-Bus introspection XML
  to reStructuredText.

Code that updates state step by step is modelled as classes whose
methods are proved against specification functions. The properties are
proved about those functions. Seqs holds a few general facts about
sequence concatenation and slicing that the proofs share; it models no
source file.

## Model

| member | source | states |
|---|---|---|
| Woodchuck.ErrorName | include/woodchuck/woodchuck.h:50-70 | the six named codes map to names a client reads back as the same code; every other code maps to org.woodchuck.UnknownError |
| Woodchuck.ErrorMessage | include/woodchuck/woodchuck.h:72-91 | GENERIC and every unnamed code share "Generic Error"; the other named codes have messages of their own |
| Woodchuck.NamedErrorsDistinct | include/woodchuck/woodchuck.h:50-91 | two different named codes have different error names and different messages |
| Woodchuck.DeletionPolicyOfCode | include/woodchuck/woodchuck.h:130-140 | exactly 0, 1 and 2 are deletion policies, each the inverse of the policy's code |
| Woodchuck.DeletionResponseOfCode | include/woodchuck/woodchuck.h:142-151 | exactly 0, 1 and 2 are deletion responses, each the inverse of the response's code |
| Dbus.SigsDetermineTypes | src/murmeltier-dbus-server.c:631-966 | the signature of a well-typed argument list determines the types of its arguments, so comparing signatures is comparing types |
| Dbus.TypeSigPrefixFree | src/murmeltier-dbus-server.c:246-373 | complete type signatures are prefix-free: two types whose signatures each start the same string are the same type |
| DbusServer.ResolveObjectPath | src/murmeltier-dbus-server.c:95-129 | the kind, id and interface the cursor walk finds are those of ResolvePath on the path below the root |
| DbusServer.DecodeStructs | src/murmeltier-dbus-server.c:269-373 | the nested loops over an a(stub) value accept and return exactly what DecodeStubArray does |
| DbusServer.DecodeEntryStep | src/murmeltier-dbus-server.c:191-407 | one dictionary entry is decoded as DecodeEntry says, with one queued array per a(stub) value |
| DbusServer.DecodeRegister | src/murmeltier-dbus-server.c:162-425 | the register arguments are decoded as DecodeRegisterArgs says, and every a(stub) array read is queued for release |
| DbusServer.EncodeList | src/murmeltier-dbus-server.c:585-627 | the loop builds the reply array EncodeRows describes |
| DbusServer.HandleListCall | src/murmeltier-dbus-server.c:463-630 | list and lookup calls end as HandleList says |
| DbusServer.ReadVersions | src/murmeltier-dbus-server.c:686-708 | the versions read from an a(tu) are its elements in order (with the counting loop advancing) |
| DbusServer.ReadFiles | src/murmeltier-dbus-server.c:866-897 | the file list read from an a(sbu) is its elements in order |
| DbusServer.HandleFixedCall | src/murmeltier-dbus-server.c:631-966 | the fixed-signature methods end as HandleFixed says, in the corrected reading: status and indicator in header order, the version count advancing |
| DbusServer.InterfaceNumber | src/murmeltier-dbus-server.c:67-76 | the interface number is the one InterfaceOf gives |
| DbusServer.RouteCall | src/murmeltier-dbus-server.c:95-976 | from the path below the root to the handler's exit, as Route says, with every queued array accounted for |
| DbusServer.ProcessMessage | src/murmeltier-dbus-server.c:35-1037 | the response is Dispatch's; in the corrected reading the loop at out releases exactly the arrays Route queued on every path that returns, bad_signature included, and none for a message not for us |
| DbusServer.DictBadStays | src/murmeltier-dbus-server.c:191-407 | once a dictionary entry is rejected the decoded dictionary stays rejected |
| DispatchProps.NotForUsIff | src/murmeltier-dbus-server.c:78-80 | no reply at all exactly when the path does not start with /org/woodchuck |
| DispatchProps.HexIdIsStrspn | src/murmeltier-dbus-server.c:131-140 | the strspn test accepts exactly ids of lower-case hex digits, the empty id included |
| DispatchProps.ResolveKindIff | src/murmeltier-dbus-server.c:95-129 | a kind is found exactly for the empty remainder or a /manager/, /stream/ or /object/ prefix |
| DispatchProps.ResolveManager | src/murmeltier-dbus-server.c:99-109 | /manager/<id> is the manager <id>, keeping the interface only if it is the manager interface |
| DispatchProps.ResolveStream | src/murmeltier-dbus-server.c:110-120 | /stream/<id> is the stream <id>, keeping the interface only if it is the stream interface |
| DispatchProps.ResolveObject | src/murmeltier-dbus-server.c:121-127 | /object/<id> is the object <id>, keeping the interface only if it is the object interface |
| DispatchProps.ResolveManagerObject | src/murmeltier-dbus-server.c:99-127 | the object test is not exclusive: /manager/object/<id> resolves to the object <id> with no interface |
| DispatchProps.ManagerObjectUnknownInterface | src/murmeltier-dbus-server.c:121-146 | so every call on /org/woodchuck/manager/object/<hex> gets UnknownInterface |
| DispatchProps.UnknownObjectReply | src/murmeltier-dbus-server.c:131-140 | no kind, or a non-hex id, gives UnknownObject "<path>: No such object." |
| DispatchProps.InterfaceMismatchReply | src/murmeltier-dbus-server.c:142-146 | an interface other than the kind's gives UnknownInterface "<path> does not understand message <iface>.<method>" |
| DispatchProps.NoHandlerReply | src/murmeltier-dbus-server.c:967-976 | a method no handler takes gives UnknownMethod with the same message |
| DispatchProps.ReachesHandle | src/murmeltier-dbus-server.c:150-976 | a message that names a kind, a hex id and the kind's interface is given to the kind's handler |
| DispatchProps.FinaliseReturnIff | src/murmeltier-dbus-server.c:1005-1036 | a method return is sent exactly when the handler reached out with success and no error, and it carries the handler's reply |
| DispatchProps.FinaliseFailure | src/murmeltier-dbus-server.c:1005-1025 | a failure code with no error set gives the code's error name and "<path>: <iface>.<method>: <message>." |
| DispatchProps.FinaliseServiceError | src/murmeltier-dbus-server.c:1012-1025 | a failure code with an error set sends that error's message under the code's error name |
| DispatchProps.FinaliseBadSignature | src/murmeltier-dbus-server.c:998-1004 | a bad signature gives InvalidArgs naming the expected and the actual signature |
| DispatchProps.FinaliseErrorOnSuccess | src/murmeltier-dbus-server.c:1015-1017 | an error set by a call that returned success trips the assertion |
| DispatchProps.ExpectedTypesSig | src/murmeltier-dbus-server.c:631-966 | each fixed method's expected signature (b, ua(tu), b, s, su, "", u, uutttuta(sbu), uutttuuuu, ttt, ut) is that of well-formed argument types |
| DispatchProps.SignatureMismatchReply | src/murmeltier-dbus-server.c:631-966 | a fixed method whose signature differs from the expected one gives InvalidArgs "…Expected <exp> got <act>." |
| DispatchProps.SignatureMatchCalls | src/murmeltier-dbus-server.c:631-966 | once a well-typed signature matches, reading the arguments cannot fail and the call reaches out |
| DispatchProps.WellTypedVersions | src/murmeltier-dbus-server.c:686-708 | every element of a well-typed a(tu) is a (uint64, uint32) struct |
| DispatchProps.WellTypedFiles | src/murmeltier-dbus-server.c:866-897 | every element of a well-typed a(sbu) is a (string, boolean, uint32) struct |
| DispatchProps.RowTypeSigs | src/murmeltier-dbus-server.c:461-594 | the reply elements are (ssss), (sss) and (ss) |
| DispatchProps.ListArity | src/murmeltier-dbus-server.c:463-584 | ListManagers replies with four strings a row; LookupManagerByCookie, ListStreams and ListObjects with three; the other lookups with two |
| DispatchProps.EncodeRowsContents | src/murmeltier-dbus-server.c:585-627 | a reply holds one struct per row, each NULL field sent as "" and every other field as itself |
| DispatchProps.EmptyListReply | src/murmeltier-dbus-server.c:585-627 | an empty list is still sent, as an empty array |
| DispatchProps.ShapeIffSig | src/murmeltier-dbus-server.c:463-584 | on well-typed arguments, matching basic type codes one by one is comparing the signature |
| DispatchProps.ListArgsIff | src/murmeltier-dbus-server.c:463-584 | the list arguments are accepted exactly when their signature is sb for LookupManagerByCookie, s for the other lookups, "" or b for ListManagers and "" otherwise |
| DispatchProps.ListReply | src/murmeltier-dbus-server.c:463-630 | a successful list call replies with the encoded rows |
| RegisterProps.StubRowsDecode | src/murmeltier-dbus-server.c:269-373 | the rows of a well-formed a(stub) decode to themselves |
| RegisterProps.RegisterRoundTrip | src/murmeltier-dbus-server.c:151-460 | decoding the arguments a client encodes gives back its properties (a later duplicate key winning), its flag and its count of a(stub) arrays |
| RegisterProps.PropsOfKeys | src/murmeltier-dbus-server.c:390-402 | the hash table holds exactly the keys of the dictionary |
| RegisterProps.PropsOfLastWins | src/murmeltier-dbus-server.c:390-402 | a key's value is that of its last entry |
| RegisterProps.DecodeDictOkIff | src/murmeltier-dbus-server.c:162-425 | the dictionary is accepted exactly when every entry is |
| RegisterProps.RegisterOkShape | src/murmeltier-dbus-server.c:162-425 | an accepted register call is an optional dictionary followed by exactly one boolean |
| RegisterProps.RegisterTrailingRejected | src/murmeltier-dbus-server.c:417-425 | nothing may follow the boolean |
| RegisterProps.RegisterRejectedReply | src/murmeltier-dbus-server.c:453-459 | a rejected register call gives InvalidArgs |
| RegisterProps.RegisterSuccessReply | src/murmeltier-dbus-server.c:427-446 | an accepted register call that succeeds replies with the new uuid |
| RegisterProps.StubArrayHomogeneous | src/murmeltier-dbus-server.c:246-373 | in an accepted a(stub) every field is s, u, t or b, of the type of the same field of element 0 |
| RegisterProps.WellTypedStubArrayDecodes | src/murmeltier-dbus-server.c:246-373 | a well-typed a(stub) property is accepted |
| DispatchFindings.UnreleasedAsWritten | src/murmeltier-dbus-server.c:979-1004 | the code as written releases the queued arrays only on the normal exit |
| DispatchFindings.BadSignatureLeaks | src/murmeltier-dbus-server.c:50-55 | a register call with an a(stub) and no boolean leaves one array unreleased |
| DispatchFindings.TransferAsWritten | src/murmeltier-dbus-server.c:901-920 | the code as written hands the indicator over as the status and the status as the indicator |
| DispatchFindings.TransferSwapShows | src/murmeltier-dbus-server.c:901-920 | whenever status and indicator differ, the Core Service sees the wrong status |
| DispatchFindings.DownloadStatusKeepsOrder | src/murmeltier-dbus-server.c:901-903 | corrected, a well-typed DownloadStatus call on an object reaches the Core Service with its first argument as the status and its second as the indicator, as src/murmeltier-dbus-server.h declares, then the transfer figures, the size and the files |
| DispatchFindings.UpdateStatusKeepsOrder | src/murmeltier-dbus-server.c:917-920 | corrected, a well-typed UpdateStatus call on a stream reaches the Core Service with status and indicator in header order, then the transfer figures and the object counts |
| DispatchFindings.CountVersionsAsWritten | src/murmeltier-dbus-server.c:686-689 | the counting loop as written never finishes on a non-empty array |
| UserActivityMonitor.StatusString | src/user-activity-monitor.h:47-61 | the three statuses map to names that read back as themselves; every other value is "invalid" |
| UserActivityMonitor.StatusStringsDistinct | src/user-activity-monitor.h:47-61 | the four names are pairwise distinct |
| UserActivityMonitor.StatusOfHint | src/user-activity-monitor.c:132 | the status after a hint is IDLE or ACTIVE as the hint says, and the opposite hint is a change from it |
| UserActivityMonitor.Elapsed | src/user-activity-monitor.c:122-129 | the time in the previous state is -1 exactly after a time warp, and otherwise reaches from the old time to now |
| UserActivityMonitor.FirstHintChanges | src/user-activity-monitor.c:209-211 | the monitor starts UNKNOWN, so the first hint is always a change |
| UserActivityMonitor.Monitor.constructor | src/user-activity-monitor.c:209-210 | a new monitor is UNKNOWN since now, with no signal sent |
| UserActivityMonitor.Monitor.IdleChanged | src/user-activity-monitor.c:106-139 | a gratuitous hint changes nothing; any other sets the status and time and emits one signal with the time in the previous state |
| UserActivityMonitor.Monitor.StatusTimeAbs | src/user-activity-monitor.c:243-252 | a time in the future is pulled back to now, so the result never exceeds now |
| UserActivityMonitor.Monitor.StatusTimeSince | src/user-activity-monitor.c:254-258 | the time in the current state is never negative |
| BatteryMonitor.ChargerString | src/battery-monitor.h:48-64 | the four chargers map to names that read back as themselves; every other value is "invalid" |
| BatteryMonitor.ChargerStringsDistinct | src/battery-monitor.h:48-64 | the five names are pairwise distinct |
| BatteryMonitor.ChargerOfType | src/battery-monitor.c:168-178 | no type gives UNKNOWN; "none", "wall charger" and "host 500 mA" give NONE, WALL and USB; any other type keeps the charger |
| BatteryMonitor.Reread | src/battery-monitor.c:155-178 | each numeric field is overwritten only when its read succeeds |
| BatteryMonitor.RereadNothingRead | src/battery-monitor.c:155-178 | failed reads and an unknown charger type change nothing |
| BatteryMonitor.Battery.constructor | src/battery-monitor.c:400-407 | a new battery has the four numeric fields at -1 |
| BatteryMonitor.Battery.PropertiesReread | src/battery-monitor.c:140-215 | the fields are reread; the version grows by one and a signal is sent exactly when one of the five fields changed |
| BatteryMonitor.Battery.RefreshProperties | src/battery-monitor.c:275-281 | true exactly when the version changed, that is when the reread changed a field |
| BatteryMonitor.Battery.CheckFreshness | src/battery-monitor.c:285-290 | the values are reread exactly when they are older than 5000 ms |
| BatteryMonitor.Battery.IsCharging | src/battery-monitor.c:292-298 | the accessor refreshes stale values and returns the cached one |
| BatteryMonitor.Battery.PropertiesModified | src/battery-monitor.c:226-266 | a reread is pending afterwards exactly when one was or one of the five properties changed, and at most one timer is scheduled |
| Util.Max | src/util.h:9-18 | the larger of the two arguments |
| Util.Min | src/util.h:26-35 | the smaller of the two arguments |
| Util.TimeUnit | src/util.h:79-94 | days above 10 days, mins, secs and hours likewise, ms up to 10 s, by the magnitude |
| Util.TimeValueScales | src/util.h:58-78 | the magnitude divided by the chosen unit, truncated, with the sign restored |
| Util.TimePrintfAgrees | src/util.h:58-94 | value and unit agree: the value times the unit lies within one unit below the magnitude, a value in a unit above ms is at least 10, and up to 10 s the value is the input |
| Util.BytesUnit | src/util.h:113-127 | gb above 10 GiB, mb above 10 MiB, kb above 10 KiB, else bytes |
| Util.BytesValueScales | src/util.h:96-112 | the magnitude divided by the chosen unit, truncated, with the sign restored |
| Util.BytesPrintfAgrees | src/util.h:96-127 | value and unit agree in the same way, and up to 10 KiB the value is the input |
| Schedule.ExpectedSizeToBytes | include/netczar/schedule.h:161-167 | -1 gives all ones, any other order 1024 shifted left by it, within 64 bits |
| Schedule.Base4DigitsBounds | include/netczar/schedule.h:178-188 | the order of n is its number of base-4 digits: 4^(d-1) <= n < 4^d |
| Schedule.BytesToExpectedSize | include/netczar/schedule.h:171-189 | all ones gives all ones; any other size the number of base-4 digits of size + size/2, taken in 64 bits |
| Schedule.ExpectedSizeMonotone | include/netczar/schedule.h:178-188 | the order never falls as the size grows while size + size/2 does not wrap |
| Schedule.KilobyteOrder | include/netczar/schedule.h:137-188 | the order of one kilobyte is 6, not EXPECTED_SIZE_KB, so the two conversions are not inverses |
| NetworkMedium.MediumsAreDistinctBits | src/network-monitor.h:188-195 | the five mediums are single bits, pairwise distinct |
| NetworkMedium.PrintedIsJoinedPlusSpace | src/network-monitor.h:205-211 | the printed names are empty exactly when no known medium is set, and otherwise the names joined by spaces plus one trailing space |
| NetworkMedium.MediumToString | src/network-monitor.h:199-217 | NULL exactly for an empty mask; otherwise the names of the set mediums in order, single-space-separated with no trailing space |
| NetworkMedium.SingleMedium | src/network-monitor.h:199-217 | a mask of one medium prints as that medium's name |
| NetworkMedium.TruncationIndexAsWritten | src/network-monitor.h:214 | the code stores its NUL at strlen - 1 |
| NetworkMedium.UnnamedBitWritesBeforeString | src/network-monitor.h:214 | a mask holding only an unnamed bit makes that index -1 |
| NetworkMedium.DeviceInfoFlags | src/network-monitor.h:222-246 | IP_ADDR and GATEWAY_IP_ADDR are the unions of their parts; the single flags are distinct bits, all within ALL |
| ProcessMonitor.CbStr | src/process-monitor-ptrace.h:28-61 | "free" exactly for -1, "unknown" exactly for codes outside the six callbacks and -1, and each callback's name maps back to its code |
| ProcessMonitor.CbStrsDistinct | src/process-monitor-ptrace.h:28-61 | two codes with the same name are the same code, unless both are unknown |
| ProcessMonitor.Remove | src/process-monitor-ptrace.c:357 | on a duplicate-free children list, removes exactly the given pid, one shorter when it was present and unchanged otherwise |
| ProcessMonitor.TopLevelUnique | src/process-monitor-ptrace.c:276-283 | a tcb lies below at most one top-level tcb, so the pid a callback reports is determined |
| ProcessMonitor.Tracer.TopLevelOf | src/process-monitor-ptrace.c:276-283 | the walk up the parent links ends at a top-level tcb without a parent, which the thread lies below |
| ProcessMonitor.Tracer.ParentSet | src/process-monitor-ptrace.c:343-366 | the same parent is a no-op; no parent detaches the tcb from its parent's children; a new parent is set and the tcb prepended to its children; the tree invariant is kept |
| ProcessMonitor.AdoptKeepsTree | src/process-monitor-ptrace.c:363-365 | prepending a fresh tcb to a parent's children keeps the tree invariant |
| ProcessMonitor.DetachKeepsTree | src/process-monitor-ptrace.c:353-360 | detaching a tcb from its parent keeps the tree invariant |
| ProcessMonitor.Tracer.ThreadTrace | src/process-monitor-ptrace.c:504-552 | the whole new table: a traced pid only has its parent set, exactly as ParentSet's three cases say; otherwise a new childless record with that parent is added, the parent's children gain it at the head, and the count grows by one; a failed attach changes nothing; no other record changes |
| ProcessMonitor.Tracer.TcbNew | src/process-monitor-ptrace.c:538-548 | the table gains exactly a blank record for pid, the count grows by one, and the tree invariant is kept |
| ProcessMonitor.Tracer.ProcessTrace | src/process-monitor-ptrace.c:651-660 | a failed attach is a NULL dereference and an already top-level pid fails the assertion, both exactly in those cases and leaving the table alone; otherwise the whole new table: the pid's record, detached from any parent and marked top-level, keeping its children, or a new top-level record, and nothing else changed |
| ProcessMonitor.Tracer.MarkTopLevel | src/process-monitor-ptrace.c:658 | only the pid's record changes, gaining the top-level flag, and the tree invariant is kept |
| ProcessMonitor.FreeKeepsTree | src/process-monitor-ptrace.c:368-407 | removing a tcb with no parent and no children keeps the invariant, and no other tcb refers to it |
| ProcessMonitor.Tracer.TcbFree | src/process-monitor-ptrace.c:368-407 | the tcb leaves the table and the count drops by one |
| ProcessMonitor.Reparented | src/process-monitor-ptrace.c:579-587 | keeps the table's keys and size |
| ProcessMonitor.ReparentedStep | src/process-monitor-ptrace.c:579-587 | one more turn of the loop reparents exactly one more child |
| ProcessMonitor.Inherited | src/process-monitor-ptrace.c:576-592 | each child gets the grandparent as its parent, the grandparent's children get the children appended, the tcb has none left, and nothing else changes |
| ProcessMonitor.InheritKeepsTree | src/process-monitor-ptrace.c:576-592 | handing the children to the grandparent keeps the tree invariant |
| ProcessMonitor.Tracer.Inherit | src/process-monitor-ptrace.c:576-592 | the loop computes Inherited |
| ProcessMonitor.ChildrenToParent | src/process-monitor-ptrace.c:565-592 | the same shape as Inherited, also when the tcb has no children |
| ProcessMonitor.UntracedShape | src/process-monitor-ptrace.c:557-640 | a top-level tcb with children only becomes a zombie; any other tcb is removed, its children move to its parent, appended after the parent's own children minus the tcb; the parent is removed as well exactly when that leaves a zombie without children; nothing else changes |
| ProcessMonitor.UntracedWithParent | src/process-monitor-ptrace.c:594-631 | the same, for a tcb with a parent |
| ProcessMonitor.RemoveAppend | src/process-monitor-ptrace.c:589-600 | removing the tcb after the concatenation equals removing it before |
| ProcessMonitor.Tracer.ThreadUntrace | src/process-monitor-ptrace.c:557-640 | computes Untraced (see UntracedShape) and keeps the tree invariant |
| ProcessMonitor.Tracer.Detach | src/process-monitor-ptrace.c:595-639 | a tcb with a parent leaves its parent's children and is freed, and the parent too when that leaves a zombie without children; the tree invariant holds |
| ProcessMonitor.StopBelowKeepsTree | src/process-monitor-ptrace.c:694-709 | marking a subtree as stopping keeps the invariant that a stopping tcb has a stopping parent; exactly the old stopping tcbs and those below the root are stopping |
| ProcessMonitor.BelowChildren | src/process-monitor-ptrace.c:700-708 | a tcb lies below r exactly when it is r or lies below one of r's children |
| ProcessMonitor.SiblingsApart | src/process-monitor-ptrace.c:703-706 | no child lies below an earlier sibling, so the next child is not yet stopping, as the code asserts |
| ProcessMonitor.StopPrefixNext | src/process-monitor-ptrace.c:700-708 | stopping below the next child extends the children handled so far by one |
| ProcessMonitor.StopPrefixAll | src/process-monitor-ptrace.c:700-708 | after the last child the whole subtree is stopping |
| ProcessMonitor.Tracer.Stop | src/process-monitor-ptrace.c:694-709 | the recursion marks exactly the tcb and everything below it as stopping and keeps the invariant |
| ProcessMonitor.Tracer.ProcessUntrace | src/process-monitor-ptrace.c:662-711 | nothing changes for an untraced pid, one never traced explicitly, or one already stopping; otherwise exactly the pid and the tcbs below it start stopping |
| Util.Sub64 | src/process-monitor-ptrace.c:1093-1094 | the uint64_t difference: plain when the first operand is not smaller, wrapped to 2^64 minus the gap when it is (a clock that went back) |
| ProcessMonitor.Load.Update | src/process-monitor-ptrace.c:1090-1105 | when the bucket is more than 1000 ms old, the next bucket (wrapping after the tenth) restarts at now with one callback and no events; otherwise the current bucket counts one more callback; the other buckets are unchanged |
| ProcessMonitor.LoadIncrement | src/process-monitor-ptrace.c:1085-1109 | both the thread's load and the global load, at the same time n, have their bucket, reset times, callback counts and event counts updated exactly as Load.Update says |
| Sqlq.NonEmptyAppend | src/sqlq.c:98-111 | the commands flush executes from two lists are those of each list, in order |
| Sqlq.FlushBrackets | src/sqlq.c:73-122 | nothing is sent exactly when both commands are NULL or empty; otherwise "begin transaction", the non-empty commands in order, and "end transaction"; when the begin fails only it is sent |
| Sqlq.FirstCommand | src/sqlq.c:80-86 | the first loop stops at the first command that is neither NULL nor empty, and every command before it is |
| Sqlq.SendCommands | src/sqlq.c:98-111 | the second loop executes exactly the non-empty commands, in order |
| Sqlq.Flush | src/sqlq.c:73-122 | flush sends exactly the statements FlushBrackets describes |
| Sqlq.HeaderOnlyBufferAccepted | src/sqlq.c:29-36 | the assertion accepts a buffer the size of the header, whose capacity is 0, so the NUL a flush stores at offset 0 is out of bounds |
| Sqlq.Queue.constructor | src/sqlq.c:27-41 | a queue with the capacity after the header, nothing buffered, no timer and the given delay |
| Sqlq.Queue.Append | src/sqlq.c:139-181 | a queue without delay, a forced flush or a command that does not fit with its NUL flushes the buffered text then the command, and empties the buffer and cancels the timer; otherwise the command is copied after the buffered text, the rest of the buffer untouched, and the timer is scheduled; returns whether text is buffered |
| Sqlq.Queue.FlushQueue | src/sqlq.c:202-206 | the buffered text is sent in one transaction and the queue is left empty without a timer |
| Sqlq.Queue.DelayedFlush | src/sqlq.c:124-136 | the scheduled timer fires once: it is cleared and the queue flushed |
| Sqlq.Queue.FlushDelaySet | src/sqlq.c:208-218 | an unchanged delay changes nothing; otherwise the queue is flushed, no timer remains, and the delay is set |
| Sqlq.FlushOrder | src/sqlq.c:151-156 | a command that does not fit is sent after the buffered text, in the same transaction |
| SignalHandler.MaskOf | src/signal-handler.c:82-85 | the mask holds exactly the signals 1 .. _NSIG - 1 whose count is non-zero |
| SignalHandler.CatchMask | src/signal-handler.c:110-120 | catching keeps the counts non-negative and adds the signal to the mask, which changes exactly when the count was zero |
| SignalHandler.IgnoreMask | src/signal-handler.c:122-139 | ignoring keeps the counts non-negative; the mask loses the signal exactly when its count was one and is otherwise unchanged |
| SignalHandler.CatchIgnoreRoundTrip | src/signal-handler.c:110-139 | ignore undoes catch, and catch undoes ignore of a watched signal |
| SignalHandler.CatchMaskMask | src/signal-handler.c:141-157 | catching a mask adds its valid signals to the installed mask, which changes exactly when one of them had a zero count |
| SignalHandler.IgnoreMaskMask | src/signal-handler.c:159-183 | ignoring a mask drops exactly its signals whose count was one, and the mask changes exactly when there is such a signal |
| SignalHandler.CatchIgnoreMaskRoundTrip | src/signal-handler.c:141-183 | ignoring a mask undoes catching it |
| SignalHandler.Handler.constructor | src/signal-handler.c:228-232 | a new handler has sigfd -1, every count zero and no watch |
| SignalHandler.Handler.Refabricate | src/signal-handler.c:74-107 | installs exactly the mask of non-zero counts, takes the descriptor signalfd returns, and adds a watch only when sigfd was -1 |
| SignalHandler.Handler.Catch | src/signal-handler.c:110-120 | the count grows by one; the mask is rebuilt exactly when the count was zero; the mask invariant is kept |
| SignalHandler.Handler.Ignore | src/signal-handler.c:122-139 | a zero count is left alone; otherwise it drops by one and the mask is rebuilt exactly when it reaches zero; the mask invariant is kept |
| SignalHandler.Handler.CatchSet | src/signal-handler.c:141-157 | every signal of the mask is caught, and the mask is rebuilt once exactly when one of them was new |
| SignalHandler.Handler.IgnoreSet | src/signal-handler.c:159-183 | every watched signal of the mask is ignored, unwatched ones skipped, and the mask is rebuilt once exactly when a count reached zero |
| SignalHandler.Singleton.New | src/signal-handler.c:185-201 | the first call creates the handler, later calls return the same one with one more reference; a given mask is caught |
| ServiceMonitor.AddKeepsConsistent | src/service-monitor.c:139-145 | adding an unregistered service keeps the tables consistent (a service is in the name table exactly when it is in its own pid's list), with the service at the head of its list |
| ServiceMonitor.FreeKeepsConsistent | src/service-monitor.c:159-208 | freeing a registered service keeps the tables consistent and leaves the service in neither |
| ServiceMonitor.AddFreeRoundTrip | src/service-monitor.c:82-208 | freeing a service just added restores both tables |
| ServiceMonitor.FreeResult | src/service-monitor.c:157-207 | service_free's result is true exactly when other services of the pid remain (the comment before the function says the opposite; the model follows the code) |
| ServiceMonitor.NamesOfPid | src/service-monitor.c:65-68 | a name is registered to a service of a pid exactly when that pid's list holds a service of that name |
| ServiceMonitor.Monitor.ServiceNew | src/service-monitor.c:82-155 | on an unregistered name, the service heads its pid's list and is registered; the pid is traced exactly when the service is its first; service-started follows |
| ServiceMonitor.Monitor.ServiceFree | src/service-monitor.c:159-208 | service-stopped, then the service leaves its list and the name table; a pid left without services is dropped and untraced; returns whether services remain |
| ServiceMonitor.Blacklisted | src/service-monitor.c:214-269 | true exactly when the command equals an entry of the build's blacklist |
| ServiceMonitor.Whitelisted | src/service-monitor.c:407-442 | NULL is false; otherwise true exactly for /home, /media and /mnt and names below them, the fast check rejecting nothing that would match |
| ServiceMonitor.PrefixMatchIsInDirectory | src/service-monitor.c:430-431 | on a C string, strncmp over the directory's length followed by a NUL or '/' means being the directory or lying below it |
| ServiceMonitor.WhitelistExamples | src/service-monitor.c:407-442 | /homes, / and the empty name are not whitelisted; /home, a file below it and a directory below /media are |
| ServiceMonitor.FirstNul | src/service-monitor.c:320 | the first NUL of a string, or its length, with no NUL before it |
| ServiceMonitor.ParseCmdline | src/service-monitor.c:315-345 | argv[0] is known exactly when the command line could be read, and both arguments are C strings |
| ServiceMonitor.CmdlineRoundTrip | src/service-monitor.c:315-345 | the two first arguments of a NUL-separated command line come back out; a single argument gives no second; an empty file gives an empty first argument |
| ServiceMonitor.Monitor.NameOwnerChanged | src/service-monitor.c:272-376 | names starting with ':' and changes with two empty owners change nothing; a non-empty old owner frees the name's service; a non-empty new owner adds a service when the pid is known and non-zero, the command line was read and argv[0] is not blacklisted |
| ServiceMonitor.Monitor.ProcessCallback | src/service-monitor.c:445-476 | a pid without services is ignored; on exit all its services are freed, newest first, with one service-stopped each and one untrace; any other callback is passed on with the pid's services |
| ServiceMonitor.ExitStep | src/service-monitor.c:458-461 | one turn of the exit loop frees the head of the pid's list |
| ServiceMonitor.ExitDropsPidNames | src/service-monitor.c:445-463 | the names an exit drops are exactly those registered to services of that pid |
| ServiceMonitor.Monitor.List | src/service-monitor.c:379-393 | each registered service exactly once |
| ServiceMonitor.ListStep | src/service-monitor.c:379-393 | adding one more service to the list keeps it free of repeats and holds exactly the services visited |
| NetworkMonitor.ForcedStates | src/network-monitor-nm.c:64-73 | on both backends the DISCONNECTED state a connection or device is forced into reads back as not connected, and the connected device state ICD2 forces reads back as connected |
| NetworkMonitor.FirstIndexOf | src/network-monitor.c:350-373 | the index of the first list element with that name, or None when no element has it |
| NetworkMonitor.IsFirstUnique | src/network-monitor.c:350-418 | the first match is unique, so two walks over the same list that stop at the first match agree |
| NetworkMonitor.IndexOfId | src/network-monitor.c:695-710 | the index of the connection object with that id, or None exactly when no connection has it |
| NetworkMonitor.DefaultUpdate | src/network-monitor.c:538-587 | setting a connection makes it the real default; unsetting the real default clears it, unsetting another changes nothing; the published default never changes; any change leaves a signal pending |
| NetworkMonitor.SendSignal | src/network-monitor.c:504-532 | the real default becomes the published one and nothing stays pending; default-connection-changed, with the old and new defaults, is emitted exactly when they differ |
| NetworkMonitor.DefaultsStaySettled | src/network-monitor.c:504-587 | outside a pending signal the published default is the real one, and both transitions keep that so |
| NetworkMonitor.ApplyUpdatesKeepsCurrent | src/network-monitor.c:538-587 | a burst of updates never touches the published default, and a burst that changes the real default leaves a signal pending |
| NetworkMonitor.Coalesce | src/network-monitor.c:504-587 | however many updates come before the idle handler runs, it emits at most one signal, from the default before the burst to the final one, and none when the burst ends where it started |
| NetworkMonitor.TransitionCases | src/network-monitor.c:616-669 | an equal non-initial state does nothing; a connection without devices emits nothing; new-connection is emitted exactly for a published connection entering a connected state and disconnected exactly for one leaving it |
| NetworkMonitor.NoRepeatedSignals | src/network-monitor.c:616-669 | a connected connection is not announced again by a non-initial change, an unconnected one is never withdrawn, and an initial call with the recorded state never withdraws |
| NetworkMonitor.ReadingsKeepIdentity | src/network-monitor.c:454-482 | the /proc/net/dev callback changes only statistics: every device keeps its name, interface, medium, state and SSID |
| NetworkMonitor.ReadingsTouchNamedOnly | src/network-monitor.c:454-482 | a device no line names as the first device of its interface keeps its statistics; one some line names is stamped with the time of the update |
| NetworkMonitor.StatsSinceConnect | src/network-monitor.c:1040-1047 | the reported statistics are the device's minus those at connect, with the time of the device's last reading |
| NetworkMonitor.InfoLayout | src/network-monitor.c:816-857 | the interface and SSID strings fill the bytes reserved after the record exactly, so the assertion holds, each pointer reads back its string, the reported mask lies within the requested one, and statistics are those since connect |
| NetworkMonitor.CStringAtPrefix | src/network-monitor.c:843-855 | a string copied with its NUL before other bytes reads back as itself |
| NetworkMonitor.LinkDevice | src/network-monitor.c:423-441 | the device a per-connection link designates is the first device with the link's name, and lies within the device list |
| NetworkMonitor.MediumsAsWrittenFaults | src/network-monitor.c:767-780 | a connection whose device is not known yet makes the code as written read NULL's medium |
| NetworkMonitor.MediumsCoverKnown | src/network-monitor.c:767-780 | the corrected mask holds the medium of every known device of the connection |
| NetworkMonitor.MediumsIsOrAll | src/network-monitor.c:767-780 | the corrected mask is the OR of the mediums of the links, in order |
| NetworkMonitor.MediumsOnlyKnown | src/network-monitor.c:767-780 | with no known device the corrected mask is empty |
| NetworkMonitor.MediumsAgreeWhenKnown | src/network-monitor.c:767-780 | when every device is known the code as written does not fault and gives the corrected mask |
| NetworkMonitorNm.DeviceStateToStr | src/network-monitor-nm.c:21-47 | each listed NetworkManager device state has a name, and exactly the unlisted ones are "unknown" |
| NetworkMonitorNm.DeviceStateNamesDistinct | src/network-monitor-nm.c:21-47 | two listed device states never share a name |
| NetworkMonitorNm.ConnectionStateToStr | src/network-monitor-nm.c:50-61 | only ACTIVATING and ACTIVATED are named, and a state is connected exactly when it prints as "activated" |
| NetworkMonitorNm.ConnectedOnlyWhenActivated | src/network-monitor-nm.c:64-73 | only the ACTIVATED device state counts as connected; the UNKNOWN and ACTIVATING connection states and the UNKNOWN device state do not |
| NetworkMonitorNm.DeviceTypeToStr | src/network-monitor-nm.c:389-409 | each listed device type has a name, and exactly the unlisted ones are "unknown" |
| NetworkMonitorNm.DeviceTypeMedium | src/network-monitor-nm.c:429-449 | a device gets one of the five mediums, MEDIUM_UNKNOWN exactly for an unlisted device type |
| NetworkMonitorNm.DeviceMediumIsOneName | src/network-monitor-nm.c:429-449 | a device's medium prints as a single medium name; WiFi and OLPC mesh devices share one, as do GSM and CDMA devices |
| NetworkMonitorNm.PropertyActionOf | src/network-monitor-nm.c:83-123 | a boolean Default value updates the default, a uint State value sets the state, and every other key or value type is only logged |
| NetworkMonitorIcd2.DeviceStateToStr | src/network-monitor-icd2.c:28-53 | the nine ICD states have names, and exactly the other values are "unknown" |
| NetworkMonitorIcd2.StateNamesDistinct | src/network-monitor-icd2.c:28-53 | the nine names are pairwise different |
| NetworkMonitorIcd2.ConnectedStates | src/network-monitor-icd2.c:62-75 | exactly five of the nine states count as connected, each of them a named state |
| NetworkMonitorIcd2.HexDigits | src/network-monitor-icd2.c:96-98 | strtol in base 16 reads the longest prefix of hexadecimal digits |
| NetworkMonitorIcd2.HexRunZero | src/network-monitor-icd2.c:96-98 | a run of digits reads as 0 exactly when every digit is '0' |
| NetworkMonitorIcd2.HexRunBound | src/network-monitor-icd2.c:96-98 | n digits read below 16^n, so the eight-digit fields of /proc/net/route survive the cast to uint32_t |
| NetworkMonitorIcd2.RouteIsDefault | src/network-monitor-icd2.c:84-102 | a line without exactly seven fields is skipped; otherwise a route counts exactly when its flags hold RTF_GATEWAY or its destination and mask are both zero |
| NetworkMonitorIcd2.DefaultRouteIsDefault | src/network-monitor-icd2.c:84-102 | the kernel's default route counts by its gateway flag, and a truncated line is skipped |
| NetworkMonitorIcd2.ZeroRouteIsDefault | src/network-monitor-icd2.c:96-102 | a route with zero destination and mask counts without the gateway flag |
| NetworkMonitorIcd2.SubnetRouteIsNotDefault | src/network-monitor-icd2.c:96-102 | a subnet route with neither does not count |
| NetworkMonitorIcd2.InferredMedium | src/network-monitor-icd2.c:294-315 | a new device is WiFi by its interface or else unknown, unless the signal has one address, when a WLAN_, GPRS or WIMAX, or DUN_ network type makes it WiFi, cellular or Bluetooth; never Ethernet |
| NetworkMonitorIcd2.PrefixesExclusive | src/network-monitor-icd2.c:306-311 | no network type starts with two of the four prefixes, so the order of the tests does not matter |
| NetworkMonitorIcd2.NetworkTypeOverridesInterface | src/network-monitor-icd2.c:300-315 | with one address a recognised network type overrides the interface, and with several the network type is ignored |
| NetworkMonitorIcd2.ScanStatusToStr | src/network-monitor-icd2.c:520-531 | the five scan statuses have names, and exactly the other values are "unknown status" |
| NetworkMonitorSteps.Emitted | src/network-monitor.c:504-532 | at most one event: none when no signal was emitted, the signal otherwise |
| NetworkMonitorSteps.StatsUpdateEffect | src/network-monitor.c:445-483 | an unforced update within 300 ms of the last changes nothing; any other records its time and changes only the devices' statistics |
| NetworkMonitorSteps.DefaultScan | src/network-monitor-icd2.c:170-175 | the ICD2 backend schedules a default-route scan; NetworkManager needs none |
| NetworkMonitorSteps.EmitDefault | src/network-monitor.c:504-532 | the idle handler updates only the defaults and appends the signal it emits, if any |
| NetworkMonitorSteps.AddConnectionEffect | src/network-monitor.c:695-710 | a new connection comes first with the name, the fresh id and no devices, the others follow unchanged, and ids stay distinct |
| NetworkMonitorSteps.RemoveAt | src/network-monitor.c:713-764 | the list without element i, the others in order |
| NetworkMonitorSteps.DisposeEffect | src/network-monitor.c:713-764 | a disposed connection leaves the list and is neither the real nor the published default; the others keep their order, and ids and defaults stay consistent |
| NetworkMonitorSteps.ConnectionStateSetSize | src/network-monitor.c:616-669 | connection_state_set either keeps the connection or, when it withdraws it, removes it |
| NetworkMonitorSteps.ConnectionStateSetQuiet | src/network-monitor.c:616-669 | a change that publishes nothing records the state and emits nothing |
| NetworkMonitorSteps.ConnectionStateSetAnnounced | src/network-monitor.c:645-655 | entering a connected state emits exactly new-connection, stamps the connection with the time and reads the statistics, forced |
| NetworkMonitorSteps.ConnectionStateSetWithdrawn | src/network-monitor.c:656-665 | leaving a connected state emits disconnected next (a default-connection signal may follow) and drops the connection |
| NetworkMonitorSteps.ConnectionStateSetKeepsIds | src/network-monitor.c:616-669 | connection_state_set keeps the connection ids distinct and the defaults settled |
| NetworkMonitorSteps.DeviceStateChangedEffect | src/network-monitor.c:1117-1201 | repeating the state changes nothing; otherwise the device takes the state, keeps an SSID only when it is a connected WiFi device, NetworkManager queues an active-connection scan and ICD2 a default-route scan, and no other device or connection changes |
| NetworkMonitorSteps.ResolveLinkEffect | src/network-monitor.c:423-441 | a resolved link or an unknown device changes nothing; otherwise the link is resolved after a forced statistics update and records its device's statistics |
| NetworkMonitorSteps.AddLinkKeeps | src/network-monitor.c:673-686 | connection_add_device appends a link naming the device and touches nothing but that connection's links and the devices' statistics |
| NetworkMonitorSteps.InfoLoop | src/network-monitor.c:800-1055 | one record at most per link, and the connections and their link counts unchanged |
| NetworkMonitorSteps.InfoLoopResolved | src/network-monitor.c:800-1055 | over resolved links the loop changes nothing and yields one record per known device |
| NetworkMonitorSteps.KnownFrom | src/network-monitor.c:804-813 | the links whose device is known, in order, the others skipped |
| NetworkMonitorSteps.InfoWithoutStatsChangesNothing | src/network-monitor.c:783-1058 | asking a connection whose devices are all resolved for information without statistics changes nothing and yields one record per known device |
| NetworkMonitorObject.Monitor.constructor | src/network-monitor.c:1340-1352 | a fresh monitor of the given backend, every field empty or zero |
| NetworkMonitorObject.Monitor.DeviceNameToDevice | src/network-monitor.c:350-373 | the first device with that name, or None |
| NetworkMonitorObject.Monitor.DeviceInterfaceToDevice | src/network-monitor.c:379-395 | the first device with that interface, or None |
| NetworkMonitorObject.Monitor.ConnectionNameToConnection | src/network-monitor.c:402-418 | the first connection with that name, or None |
| NetworkMonitorObject.Monitor.StatsUpdate | src/network-monitor.c:445-483 | the state StatsUpdate gives: throttled, then one /proc/net/dev line at a time |
| NetworkMonitorObject.Monitor.DefaultConnectionUpdate | src/network-monitor.c:538-587 | the state UpdateDefault gives |
| NetworkMonitorObject.Monitor.SendSignal | src/network-monitor.c:504-532 | the state EmitDefault gives |
| NetworkMonitorObject.Monitor.DefaultConnectionScan | src/network-monitor-icd2.c:170-175 | the state DefaultScan gives |
| NetworkMonitorObject.Monitor.ConnectionNew | src/network-monitor.c:695-710 | the state AddConnection gives |
| NetworkMonitorObject.Monitor.Dispose | src/network-monitor.c:713-764 | the state Dispose gives |
| NetworkMonitorObject.Monitor.ConnectionStateSet | src/network-monitor.c:616-669 | the state ConnectionStateSet gives |
| NetworkMonitorObject.Monitor.Announce | src/network-monitor.c:645-655 | a connection that becomes connected is stamped with the time, the statistics are read and new-connection is emitted: the new state is Announce's |
| NetworkMonitorObject.Monitor.Withdraw | src/network-monitor.c:656-665 | a connection that stops being connected emits disconnected and is released: the new state is Withdraw's |
| NetworkMonitorObject.Monitor.ResolveLink | src/network-monitor.c:423-441 | the state ResolveLink gives, returning the device the link designates |
| NetworkMonitorObject.Monitor.ConnectionAddDevice | src/network-monitor.c:673-686 | the state AddLink gives |
| NetworkMonitorObject.Monitor.ConnectionInfo | src/network-monitor.c:783-1058 | the state and records ConnectionInfo gives |
| NetworkMonitorObject.Monitor.DeviceInfos | src/network-monitor.c:800-1055 | the state and records the loop InfoLoop describes gives |
| NetworkMonitorObject.Monitor.DeviceNew | src/network-monitor.c:1212-1233 | the state AddDevice gives: the device prepended, disconnected, with zero statistics |
| NetworkMonitorObject.Monitor.DeviceStateChanged | src/network-monitor.c:1117-1201 | the state DeviceStateChanged gives |
| NetworkMonitorNmScan.ConnectionNewNm | src/network-monitor-nm.c:126-145 | the connection is prepended and, when NetworkManager reports it as the default, becomes the real default |
| NetworkMonitorNmScan.PropertiesOnlyActOnDefaultAndState | src/network-monitor-nm.c:83-123 | entries with other keys, or with values of the wrong type, change nothing: the handler does what the acted-on entries alone do |
| NetworkMonitorNmScan.SwapRemove | src/network-monitor-nm.c:198 | g_ptr_array_remove_index_fast: the last element takes the place of the removed one |
| NetworkMonitorNmScan.MatchReportedKeeps | src/network-monitor-nm.c:184-210 | matching changes nothing but the seen flags |
| NetworkMonitorNmScan.MatchReportedRemaining | src/network-monitor-nm.c:184-210 | the paths left are exactly the reported paths naming no known connection, as often as reported |
| NetworkMonitorNmScan.MatchReportedSeen | src/network-monitor-nm.c:184-210 | a connection ends up seen exactly when it was, or it is the first with its name and some path reports that name |
| NetworkMonitorNmScan.DisconnectOneEffect | src/network-monitor-nm.c:218-227 | one turn keeps every other connection and a seen one, adds none, and leaves the unseen connection disconnected or gone |
| NetworkMonitorNmScan.DisconnectUnseenEffect | src/network-monitor-nm.c:212-227 | seen connections stay as they were, none is added, and every unseen one walked is disconnected or gone |
| NetworkMonitorNmScan.AddLinksKeeps | src/network-monitor-nm.c:242-254 | adding a new connection's devices touches only its links and the devices' statistics |
| NetworkMonitorNmScan.ConnectOneEffect | src/network-monitor-nm.c:229-265 | each remaining path prepends exactly one connection named by that path and leaves the older ones alone |
| NetworkMonitorNmScan.ConnectReportedEffect | src/network-monitor-nm.c:229-265 | the remaining paths become new connections, the last first, in front of the connections there were |
| NetworkMonitorNmScan.MatchPhase | src/network-monitor-nm.c:176-210 | the matching keeps the ids in their places and leaves exactly the paths naming no known connection |
| NetworkMonitorNmScan.ActiveConnectionsScanEffect | src/network-monitor-nm.c:153-274 | the new connections in front carry exactly the reported paths that named no known connection; behind them only old connections remain, those no path reports are disconnected, the others stay marked seen; the scan is no longer pending |
| NetworkMonitorNmHandlers.ConnectionNew | src/network-monitor-nm.c:126-145 | the state ConnectionNewNm gives |
| NetworkMonitorNmHandlers.PropertiesChangedHandler | src/network-monitor-nm.c:83-123 | the state PropertiesChanged gives, entry by entry |
| NetworkMonitorNmHandlers.MarkAllUnseen | src/network-monitor-nm.c:176-182 | every connection is marked unseen and nothing else changes |
| NetworkMonitorNmHandlers.MatchAll | src/network-monitor-nm.c:184-210 | the connections and the remaining paths MatchReported gives |
| NetworkMonitorNmHandlers.DisconnectAllUnseen | src/network-monitor-nm.c:212-227 | the state DisconnectUnseen gives over the ids the list held |
| NetworkMonitorNmHandlers.AddAllLinks | src/network-monitor-nm.c:242-254 | the state AddLinks gives |
| NetworkMonitorNmHandlers.ConnectAll | src/network-monitor-nm.c:229-265 | the state ConnectReported gives |
| NetworkMonitorNmHandlers.ActiveConnectionsScanHandler | src/network-monitor-nm.c:153-274 | the state ActiveConnectionsScan gives |
| NetworkMonitorIcd2Steps.StateSigEffect | src/network-monitor-icd2.c:359-413 | a disconnected unknown network and an unchanged state change nothing; a connected unknown network becomes the first connection, with that state, no devices and nothing emitted; a known connection's change goes through connection_state_set; the address information is requested after each change |
| NetworkMonitorIcd2Steps.ConnectDeviceEffect | src/network-monitor-icd2.c:280-318 | the address's interface ends up with a connected first device, and interfaces that had one keep it |
| NetworkMonitorIcd2Steps.AddressStepEffect | src/network-monitor-icd2.c:280-325 | one address connects its device and, for a connection without devices, appends the interface to its links; no other connection changes |
| NetworkMonitorIcd2Steps.AddressLoopEffect | src/network-monitor-icd2.c:256-325 | after the loop every interface has a connected first device, and a new connection's links name the addresses' interfaces in order |
| NetworkMonitorIcd2Steps.PublishKeeps | src/network-monitor-icd2.c:327-328 | publishing with the recorded state keeps the connection, its links, its state and the connected devices |
| NetworkMonitorIcd2Steps.AddrinfoNewConnection | src/network-monitor-icd2.c:206-338 | for a connection without devices, its links name the interfaces in order, each interface's first device is connected, the state is kept and a default-route scan is pending |
| NetworkMonitorIcd2Steps.AddrinfoKnownConnection | src/network-monitor-icd2.c:206-338 | for a connection that has devices only the devices are marked connected |
| NetworkMonitorIcd2Steps.Scan | src/network-monitor-icd2.c:665-688 | on success the number of networks being scanned is the number ICD2 reports; on failure nothing changes |
| NetworkMonitorIcd2Steps.ScanSigCollects | src/network-monitor-icd2.c:545-597 | results are collected newest first per network type, never as an empty list, and nothing is emitted before that type completes |
| NetworkMonitorIcd2Steps.ScanSigCompletes | src/network-monitor-icd2.c:598-660 | completion emits the collected results, forgets them and counts one network down, requesting a cancel exactly when it was the last |
| NetworkMonitorIcd2Steps.CompletionsCancelOnce | src/network-monitor-icd2.c:598-660 | after m completions from k networks the count is max(k - m, 0), with one cancel request when it reached zero on the way and none otherwise |
| NetworkMonitorIcd2Steps.ScanCancelsOnceAllComplete | src/network-monitor-icd2.c:598-688 | a scan of N >= 1 networks requests exactly one cancel once all N completions have arrived |
| NetworkMonitorIcd2Steps.DefaultRouteIndex | src/network-monitor-icd2.c:84-154 | the walk stops at the first default route, passing over malformed lines and other routes |
| NetworkMonitorIcd2Steps.Owner | src/network-monitor-icd2.c:113-150 | the first connection with a link to the device, or None |
| NetworkMonitorIcd2Steps.FindOwnerExpected | src/network-monitor-icd2.c:113-150 | the walk's answer does not depend on the link resolutions it makes on the way |
| NetworkMonitorIcd2Steps.FindOwnerIsOwner | src/network-monitor-icd2.c:113-150 | the walk picks the first connection using the device, and makes it the default only if it is connected |
| NetworkMonitorIcd2Steps.FindOwnerKeeps | src/network-monitor-icd2.c:113-150 | the walk changes neither the defaults nor the events |
| NetworkMonitorIcd2Steps.DefaultConnectionScanEffect | src/network-monitor-icd2.c:78-167 | the first connected connection using the device of the first default route becomes the real default, the signal is scheduled if it changed, the scan is no longer pending, and connections change only by link resolution |
| NetworkMonitorIcd2Steps.IsDefaultIgnoresScan | src/network-monitor.c:1065-1078 | as written, the answer is the published default from before the call, whatever the scan finds |
| NetworkMonitorIcd2Steps.IsDefaultStaleExample | src/network-monitor.c:1065-1078 | a connected connection owning the default route's device, with nothing published yet, is reported as not the default |
| NetworkMonitorIcd2Steps.IsDefaultIntendedAnswer | src/network-monitor.c:1065-1078 | corrected, with a scan pending, the answer is whether the connection is the one the routes designate now |
| NetworkMonitorIcd2Handlers.StateSigHandler | src/network-monitor-icd2.c:359-413 | the state StateSig gives |
| NetworkMonitorIcd2Handlers.ConnectDeviceOf | src/network-monitor-icd2.c:280-318 | the state ConnectDevice gives |
| NetworkMonitorIcd2Handlers.AddrinfoSigHandler | src/network-monitor-icd2.c:206-338 | the state AddrinfoSig gives, address by address |
| NetworkMonitorIcd2Handlers.ScanSigHandler | src/network-monitor-icd2.c:495-662 | the state ScanSig gives |
| NetworkMonitorIcd2Handlers.ScanHandler | src/network-monitor-icd2.c:665-688 | the state Scan gives, counting the networks |
| NetworkMonitorIcd2Handlers.FirstDefaultRoute | src/network-monitor-icd2.c:84-154 | the index of the first default route, as DefaultRouteIndex says |
| NetworkMonitorIcd2Handlers.FindOwnerOf | src/network-monitor-icd2.c:113-150 | the state and answer FindOwner gives |
| NetworkMonitorIcd2Handlers.DefaultConnectionScanHandler | src/network-monitor-icd2.c:78-167 | the state DefaultConnectionScan gives |
| NetworkMonitorIcd2Handlers.IsDefaultHandler | src/network-monitor.c:1065-1078 | the state and answer the as-written IsDefault gives |
| LlNetworking.TokenEnd | src/ll-networking-linux.c:190-193 | the strcspn end of a token lies within the line and, if not at the end, on a blank or a NUL |
| LlNetworking.TokenHasNoSeparator | src/ll-networking-linux.c:190-193 | no character of a token is a blank or a NUL |
| LlNetworking.TokenEndsInside | src/ll-networking-linux.c:190-193 | in a NUL-terminated line every token ends before the end of the buffer |
| LlNetworking.SkipBlanks | src/ll-networking-linux.c:184-186 | strspn: the position moves over blanks only and stops at a non-blank |
| LlNetworking.SkipToken | src/ll-networking-linux.c:190-193 | strcspn: the position moves to the end of the token |
| LlNetworking.ScanStep | src/ll-networking-linux.c:168-194 | one turn of the loop keeps the scanning invariant: the new field starts at a non-blank after only blanks, and only the previous token's separator was nulled |
| LlNetworking.ScanDone | src/ll-networking-linux.c:195-201 | after the final store every field is a whole token terminated by a NUL, and only separators (blanks and the final newline) were overwritten |
| LlNetworking.SplitLine | src/ll-networking-linux.c:159-202 | at most fields_size fields; each starts at a non-blank, in order, with only blanks before and between; each is a whole token, unchanged and NUL-terminated; with fewer fields than allowed no token is left; only separators change |
| Debug.WellFormedLines | src/debug.c:183-227 | in a well-formed dump every line fits after the lines before it, and a skip report is followed by a printed chunk |
| Debug.CoveredIsLength | src/debug.c:196-206 | the printed chunk sizes and the reported skips add up to the length of the bytes the dump stands for |
| Debug.FlushExpands | src/debug.c:202-206 | writing out the pending skip report adds that many zero bytes to what the dump stands for |
| Debug.SkipKeepsWellFormed | src/debug.c:202-206 | a positive skip report after a chunk keeps the dump well formed |
| Debug.ChunkKeepsWellFormed | src/debug.c:208-226 | a chunk that is not all zeros, at the offset the dump has reached, keeps the dump well formed |
| Debug.ChunkLength | src/debug.c:185 | a chunk is sixteen bytes, or what is left of the input, and never empty while input remains |
| Debug.ChunkCount | src/debug.c:183 | the chunks reach exactly the end of the input |
| Debug.ScanAccounts | src/debug.c:183-227 | after any number of chunks, the dump so far and the pending skip stand for exactly the bytes scanned, and the dump is well formed |
| Debug.ZeroStep | src/debug.c:196-200 | an all-zero chunk only grows the pending skip |
| Debug.ChunkStep | src/debug.c:202-226 | a chunk with a non-zero byte is printed after the pending skip report, which is reset |
| Debug.DumpIsFaithful | src/debug.c:175-230 | the dump stands for the whole input, byte for byte, and is well formed |
| Debug.ChunkIsZero | src/debug.c:187-194 | the answer is true exactly when every byte of the chunk is zero |
| Debug.BlobDump | src/debug.c:175-230 | the lines printed are the dump: they stand for the whole buffer, skipped zeros included, and are well formed |
| Debug.Hex2 | src/debug.c:214 | "%02x" gives two lowercase hex digits |
| Debug.HexPart | src/debug.c:208-215 | the hex part of a chunk has two digits per byte and a space before every fourth byte |
| Debug.CharPart | src/debug.c:219-225 | the character part has one character per byte and a space before every fourth byte |
| Debug.HexPartReadsBack | src/debug.c:208-215 | the two digits at byte i's place in the hex part read back as byte i |
| Debug.Hex2ReadsBack | src/debug.c:214 | the two digits of "%02x" read back as the byte |
| Debug.CharPartShows | src/debug.c:219-225 | byte i's place in the character part shows the byte when isprint holds and '.' otherwise |
| Debug.Decimal | src/debug.c:209 | "%d" of an offset is a non-empty string of digits |
| Debug.DecimalReadsBack | src/debug.c:209 | the printed offset reads back as the offset |
| Debug.ChunkLineOffset | src/debug.c:209 | a printed chunk's line starts with two spaces and the offset, which reads back as the chunk's place in the input, then a colon |
| Uploader.FindDb | src/smart-storage-logger-uploader.c:124-125 | the db found has the filename; with none found, no db has it |
| Uploader.FindTable | src/smart-storage-logger-uploader.c:129-130 | the table found has the name; with none found, no table of the db has it |
| Uploader.RegisterKeepsUnique | src/smart-storage-logger-uploader.c:108-201 | registering keeps one node per filename and per (filename, table); afterwards the pair is registered with its flag, every pair registered before still is, and no other pair appears |
| Uploader.RegisterNewDb | src/smart-storage-logger-uploader.c:150-161 | an unknown filename gets a new db, prepended, holding only the table |
| Uploader.RegisterNewTable | src/smart-storage-logger-uploader.c:138-147 | a new table of a known db is prepended to that db's tables |
| Uploader.RegisterAgain | src/smart-storage-logger-uploader.c:129-136 | a pair registered again keeps its node and its flag; only its through value is updated from the status row |
| Uploader.ReregisterAddsNothing | src/smart-storage-logger-uploader.c:129-136 | registering a registered pair adds no db and no table |
| Uploader.Registry.TableRegister | src/smart-storage-logger-uploader.c:108-201 | the registry afterwards is Register of the old one, with a row's through value read back from upload.db, and stays unique |
| Uploader.Registry.UploadFinished | src/smart-storage-logger-uploader.c:542-578 | when the reply holds "\nDanke\n" every table's through becomes its stake; otherwise nothing changes |
| Uploader.ContainsLoop | src/smart-storage-logger-uploader.c:542 | strstr finds the reply marker exactly when it occurs in the output |
| Uploader.StakeTables | src/smart-storage-logger-uploader.c:575-577 | each table of a db gets through := stake, in place and in order |
| Uploader.StakeKeepsUnique | src/smart-storage-logger-uploader.c:571-578 | after the move through equals stake in every table, and the registry is still unique |
| Uploader.SanitizeStrings | src/smart-storage-logger-uploader.c:203-222 | the result is s1, or s1 "_" s2, with every character that is not a letter or a digit replaced by '_' |
| Uploader.SanitizedIsIdentifier | src/smart-storage-logger-uploader.c:203-222 | the result holds only letters, digits and '_', with the '_' separator after s1 |
| Uploader.C2i | src/smart-storage-logger-uploader.c:306-315 | the value of a hex digit of either case is below 16 |
| Uploader.UpperCaseDigitMisread | src/smart-storage-logger-uploader.c:312-313 | as written 'A' reads as -22 instead of 10; every character outside A-F reads the same as written and corrected |
| Uploader.I2c | src/smart-storage-logger-uploader.c:344-351 | a nibble becomes a lower-case hex digit |
| Uploader.Pack | src/smart-storage-logger-uploader.c:317-319 | byte i of inplode's output is digit 2i as the low nibble and digit 2i+1 as the high one |
| Uploader.Unpack | src/smart-storage-logger-uploader.c:353-357 | explode gives 32 lower-case hex digits |
| Uploader.UnpackAt | src/smart-storage-logger-uploader.c:355-356 | byte i's low nibble is at 2i, its high nibble at 2i+1 |
| Uploader.DigitRoundTrip | src/smart-storage-logger-uploader.c:306-351 | i2c undoes c2i on a lower-case hex digit |
| Uploader.NibbleRoundTrip | src/smart-storage-logger-uploader.c:306-351 | c2i undoes i2c on a nibble |
| Uploader.ByteRoundTrip | src/smart-storage-logger-uploader.c:317-356 | two digits packed into a byte unpack as the same two digits |
| Uploader.UnpackPack | src/smart-storage-logger-uploader.c:304-362 | explode undoes inplode on 32 lower-case hex digits |
| Uploader.PackUnpack | src/smart-storage-logger-uploader.c:304-362 | inplode undoes explode on any 16 bytes |
| Uploader.InplodeInPlace | src/smart-storage-logger-uploader.c:304-321 | packing in place over the digits gives Pack of the original digits in the first 16 slots and leaves the rest of the buffer alone |
| Uploader.Explode | src/smart-storage-logger-uploader.c:342-358 | the 32 characters written are Unpack of the 16 bytes |
| Uploader.InPlaceRoundTrip | src/smart-storage-logger-uploader.c:321-362 | the uuid's digits, packed in place and exploded again, come back unchanged when nothing is mixed in |
| Uploader.UploadSchedule | src/smart-storage-logger-uploader.c:770-834 | an upload starts exactly when not uploading, connected and idle long enough and the last upload and try are old enough; nothing happens while uploading, disconnected or active; otherwise the timer is armed for the largest residual wait, at least a second, rounded up to seconds |
| Uploader.RearmWaitsLongEnough | src/smart-storage-logger-uploader.c:812-831 | the rearmed timer waits at least as long as each condition still needs |
| MurmeltierRegister.PropertyLists | src/murmeltier.c:1007-1011 | each kind's lists name no property twice; HumanReadableName is the one required property and is acceptable; Cookie is acceptable for every kind; Versions is acceptable for objects only |
| MurmeltierRegister.Initial | src/murmeltier.c:202-215 | no required property is marked seen before the scan |
| MurmeltierRegister.FirstIndex | src/murmeltier.c:225-239 | the loop with break finds the first occurrence of the key, and finds none exactly when the key is not listed |
| MurmeltierRegister.ScanProperties | src/murmeltier.c:219-290 | the variables after visiting every entry are those of ScanAll over the entries in visiting order |
| MurmeltierRegister.StepFields | src/murmeltier.c:219-289 | one call of iter: an unknown key is recorded; a key is checked only while no unknown or refused key was seen; Versions must be a(stub) and given once; other values must be strings or uint32s and are added to the insert; a string Cookie is taken once when uniqueness is asked for; a required key is marked seen |
| MurmeltierRegister.ScanUnknown | src/murmeltier.c:225-233 | an unknown key is reported exactly when some key is not acceptable, and it is the last such key visited |
| MurmeltierRegister.ScanHave | src/murmeltier.c:235-239 | a required property is marked seen exactly when its name is a key of the table |
| MurmeltierRegister.ScanVersionsSeen | src/murmeltier.c:244-266 | Versions rows are kept only after a Versions key was visited |
| MurmeltierRegister.ScanBad | src/murmeltier.c:242-283 | with no unknown key, a refused key is reported exactly when some value has an unsupported type, and it is the first such key |
| MurmeltierRegister.ScanStored | src/murmeltier.c:268-283 | with no unknown or refused key, the insert gets exactly the entries other than Versions, in visiting order, and the Versions rows are kept exactly when Versions is a key |
| MurmeltierRegister.ScanCookie | src/murmeltier.c:286-288 | the cookie is taken exactly when uniqueness is asked for, Cookie is acceptable and some Cookie key holds a string, and it is that string |
| MurmeltierRegister.Missing | src/murmeltier.c:306-316 | the list of missing required properties is empty exactly when every one was seen |
| MurmeltierRegister.WithCookie | src/murmeltier.c:337-354 | the uuid list of rows holding the cookie is empty exactly when no row holds it |
| MurmeltierRegister.ScanErrors | src/murmeltier.c:219-316 | the scan reports an unknown key exactly when there is one; with none, a refused value exactly when there is one; and nothing missing exactly when HumanReadableName is given |
| MurmeltierRegister.DecideInvalid | src/murmeltier.c:292-325 | INVALID_ARGS is returned exactly when a key is unknown, a value has an unsupported type or HumanReadableName is missing |
| MurmeltierRegister.DecideUnknownFirst | src/murmeltier.c:292-298 | an unknown key is reported first, with "Unknown property: " and an unknown key of the table |
| MurmeltierRegister.DecideBadSecond | src/murmeltier.c:299-305 | with no unknown key, the first refused value is reported next, with "Argument has unsupported type: " |
| MurmeltierRegister.DecideMissingThird | src/murmeltier.c:306-325 | then a missing HumanReadableName is reported as "Missing required properties: HumanReadableName" |
| MurmeltierRegister.DecisionInsert | src/murmeltier.c:292-376 | a registration reaches the insert only with no unknown or refused key, nothing missing and, with uniqueness asked for, a cookie no row holds; it inserts the stored entries and Versions rows |
| MurmeltierRegister.DecideInsertValid | src/murmeltier.c:292-325 | a registration that reaches the insert has HumanReadableName and only acceptable keys with supported values |
| MurmeltierRegister.DecideInsert | src/murmeltier.c:268-283 | it inserts exactly the entries other than Versions, and the Versions rows exactly when Versions is given |
| MurmeltierRegister.DecideInsertUnique | src/murmeltier.c:327-376 | with uniqueness asked for, a registration that reaches the insert has a string Cookie that no row of the table holds |
| MurmeltierRegister.DecideCookie | src/murmeltier.c:327-376 | with uniqueness asked for and otherwise valid arguments, the registration is refused, with OBJECT_EXISTS, exactly when there is no string Cookie or a row already holds it |
| MurmeltierList.Copied | src/murmeltier.c:533-536 | a column becomes NULL exactly when it is NULL or an empty parent_uuid; otherwise it is copied |
| MurmeltierList.RowOf | src/murmeltier.c:530-539 | the tuple has one field per column: an empty parent_uuid becomes NULL, every other value is copied |
| MurmeltierList.ListCallback | src/murmeltier.c:521-544 | exactly one tuple, RowOf of the columns, is appended to the list |
| MurmeltierList.ManagerRowIsCallbackRow | src/murmeltier.c:851-854 | the tuple of a manager row is uuid, Cookie, HumanReadableName, and a parent_uuid that is NULL for a top-level manager |
| MurmeltierList.Selected | src/murmeltier.c:861-865 | a query selects only rows of the table |
| MurmeltierList.SelectedMatches | src/murmeltier.c:861-865 | a query selects, in table order, exactly the rows with the given parent (all rows with no condition) |
| MurmeltierList.Rows | src/murmeltier.c:521-544 | the selected rows become their manager tuples, in order |
| MurmeltierList.Select | src/murmeltier.c:851-854 | one query appends the tuples of the selected rows, in table order, to the list |
| MurmeltierList.DescendantAfter | src/murmeltier.c:855-878 | with parents before children, a descendant comes after the manager it descends from |
| MurmeltierList.ChildDescends | src/murmeltier.c:855-878 | a child of a descendant is a descendant |
| MurmeltierList.ClosedHoldsDescendants | src/murmeltier.c:855-878 | a list that holds the manager's children and is closed under children holds every descendant |
| MurmeltierList.NextFresh | src/murmeltier.c:871-876 | the parent of the next query has not been queried before |
| MurmeltierList.WalkStep | src/murmeltier.c:859-877 | one query and one step along the list keep the walk invariant: distinct descendants, their tuples, exactly the children of the parents queried |
| MurmeltierList.WalkDone | src/murmeltier.c:871-872 | when the list is used up, the rows found are exactly the descendants |
| MurmeltierList.WalkListing | src/murmeltier.c:855-878 | a finished walk's list holds every descendant's tuple once and nothing else |
| MurmeltierList.Walker | src/murmeltier.c:858-877 | the loop ends with the list used up and the walk invariant kept |
| MurmeltierList.WalkOnce | src/murmeltier.c:861-876 | one pass appends the children of the current parent; the next tuple, when there is one, names the next parent, and fewer rows remain to be taken |
| MurmeltierList.ListDescendants | src/murmeltier.c:855-878 | the result lists every descendant of the manager exactly once, and nothing else |
| MurmeltierList.ListManagers | src/murmeltier.c:839-889 | recursive without a manager: every row in table order; not recursive: the immediate children of the manager, or the top-level managers for none; recursive with a manager: every descendant exactly once and nothing else |
| MurmeltierList.SelectAllInOrder | src/murmeltier.c:849-854 | listing everything selects every row once, in table order |
| MurmeltierObjects.Hits | src/murmeltier.c:614-622 | a probe query returns no more rows than the table has, and none exactly when no row matches |
| MurmeltierObjects.CallbackAsWritten | src/murmeltier.c:586-595 | as written the callback never aborts and always decrements the counter |
| MurmeltierObjects.Callback | src/murmeltier.c:586-595 | corrected, the callback aborts exactly when the counter is used up, and otherwise decrements it |
| MurmeltierObjects.ExecAsWritten | src/murmeltier.c:632-635 | as written, every row decrements the counter and the probe never aborts |
| MurmeltierObjects.ExecCorrected | src/murmeltier.c:628-635 | corrected, the probe aborts exactly when more rows come back than the counter allows, and otherwise the counter drops by the number of rows |
| MurmeltierObjects.Keep | src/murmeltier.c:677-689 | a delete statement keeps exactly the rows that do not match, in order, and removes as many as match |
| MurmeltierObjects.DeleteFrom | src/murmeltier.c:677-679 | one delete statement changes only its own table, keeps its non-matching rows and counts the rows removed |
| MurmeltierObjects.DeleteFromAll | src/murmeltier.c:681-689 | a run of delete statements changes no table outside the run, and the count never drops |
| MurmeltierObjects.Delete | src/murmeltier.c:673-693 | the deletion statement changes only the object's table, its secondary tables and the child tables |
| MurmeltierObjects.DeleteFromAllRows | src/murmeltier.c:681-689 | a run of deletions leaves only rows that were there, none that match a statement on that table, and every row that matches none |
| MurmeltierObjects.DeleteRows | src/murmeltier.c:673-693 | afterwards no named table holds a row of the uuid and no child table a row whose parent it is; every other row is still there, and nothing new |
| MurmeltierObjects.KeepAll | src/murmeltier.c:677-679 | a statement that matches nothing keeps the table as it was |
| MurmeltierObjects.DeleteFromAllNone | src/murmeltier.c:709-715 | nothing removed means nothing changed |
| MurmeltierObjects.DeleteNone | src/murmeltier.c:709-715 | a deletion that removes no row leaves the database as it was |
| MurmeltierObjects.UnregisterAsWritten | src/murmeltier.c:597-718 | as written, with descendants to be kept, no probe row gives NO_SUCH_OBJECT and any number of rows deletes |
| MurmeltierObjects.Unregister | src/murmeltier.c:597-776 | with descendants to be kept: no probe row gives NO_SUCH_OBJECT, exactly one row deletes, two or more refuse with "<uuid> has descendents, not removing." and leave the database alone; success always leaves the deletion statement's result |
| MurmeltierObjects.UnregisterUnconditional | src/murmeltier.c:719-776 | without that check, managers give NOT_IMPLEMENTED untouched; other tables succeed exactly when some row was removed, and otherwise report "Object '<uuid>' does not exist" with the database unchanged |
| MurmeltierObjects.ManagerUnregister | src/murmeltier.c:829-837 | removing a manager without keeping descendants is NOT_IMPLEMENTED and changes nothing |
| MurmeltierObjects.ManagerWithStreamKept | src/murmeltier.c:829-837 | a manager with a registered child stream is refused when descendants are to be kept |
| MurmeltierObjects.DescendantsRemovedAsWritten | src/murmeltier.c:586-595 | as written, a manager with one child stream is deleted together with the stream's row; corrected, it is refused |
| MurmeltierObjects.SignedDecimal | src/murmeltier.c:1394 | printf's %d gives a non-empty text |
| MurmeltierObjects.SignedDecimalReadsBack | src/murmeltier.c:1394 | %d of any int reads back as that int |
| MurmeltierObjects.FilesDeleted | src/murmeltier.c:1335-1424 | NO_SUCH_OBJECT exactly when the object has no row; otherwise an assignment exactly when Update is Deleted, Refused or Compressed, and INVALID_ARGS for any other value |
| MurmeltierObjects.FilesDeletedAssignment | src/murmeltier.c:1378-1390 | Deleted sets the deleted flag; Compressed sets the compressed size to Arg's bits; Refused sets the preservation limit to now + Arg, modulo 2^64, and exactly that sum when it fits in int64_t |
| MurmeltierObjects.BadUpdateMessage | src/murmeltier.c:1392-1396 | the message for a bad Update starts with "Bad value for Update argument: " and the number read back, modulo 2^32, is the Update argument |
| WoodchuckClient.ExceptionOf | src/woodchuck.py:83-99 | an error name outside org.woodchuck. is raised again unchanged; the five known names raise their class with the message; NoSuchObject is never raised |
| WoodchuckClient.ServerErrorsSurface | src/woodchuck.py:83-99 | every error code the server names, except NO_SUCH_OBJECT, arrives as its own class with the server's message; NO_SUCH_OBJECT passes through as the D-Bus exception; any other code arrives as UnknownError carrying name and message |
| WoodchuckClient.FilesDeletedArgs | src/woodchuck.py:263-276 | no update or Deleted sends Deleted with 0; Refused without arg sends now + 300; Compressed without arg sends 2^64 - 1; a given arg is passed on; an unknown update without arg is sent without one |
| WoodchuckClient.FilesDeletedDefaultsServed | src/woodchuck.py:263-271 | with the defaults, the server marks the files deleted, or preserves the object until its own clock plus the client's absolute time plus 300 |
| WoodchuckClient.LastSubscribe | src/woodchuck.py:528-543 | the call that granted the handle in use is a FeedbackSubscribe |
| WoodchuckClient.SubscribeStep | src/woodchuck.py:496-546 | feedback_subscribe returns 1 for a descendant subscription and 0 for a plain one |
| WoodchuckClient.UnsubscribeAsWritten | src/woodchuck.py:548-575 | as written, a release that is neither the last one nor the last descendant one beside plain ones changes nothing |
| WoodchuckClient.ActiveAppend | src/woodchuck.py:528-571 | the subscriptions the server holds add up over a sequence of calls |
| WoodchuckClient.ActivePair | src/woodchuck.py:566-569 | subscribing anew and cancelling the old handle leaves the number of server subscriptions as it was |
| WoodchuckClient.SubscribeKeepsValid | src/woodchuck.py:496-546 | subscribing keeps the reference-count invariant (a handle is held exactly while references are counted, it is the one the last FeedbackSubscribe granted, the server holds exactly that one, and it covers descendants when a descendant reference is counted), adds one to the counter returned, and covers descendants when asked |
| WoodchuckClient.UnsubscribeKeepsValid | src/woodchuck.py:548-575 | the documented release keeps the invariant, takes one from the counter handed back, and drops the handle exactly when the last reference goes |
| WoodchuckClient.UnsubscribeAsWrittenCounts | src/woodchuck.py:548-575 | the as-written release keeps the invariant but gives back a reference exactly in the two cases it handles |
| WoodchuckClient.SubscriptionLeaksAsWritten | src/woodchuck.py:548-575 | two plain subscriptions and two releases leave the subscription in place as written; the documented release cancels it |
| WoodchuckClient.Manager.constructor | src/woodchuck.py:414-415 | a new manager holds no subscription and no handle |
| WoodchuckClient.Manager.FeedbackSubscribe | src/woodchuck.py:496-546 | the new state and index are SubscribeStep's, the invariant holds, and one reference more is counted |
| WoodchuckClient.Manager.FeedbackUnsubscribe | src/woodchuck.py:548-575 | the new state is the documented Unsubscribe's and the counter handed back drops by one |
| VcsSync.FirstSpace | clients/vcssync.py:150 | the index is the first space in the string |
| VcsSync.SplitN | clients/vcssync.py:150 | str.split(" ", n) gives 1 to n + 1 parts, exactly one when n is 0 or there is no space |
| VcsSync.IdToRemote | clients/vcssync.py:145-151 | an id without a space is refused (the unpacking fails); an id that reads back has an unknown freshness |
| VcsSync.RemoteIdRoundTrip | clients/vcssync.py:129-151 | id_to_remote(remote_to_id(r)) gives r back, less its freshness, for every remote without spaces in sync, directory and remote |
| VcsSync.CommandLine | clients/vcssync.py:249-274 | the command runs /usr/bin/env git or hg, and passes on the remote and the refs when they are set |
| VcsSync.TransferredAsWritten | clients/vcssync.py:229-278 | as written, an unsupported repository below the limit leaves the transfer state unchanged, the failure flag included |
| VcsSync.Transferred | clients/vcssync.py:229-296 | at the limit the remote is queued; below it an unsupported repository sets the failure flag; a supported one starts running with its command line |
| VcsSync.Unfinished | clients/vcssync.py:305-341 | no more transferers stay running than were running |
| VcsSync.SweepFacts | clients/vcssync.py:305-341 | the transferers that stay are among the running ones, and a failure is seen exactly when some process exited with a non-zero status |
| VcsSync.Polled | clients/vcssync.py:299-386 | the timer stays armed exactly when transfers are still running or queued |
| VcsSync.TransferBounded | clients/vcssync.py:235-239 | no transfer, as written or with the flag fixed, takes the number of running transfers past the limit |
| VcsSync.PollBounded | clients/vcssync.py:299-346 | polling stays within the limit, only starts the head of the queue, keeps a failure flagged, and flags every non-zero exit status |
| VcsSync.UnsupportedUnflaggedAsWritten | clients/vcssync.py:275-279 | a remote in a directory with no supported repository is not recorded as failed as written, and is recorded with the flag declared global |
| VcsSync.Daemon.constructor | clients/vcssync.py:220-224 | the daemon starts with nothing running, queued or failed |
| VcsSync.Daemon.Transfer | clients/vcssync.py:229-296 | the new state is Transferred's |
| VcsSync.Daemon.Poll | clients/vcssync.py:299-386 | the new state and the timer flag are Polled's |
| VcsSync.Daemon.Sweep | clients/vcssync.py:305-350 | the loop keeps the unfinished transferers running, records the failed ones and sets the failure flag: the new state is Swept's |
| VcsSync.Lead | clients/vcssync.py:509 | the index of the first character str.strip() keeps |
| VcsSync.Trail | clients/vcssync.py:509 | one past the last character str.strip() keeps |
| VcsSync.Strip | clients/vcssync.py:509 | the stripped text neither starts nor ends with whitespace |
| VcsSync.ConfigLine | clients/vcssync.py:506-517 | each line of the file gives exactly one newline-terminated line of the text parsed |
| VcsSync.ConfigTextKeepsLines | clients/vcssync.py:511-513 | the parsed text has as many lines as the file, so the parser's line numbers are the file's |
| VcsSync.ConfigLineKeepsLine | clients/vcssync.py:506-517 | one line of the file gives exactly one line of the text |
| VcsSync.RemoteOf | clients/vcssync.py:535-549 | sync defaults to pull and freshness to the default; the directory, remote and refs are the stanza's |
| VcsSync.StanzaRemotes | clients/vcssync.py:533-549 | each stanza of a repository gives one remote, in order |
| VcsSync.LoadConfig | clients/vcssync.py:532-563 | loading fails exactly when some stanza is not a dictionary; a successful load holds at least one remote |
| VcsSync.RemotesOfStanzas | clients/vcssync.py:533-549 | every stanza's remote, with the defaults filled in, is among the remotes loaded |
| AptWoodchuck.HexDigit | clients/apt-woodchuck.py:393 | "%02x" writes a lower-case hexadecimal digit, never '%' |
| AptWoodchuck.HexValue | clients/apt-woodchuck.py:393 | a hexadecimal digit reads back as a value below 16 |
| AptWoodchuck.Escape | clients/apt-woodchuck.py:387-402 | the loop's result is the joined pieces, and the input itself when no character needed escaping |
| AptWoodchuck.EscapeStep | clients/apt-woodchuck.py:391-398 | one more character of the loop appends its piece to the pieces of the prefix, and have_one becomes true exactly when that character needs escaping |
| AptWoodchuck.PiecesUnescaped | clients/apt-woodchuck.py:398-402 | with nothing to escape the pieces spell the input, so both returns of escape agree |
| AptWoodchuck.EscapedIsPieces | clients/apt-woodchuck.py:387-402 | escape always returns the joined pieces |
| AptWoodchuck.PiecesPercent | clients/apt-woodchuck.py:389-396 | every '%' in escaped text starts a three-character escape |
| AptWoodchuck.UnescapePieces | clients/apt-woodchuck.py:387-402 | unescaping what escape produced gives back the input |
| AptWoodchuck.UnescapePiecesLast | clients/apt-woodchuck.py:389-396 | once the text without its last character round-trips, the whole text does: the last character escaped unescapes to itself |
| AptWoodchuck.UnescapeStep | clients/apt-woodchuck.py:389-396 | unescaping one more piece gives the piece's character |
| AptWoodchuck.UnescapeLastEscape | clients/apt-woodchuck.py:393 | a trailing "%xy" unescapes to the byte 0xxy |
| AptWoodchuck.UnescapeLastPlain | clients/apt-woodchuck.py:395 | a trailing plain character not inside an escape unescapes to itself |
| AptWoodchuck.EscapeInjective | clients/apt-woodchuck.py:387-402 | escape is injective: distinct names give distinct file names |
| AptWoodchuck.PiecesAvoid | clients/apt-woodchuck.py:390-393 | escaped pieces hold no character escape replaces other than '%' and the digits |
| AptWoodchuck.EscapedAvoids | clients/apt-woodchuck.py:387-402 | the escaped text holds none of the replaced characters except '%' and hexadecimal digits |
| AptWoodchuck.PathJoin | clients/apt-woodchuck.py:428 | os.path.join: an absolute second component replaces the first |
| AptWoodchuck.CacheFilename | clients/apt-woodchuck.py:379-428 | the file is the cache directory, a slash, and the escaped name, version and architecture joined by '_' with ".deb" appended, unless the name itself starts with a slash |
| AptWoodchuck.PiecesFirst | clients/apt-woodchuck.py:389-396 | the escaped text starts with the first character's piece |
| AptWoodchuck.Split | clients/apt-woodchuck.py:414-417 | splitting gives at least one part |
| AptWoodchuck.SplitNone | clients/apt-woodchuck.py:414-417 | text without the separator splits into itself |
| AptWoodchuck.SplitSnoc | clients/apt-woodchuck.py:414-417 | one more character either starts a new part or extends the last |
| AptWoodchuck.SplitJoin | clients/apt-woodchuck.py:414-417 | text joined at a separator splits into the parts of both sides |
| AptWoodchuck.SplitThree | clients/apt-woodchuck.py:414-417 | three separator-free fields joined by the separator split back into those fields |
| AptWoodchuck.CacheBaseSplit | clients/apt-woodchuck.py:414-417 | the base name splits at '_' into the three escaped fields |
| AptWoodchuck.CacheFilenameFields | clients/apt-woodchuck.py:379-428 | the base name splits at '_' into exactly three fields, the last ending in ".deb" with no other '.', each unescaping to the name, version and architecture asked for |
| AptWoodchuck.Enqueued | clients/apt-woodchuck.py:174-185 | a job whose key is queued or running is ignored; any other is appended to the queue; the running job is untouched |
| AptWoodchuck.Scheduled | clients/apt-woodchuck.py:212-228 | with a job running or an empty queue nothing changes; otherwise the head of the queue starts running |
| AptWoodchuck.Finished | clients/apt-woodchuck.py:203-209 | a finished job stops running and the scheduler runs again |
| AptWoodchuck.ScheduledPending | clients/apt-woodchuck.py:212-228 | scheduling keeps every pending key |
| AptWoodchuck.EnqueueKeepsValid | clients/apt-woodchuck.py:151-187 | creating a job keeps every key pending at most once and nothing waiting while no job runs; the key is pending afterwards, and it is added exactly when it was not pending |
| AptWoodchuck.DistinctInsert | clients/apt-woodchuck.py:174-185 | a key not yet pending can join the pending keys without repeating one |
| AptWoodchuck.DistinctRotate | clients/apt-woodchuck.py:222-226 | moving the head of the queue to the running place keeps the keys distinct |
| AptWoodchuck.FinishKeepsValid | clients/apt-woodchuck.py:189-228 | a finished job makes room for the oldest waiting job, or leaves nothing running when none waits |
| AptWoodchuck.JobQueue.constructor | clients/apt-woodchuck.py:143-146 | no job runs and none is queued at first |
| AptWoodchuck.JobQueue.Enqueue | clients/apt-woodchuck.py:174-187 | the job is queued exactly when its key was not pending, and the new state is Enqueued's followed by the scheduler |
| AptWoodchuck.JobQueue.Scheduler | clients/apt-woodchuck.py:212-228 | the new state is Scheduled's |
| AptWoodchuck.JobQueue.Finish | clients/apt-woodchuck.py:203-209 | the new state is Finished's |
| WoodchuckCli.Drop | clients/woodchuck-cli.py:358 | s[k:] is empty once k passes the end, else k characters shorter |
| WoodchuckCli.Commands | clients/woodchuck-cli.py:351-362 | the loop collects the class's cmd_ attribute names with the prefix removed, in the dictionary's order |
| WoodchuckCli.CommandsOfIff | clients/woodchuck-cli.py:356-361 | a name is a command exactly when the class has an attribute cmd_ followed by that name |
| WoodchuckCli.Matches | clients/woodchuck-cli.py:365-369 | no more commands match than there are |
| WoodchuckCli.MatchesIff | clients/woodchuck-cli.py:365-369 | a command matches exactly when its name starts with the word typed |
| WoodchuckCli.DropEach | clients/woodchuck-cli.py:376 | dropping a prefix from every match keeps one word per match |
| WoodchuckCli.Process | clients/woodchuck-cli.py:364-380 | the loop's outcome is Dispatched's: no match is an unknown command, several are ambiguous, exactly one runs |
| WoodchuckCli.DispatchedIff | clients/woodchuck-cli.py:364-380 | a command runs exactly when it is the only one the word abbreviates, it is then one of the commands, and the word is unknown exactly when it abbreviates none |
| WoodchuckCli.ShellNamesDispatch | clients/woodchuck-cli.py:154-322 | each of the shell's seven command names runs its own command; "d" and "s" are ambiguous |
| WoodchuckCli.ShellNamesDistinct | clients/woodchuck-cli.py:154-322 | no command name of the shell starts with another |
| WoodchuckCli.MatchesOne | clients/woodchuck-cli.py:365-369 | a word that only one name starts with matches exactly that name |
| WoodchuckCli.MatchesNone | clients/woodchuck-cli.py:365-369 | a word that no name starts with matches nothing |
| WoodchuckCli.TwoMatches | clients/woodchuck-cli.py:374-377 | two different names the word abbreviates make it ambiguous |
| WoodchuckCli.AmbiguousNamesLostAsWritten | clients/woodchuck-cli.py:375-376 | as written, the message for "d" lists a single space instead of "down del" |
| WoodchuckCli.ParseInt | clients/woodchuck-cli.py:169 | int() accepts exactly a non-empty run of digits with an optional sign |
| WoodchuckCli.ParseDecimal | clients/woodchuck-cli.py:169 | int() reads back a decimal numeral, with or without a minus sign |
| WoodchuckCli.Objects | clients/woodchuck-cli.py:100-106 | before the first push there are no objects |
| WoodchuckCli.ObjectGet | clients/woodchuck-cli.py:126-133 | an index inside the current frame gives its object, any other index None |
| WoodchuckCli.Cleared | clients/woodchuck-cli.py:135-140 | object_clear keeps the index and the parents |
| WoodchuckCli.ClearThenGet | clients/woodchuck-cli.py:126-140 | after object_clear the object is gone and no other one changed |
| WoodchuckCli.UpAsWritten | clients/woodchuck-cli.py:154-178 | a refused up changes nothing |
| WoodchuckCli.Up | clients/woodchuck-cli.py:154-178 | up reports what the code as written reports |
| WoodchuckCli.Down | clients/woodchuck-cli.py:180-204 | down reports what the code as written reports |
| WoodchuckCli.UpMoves | clients/woodchuck-cli.py:154-178 | up refuses exactly on too many arguments, at the bottom, or on a non-integer; with no argument it moves one frame; it keeps the stack valid and agrees with the code as written for a non-negative count |
| WoodchuckCli.DownMoves | clients/woodchuck-cli.py:180-204 | down refuses exactly on too many arguments, at the top, or on a non-integer; with no argument it moves one frame; it keeps the stack valid and agrees with the code as written for a non-negative count |
| WoodchuckCli.NegativeDeltaLeavesStackAsWritten | clients/woodchuck-cli.py:176-203 | as written, "up -2" from the top of a two-frame stack sets the index to 3 and "down -3" from the bottom sets it to -3; the corrected moves stay on the stack |
| WoodchuckCli.SliceAssign | clients/woodchuck-cli.py:121-122 | assigning to l[i:-1] with i past the end appends |
| WoodchuckCli.PushedAsWritten | clients/woodchuck-cli.py:108-123 | as written, a push moves the index one frame up |
| WoodchuckCli.Pushed | clients/woodchuck-cli.py:108-123 | a push keeps the frames up to the current one, puts the new objects in the frame above it, which becomes current, and records the parent |
| WoodchuckCli.PushAtTop | clients/woodchuck-cli.py:108-123 | pushing from the top frame, the code as written does what its comment says |
| WoodchuckCli.PushKeepsStaleFrameAsWritten | clients/woodchuck-cli.py:121-122 | after moving up, a push as written keeps the old top frame above the new one; the documented push drops it |
| WoodchuckCli.ObjectStack.constructor | clients/woodchuck-cli.py:53-55 | the stack starts empty with index -1 |
| WoodchuckCli.ObjectStack.Push | clients/woodchuck-cli.py:108-123 | the new state is Pushed's |
| WoodchuckCli.ObjectStack.CmdUp | clients/woodchuck-cli.py:154-178 | the new state and the outcome are Up's |
| WoodchuckCli.ObjectStack.CmdDown | clients/woodchuck-cli.py:180-204 | the new state and the outcome are Down's |
| WoodchuckCli.ObjectStack.Clear | clients/woodchuck-cli.py:135-140 | the new state is Cleared's |
| WoodchuckCli.FirstNonSpace | clients/woodchuck-cli.py:338-341 | the index found is that of a character that is not a space with only spaces before it; None means the line is all spaces |
| WoodchuckCli.FirstNonSpaceIs | clients/woodchuck-cli.py:338-341 | a non-space with only spaces before it is the character the inner loop stops at |
| WoodchuckCli.FirstNonSpaceNone | clients/woodchuck-cli.py:338-341 | on a line of spaces the inner loop finds nothing |
| WoodchuckCli.Indentation | clients/woodchuck-cli.py:338-341 | the inner loop stops at the first character that is not a space, or runs off the end of a line of spaces |
| WoodchuckCli.LeastIndentation | clients/woodchuck-cli.py:336-341 | the first loop of help computes the least indentation of the lines holding text, starting from 1000 |
| WoodchuckCli.MinLead | clients/woodchuck-cli.py:336-341 | the least indentation never exceeds 1000 |
| WoodchuckCli.Dedented | clients/woodchuck-cli.py:343-345 | help keeps one line per doc line |
| WoodchuckCli.Dedent | clients/woodchuck-cli.py:336-345 | the two loops of help, rewriting the lines after the first in place, give Dedented's lines |
| WoodchuckCli.DedentedAt | clients/woodchuck-cli.py:343-345 | each line after the first is cut at the least indentation of the lines after the first |
| WoodchuckCli.DropAllAt | clients/woodchuck-cli.py:344-345 | the second loop cuts each line at the same place |
| WoodchuckCli.MinLeadAt | clients/woodchuck-cli.py:336-341 | the least indentation is at most that of each later line holding text |
| WoodchuckCli.DropKeepsText | clients/woodchuck-cli.py:345 | cutting a line at most at its first non-space keeps the rest of the line and moves the first non-space left by the cut |
| WoodchuckCli.MinLeadBound | clients/woodchuck-cli.py:336-341 | the least indentation is at most that of each line holding text |
| WoodchuckCli.MinLeadMet | clients/woodchuck-cli.py:336-341 | below 1000, some line has exactly the least indentation |
| WoodchuckCli.DedentKeepsText | clients/woodchuck-cli.py:336-345 | every line after the first that holds text loses exactly the least indentation and keeps its text |
| WoodchuckCli.FirstNonSpaceDrop | clients/woodchuck-cli.py:343-345 | cutting at most the leading spaces lowers the indentation by that many |
| WoodchuckCli.DedentFlushLeft | clients/woodchuck-cli.py:336-345 | when some line after the first holds text, some line ends up flush left |
| Dbus2Rst.Spaces | doc/dbus2rst.py:32 | "%*s" with an empty string gives exactly n spaces |
| Dbus2Rst.Drop | doc/dbus2rst.py:46 | s[k:] is the suffix from k, empty once k passes the end |
| Dbus2Rst.ExpandFrom | doc/dbus2rst.py:22 | expandtabs leaves no tab; only "\n" and "\r" restart the column |
| Dbus2Rst.LineEnd | doc/dbus2rst.py:22 | the first line ends at the first line break |
| Dbus2Rst.SplitLines | doc/dbus2rst.py:22 | splitlines gives lines without any of Python's line boundaries, and without tabs when the text had none |
| Dbus2Rst.SplitLinesFirst | doc/dbus2rst.py:22 | a line followed by a newline splits off as the first line |
| Dbus2Rst.LineEndOf | doc/dbus2rst.py:22 | a line without breaks followed by a newline ends where the newline is |
| Dbus2Rst.Lead | doc/dbus2rst.py:28-31 | the count of leading spaces stops at the first other character |
| Dbus2Rst.MinIndent | doc/dbus2rst.py:26-41 | min_len stays None exactly when every line is blank |
| Dbus2Rst.CleanFirst | doc/dbus2rst.py:37-39 | the first line loses all its leading spaces |
| Dbus2Rst.CleanRest | doc/dbus2rst.py:34-46 | every other line becomes empty when blank and otherwise loses the least indentation |
| Dbus2Rst.CleanRestAt | doc/dbus2rst.py:34-46 | line by line: each other line is emptied when blank and otherwise loses the least indentation |
| Dbus2Rst.Cleaned | doc/dbus2rst.py:26-47 | one output line per input line |
| Dbus2Rst.FixedWhitespace | doc/dbus2rst.py:18-49 | text without lines gives a single newline |
| Dbus2Rst.SliceAll | doc/dbus2rst.py:46-47 | every line is cut at min_len, or kept when min_len is None |
| Dbus2Rst.SliceAllAt | doc/dbus2rst.py:46 | line by line: each line is cut at min_len, or kept when min_len is None |
| Dbus2Rst.FixWhitespace | doc/dbus2rst.py:18-49 | the loops over the lines, rewriting them in place, the padding of the first line and the join give FixedWhitespace's text |
| Dbus2Rst.FirstPassLine | doc/dbus2rst.py:28-41 | one turn of the first loop rewrites the line as its first pass and updates min_len from it alone |
| Dbus2Rst.PassStep | doc/dbus2rst.py:27-32 | after one more turn of the first loop, the lines before the next one have had their first pass and the others are untouched |
| Dbus2Rst.MinLenStep | doc/dbus2rst.py:34-41 | after one more turn, min_len is the least indentation of the lines after the first seen so far |
| Dbus2Rst.LeadingSpaces | doc/dbus2rst.py:28-31 | on a line without tabs the inner loop counts the leading spaces |
| Dbus2Rst.LeadIsFirstNonSpace | doc/dbus2rst.py:28-31 | any count of spaces ending at a non-space is the leading-space count |
| Dbus2Rst.MinIndentStep | doc/dbus2rst.py:34-41 | one more line leaves min_len alone when blank, otherwise lowers it to the line's indentation if that is smaller |
| Dbus2Rst.SlicedIsCleaned | doc/dbus2rst.py:26-47 | the lines after the first loop, cut at min_len, are the cleaned lines |
| Dbus2Rst.SlicedFirst | doc/dbus2rst.py:37-46 | the first line, trimmed, padded back to min_len when not empty, then cut at min_len, ends up flush left |
| Dbus2Rst.SlicedOther | doc/dbus2rst.py:34-46 | any other line after its first pass and the cut at min_len is emptied when blank and otherwise loses min_len characters |
| Dbus2Rst.MinIndentBound | doc/dbus2rst.py:40-41 | min_len is at most the indentation of every line that is not blank |
| Dbus2Rst.MinIndentMet | doc/dbus2rst.py:40-41 | some line that is not blank has exactly min_len leading spaces |
| Dbus2Rst.RenderLines | doc/dbus2rst.py:46-47 | the joined text splits back into the indented lines plus one empty line |
| Dbus2Rst.Indented | doc/dbus2rst.py:46 | each line is preceded by indent spaces |
| Dbus2Rst.IndentedAt | doc/dbus2rst.py:46 | line by line: each line is preceded by indent spaces |
| Dbus2Rst.IndentedNoBreak | doc/dbus2rst.py:46 | indenting a line adds no line break |
| Dbus2Rst.DropNoBreak | doc/dbus2rst.py:39-46 | cutting a line keeps it free of line breaks |
| Dbus2Rst.FixedWhitespaceLines | doc/dbus2rst.py:18-49 | the output's lines are the cleaned input lines, each after indent spaces, followed by one empty line, as the doc comment promises two newlines at the end |
| Dbus2Rst.CleanedIndentation | doc/dbus2rst.py:26-47 | the first line ends up flush left, blank lines empty, and every other line loses exactly min_len spaces, no more than it has, so relative indentation is kept |
| Dbus2Rst.LeadDrop | doc/dbus2rst.py:46 | cutting m leading spaces lowers the indentation by m |
| Dbus2Rst.CleanedFlushLeft | doc/dbus2rst.py:26-47 | when some line after the first holds text, one of them ends up flush left |
| Dbus2Rst.Write | doc/dbus2rst.py:71-81 | writing touches only the open output file |
| Dbus2Rst.Lower | doc/dbus2rst.py:59 | lower() keeps the length |
| Dbus2Rst.LowerKeeps | doc/dbus2rst.py:59 | lower() leaves text without capitals as it is |
| Dbus2Rst.Dashes | doc/dbus2rst.py:76 | the underline is as long as the name |
| Dbus2Rst.StartInterface | doc/dbus2rst.py:66-123 | a nested interface raises ValueError and changes nothing; a successful open leaves a valid state with no pending comment |
| Dbus2Rst.StartMethod | doc/dbus2rst.py:83-94 | a misplaced method changes nothing |
| Dbus2Rst.EndElement | doc/dbus2rst.py:126-174 | an end tag that raises is a ValueError and changes nothing |
| Dbus2Rst.CommentEvent | doc/dbus2rst.py:176-188 | a comment raises exactly when last_comment is unbound, then NameError; otherwise it only sets the pending comment |
| Dbus2Rst.StartNesting | doc/dbus2rst.py:51-123 | node always passes; interface, method, arg and property raise ValueError exactly when misplaced; any other tag raises ValueError; with a name attribute and last_comment bound nothing else is raised |
| Dbus2Rst.EndNesting | doc/dbus2rst.py:126-174 | an end tag raises exactly when it closes what is not open, or is unknown |
| Dbus2Rst.MethodBlock | doc/dbus2rst.py:83-155 | a method with no arguments and no comment writes its signature to the interface's file and closes again |
| Dbus2Rst.Run | doc/dbus2rst.py:51-188 | a document that converts without an exception leaves a valid state |
| Dbus2Rst.BoundNeverNameError | doc/dbus2rst.py:123-188 | once last_comment is bound, no handler raises NameError |
| Dbus2Rst.CommentBeforeRootAsWritten | doc/dbus2rst.py:4-185 | as written, a comment before the root element raises NameError; with last_comment bound to None the same document converts |
| Dbus2Rst.Handlers.constructor | doc/dbus2rst.py:4-11 | the globals start unset, with last_comment bound to None as intended (see Findings) |
| Dbus2Rst.Handlers.WriteOut | doc/dbus2rst.py:75-81 | the new state is Write's |
| Dbus2Rst.Handlers.OpenInterface | doc/dbus2rst.py:66-81 | the new state and error are StartInterface's |
| Dbus2Rst.Handlers.OpenMethod | doc/dbus2rst.py:83-94 | the new state and error are StartMethod's |
| Dbus2Rst.Handlers.AddArg | doc/dbus2rst.py:96-108 | the new state and error are StartArg's |
| Dbus2Rst.Handlers.AddProperty | doc/dbus2rst.py:110-118 | the new state and error are StartProperty's |
| Dbus2Rst.Handlers.Start | doc/dbus2rst.py:51-123 | the new state and error are StartElement's |
| Dbus2Rst.Handlers.End | doc/dbus2rst.py:126-174 | the new state and error are EndElement's |
| Dbus2Rst.Handlers.OnComment | doc/dbus2rst.py:176-188 | the new state and error are CommentEvent's |

## Left out

- The bus plumbing of the dispatcher: registering the object path, acquiring the bus name, and the libdbus and dbus-glib iterators themselves. A message is its path, interface, member and typed argument list.
- DbusServer.InterfaceNumber: a method call may omit its interface; dbus_message_get_interface then returns NULL and the strcmp at src/murmeltier-dbus-server.c:67 crashes the server before the path is checked. The model's interface is always a string, so this crash is not modelled.
- DbusServer.ProcessMessage and DbusServer.HandleFixedCall: they model the corrected reading of the three places listed under "## Findings" (release on the bad_signature path, status before indicator, the advancing version count), not the code as written; DispatchFindings models the code as written at each place.
- DbusServer.ProcessMessage: when an assertion aborts the server, no array is counted as released.
- What the Core Service does with its database: each entry point is an uninterpreted function of its arguments.
- Util.Max: the macro declares its second temporary with the type of the first argument. A wider second argument would be truncated in C; the model compares unbounded integers.
- Util.TimeValue and Util.BytesValue: negating INT64_MIN overflows in C; the model's integers are unbounded.
- Clocks: every call to now() is a parameter of the member that makes it.
- The HAL, ConsoleKit and MCE proxies of the monitors: a HAL read is a parameter (None when it fails), and a hint is a method call.
- The ptrace process monitor's system side: ptrace, tkill, the /proc reads of tcb_read_exe, memory file descriptors, the suspended list, the callback queue with its delayed free, and the monitor thread. A tcb is addressed by its pid, and the model holds only its tree fields.
- ProcessMonitor.Tracer.ParentSet: giving a tcb a new parent is modelled only for a tcb with no parent or children that is neither top-level nor stopping, as a newly created tcb is. The code asserts only that it has no parent.
- ProcessMonitor.Tracer.ProcessUntrace: the code's assertion that a pid not traced explicitly has a parent is a precondition.
- The SQL queue's database: sqlite3_exec is represented by the log of statements it is sent. Whether "begin transaction" fails is a parameter; the error messages of the other statements are only logged by the code, so they are left out.
- sqlq_new's malloc and sqlq_free's debug message, memset and free: allocation is not modelled. The header size is a parameter of the constructor.
- sqlq_append_printf: the sqlite3_vmprintf formatting is not modelled; the formatted text reaches Sqlq.Queue.Append.
- The signal handler's kernel side: signalfd, fcntl, pthread_sigmask and g_io_add_watch_full are represented by the fields they set, and the descriptor signalfd returns is a parameter. Reading a signal from the descriptor and emitting unix-signal (signal_handler) is I/O and is left out, as is the dispose hook, which only logs.
- The signal counts are unbounded; a C int count would wrap after 2^31 catches of one signal.
- The service monitor's bus side: the proxy for org.freedesktop.DBus and the GetConnectionUnixProcessID call, reading /proc/PID/exe and /proc/PID/cmdline are parameters of ServiceMonitor.Monitor.NameOwnerChanged. The monitor's singleton constructor and dispose hook are left out, as for the signal handler. Which blacklist is compiled in (HAVE_MAEMO) is a constant of the monitor.
- The order in which wc_service_monitor_list visits the hash table is not modelled; ServiceMonitor.Monitor.List picks keys in any order.
- The delayed-flush timer of the SQL queue: g_timeout_add_seconds is a flag that is set while a flush is scheduled, and the timer firing is a call of Sqlq.Queue.DelayedFlush.
- The network monitor's D-Bus side: the NetworkManager and ICD2 proxies, their property lookups and method calls. What a lookup returns is a parameter of the handler that makes it (None when it fails); the state_req and addrinfo_req idle calls are the pending flags they set.
- The files the monitor reads: the lines of /proc/net/dev and /proc/net/route are parameters, already split into an interface and fields, and the number strtoll parses from a statistics field is part of the reading.
- The NetworkManager device_added_cb and device_removed_cb callbacks, nm_device_state_changed_cb, start and backend_init, device dispose and nc_network_monitor_state_dump: only the medium and state naming of device_added_cb is modelled (NetworkMonitorNm.DeviceTypeMedium).
- The IP, netmask, gateway and MAC information of nc_network_connection_info, and the D-Bus proxies it creates for it: only the interface, access point, statistics and medium of a record are modelled.
- GObject references: the reference connection_state_set drops on disconnecting is the last one the model knows of, so a withdrawn connection is disposed at once; a PropertiesChanged arriving for a connection that is gone changes nothing.
- Object pointers: a device or connection is designated by its place in the list, a connection object also by its id; the device pointer a link caches is modelled as the resolved flag plus a lookup of the first device by name.
- Hash tables: the order in which the PropertiesChanged map yields its entries is that of the list given to the model; the scan results table keys results by network type.
- An ICD2 address whose IP is missing or does not parse leaves the interface NULL, which the code then passes to strcmp; the model takes every address to name an interface.
- now () and the 64-bit clock: the time is a parameter, and the throttle of stats_update uses the wrapped uint64_t difference (Util.Sub64).
- The constants of the NetworkManager and ICD2 headers are those the code names; the backend is a constant of the monitor rather than a build option.
- The debug () calls of the monitor, including those that print through a pointer the code has not checked, since they only run at high debug levels.
- LlNetworking and Debug: reading the /proc files and printing the dump are I/O; the line split_line works on is a parameter, and the dump is a list of lines.
- MurmeltierRegister, MurmeltierObjects and MurmeltierList: the SQL text the code builds, sqlite3's own errors and the INTERNAL_ERROR replies they produce are left out; a table is a list of rows in insertion order, which is also the order in which the model visits rows and hash entries.
- MurmeltierRegister: the uuid is a parameter; the retry when it collides and the xor mixing of the random bytes are not modelled.
- MurmeltierRegister: the cookie is placed in the SQL text unescaped; the model takes it as a value.
- MurmeltierList.ListManagers: the recursive listing assumes a parent is listed before its children and ids are unique, as the database guarantees; lookup_by is not modelled.
- The error message of a failed statement, and the break out of the loop that follows it, are folded into the error outcome.
- Uploader: atoi on a malformed number is not modelled; the numbers are given as values.
- Uploader: the server handle is taken to be non-empty, as the code never registers an empty one.
- VcsSync.Polled: each call starts at most one queued transfer, as the code does; the mail sent on failure, the subprocesses, their output files, and the Woodchuck calls that report a result are left out.
- VcsSync.RemoteOf: an unsupported sync value is only reported, as in the code, and the remote is kept.
- VcsSync: freshness is carried in the unit of the configuration; the conversion to seconds in register and the upcalls stream_update_cb and object_transfer_cb, which reload the configuration and start a transfer, are not modelled.
- VcsSync.LoadConfig: the JSON parser, the file's modification time, the example configuration and sys.exit are left out; the parsed configuration is a parameter.
- AptWoodchuck: the apt cache, the processes apt-get runs, the mail, the Woodchuck upcalls and the main loop are left out.
- AptWoodchuck.JobQueue: the lock, the threads and job.start are not modelled; a job is its key, and the on_start and on_finish callbacks and the job's own function are left out.
- WoodchuckCli.Commands: the class-level caching of the list is not modelled; the list is built from the class dictionary each time.
- WoodchuckCli.ParseInt: int() also accepts surrounding whitespace; the model accepts only an optional sign and digits.
- WoodchuckCli.ObjectGet: before the first push the code indexes object_stack[-1] of an empty list and raises IndexError; the model requires a pushed frame.
- WoodchuckCli: cmd_select, cmd_print, cmd_del, cmd_set, objects_bt and the Woodchuck calls they make are output and D-Bus work and are left out, as is the column layout of help's output.
- Dbus2Rst: the expat parser and the files are left out; a document is its list of events, and an output file is its name and text.
- Dbus2Rst.Lower: lower() is modelled on ASCII letters only.
- Dbus2Rst.StartProperty: a property outside an interface is refused before output_file is used, so the case of output_file None does not arise in the model.
- Dbus2Rst.CommentEvent: comment() calls fix_whitespace and discards its result; the model keeps the text unchanged, as the code does.

## Findings

| source | as written | input that shows it | evidently intended | confidence | as-written member | corrected member |
|---|---|---|---|---|---|---|
| src/murmeltier-dbus-server.c:979-1004 | the bad_signature label lies after the loop that releases the decoded a(stub) arrays | ManagerRegister with a dictionary holding an a(stub) Versions value and no boolean | arrays released on every exit, as the comment at lines 50-55 promises | not executed | DispatchFindings.BadSignatureLeaks | DbusServer.ProcessMessage |
| src/murmeltier-dbus-server.c:901-920 | DownloadStatus and UpdateStatus pass indicator, status | any call with status != indicator | status, indicator as the prototypes declare | not executed | DispatchFindings.TransferSwapShows | DispatchFindings.DownloadStatusKeepsOrder |
| src/murmeltier-dbus-server.c:686-689 | the loop counting the versions never advances its iterator | DownloadDesirability with a non-empty a(tu) | count the elements and stop | not executed | DispatchFindings.CountVersionsAsWritten | DbusServer.ReadVersions |
| src/network-monitor.h:214 | the trailing space is removed by writing at strlen - 1 even when nothing was printed | the mask 1 << 5 | remove the trailing space only when there is one | not executed | NetworkMedium.UnnamedBitWritesBeforeString | NetworkMedium.MediumToString |
| src/sqlq.c:29 | the assertion allows a buffer exactly the size of the header | sqlq_new with size 0, then sqlq_flush | require room for at least the NUL byte | not executed | Sqlq.HeaderOnlyBufferAccepted | Sqlq.Queue.constructor |
| src/network-monitor.c:767-780 | nc_network_connection_mediums reads d->medium without checking that the link's device is known, which nc_network_connection_info (lines 804-813) expects can fail | a connection whose link names a device the monitor has not seen | skip links whose device is unknown, as nc_network_connection_info does | not executed | NetworkMonitor.MediumsAsWrittenFaults | NetworkMonitor.MediumsCoverKnown |
| src/network-monitor.c:1065-1078 | after running the pending default-route scan the connection is compared with default_connection, which the scan does not change (it sets default_connection_real; the idle handler publishes it later) | ICD2, nothing published yet, a scan pending, a connected connection owning the device of the default route | compare with the default the scan has just brought up to date, as the comment promises accurate information | not executed | NetworkMonitorIcd2Steps.IsDefaultStaleExample | NetworkMonitorIcd2Steps.IsDefaultIntendedAnswer |
| src/murmeltier.c:590 | abort_if_too_many_callback compares the pointer count, never NULL, with 0, so it never aborts | object_unregister of a manager with one registered stream, keeping descendants | compare *count with 0, so that a row beyond the allowed ones aborts the probe and the object is kept | not executed | MurmeltierObjects.DescendantsRemovedAsWritten | MurmeltierObjects.Unregister |
| src/smart-storage-logger-uploader.c:312-313 | c2i measures an upper-case digit from 'a' | the digit 'A' | measure it from 'A', so that 'A' reads as 10 | not executed | Uploader.UpperCaseDigitMisread | Uploader.C2i |
| src/woodchuck.py:548-575 | feedback_unsubscribe returns early in its two special cases and never decrements the counter otherwise | two plain feedback_subscribe calls, then two feedback_unsubscribe calls | decrement the counter in every case, so that the last release cancels the subscription | not executed | WoodchuckClient.SubscriptionLeaksAsWritten | WoodchuckClient.UnsubscribeKeepsValid |
| clients/vcssync.py:278 | some_transfer_failed = 1 assigns a local name, as transfer does not declare it global | a remote whose directory holds no git or Mercurial repository | record the failure in the module's flag | not executed | VcsSync.UnsupportedUnflaggedAsWritten | VcsSync.Transferred |
| clients/woodchuck-cli.py:375-376 | the ambiguity message cuts len('cmd_') characters from names whose prefix is already removed | the word "d", which matches down and del | list the names as they are | not executed | WoodchuckCli.AmbiguousNamesLostAsWritten | WoodchuckCli.DispatchedIff |
| clients/woodchuck-cli.py:176-203 | up and down clamp the new index on one side only | "up -2" at the top of a two-frame stack, "down -3" at the bottom | keep the index on the stack | not executed | WoodchuckCli.NegativeDeltaLeavesStackAsWritten | WoodchuckCli.UpMoves |
| clients/woodchuck-cli.py:121-122 | the slice [i:-1] leaves the last frame in place, so a push below the top keeps the old top frame | up from a three-frame stack, then a push | drop the frames above the current one before pushing, as the comment at lines 109-116 says | not executed | WoodchuckCli.PushKeepsStaleFrameAsWritten | WoodchuckCli.Pushed |
| doc/dbus2rst.py:4 | the module binds comment rather than last_comment, and def comment later rebinds comment | a document whose first event is a comment | bind last_comment to None at module level | not executed | Dbus2Rst.CommentBeforeRootAsWritten | Dbus2Rst.BoundNeverNameError |
