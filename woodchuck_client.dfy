/** The Python client library (src/woodchuck.py): how D-Bus errors become
    Python exceptions, the defaults of _Object.files_deleted, and the
    reference count a _Manager keeps of its feedback subscriptions. */
module WoodchuckClient {
  import opened Wrappers
  import opened Woodchuck
  import opened Util
  import MurmeltierObjects

  // ---------------------------------------------------------------------
  // _dbus_exception_to_woodchuck_exception

  /** The exception classes of the library (Error and its subclasses). */
  datatype ErrorClass =
    | GenericError | NoSuchObject | ObjectExistsError | NotImplementedError
    | InternalError | InvalidArgsError | UnknownError

  /** What the conversion raises: one of the library's exceptions with its
      argument, or the D-Bus exception itself again. */
  datatype Raised = Raise(cls: ErrorClass, text: string) | Reraise

  predicate StartsWith(s: string, prefix: string) {
    |prefix| <= |s| && s[..|prefix|] == prefix
  }

  /** _dbus_exception_to_woodchuck_exception: the five names the server
      sends with a message, any other org.woodchuck. name as UnknownError
      carrying name and message, anything else unchanged. */
  function ExceptionOf(name: string, message: string): (r: Raised)
    ensures r.Reraise? <==> !StartsWith(name, "org.woodchuck.")
    ensures r.Raise? && r.cls != UnknownError ==> r.text == message
    ensures r.Raise? ==> r.cls != NoSuchObject
  {
    if name == "org.woodchuck.GenericError" then Raise(GenericError, message)
    else if name == "org.woodchuck.ObjectExists" then Raise(ObjectExistsError, message)
    else if name == "org.woodchuck.MethodNotImplemented" then Raise(NotImplementedError, message)
    else if name == "org.woodchuck.InternalError" then Raise(InternalError, message)
    else if name == "org.woodchuck.InvalidArgs" then Raise(InvalidArgsError, message)
    else if StartsWith(name, "org.woodchuck.") then Raise(UnknownError, name + message)
    else Reraise
  }

  /** The class a server error code is meant to surface as. */
  function ClassOfCode(code: int): ErrorClass {
    if code == GENERIC then GenericError
    else if code == NO_SUCH_OBJECT then NoSuchObject
    else if code == OBJECT_EXISTS then ObjectExistsError
    else if code == NOT_IMPLEMENTED then NotImplementedError
    else if code == INTERNAL_ERROR then InternalError
    else if code == INVALID_ARGS then InvalidArgsError
    else UnknownError
  }

  /** Against the server's naming of its error codes: every named code but
      NO_SUCH_OBJECT arrives as its own class with the server's message;
      NO_SUCH_OBJECT's standard D-Bus name is not recognised and the D-Bus
      exception passes through; any other code arrives as UnknownError. */
  lemma ServerErrorsSurface(code: int, message: string)
    ensures code in NamedErrors && code != NO_SUCH_OBJECT ==>
      ExceptionOf(ErrorName(code), message) == Raise(ClassOfCode(code), message)
    ensures code == NO_SUCH_OBJECT ==> ExceptionOf(ErrorName(code), message) == Reraise
    ensures code !in NamedErrors ==>
      ExceptionOf(ErrorName(code), message) == Raise(UnknownError, UNKNOWN_ERROR_NAME + message)
  {
    var n := ErrorName(code);
    if code == NO_SUCH_OBJECT {
      assert n[4] != "org.woodchuck."[4];
    } else if code !in NamedErrors {
      assert n[..14] == "org.woodchuck.";
    }
  }

  // ---------------------------------------------------------------------
  // _Object.files_deleted

  /** The (update, arg) pair files_deleted sends: Deleted (also for no
      update) with 0; Refused without arg with now + 5 minutes; Compressed
      without arg with 2^64 - 1; an arg given is passed on, and an
      unrecognised update without arg is sent without one. */
  function FilesDeletedArgs(update: Option<int>, arg: Option<int>, now: int): (r: (int, Option<int>))
    ensures update.None? || update == Some(0) ==> r == (0, Some(0))
    ensures update.Some? && update != Some(0) ==> r.0 == update.value
    ensures update.Some? && update != Some(0) && arg.Some? ==> r.1 == arg
    ensures update == Some(1) && arg.None? ==> r.1 == Some(now + 300)
    ensures update == Some(2) && arg.None? ==> r.1 == Some(UINT64_LIMIT - 1)
    ensures r.1.None? <==> update.Some? && update.value !in {0, 1, 2} && arg.None?
  {
    if update.None? || update == Some(DeletionResponse.Deleted.Code()) then
      (DeletionResponse.Deleted.Code(), Some(0))
    else if arg.None? then
      if update == Some(DeletionResponse.Refused.Code()) then (update.value, Some(now + 5 * 60))
      else if update == Some(DeletionResponse.Compressed.Code()) then (update.value, Some(UINT64_LIMIT - 1))
      else (update.value, arg)
    else (update.value, arg)
  }

  /** What the server makes of the defaults.  No update marks the files
      deleted.  A refusal without arg sends an absolute time, which the
      server adds to its own clock, so the object is preserved until about
      twice the current time rather than for five minutes. */
  lemma FilesDeletedDefaultsServed(row: Option<Option<int>>, clientNow: int, serverNow: MurmeltierObjects.I64)
    requires MurmeltierObjects.Instance(row) != -1
    requires 0 <= clientNow && 0 <= serverNow && serverNow + clientNow + 300 < 0x8000_0000_0000_0000
    ensures var (u, a) := FilesDeletedArgs(None, None, clientNow);
      MurmeltierObjects.FilesDeleted(row, u, a.value, serverNow) == MurmeltierObjects.Apply(MurmeltierObjects.MarkDeleted)
    ensures var (u, a) := FilesDeletedArgs(Some(1), None, clientNow);
      MurmeltierObjects.FilesDeleted(row, u, a.value, serverNow)
        == MurmeltierObjects.Apply(MurmeltierObjects.SetPreserveUntil(serverNow + clientNow + 300))
  {
    MurmeltierObjects.FilesDeletedAssignment(row, DeletionResponse.Deleted, 0, serverNow);
    MurmeltierObjects.FilesDeletedAssignment(row, DeletionResponse.Refused, clientNow + 300, serverNow);
  }

  // ---------------------------------------------------------------------
  // _Manager.feedback_subscribe / feedback_unsubscribe

  /** A call the manager object makes on the bus: FeedbackSubscribe with its
      descendants flag and the handle the server granted, or
      FeedbackUnsubscribe of a handle. */
  datatype Call = SubscribeCall(descendants: bool, granted: string) | UnsubscribeCall(handle: string)

  /** The subscription state: the two counters ([0] without descendants,
      [1] with), the handle held, and the calls made so far. */
  datatype Feedback = Feedback(subscriptions: seq<int>, handle: Option<string>, calls: seq<Call>)

  /** Python's truth value of the handle attribute. */
  predicate Held(h: Option<string>) {
    h.Some? && h.value != ""
  }

  /** The last FeedbackSubscribe call, which granted the handle in use. */
  function LastSubscribe(calls: seq<Call>): (c: Option<Call>)
    ensures c.Some? ==> c.value.SubscribeCall?
  {
    if calls == [] then None
    else if calls[|calls| - 1].SubscribeCall? then Some(calls[|calls| - 1])
    else LastSubscribe(calls[..|calls| - 1])
  }

  /** Subscriptions the server holds for this manager: those granted and
      not yet cancelled. */
  function Active(calls: seq<Call>): int {
    if calls == [] then 0
    else Active(calls[..|calls| - 1]) + (if calls[|calls| - 1].SubscribeCall? then 1 else -1)
  }

  function Total(f: Feedback): int
    requires |f.subscriptions| == 2
  {
    f.subscriptions[0] + f.subscriptions[1]
  }

  /** The reference count's invariant: a handle is held exactly while some
      subscription is counted; it is the one the last FeedbackSubscribe
      granted, the only subscription the server holds, and it covers
      descendants whenever a descendant subscription is counted. */
  predicate Valid(f: Feedback) {
    && |f.subscriptions| == 2 && f.subscriptions[0] >= 0 && f.subscriptions[1] >= 0
    && (f.handle.Some? <==> Total(f) > 0)
    && (f.handle.Some? ==> f.handle.value != "")
    && Active(f.calls) == (if f.handle.Some? then 1 else 0)
    && (f.handle.Some? ==>
          LastSubscribe(f.calls).Some? && LastSubscribe(f.calls).value.granted == f.handle.value
          && (f.subscriptions[1] > 0 ==> LastSubscribe(f.calls).value.descendants))
  }

  /** _Manager.__init__: no subscription. */
  const Unsubscribed := Feedback([0, 0], None, [])

  /** What feedback_subscribe's asserts demand: with no handle both counters
      are 0; when descendants are added to a plain subscription there is one. */
  predicate CanSubscribe(f: Feedback, descendants: bool) {
    |f.subscriptions| == 2
    && (!Held(f.handle) ==> f.subscriptions[0] == 0 && f.subscriptions[1] == 0)
    && (Held(f.handle) && descendants && f.subscriptions[1] == 0 ==> f.subscriptions[0] > 0)
  }

  /** feedback_subscribe: the new state and the handle index returned;
      granted is the handle the server answers a FeedbackSubscribe with. */
  function SubscribeStep(f: Feedback, descendants: bool, granted: string): (r: (Feedback, nat))
    requires CanSubscribe(f, descendants)
    ensures r.1 == if descendants then 1 else 0
  {
    var idx := if descendants then 1 else 0;
    if Held(f.handle) then
      if descendants && f.subscriptions[1] == 0 then
        (Feedback(f.subscriptions[idx := f.subscriptions[idx] + 1], Some(granted),
                  f.calls + [SubscribeCall(true, granted), UnsubscribeCall(f.handle.value)]), idx)
      else
        (f.(subscriptions := f.subscriptions[idx := f.subscriptions[idx] + 1]), idx)
    else
      (Feedback(f.subscriptions[idx := 1], Some(granted), f.calls + [SubscribeCall(descendants, granted)]), idx)
  }

  /** What feedback_unsubscribe's asserts demand. */
  predicate CanUnsubscribe(f: Feedback, handle: int) {
    |f.subscriptions| == 2 && (handle == 0 || handle == 1) && f.subscriptions[handle] > 0
  }

  /** The case feedback_unsubscribe does not handle: neither the last
      subscription nor the last descendant one beside plain ones. */
  predicate FallsThrough(f: Feedback, handle: int)
    requires CanUnsubscribe(f, handle)
  {
    Total(f) != 1 && !(handle == 1 && f.subscriptions[1] == 1 && f.subscriptions[0] > 0)
  }

  /** feedback_unsubscribe as written: the last subscription is cancelled;
      the last descendant one beside plain ones is replaced by a plain
      subscription; in every other case nothing changes. */
  function UnsubscribeAsWritten(f: Feedback, handle: int, granted: string): (g: Feedback)
    requires CanUnsubscribe(f, handle)
    ensures FallsThrough(f, handle) ==> g == f
  {
    if Total(f) == 1 then
      Feedback(f.subscriptions[handle := f.subscriptions[handle] - 1], None,
               f.calls + [UnsubscribeCall(f.handle.GetOr(""))])
    else if handle == 1 && f.subscriptions[1] == 1 && f.subscriptions[0] > 0 then
      Feedback(f.subscriptions[1 := 0], Some(granted),
               f.calls + [SubscribeCall(false, granted), UnsubscribeCall(f.handle.GetOr(""))])
    else f
  }

  /** feedback_unsubscribe as its documentation promises: the remaining
      case also gives back one reference. */
  function Unsubscribe(f: Feedback, handle: int, granted: string): (g: Feedback)
    requires CanUnsubscribe(f, handle)
  {
    var g := UnsubscribeAsWritten(f, handle, granted);
    if FallsThrough(f, handle) then g.(subscriptions := g.subscriptions[handle := g.subscriptions[handle] - 1])
    else g
  }

  lemma ActiveAppend(calls: seq<Call>, more: seq<Call>)
    ensures Active(calls + more) == Active(calls) + Active(more)
    decreases |more|
  {
    if more != [] {
      var m := more[..|more| - 1];
      assert (calls + more)[..|calls + more| - 1] == calls + m;
      assert (calls + more)[|calls + more| - 1] == more[|more| - 1];
      ActiveAppend(calls, m);
    } else {
      assert calls + more == calls;
    }
  }

  /** Subscribing anew and cancelling the old handle leaves the number of
      server subscriptions as it was. */
  lemma ActivePair(c: Call, h: string)
    requires c.SubscribeCall?
    ensures Active([c, UnsubscribeCall(h)]) == 0
  {
    assert [c, UnsubscribeCall(h)][..1] == [c];
    assert [c][..0] == [];
    assert Active([c]) == 1;
  }

  /** Subscribing keeps the invariant, returns the index of the counter it
      increments, and holds a descendant subscription when one is asked for. */
  lemma SubscribeKeepsValid(f: Feedback, descendants: bool, granted: string)
    requires Valid(f) && CanSubscribe(f, descendants) && granted != ""
    ensures var (g, idx) := SubscribeStep(f, descendants, granted);
      && Valid(g)
      && g.subscriptions == f.subscriptions[idx := f.subscriptions[idx] + 1]
      && Total(g) == Total(f) + 1
      && (descendants ==> LastSubscribe(g.calls).value.descendants)
  {
    var (g, idx) := SubscribeStep(f, descendants, granted);
    if Held(f.handle) && descendants && f.subscriptions[1] == 0 {
      ActiveAppend(f.calls, [SubscribeCall(true, granted), UnsubscribeCall(f.handle.value)]);
      ActivePair(SubscribeCall(true, granted), f.handle.value);
      assert g.calls[..|g.calls| - 1] == f.calls + [SubscribeCall(true, granted)];
    } else if !Held(f.handle) {
      ActiveAppend(f.calls, [SubscribeCall(descendants, granted)]);
    }
  }

  /** The documented unsubscribe keeps the invariant and gives back exactly
      the reference it is handed, so the subscription is cancelled when, and
      only when, the last reference goes. */
  lemma UnsubscribeKeepsValid(f: Feedback, handle: int, granted: string)
    requires Valid(f) && CanUnsubscribe(f, handle) && granted != ""
    ensures var g := Unsubscribe(f, handle, granted);
      && Valid(g)
      && g.subscriptions == f.subscriptions[handle := f.subscriptions[handle] - 1]
      && (g.handle.None? <==> Total(f) == 1)
  {
    var g := Unsubscribe(f, handle, granted);
    if Total(f) == 1 {
      ActiveAppend(f.calls, [UnsubscribeCall(f.handle.value)]);
    } else if handle == 1 && f.subscriptions[1] == 1 && f.subscriptions[0] > 0 {
      var more := [SubscribeCall(false, granted), UnsubscribeCall(f.handle.value)];
      ActiveAppend(f.calls, more);
      ActivePair(SubscribeCall(false, granted), f.handle.value);
      assert g.calls[..|g.calls| - 1] == f.calls + [SubscribeCall(false, granted)];
    }
  }

  /** The as-written unsubscribe also keeps the invariant, but gives back a
      reference only in the two cases it handles. */
  lemma UnsubscribeAsWrittenCounts(f: Feedback, handle: int, granted: string)
    requires Valid(f) && CanUnsubscribe(f, handle) && granted != ""
    ensures Valid(UnsubscribeAsWritten(f, handle, granted))
    ensures Total(UnsubscribeAsWritten(f, handle, granted)) == Total(f) - 1 <==> !FallsThrough(f, handle)
  {
    UnsubscribeKeepsValid(f, handle, granted);
  }

  /** Two plain subscriptions followed by two unsubscriptions leave the
      subscription in place as written, where the documentation says it
      is cancelled; the documented unsubscribe cancels it. */
  lemma SubscriptionLeaksAsWritten()
    ensures var f1 := SubscribeStep(Unsubscribed, false, "h").0;
      var f2 := SubscribeStep(f1, false, "h").0;
      && f2.subscriptions == [2, 0]
      && UnsubscribeAsWritten(UnsubscribeAsWritten(f2, 0, "h"), 0, "h") == f2
      && Unsubscribe(f2, 0, "h").subscriptions == [1, 0]
      && Unsubscribe(Unsubscribe(f2, 0, "h"), 0, "h").handle.None?
  {
    var f1 := SubscribeStep(Unsubscribed, false, "h").0;
    var f2 := SubscribeStep(f1, false, "h").0;
    assert f1.subscriptions == [1, 0];
    assert f2.subscriptions == [2, 0];
    var g := Unsubscribe(f2, 0, "h");
    assert g.subscriptions == [1, 0];
  }

  /** _Manager's subscription bookkeeping, updated in place. */
  class Manager {
    var feedbackSubscriptions: seq<int>
    var feedbackSubscriptionHandle: Option<string>
    /** The FeedbackSubscribe and FeedbackUnsubscribe calls made on the bus. */
    var calls: seq<Call>

    function State(): Feedback
      reads this
    {
      Feedback(feedbackSubscriptions, feedbackSubscriptionHandle, calls)
    }

    constructor ()
      ensures State() == Unsubscribed && Valid(State())
    {
      feedbackSubscriptions := [0, 0];
      feedbackSubscriptionHandle := None;
      calls := [];
    }

    /** feedback_subscribe; granted is the server's answer to a
        FeedbackSubscribe call, if one is made. */
    method FeedbackSubscribe(descendantsToo: bool, granted: string) returns (idx: nat)
      requires Valid(State()) && CanSubscribe(State(), descendantsToo) && granted != ""
      modifies this
      ensures (State(), idx) == SubscribeStep(old(State()), descendantsToo, granted)
      ensures Valid(State()) && Total(State()) == Total(old(State())) + 1
    {
      SubscribeKeepsValid(State(), descendantsToo, granted);
      idx := if descendantsToo then 1 else 0;
      if Held(feedbackSubscriptionHandle) {
        if descendantsToo && feedbackSubscriptions[1] == 0 {
          var old_handle := feedbackSubscriptionHandle.value;
          calls := calls + [SubscribeCall(true, granted), UnsubscribeCall(old_handle)];
          feedbackSubscriptionHandle := Some(granted);
          feedbackSubscriptions := feedbackSubscriptions[idx := feedbackSubscriptions[idx] + 1];
        } else {
          feedbackSubscriptions := feedbackSubscriptions[idx := feedbackSubscriptions[idx] + 1];
        }
      } else {
        calls := calls + [SubscribeCall(descendantsToo, granted)];
        feedbackSubscriptionHandle := Some(granted);
        feedbackSubscriptions := feedbackSubscriptions[idx := 1];
      }
    }

    /** feedback_unsubscribe, with the missing decrement supplied. */
    method FeedbackUnsubscribe(handle: int, granted: string)
      requires Valid(State()) && CanUnsubscribe(State(), handle) && granted != ""
      modifies this
      ensures State() == Unsubscribe(old(State()), handle, granted)
      ensures Valid(State())
      ensures feedbackSubscriptions == old(feedbackSubscriptions)[handle := old(feedbackSubscriptions)[handle] - 1]
    {
      UnsubscribeKeepsValid(State(), handle, granted);
      if feedbackSubscriptions[0] + feedbackSubscriptions[1] == 1 {
        calls := calls + [UnsubscribeCall(feedbackSubscriptionHandle.GetOr(""))];
        feedbackSubscriptionHandle := None;
        feedbackSubscriptions := feedbackSubscriptions[handle := feedbackSubscriptions[handle] - 1];
        return;
      }
      if handle == 1 && feedbackSubscriptions[1] == 1 && feedbackSubscriptions[0] > 0 {
        calls := calls + [SubscribeCall(false, granted), UnsubscribeCall(feedbackSubscriptionHandle.GetOr(""))];
        feedbackSubscriptionHandle := Some(granted);
        feedbackSubscriptions := feedbackSubscriptions[1 := 0];
        return;
      }
      feedbackSubscriptions := feedbackSubscriptions[handle := feedbackSubscriptions[handle] - 1];
    }
  }
}
