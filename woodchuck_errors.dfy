/** The public error codes of the woodchuck service, the two functions that
    turn a code into a D-Bus error name and into a human-readable message, and
    the deletion enums shared by the server and its clients
    (include/woodchuck/woodchuck.h). */
module Woodchuck {
  import opened Wrappers

  /** dbus-glib's DBUS_GERROR_UNKNOWN_METHOD, which the header reuses as the
      value of NO_SUCH_OBJECT.  dbus-glib is not part of this model; its enum
      gives the value 19. */
  const DBUS_GERROR_UNKNOWN_METHOD: int := 19

  const SUCCESS: int := 0
  const NO_SUCH_OBJECT: int := DBUS_GERROR_UNKNOWN_METHOD
  const GENERIC: int := 100
  const OBJECT_EXISTS: int := 101
  const NOT_IMPLEMENTED: int := 102
  const INTERNAL_ERROR: int := 103
  const INVALID_ARGS: int := 104

  /** The codes the two switch statements name explicitly. */
  const NamedErrors: seq<int> :=
    [GENERIC, NO_SUCH_OBJECT, OBJECT_EXISTS, NOT_IMPLEMENTED, INTERNAL_ERROR, INVALID_ARGS]

  /** The standard D-Bus error names the header supplies when libdbus is too
      old to define them, and the ones libdbus always has. */
  const DBUS_ERROR_UNKNOWN_OBJECT := "org.freedesktop.DBus.Error.UnknownObject"
  const DBUS_ERROR_UNKNOWN_INTERFACE := "org.freedesktop.DBus.Error.UnknownInterface"
  const DBUS_ERROR_UNKNOWN_METHOD := "org.freedesktop.DBus.Error.UnknownMethod"
  const DBUS_ERROR_INVALID_ARGS := "org.freedesktop.DBus.Error.InvalidArgs"
  const DBUS_ERROR_FAILED := "org.freedesktop.DBus.Error.Failed"

  const UNKNOWN_ERROR_NAME := "org.woodchuck.UnknownError"
  const GENERIC_ERROR_MESSAGE := "Generic Error"

  /** woodchuck_error_to_error_name. */
  function ErrorName(code: int): (name: string)
    ensures code !in NamedErrors <==> name == UNKNOWN_ERROR_NAME
    ensures code in NamedErrors ==> ErrorCodeOfName(name) == Some(code)
  {
    if code == GENERIC then "org.woodchuck.GenericError"
    else if code == NO_SUCH_OBJECT then DBUS_ERROR_UNKNOWN_OBJECT
    else if code == OBJECT_EXISTS then "org.woodchuck.ObjectExists"
    else if code == NOT_IMPLEMENTED then "org.woodchuck.MethodNotImplemented"
    else if code == INTERNAL_ERROR then "org.woodchuck.InternalError"
    else if code == INVALID_ARGS then "org.woodchuck.InvalidArgs"
    else UNKNOWN_ERROR_NAME
  }

  /** The reading a client gives an error name: the code whose name it is.
      This is the partner of ErrorName. */
  function ErrorCodeOfName(name: string): Option<int> {
    if name == "org.woodchuck.GenericError" then Some(GENERIC)
    else if name == DBUS_ERROR_UNKNOWN_OBJECT then Some(NO_SUCH_OBJECT)
    else if name == "org.woodchuck.ObjectExists" then Some(OBJECT_EXISTS)
    else if name == "org.woodchuck.MethodNotImplemented" then Some(NOT_IMPLEMENTED)
    else if name == "org.woodchuck.InternalError" then Some(INTERNAL_ERROR)
    else if name == "org.woodchuck.InvalidArgs" then Some(INVALID_ARGS)
    else None
  }

  /** woodchuck_error_to_error.  GENERIC and every code the switch does not
      name share one message. */
  function ErrorMessage(code: int): (message: string)
    ensures code !in NamedErrors ==> message == GENERIC_ERROR_MESSAGE
    ensures message == GENERIC_ERROR_MESSAGE <==> code !in NamedErrors || code == GENERIC
  {
    if code == NO_SUCH_OBJECT then "No such object"
    else if code == OBJECT_EXISTS then "Object exists."
    else if code == NOT_IMPLEMENTED then "Method not implemented"
    else if code == INTERNAL_ERROR then "Internal server error"
    else if code == INVALID_ARGS then "Invalid arguments."
    else GENERIC_ERROR_MESSAGE
  }

  /** The six named codes have six different error names and six different
      messages. */
  lemma NamedErrorsDistinct(c1: int, c2: int)
    requires c1 in NamedErrors && c2 in NamedErrors && c1 != c2
    ensures ErrorName(c1) != ErrorName(c2)
    ensures ErrorMessage(c1) != ErrorMessage(c2)
  {
    assert ErrorCodeOfName(ErrorName(c1)) == Some(c1);
    assert ErrorCodeOfName(ErrorName(c2)) == Some(c2);
  }

  /** Success and the error codes are pairwise distinct, with GENERIC at 100
      and the later ones following it one by one. */
  lemma CodeValues()
    ensures SUCCESS == 0 && GENERIC == 100
    ensures OBJECT_EXISTS == GENERIC + 1 && NOT_IMPLEMENTED == GENERIC + 2
    ensures INTERNAL_ERROR == GENERIC + 3 && INVALID_ARGS == GENERIC + 4
    ensures SUCCESS !in NamedErrors
  {
  }

  /** enum woodchuck_deletion_policy. */
  datatype DeletionPolicy = Precious | DeleteWithoutConsultation | DeleteWithConsultation
  {
    function Code(): (n: nat)
      ensures n < 3
    {
      match this
      case Precious => 0
      case DeleteWithoutConsultation => 1
      case DeleteWithConsultation => 2
    }
  }

  function DeletionPolicyOfCode(n: int): (p: Option<DeletionPolicy>)
    ensures p.Some? <==> 0 <= n < 3
    ensures p.Some? ==> p.value.Code() == n
  {
    if n == 0 then Some(Precious)
    else if n == 1 then Some(DeleteWithoutConsultation)
    else if n == 2 then Some(DeleteWithConsultation)
    else None
  }

  /** enum woodchuck_deletion_response: the Update argument of FilesDeleted. */
  datatype DeletionResponse = Deleted | Refused | Compressed
  {
    function Code(): (n: nat)
      ensures n < 3
    {
      match this
      case Deleted => 0
      case Refused => 1
      case Compressed => 2
    }
  }

  function DeletionResponseOfCode(n: int): (r: Option<DeletionResponse>)
    ensures r.Some? <==> 0 <= n < 3
    ensures r.Some? ==> r.value.Code() == n
  {
    if n == 0 then Some(Deleted)
    else if n == 1 then Some(Refused)
    else if n == 2 then Some(Compressed)
    else None
  }

  /** The two encodings are bijections onto 0, 1, 2 in declaration order. */
  lemma DeletionCodesRoundTrip(p: DeletionPolicy, r: DeletionResponse)
    ensures DeletionPolicyOfCode(p.Code()) == Some(p)
    ensures DeletionResponseOfCode(r.Code()) == Some(r)
  {
  }
}
