/** The Core Service as the D-Bus dispatcher sees it: one uninterpreted
    function per entry point the dispatcher calls
    (src/murmeltier-dbus-server.c, with the argument lists of
    src/murmeltier-dbus-server.h).  Each call returns a woodchuck error code,
    an optional GError message and its outputs; what the service does with the
    database is not part of the dispatcher's model. */
module ServerApi {
  import opened Wrappers
  import opened Dbus

  /** A property value as the dispatcher stores it in the hash table it hands
      to a register call: a string, a uint32, a uint64, or the rows of an
      a(stub) array (each row the struct's field values). */
  datatype PropValue =
    | PString(s: string)
    | PUint(u: nat)
    | PUint64(t: nat)
    | PStructs(rows: seq<seq<Value>>)

  type Props = map<string, PropValue>

  /** What a Core Service call returns: the woodchuck error code, the GError
      it may have set, and its out-parameters. */
  datatype Call<T> = Call(code: int, error: Option<string>, out: T)

  /** A list reply: a GPtrArray of rows, each a GPtrArray of possibly NULL
      strings. */
  type Rows = seq<seq<Option<string>>>

  /** struct woodchuck_download_desirability_version. */
  datatype Version = Version(expectedSize: nat, utility: nat)

  /** struct woodchuck_object_download_status_files. */
  datatype FileInfo = FileInfo(filename: string, dedicated: bool, deletionPolicy: nat)

  /** The six leading arguments shared by DownloadStatus and UpdateStatus, in
      the order the header declares them. */
  datatype Transfer = Transfer(status: nat, indicator: nat, transferredUp: nat,
                               transferredDown: nat, downloadTime: nat, downloadDuration: nat)

  datatype CoreService = CoreService(
    managerRegister: (Props, bool) -> Call<string>,
    listManagers: bool -> Call<Option<Rows>>,
    lookupManagerByCookie: (string, bool) -> Call<Option<Rows>>,
    downloadDesirability: (nat, seq<Version>) -> Call<(nat, nat)>,
    managerManagerRegister: (string, Props, bool) -> Call<string>,
    managerListManagers: (string, bool) -> Call<Option<Rows>>,
    managerLookupManagerByCookie: (string, string, bool) -> Call<Option<Rows>>,
    managerStreamRegister: (string, Props, bool) -> Call<string>,
    managerListStreams: string -> Call<Option<Rows>>,
    managerLookupStreamByCookie: (string, string) -> Call<Option<Rows>>,
    managerDelete: (string, bool) -> Call<()>,
    managerFeedbackSubscribe: (string, bool) -> Call<string>,
    managerFeedbackUnsubscribe: (string, string) -> Call<()>,
    managerFeedbackAck: (string, string, nat) -> Call<()>,
    streamObjectRegister: (string, Props, bool) -> Call<string>,
    streamListObjects: string -> Call<Option<Rows>>,
    streamLookupObjectByCookie: (string, string) -> Call<Option<Rows>>,
    streamDelete: (string, bool) -> Call<()>,
    streamUpdateStatus: (string, Transfer, nat, nat, nat) -> Call<()>,
    objectDelete: string -> Call<()>,
    objectDownload: (string, nat) -> Call<()>,
    objectDownloadStatus: (string, Transfer, nat, seq<FileInfo>) -> Call<()>,
    objectUse: (string, nat, nat, nat) -> Call<()>,
    objectFilesDeleted: (string, nat, nat) -> Call<()>)
}
