/** The pure half of the NetworkManager backend, src/network-monitor-nm.c:
    the state predicates and names, the device-type to medium mapping and
    the decoding of a PropertiesChanged entry.  The numbers are those of the
    NetworkManager 0.8 header NetworkManager.h. */
module NetworkMonitorNm {
  import NetworkMedium

  const DEVICE_STATE_UNKNOWN: int := 0
  const DEVICE_STATE_UNMANAGED: int := 1
  const DEVICE_STATE_UNAVAILABLE: int := 2
  const DEVICE_STATE_DISCONNECTED: int := 3
  const DEVICE_STATE_PREPARE: int := 4
  const DEVICE_STATE_CONFIG: int := 5
  const DEVICE_STATE_NEED_AUTH: int := 6
  const DEVICE_STATE_IP_CONFIG: int := 7
  const DEVICE_STATE_ACTIVATED: int := 8
  const DEVICE_STATE_FAILED: int := 9

  const ACTIVE_CONNECTION_STATE_UNKNOWN: int := 0
  const ACTIVE_CONNECTION_STATE_ACTIVATING: int := 1
  const ACTIVE_CONNECTION_STATE_ACTIVATED: int := 2

  const DEVICE_TYPE_UNKNOWN: int := 0
  const DEVICE_TYPE_ETHERNET: int := 1
  const DEVICE_TYPE_WIFI: int := 2
  const DEVICE_TYPE_GSM: int := 3
  const DEVICE_TYPE_CDMA: int := 4
  const DEVICE_TYPE_BT: int := 5
  const DEVICE_TYPE_OLPC_MESH: int := 6

  /** device_state_to_str: the name of each listed state, "unknown" for
      UNKNOWN and for every value the switch does not list. */
  function DeviceStateToStr(state: int): (s: string)
    ensures s == "unknown" <==> !(DEVICE_STATE_UNMANAGED <= state <= DEVICE_STATE_FAILED)
  {
    if state == DEVICE_STATE_UNMANAGED then "unmanaged"
    else if state == DEVICE_STATE_UNAVAILABLE then "unavailable"
    else if state == DEVICE_STATE_DISCONNECTED then "disconnected"
    else if state == DEVICE_STATE_PREPARE then "prepare"
    else if state == DEVICE_STATE_CONFIG then "config"
    else if state == DEVICE_STATE_NEED_AUTH then "need auth"
    else if state == DEVICE_STATE_IP_CONFIG then "ip config"
    else if state == DEVICE_STATE_ACTIVATED then "activated"
    else if state == DEVICE_STATE_FAILED then "failed"
    else "unknown"
  }

  /** Two listed device states never share a name, so a logged name
      identifies the state. */
  lemma DeviceStateNamesDistinct(a: int, b: int)
    requires DEVICE_STATE_UNMANAGED <= a <= DEVICE_STATE_FAILED
    requires DEVICE_STATE_UNMANAGED <= b <= DEVICE_STATE_FAILED
    requires a != b
    ensures DeviceStateToStr(a) != DeviceStateToStr(b)
  {
  }

  /** connection_state_to_str: only ACTIVATING and ACTIVATED are named. */
  function ConnectionStateToStr(state: int): (s: string)
    ensures s == "unknown" <==>
      state != ACTIVE_CONNECTION_STATE_ACTIVATING && state != ACTIVE_CONNECTION_STATE_ACTIVATED
    ensures ConnectionStateIsConnected(state) <==> s == "activated"
  {
    if state == ACTIVE_CONNECTION_STATE_ACTIVATING then "activating"
    else if state == ACTIVE_CONNECTION_STATE_ACTIVATED then "activated"
    else "unknown"
  }

  /** connection_state_is_connected. */
  predicate ConnectionStateIsConnected(state: int) {
    state == ACTIVE_CONNECTION_STATE_ACTIVATED
  }

  /** device_state_is_connected. */
  predicate DeviceStateIsConnected(state: int) {
    state == DEVICE_STATE_ACTIVATED
  }

  /** Of all the device states only ACTIVATED counts as connected, and it is
      the one whose name is "activated"; of the connection states only
      ACTIVATED does, and the UNKNOWN state of either kind does not. */
  lemma ConnectedOnlyWhenActivated(state: int)
    ensures DeviceStateIsConnected(state) <==> DeviceStateToStr(state) == "activated"
    ensures ConnectionStateIsConnected(state) ==> !DeviceStateIsConnected(state)
    ensures !ConnectionStateIsConnected(ACTIVE_CONNECTION_STATE_UNKNOWN)
    ensures !ConnectionStateIsConnected(ACTIVE_CONNECTION_STATE_ACTIVATING)
    ensures !DeviceStateIsConnected(DEVICE_STATE_UNKNOWN)
  {
  }

  /** nm_device_type_to_str, logged when a device is added. */
  function DeviceTypeToStr(deviceType: int): (s: string)
    ensures s == "unknown" <==> !(DEVICE_TYPE_ETHERNET <= deviceType <= DEVICE_TYPE_OLPC_MESH)
  {
    if deviceType == DEVICE_TYPE_ETHERNET then "ethernet"
    else if deviceType == DEVICE_TYPE_WIFI then "wifi"
    else if deviceType == DEVICE_TYPE_GSM then "gsm"
    else if deviceType == DEVICE_TYPE_CDMA then "cdma"
    else if deviceType == DEVICE_TYPE_BT then "blue tooth"
    else if deviceType == DEVICE_TYPE_OLPC_MESH then "OLPC mesh"
    else "unknown"
  }

  /** The medium device_added_cb gives a device of the reported DeviceType:
      always exactly one medium, and UNKNOWN exactly for the types the
      switch does not list. */
  function DeviceTypeMedium(deviceType: int): (m: bv32)
    ensures m in NetworkMedium.MEDIUMS
    ensures m == NetworkMedium.MEDIUM_UNKNOWN <==> DeviceTypeToStr(deviceType) == "unknown"
  {
    if deviceType == DEVICE_TYPE_ETHERNET then NetworkMedium.MEDIUM_ETHERNET
    else if deviceType == DEVICE_TYPE_WIFI || deviceType == DEVICE_TYPE_OLPC_MESH then NetworkMedium.MEDIUM_WIFI
    else if deviceType == DEVICE_TYPE_GSM || deviceType == DEVICE_TYPE_CDMA then NetworkMedium.MEDIUM_CELLULAR
    else if deviceType == DEVICE_TYPE_BT then NetworkMedium.MEDIUM_BLUETOOTH
    else NetworkMedium.MEDIUM_UNKNOWN
  }

  /** The medium of a device is printed as a single medium name, and the two
      kinds of wireless device and the two kinds of cellular modem are
      classified alike. */
  lemma DeviceMediumIsOneName(deviceType: int)
    ensures NetworkMedium.MediumToString(DeviceTypeMedium(deviceType)).Some?
    ensures NetworkMedium.MediumToString(DeviceTypeMedium(deviceType)).value in NetworkMedium.MEDIUM_NAMES
    ensures DeviceTypeMedium(DEVICE_TYPE_WIFI) == DeviceTypeMedium(DEVICE_TYPE_OLPC_MESH)
    ensures DeviceTypeMedium(DEVICE_TYPE_GSM) == DeviceTypeMedium(DEVICE_TYPE_CDMA)
  {
    var m := DeviceTypeMedium(deviceType);
    var i :| 0 <= i < |NetworkMedium.MEDIUMS| && NetworkMedium.MEDIUMS[i] == m;
    NetworkMedium.SingleMedium(i);
  }

  /** A value of the PropertiesChanged map, reduced to what the handler
      looks at: its GType and, for the two types it wants, the value. */
  datatype Variant = Boolean(b: bool) | Uint(u: nat) | OtherType(typeName: string)

  /** What connection_connection_active_properties_changed_cb does with
      one entry of the map. */
  datatype PropertyAction =
    | UpdateDefault(isDefault: bool)  // default_connection_update (m, c, set)
    | SetState(state: nat)   // connection_state_set (c, state, false)
    | LogWrongType           // a "Default" or "State" of the wrong type: only logged
    | Ignore                 // any other key

  /** The handler's decision for one key: a boolean "Default" updates the
      default connection with that value, a uint "State" sets the state, the
      same keys with a mistyped value are only logged, and other keys do
      nothing. */
  function PropertyActionOf(key: string, value: Variant): (a: PropertyAction)
    ensures a.UpdateDefault? <==> key == "Default" && value.Boolean?
    ensures a.UpdateDefault? ==> a.isDefault == value.b
    ensures a.SetState? <==> key == "State" && value.Uint?
    ensures a.SetState? ==> a.state == value.u
    ensures a.Ignore? <==> key != "Default" && key != "State"
  {
    if key == "Default" then
      (if value.Boolean? then UpdateDefault(value.b) else LogWrongType)
    else if key == "State" then
      (if value.Uint? then SetState(value.u) else LogWrongType)
    else Ignore
  }
}
