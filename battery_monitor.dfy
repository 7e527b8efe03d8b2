/** A battery of the battery monitor (src/battery-monitor.h and
    src/battery-monitor.c): five HAL properties cached with a version
    counter, reread after a change notice or when stale.  The HAL reads and
    the clock are parameters; the proxies and the GLib timer are not part of
    this model (a pending timer is a flag). */
module BatteryMonitor {
  import opened Wrappers

  const CHARGER_UNKNOWN: int := 0
  const CHARGER_NONE: int := 1
  const CHARGER_WALL: int := 2
  const CHARGER_USB: int := 3

  /** wc_battery_charger_to_string. */
  function ChargerString(charger: int): (name: string)
    ensures name == "invalid" <==> !(0 <= charger <= 3)
    ensures 0 <= charger <= 3 ==> ChargerOfString(name) == Some(charger)
  {
    if charger == CHARGER_UNKNOWN then "unknown"
    else if charger == CHARGER_NONE then "none"
    else if charger == CHARGER_WALL then "wall"
    else if charger == CHARGER_USB then "usb"
    else "invalid"
  }

  /** The partner of ChargerString. */
  function ChargerOfString(name: string): Option<int> {
    if name == "unknown" then Some(CHARGER_UNKNOWN)
    else if name == "none" then Some(CHARGER_NONE)
    else if name == "wall" then Some(CHARGER_WALL)
    else if name == "usb" then Some(CHARGER_USB)
    else None
  }

  /** The five names are pairwise distinct. */
  lemma ChargerStringsDistinct(c1: int, c2: int)
    requires ChargerString(c1) == ChargerString(c2)
    ensures c1 == c2 || (!(0 <= c1 <= 3) && !(0 <= c2 <= 3))
  {
    if 0 <= c1 <= 3 {
      assert ChargerOfString(ChargerString(c1)) == Some(c1);
    }
  }

  /** Lines 168-178: the charger after reading maemo.charger.type; a type
      the code does not know keeps the previous value. */
  function ChargerOfType(chargerType: Option<string>, previous: int): (c: int)
    ensures chargerType.None? ==> c == CHARGER_UNKNOWN
    ensures chargerType.Some? && chargerType.value !in {"none", "wall charger", "host 500 mA"} ==> c == previous
    ensures chargerType.Some? && chargerType.value in {"none", "wall charger", "host 500 mA"} ==>
      CHARGER_NONE <= c <= CHARGER_USB && HalChargerType(c) == chargerType.value
  {
    if chargerType.None? then CHARGER_UNKNOWN
    else if chargerType.value == "none" then CHARGER_NONE
    else if chargerType.value == "wall charger" then CHARGER_WALL
    else if chargerType.value == "host 500 mA" then CHARGER_USB
    else previous
  }

  /** The maemo.charger.type value of each known charger: the partner of
      ChargerOfType. */
  function HalChargerType(c: int): string
    requires CHARGER_NONE <= c <= CHARGER_USB
  {
    if c == CHARGER_NONE then "none" else if c == CHARGER_WALL then "wall charger" else "host 500 mA"
  }

  /** What one round of HAL reads returns: None for a read that failed. */
  datatype Readings = Readings(isCharging: Option<int>, isDischarging: Option<int>,
                               mv: Option<int>, mah: Option<int>, chargerType: Option<string>)

  /** The five cached properties. */
  datatype Fields = Fields(isCharging: int, isDischarging: int, mv: int, mah: int, charger: int)

  /** The fields after a reread of f (lines 155-178). */
  function Reread(f: Fields, r: Readings): (g: Fields)
    ensures g.isCharging == if r.isCharging.Some? then r.isCharging.value else f.isCharging
    ensures g.isDischarging == if r.isDischarging.Some? then r.isDischarging.value else f.isDischarging
    ensures g.mv == if r.mv.Some? then r.mv.value else f.mv
    ensures g.mah == if r.mah.Some? then r.mah.value else f.mah
    ensures g.charger == ChargerOfType(r.chargerType, f.charger)
  {
    Fields(r.isCharging.GetOr(f.isCharging), r.isDischarging.GetOr(f.isDischarging),
           r.mv.GetOr(f.mv), r.mah.GetOr(f.mah), ChargerOfType(r.chargerType, f.charger))
  }

  /** Reads that all fail and a charger type the code does not know change
      nothing. */
  lemma RereadNothingRead(f: Fields, t: string)
    requires t !in {"none", "wall charger", "host 500 mA"}
    ensures Reread(f, Readings(None, None, None, None, Some(t))) == f
  {
  }

  /** The properties whose change notice queues a reread (lines 226-232). */
  const INTERESTING: seq<string> := [
    "battery.rechargeable.is_discharging",
    "battery.rechargeable.is_charging",
    "battery.voltage.current",
    "battery.reporting.current",
    "maemo.charger.type"]

  /** The age after which a cached value is reread (line 287), in
      milliseconds. */
  const FRESHNESS_MS: nat := 5000

  predicate Stale(lastUpdate: nat, n: nat) {
    lastUpdate + FRESHNESS_MS < n
  }

  class Battery {
    var isCharging: int
    var isDischarging: int
    var mv: int
    var mah: int
    var charger: int
    var version: nat
    var lastUpdate: nat
    /** properties_reread != 0: a reread timer is pending. */
    var rereadPending: bool
    /** The number of reread timers scheduled so far. */
    var timersScheduled: nat
    /** The battery-status signals emitted: the fields before and after. */
    var signals: seq<(Fields, Fields)>

    function Current(): Fields
      reads this
    {
      Fields(isCharging, isDischarging, mv, mah, charger)
    }

    /** wc_battery_init on a zero-filled object. */
    constructor ()
      ensures Current() == Fields(-1, -1, -1, -1, CHARGER_UNKNOWN)
      ensures version == 0 && lastUpdate == 0 && !rereadPending && timersScheduled == 0 && signals == []
    {
      isCharging := -1;
      isDischarging := -1;
      mv := -1;
      mah := -1;
      charger := CHARGER_UNKNOWN;
      version := 0;
      lastUpdate := 0;
      rereadPending := false;
      timersScheduled := 0;
      signals := [];
    }

    /** Lines 155-178: each numeric field is overwritten only by a read
        that succeeded. */
    method ApplyReadings(r: Readings)
      modifies this
      ensures Current() == Reread(old(Current()), r)
      ensures version == old(version) && lastUpdate == old(lastUpdate) && rereadPending == old(rereadPending)
      ensures timersScheduled == old(timersScheduled) && signals == old(signals)
    {
      if r.isCharging.Some? { isCharging := r.isCharging.value; }
      if r.isDischarging.Some? { isDischarging := r.isDischarging.value; }
      if r.mv.Some? { mv := r.mv.value; }
      if r.mah.Some? { mah := r.mah.value; }
      if r.chargerType.None? {
        charger := CHARGER_UNKNOWN;
      } else if r.chargerType.value == "none" {
        charger := CHARGER_NONE;
      } else if r.chargerType.value == "wall charger" {
        charger := CHARGER_WALL;
      } else if r.chargerType.value == "host 500 mA" {
        charger := CHARGER_USB;
      }
    }

    /** battery_properties_reread with the HAL answers r at time n. */
    method PropertiesReread(r: Readings, n: nat)
      modifies this
      ensures Current() == Reread(old(Current()), r)
      ensures lastUpdate == n && !rereadPending && timersScheduled == old(timersScheduled)
      ensures Current() != old(Current()) ==> version == old(version) + 1 && signals == old(signals) + [(old(Current()), Current())]
      ensures Current() == old(Current()) ==> version == old(version) && signals == old(signals)
    {
      rereadPending := false;
      var before := Current();
      ApplyReadings(r);
      lastUpdate := n;
      if before.isCharging != isCharging || before.isDischarging != isDischarging
         || before.mv != mv || before.mah != mah || before.charger != charger {
        version := version + 1;
        signals := signals + [(before, Current())];
      }
    }

    /** wc_battery_refresh_properties: true exactly when a field changed. */
    method RefreshProperties(r: Readings, n: nat) returns (changed: bool)
      modifies this
      ensures changed <==> version != old(version)
      ensures changed <==> Reread(old(Current()), r) != old(Current())
      ensures Current() == Reread(old(Current()), r) && lastUpdate == n && !rereadPending
      ensures timersScheduled == old(timersScheduled)
      ensures changed ==> signals == old(signals) + [(old(Current()), Current())]
      ensures !changed ==> signals == old(signals)
    {
      var v := version;
      PropertiesReread(r, n);
      changed := version != v;
    }

    /** battery_check_freshness: reread only when the values are older than
        five seconds. */
    method CheckFreshness(r: Readings, n: nat)
      modifies this
      ensures Stale(old(lastUpdate), n) ==> Current() == Reread(old(Current()), r) && lastUpdate == n && !rereadPending
      ensures !Stale(old(lastUpdate), n) ==>
        Current() == old(Current()) && lastUpdate == old(lastUpdate) && version == old(version)
        && rereadPending == old(rereadPending) && signals == old(signals)
      ensures timersScheduled == old(timersScheduled)
    {
      if lastUpdate + FRESHNESS_MS < n {
        var _ := RefreshProperties(r, n);
      }
    }

    /** wc_battery_is_charging and the other accessors: the cached value
        after a freshness check. */
    method IsCharging(r: Readings, n: nat) returns (v: int)
      modifies this
      ensures v == isCharging
      ensures Stale(old(lastUpdate), n) ==> Current() == Reread(old(Current()), r)
      ensures !Stale(old(lastUpdate), n) ==> Current() == old(Current())
    {
      CheckFreshness(r, n);
      v := isCharging;
    }

    /** battery_properties_modified_cb with the debug level below 2: a
        notice naming one of the interesting properties queues a reread
        unless one is pending; the scan stops once one is pending. */
    method PropertiesModified(props: seq<string>)
      modifies this
      ensures Current() == old(Current()) && version == old(version) && lastUpdate == old(lastUpdate)
      ensures signals == old(signals)
      ensures rereadPending <==> old(rereadPending) || exists i :: 0 <= i < |props| && props[i] in INTERESTING
      ensures timersScheduled == old(timersScheduled) + (if !old(rereadPending) && rereadPending then 1 else 0)
    {
      var i := 0;
      while !rereadPending && i < |props|
        invariant 0 <= i <= |props|
        invariant Current() == old(Current()) && version == old(version) && lastUpdate == old(lastUpdate)
        invariant signals == old(signals)
        invariant old(rereadPending) ==> rereadPending && timersScheduled == old(timersScheduled)
        invariant !old(rereadPending) ==>
          (rereadPending <==> exists j :: 0 <= j < i && props[j] in INTERESTING)
          && timersScheduled == old(timersScheduled) + (if rereadPending then 1 else 0)
      {
        var j := 0;
        while j < |INTERESTING|
          invariant 0 <= j <= |INTERESTING|
          invariant forall l :: 0 <= l < j ==> props[i] != INTERESTING[l]
        {
          if props[i] == INTERESTING[j] {
            break;
          }
          j := j + 1;
        }
        if j < |INTERESTING| {
          if !rereadPending {
            rereadPending := true;
            timersScheduled := timersScheduled + 1;
          }
        }
        i := i + 1;
      }
    }
  }
}
