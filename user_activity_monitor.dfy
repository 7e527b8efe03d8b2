/** The user-activity monitor (src/user-activity-monitor.h and
    src/user-activity-monitor.c): the idle state reported by the system's
    idle hint, the time it was entered, and the signal emitted on each
    change.  The clock is a parameter; the D-Bus proxies that deliver the
    hint are not part of this model. */
module UserActivityMonitor {
  import opened Wrappers

  /** enum wc_user_activity_status. */
  const USER_UNKNOWN: int := 0
  const USER_ACTIVE: int := 1
  const USER_IDLE: int := 2

  /** wc_user_activity_status_string. */
  function StatusString(s: int): (name: string)
    ensures name == "invalid" <==> s !in {USER_UNKNOWN, USER_ACTIVE, USER_IDLE}
    ensures s in {USER_UNKNOWN, USER_ACTIVE, USER_IDLE} ==> StatusOfString(name) == Some(s)
  {
    if s == USER_UNKNOWN then "unknown"
    else if s == USER_IDLE then "idle"
    else if s == USER_ACTIVE then "active"
    else "invalid"
  }

  /** The reading of a status name: the partner of StatusString. */
  function StatusOfString(name: string): Option<int> {
    if name == "unknown" then Some(USER_UNKNOWN)
    else if name == "active" then Some(USER_ACTIVE)
    else if name == "idle" then Some(USER_IDLE)
    else None
  }

  /** The four names are pairwise distinct: two statuses with the same name
      are the same status, or both invalid. */
  lemma StatusStringsDistinct(s1: int, s2: int)
    requires StatusString(s1) == StatusString(s2)
    ensures s1 == s2 || (s1 !in {USER_UNKNOWN, USER_ACTIVE, USER_IDLE} && s2 !in {USER_UNKNOWN, USER_ACTIVE, USER_IDLE})
  {
    if s1 in {USER_UNKNOWN, USER_ACTIVE, USER_IDLE} {
      assert StatusOfString(StatusString(s1)) == Some(s1);
    }
  }

  /** A hint that restates the current state (lines 115-120). */
  predicate Gratuitous(status: int, idle: bool) {
    (idle && status == USER_IDLE) || (!idle && status == USER_ACTIVE)
  }

  function StatusOfHint(idle: bool): (s: int)
    ensures s == USER_IDLE || s == USER_ACTIVE
    ensures Gratuitous(s, idle)
    ensures !Gratuitous(s, !idle)
  {
    if idle then USER_IDLE else USER_ACTIVE
  }

  /** time_in_previous_state (lines 122-129): -1 after a time warp. */
  function Elapsed(n: nat, time: nat): (d: int)
    ensures d == -1 <==> n <= time
    ensures d >= 0 ==> time + d == n
  {
    if n <= time then -1 else n - time
  }

  /** The first hint after construction, in either direction, is a change. */
  lemma FirstHintChanges(idle: bool)
    ensures !Gratuitous(USER_UNKNOWN, idle)
  {
  }

  class Monitor {
    var idle: int
    var time: nat
    /** The user-idle-active signals emitted so far: new status and time in
        the previous state. */
    var signals: seq<(int, int)>

    /** wc_user_activity_monitor_init before its first refresh. */
    constructor (n: nat)
      ensures idle == USER_UNKNOWN && time == n && signals == []
    {
      idle := USER_UNKNOWN;
      time := n;
      signals := [];
    }

    /** idle_changed at time n. */
    method IdleChanged(hint: bool, n: nat)
      modifies this
      ensures Gratuitous(old(idle), hint) ==> idle == old(idle) && time == old(time) && signals == old(signals)
      ensures !Gratuitous(old(idle), hint) ==>
        idle == StatusOfHint(hint) && time == n && signals == old(signals) + [(idle, Elapsed(n, old(time)))]
    {
      if Gratuitous(idle, hint) {
        return;
      }
      var previous: int;
      if n <= time {
        previous := -1;
      } else {
        previous := n - time;
      }
      time := n;
      idle := if hint then USER_IDLE else USER_ACTIVE;
      signals := signals + [(idle, previous)];
    }

    /** wc_user_activity_monitor_status. */
    function Status(): int
      reads this
    {
      idle
    }

    /** wc_user_activity_monitor_status_time_abs at time n: a time in the
        future is pulled back to n. */
    method StatusTimeAbs(n: nat) returns (t: nat)
      modifies this
      ensures t <= n && t == time
      ensures time == if n <= old(time) then n else old(time)
      ensures idle == old(idle) && signals == old(signals)
    {
      if n <= time {
        time := n;
      }
      return time;
    }

    /** wc_user_activity_monitor_status_time: never negative. */
    method StatusTimeSince(n: nat) returns (d: int)
      modifies this
      ensures d >= 0 && d == n - time
      ensures time == if n <= old(time) then n else old(time)
      ensures idle == old(idle) && signals == old(signals)
    {
      var t := StatusTimeAbs(n);
      d := n - t;
    }
  }
}
