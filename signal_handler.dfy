/** The Unix signal handler of src/signal-handler.c: a singleton that counts,
    per signal, how often it has been asked to catch it, and keeps the signals
    with a non-zero count blocked and routed to one signalfd.  The kernel side
    (signalfd, fcntl, pthread_sigmask, the GLib watch) is represented by the
    fields it sets: the descriptor signalfd returns is a parameter, the
    installed mask is a set, and the watches added are counted. */
module SignalHandler {
  import opened Wrappers

  /** glibc's _NSIG: signals are numbered 1 .. NSIG - 1. */
  const NSIG: int := 65

  type Counts = s: seq<int> | |s| == NSIG witness seq(NSIG, _ => 0)

  /** A signal the code accepts: 0 < signal < _NSIG. */
  predicate IsSignal(signal: int) {
    0 < signal < NSIG
  }

  predicate NonNegative(s: Counts) {
    forall i :: 0 <= i < NSIG ==> s[i] >= 0
  }

  /** The mask refabricate installs: every signal with a non-zero count. */
  function MaskOf(s: Counts): (m: set<int>)
    ensures forall i :: i in m <==> IsSignal(i) && s[i] != 0
  {
    set i | 1 <= i < NSIG && s[i] != 0
  }

  /** The counts after catching signal. */
  function Caught(s: Counts, signal: int): Counts
    requires IsSignal(signal)
  {
    s[signal := s[signal] + 1]
  }

  /** The counts after ignoring signal: a signal not being watched is left
      at zero. */
  function Ignored(s: Counts, signal: int): Counts
    requires IsSignal(signal)
  {
    if s[signal] == 0 then s else s[signal := s[signal] - 1]
  }

  /** The counts after catching every signal of mask. */
  function CaughtMask(s: Counts, mask: set<int>): Counts {
    seq(NSIG, i requires 0 <= i < NSIG => if IsSignal(i) && i in mask then s[i] + 1 else s[i])
  }

  /** The counts after ignoring every signal of mask. */
  function IgnoredMask(s: Counts, mask: set<int>): Counts {
    seq(NSIG, i requires 0 <= i < NSIG => if IsSignal(i) && i in mask && s[i] != 0 then s[i] - 1 else s[i])
  }

  /** Some signal of mask has a count of n. */
  predicate SomeAt(s: Counts, mask: set<int>, n: int) {
    exists i :: IsSignal(i) && i in mask && s[i] == n
  }

  /** Catching adds the signal to the mask, and changes the mask exactly when
      the count was zero: the case in which catch rebuilds. */
  lemma CatchMask(s: Counts, signal: int)
    requires NonNegative(s) && IsSignal(signal)
    ensures NonNegative(Caught(s, signal))
    ensures MaskOf(Caught(s, signal)) == MaskOf(s) + {signal}
    ensures MaskOf(Caught(s, signal)) != MaskOf(s) <==> s[signal] == 0
  {
    assert signal in MaskOf(Caught(s, signal));
  }

  /** Ignoring keeps the counts non-negative, removes the signal from the
      mask exactly when its count was one, and otherwise keeps the mask: the
      case in which ignore rebuilds. */
  lemma IgnoreMask(s: Counts, signal: int)
    requires NonNegative(s) && IsSignal(signal)
    ensures NonNegative(Ignored(s, signal))
    ensures s[signal] == 1 ==> MaskOf(Ignored(s, signal)) == MaskOf(s) - {signal}
    ensures s[signal] != 1 ==> MaskOf(Ignored(s, signal)) == MaskOf(s)
    ensures MaskOf(Ignored(s, signal)) != MaskOf(s) <==> s[signal] == 1
  {
    if s[signal] == 1 {
      assert signal in MaskOf(s);
      assert signal !in MaskOf(Ignored(s, signal));
    }
  }

  /** Ignoring a signal undoes catching it, and catching undoes ignoring a
      signal that is being watched. */
  lemma CatchIgnoreRoundTrip(s: Counts, signal: int)
    requires NonNegative(s) && IsSignal(signal)
    ensures Ignored(Caught(s, signal), signal) == s
    ensures s[signal] > 0 ==> Caught(Ignored(s, signal), signal) == s
  {
  }

  /** Catching a mask adds its signals to the installed mask, and changes it
      exactly when one of them had a count of zero. */
  lemma CatchMaskMask(s: Counts, mask: set<int>)
    requires NonNegative(s)
    ensures NonNegative(CaughtMask(s, mask))
    ensures MaskOf(CaughtMask(s, mask)) == MaskOf(s) + (set i | i in mask && IsSignal(i))
    ensures MaskOf(CaughtMask(s, mask)) != MaskOf(s) <==> SomeAt(s, mask, 0)
  {
    var t := CaughtMask(s, mask);
    if SomeAt(s, mask, 0) {
      var i :| IsSignal(i) && i in mask && s[i] == 0;
      assert i in MaskOf(t) && i !in MaskOf(s);
    }
  }

  /** Ignoring a mask keeps the counts non-negative, drops from the installed
      mask exactly its signals whose count was one, and changes it exactly
      when there is such a signal. */
  lemma IgnoreMaskMask(s: Counts, mask: set<int>)
    requires NonNegative(s)
    ensures NonNegative(IgnoredMask(s, mask))
    ensures MaskOf(IgnoredMask(s, mask)) == MaskOf(s) - (set i | i in mask && IsSignal(i) && s[i] == 1)
    ensures MaskOf(IgnoredMask(s, mask)) != MaskOf(s) <==> SomeAt(s, mask, 1)
  {
    var t := IgnoredMask(s, mask);
    if SomeAt(s, mask, 1) {
      var i :| IsSignal(i) && i in mask && s[i] == 1;
      assert i in MaskOf(s) && i !in MaskOf(t);
    }
  }

  /** Ignoring a mask undoes catching it. */
  lemma CatchIgnoreMaskRoundTrip(s: Counts, mask: set<int>)
    requires NonNegative(s)
    ensures IgnoredMask(CaughtMask(s, mask), mask) == s
  {
    var t := IgnoredMask(CaughtMask(s, mask), mask);
    assert forall i :: 0 <= i < NSIG ==> t[i] == s[i];
  }

  /** struct _WCSignalHandler: the descriptor of the signalfd (-1 before the
      first rebuild) and the per-signal counts.  blocked is the mask last
      installed, watches the number of GLib watches added on the descriptor,
      and rebuilds the number of calls of refabricate. */
  class Handler {
    var sigfd: int
    const signals: array<int>
    var blocked: set<int>
    var watches: nat
    ghost var rebuilds: nat

    /** The counts are never negative and the installed mask is exactly the
        signals with a non-zero count. */
    ghost predicate Valid()
      reads this, signals
    {
      signals.Length == NSIG && NonNegative(signals[..]) && blocked == MaskOf(signals[..])
    }

    /** wc_signal_handler_init, with the zeroed counts of g_object_new. */
    constructor ()
      ensures Valid() && fresh(signals)
      ensures sigfd == -1 && signals[..] == seq(NSIG, _ => 0) && blocked == {} && watches == 0 && rebuilds == 0
    {
      sigfd := -1;
      signals := new int[NSIG](_ => 0);
      blocked := {};
      watches := 0;
      rebuilds := 0;
      new;
      assert MaskOf(signals[..]) == {};
    }

    /** refabricate: installs the mask of the signals with a non-zero count
        and takes the descriptor signalfd returns (fdResult); the first time,
        when sigfd was -1, a watch is added on it. */
    method Refabricate(fdResult: int)
      requires signals.Length == NSIG
      modifies this
      ensures blocked == MaskOf(signals[..]) && sigfd == fdResult
      ensures watches == old(watches) + (if old(sigfd) == -1 then 1 else 0)
      ensures rebuilds == old(rebuilds) + 1
    {
      var mask: set<int> := {};
      var i := 1;
      while i < NSIG
        invariant 1 <= i <= NSIG
        invariant forall j :: j in mask <==> 1 <= j < i && signals[j] != 0
      {
        if signals[i] != 0 {
          mask := mask + {i};
        }
        i := i + 1;
      }
      assert mask == MaskOf(signals[..]);
      var init := sigfd == -1;
      sigfd := fdResult;
      if init {
        watches := watches + 1;
      }
      blocked := mask;
      rebuilds := rebuilds + 1;
    }

    /** wc_signal_handler_catch: one more request for signal; the mask is
        rebuilt exactly when the signal is new. */
    method Catch(signal: int, fdResult: int)
      requires Valid() && IsSignal(signal)
      modifies this, signals
      ensures Valid()
      ensures signals[..] == Caught(old(signals[..]), signal)
      ensures old(signals[signal]) == 0 ==> rebuilds == old(rebuilds) + 1 && sigfd == fdResult
      ensures old(signals[signal]) != 0 ==> rebuilds == old(rebuilds) && sigfd == old(sigfd) && watches == old(watches)
    {
      CatchMask(signals[..], signal);
      signals[signal] := signals[signal] + 1;
      if signals[signal] == 1 {
        Refabricate(fdResult);
      }
    }

    /** wc_signal_handler_ignore: a signal not being watched is only logged;
        otherwise one request fewer, and the mask is rebuilt exactly when the
        count reaches zero. */
    method Ignore(signal: int, fdResult: int)
      requires Valid() && IsSignal(signal)
      modifies this, signals
      ensures Valid()
      ensures signals[..] == Ignored(old(signals[..]), signal)
      ensures old(signals[signal]) == 1 ==> rebuilds == old(rebuilds) + 1 && sigfd == fdResult
      ensures old(signals[signal]) != 1 ==> rebuilds == old(rebuilds) && sigfd == old(sigfd) && watches == old(watches)
    {
      IgnoreMask(signals[..], signal);
      if signals[signal] == 0 {
        return;
      }
      signals[signal] := signals[signal] - 1;
      if signals[signal] == 0 {
        Refabricate(fdResult);
      }
    }

    /** wc_signal_handler_catch_mask: catches each signal of mask and
        rebuilds once, exactly when one of them is new. */
    method CatchSet(mask: set<int>, fdResult: int)
      requires Valid()
      modifies this, signals
      ensures Valid()
      ensures signals[..] == CaughtMask(old(signals[..]), mask)
      ensures SomeAt(old(signals[..]), mask, 0) ==> rebuilds == old(rebuilds) + 1 && sigfd == fdResult
      ensures !SomeAt(old(signals[..]), mask, 0) ==> rebuilds == old(rebuilds) && sigfd == old(sigfd) && watches == old(watches)
    {
      ghost var s := signals[..];
      CatchMaskMask(s, mask);
      var needRefab := false;
      var i := 1;
      while i < NSIG
        invariant 1 <= i <= NSIG
        invariant blocked == old(blocked) && sigfd == old(sigfd) && watches == old(watches) && rebuilds == old(rebuilds)
        invariant forall j :: 0 <= j < NSIG ==> signals[j] == if 1 <= j < i && j in mask then s[j] + 1 else s[j]
        invariant needRefab <==> exists j :: 1 <= j < i && j in mask && s[j] == 0
      {
        if i in mask {
          signals[i] := signals[i] + 1;
          if signals[i] == 1 {
            needRefab := true;
          }
        }
        i := i + 1;
      }
      assert signals[..] == CaughtMask(s, mask);
      if needRefab {
        Refabricate(fdResult);
      }
    }

    /** wc_signal_handler_ignore_mask: ignores each signal of mask, skipping
        those not being watched, and rebuilds once, exactly when one of the
        counts reaches zero. */
    method IgnoreSet(mask: set<int>, fdResult: int)
      requires Valid()
      modifies this, signals
      ensures Valid()
      ensures signals[..] == IgnoredMask(old(signals[..]), mask)
      ensures SomeAt(old(signals[..]), mask, 1) ==> rebuilds == old(rebuilds) + 1 && sigfd == fdResult
      ensures !SomeAt(old(signals[..]), mask, 1) ==> rebuilds == old(rebuilds) && sigfd == old(sigfd) && watches == old(watches)
    {
      ghost var s := signals[..];
      IgnoreMaskMask(s, mask);
      var needRefab := false;
      var i := 1;
      while i < NSIG
        invariant 1 <= i <= NSIG
        invariant blocked == old(blocked) && sigfd == old(sigfd) && watches == old(watches) && rebuilds == old(rebuilds)
        invariant forall j :: 0 <= j < NSIG ==> signals[j] == if 1 <= j < i && j in mask && s[j] != 0 then s[j] - 1 else s[j]
        invariant needRefab <==> exists j :: 1 <= j < i && j in mask && s[j] == 1
      {
        if i in mask {
          if signals[i] == 0 {
            i := i + 1;
            continue;
          }
          signals[i] := signals[i] - 1;
          if signals[i] == 0 {
            needRefab := true;
          }
        }
        i := i + 1;
      }
      assert signals[..] == IgnoredMask(s, mask);
      if needRefab {
        Refabricate(fdResult);
      }
    }
  }

  /** The static variable of wc_signal_handler_new holding the singleton, and
      its GObject reference count. */
  class Singleton {
    var handler: Handler?
    var refs: nat

    ghost predicate Valid()
      reads this, handler, if handler != null then {handler.signals} else {}
    {
      (handler == null <==> refs == 0) && (handler != null ==> handler.Valid())
    }

    constructor ()
      ensures Valid() && handler == null
    {
      handler := null;
      refs := 0;
    }

    /** wc_signal_handler_new: the first call creates the handler, later calls
        take another reference to the same one; a mask given is caught. */
    method New(mask: Option<set<int>>, fdResult: int) returns (sh: Handler)
      requires Valid()
      modifies this, if handler != null then {handler, handler.signals} else {}
      ensures Valid() && sh == handler && refs == old(refs) + 1
      ensures old(handler) != null ==> sh == old(handler)
      ensures old(handler) == null ==> fresh(sh) && fresh(sh.signals)
      ensures var before := if old(handler) == null then seq(NSIG, _ => 0) else old(handler.signals[..]);
        sh.signals[..] == if mask.Some? then CaughtMask(before, mask.value) else before
    {
      if handler != null {
        refs := refs + 1;
      } else {
        handler := new Handler();
        refs := 1;
      }
      sh := handler;
      if mask.Some? {
        sh.CatchSet(mask.value, fdResult);
      }
    }
  }
}
