/** The bug lifecycle IDLE -> DETECTED -> CORRECTING -> FIXED and the timer
    effect that drives it. Times are whole milliseconds. */
module Lifecycle {
  import opened Wrappers
  import opened Signals

  datatype BugState = Idle | Detected | Correcting | Fixed

  /** Position of a state along the lifecycle. */
  function Rank(s: BugState): nat {
    match s
    case Idle => 0
    case Detected => 1
    case Correcting => 2
    case Fixed => 3
  }

  /** scannerDelay and scannerDuration, in milliseconds. */
  const ScannerDelayMs: nat := 1000
  const ScannerDurationMs: nat := 10000
  /** How long DETECTED and CORRECTING last. */
  const DetectedMs: nat := 1000
  const CorrectingMs: nat := 1500

  /** `bugTime * 1000`: the scanner's initial delay plus the fraction of one scan
      it takes to reach the bug tick, at 100 ms per tick. */
  function BugTimeMs(bugTick: nat): (ms: nat)
    ensures ms == ScannerDelayMs + 100 * bugTick
  {
    ScannerDelayMs + bugTick * (ScannerDurationMs / BitsInLoop)
  }

  /** Different bug ticks give different detection times, all within the first
      scan: so a new bug tick is always a changed effect dependency. */
  lemma BugTimeSeparatesTicks(t1: nat, t2: nat)
    requires t1 < BitsInLoop
    ensures ScannerDelayMs <= BugTimeMs(t1) < ScannerDelayMs + ScannerDurationMs
    ensures BugTimeMs(t1) == BugTimeMs(t2) <==> t1 == t2
  {
  }

  /** A timer that will set the state to `next` after `delayMs`. */
  datatype Timer = Timer(next: BugState, delayMs: nat)

  /** The timer the lifecycle effect sets for the given dependency values: none
      while manually paused or once FIXED; otherwise one that advances the state
      by exactly one step. */
  function Schedule(state: BugState, bugTimeMs: nat, paused: bool): (t: Option<Timer>)
    ensures t.None? <==> paused || state == Fixed
    ensures t.Some? ==> Rank(t.value.next) == Rank(state) + 1
    ensures t.Some? ==>
      t.value.delayMs == (if state == Idle then bugTimeMs else if state == Detected then DetectedMs else CorrectingMs)
  {
    if paused then None
    else match state
      case Idle => Some(Timer(Detected, bugTimeMs))
      case Detected => Some(Timer(Correcting, DetectedMs))
      case Correcting => Some(Timer(Fixed, CorrectingMs))
      case Fixed => None
  }

  /** The timers the lifecycle sets, one after the other, from `state` when
      nothing pauses or restarts it: each one fires into the next state. */
  function Run(state: BugState, bugTimeMs: nat): (r: seq<Timer>)
    ensures |r| == 3 - Rank(state)
    ensures forall k :: 0 <= k < |r| ==> Rank(r[k].next) == Rank(state) + k + 1
    decreases 3 - Rank(state)
  {
    match Schedule(state, bugTimeMs, false)
    case None => []
    case Some(t) => [t] + Run(t.next, bugTimeMs)
  }

  /** From IDLE the lifecycle goes to DETECTED after bugTime, to CORRECTING one
      second later and to FIXED 1.5 seconds after that, skipping and repeating
      no state. */
  lemma LifecycleFromIdle(bugTick: nat)
    ensures Run(Idle, BugTimeMs(bugTick)) ==
      [Timer(Detected, BugTimeMs(bugTick)), Timer(Correcting, DetectedMs), Timer(Fixed, CorrectingMs)]
  {
    var b := BugTimeMs(bugTick);
    assert Run(Fixed, b) == [];
    assert Run(Correcting, b) == [Timer(Fixed, CorrectingMs)];
    assert Run(Detected, b) == [Timer(Correcting, DetectedMs), Timer(Fixed, CorrectingMs)];
  }

  // ---------------------------------------------------------------------------
  // The effect and its dependencies

  /** The values a run of the lifecycle effect depends on. `epoch` is the
      animation key, or 0 for a dependency list that omits it. */
  datatype Deps = Deps(state: BugState, bugTimeMs: nat, paused: bool, epoch: nat)

  /** The dependency list as written: bugState, bugTime, isManuallyPaused. */
  function SourceDeps(state: BugState, bugTick: nat, paused: bool, animationKey: nat): Deps {
    Deps(state, BugTimeMs(bugTick), paused, 0)
  }

  /** The dependency list with the animation key added as the restart epoch. */
  function RestartDeps(state: BugState, bugTick: nat, paused: bool, animationKey: nat): Deps {
    Deps(state, BugTimeMs(bugTick), paused, animationKey)
  }

  /** What a commit does to the pending timer: when a dependency changed, the
      cleanup cancels it and the effect sets the timer for the new values;
      otherwise it keeps running. */
  function Reconcile(before: Deps, after: Deps, pending: Option<Timer>): (r: Option<Timer>)
    ensures before != after ==> r == Schedule(after.state, after.bugTimeMs, after.paused)
    ensures before == after ==> r == pending
  {
    if before == after then pending else Schedule(after.state, after.bugTimeMs, after.paused)
  }

  /** As written, injecting the bug tick that is already set, while IDLE and
      playing, changes none of the dependencies: the scan animation restarts
      (the key changes) but the timer set before keeps its shorter remaining
      delay, so DETECTED fires before the scanner reaches the bug. */
  lemma StaleTimerAfterReinjection(bugTick: nat, key: nat, remaining: nat)
    requires remaining < BugTimeMs(bugTick)
    ensures var pending := Some(Timer(Detected, remaining));
      Reconcile(SourceDeps(Idle, bugTick, false, key), SourceDeps(Idle, bugTick, false, key + 1), pending) == pending
      && pending != Schedule(Idle, BugTimeMs(bugTick), false)
  {
  }

  /** With the animation key as epoch, every restart cancels the pending timer and
      sets the full schedule for the new values, whatever was pending before. */
  lemma RestartAlwaysReschedules(
    state: BugState, bugTick: nat, paused: bool, key: nat,
    state': BugState, bugTick': nat, paused': bool, pending: Option<Timer>)
    ensures Reconcile(RestartDeps(state, bugTick, paused, key), RestartDeps(state', bugTick', paused', key + 1), pending)
      == Schedule(state', BugTimeMs(bugTick'), paused')
  {
  }

  /** The epoch changes nothing else: when the key is unchanged, or when one of
      the written dependencies changed anyway, both dependency lists make the
      commit do the same thing. */
  lemma EpochOnlyMattersOnSameDeps(
    state: BugState, bugTick: nat, paused: bool, key: nat,
    state': BugState, bugTick': nat, paused': bool, key': nat, pending: Option<Timer>)
    requires key == key' || SourceDeps(state, bugTick, paused, key) != SourceDeps(state', bugTick', paused', key')
    ensures Reconcile(RestartDeps(state, bugTick, paused, key), RestartDeps(state', bugTick', paused', key'), pending)
      == Reconcile(SourceDeps(state, bugTick, paused, key), SourceDeps(state', bugTick', paused', key'), pending)
  {
  }
}
