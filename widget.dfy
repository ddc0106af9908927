/** The waveform component's state and its event handlers. Every handler ends
    with the commit React performs after the re-render: the lifecycle effect's
    cleanup and re-run when one of its dependencies changed. */
module Widget {
  import opened Wrappers
  import opened Numerals
  import opened Signals
  import opened Lifecycle

  /** The result of pressing "Inject Bug": the tick was taken, or an alert
      rejected it and nothing changed. */
  datatype InjectOutcome = Injected | Rejected

  /** The bug tick the field's text stands for, if it is acceptable: parseInt
      gives a number and it lies in 0 .. 99. */
  function AcceptedTick(text: string): (tick: Option<nat>)
    ensures tick.Some? <==> ParseInt(text).Some? && 0 <= ParseInt(text).value < BitsInLoop
    ensures tick.Some? ==> tick.value == ParseInt(text).value
  {
    match ParseInt(text)
    case Some(n) => if 0 <= n < BitsInLoop then Some(n) else None
    case None => None
  }

  /** Acceptance depends on the number parseInt reads and on nothing else. */
  lemma AcceptedOfParsed(text: string, v: int)
    requires ParseInt(text) == Some(v)
    ensures AcceptedTick(text) == if 0 <= v < BitsInLoop then Some(v) else None
  {
  }

  /** The field accepts the numerals 0 .. 99, possibly followed by text that is
      not a digit ("7.5" is 7), and rejects the numerals from 100 on. */
  lemma NumeralsAccepted(n: nat, tail: string)
    requires tail == [] || !IsDigit(tail[0])
    ensures AcceptedTick(Decimal(n) + tail) == if n < BitsInLoop then Some(n) else None
  {
    var d := Decimal(n);
    ParseIntReadsDecimal("", "", n, tail);
    assert "" + "" + d + tail == d + tail by { assert "" + "" + d == d; }
    var text := d + tail;
    AcceptedOfParsed(text, n);
  }

  /** Every negative number is rejected; "-0" reads as 0 and is accepted. */
  lemma NegativesRejected(n: nat, tail: string)
    requires tail == [] || !IsDigit(tail[0])
    ensures AcceptedTick("-" + Decimal(n) + tail) == if n == 0 then Some(0) else None
  {
    var d := Decimal(n);
    ParseIntReadsDecimal("", "-", n, tail);
    assert "" + "-" + d + tail == "-" + d + tail by { assert "" + "-" == "-"; }
    var text := "-" + d + tail;
    AcceptedOfParsed(text, -(n as int));
  }

  /** Text with no numeral after its white space and sign is rejected: "", "  ",
      "-", "+x" and "abc". */
  lemma NonNumeralsRejected(ws: string, sign: string, rest: string)
    requires forall i :: 0 <= i < |ws| ==> IsJsWhiteSpace(ws[i])
    requires sign == "" || sign == "+" || sign == "-"
    requires rest == [] || !IsDigit(rest[0])
    requires sign == "" && rest != [] ==> !IsJsWhiteSpace(rest[0]) && rest[0] != '-' && rest[0] != '+'
    ensures AcceptedTick(ws + sign + rest) == None
  {
    ParseIntRejectsNonNumeral(ws, sign, rest);
  }

  /** The empty text, which a number field holds after any entry that is not a
      number, is rejected. */
  lemma EmptyFieldRejected()
    ensures AcceptedTick("") == None
  {
    NonNumeralsRejected("", "", "");
    assert "" + "" + "" == "";
  }

  /** Zero-padded numerals read as their value: "055" is 55, "007" is 7, "0100"
      is rejected. */
  lemma ZeroPaddedNumeralsAccepted(zs: string, n: nat, tail: string)
    requires forall i :: 0 <= i < |zs| ==> zs[i] == '0'
    requires tail == [] || !IsDigit(tail[0])
    ensures AcceptedTick(zs + Decimal(n) + tail) == if n < BitsInLoop then Some(n) else None
  {
    var d := Decimal(n);
    var ds := zs + d;
    LeadingZerosValue(zs, d);
    SignedNumeralParses("", ds, n, tail);
    assert "" + (ds + tail) == zs + d + tail;
    AcceptedOfParsed(zs + d + tail, n);
  }

  /** The field's initial text, `bugTick.toString()` for 55. */
  lemma DefaultTickText()
    ensures Decimal(55) == "55"
  {
    assert Decimal(5) == "5";
    assert Decimal(55) == Decimal(5) + [DigitChar(5)];
  }

  /** The field's initial text is accepted as tick 55. */
  lemma DefaultTickAccepted()
    ensures AcceptedTick("55") == Some(55)
  {
    DefaultTickText();
    NumeralsAccepted(55, "");
    assert Decimal(55) + "" == "55";
  }

  /** Whether the pending timer is one the effect set for the current state and
      has not yet run out: none exactly when the schedule has none, otherwise the
      same next state with a positive delay no longer than the full one. */
  predicate TimerAgrees(pending: Option<Timer>, full: Option<Timer>) {
    (pending.None? <==> full.None?)
    && (pending.Some? && full.Some? ==>
          pending.value.next == full.value.next && 0 < pending.value.delayMs <= full.value.delayMs)
  }

  class Waveform {
    var bugState: BugState
    var bugTick: nat
    /** The text of the bug-tick field. */
    var manualBugTick: string
    var animationKey: nat
    var isManuallyPaused: bool
    var signalVisibility: map<SignalName, bool>
    /** The dependency values of the last effect run, and the timer it left. */
    var effectDeps: Deps
    var pending: Option<Timer>

    /** The effect's dependencies now, the animation key being the restart epoch. */
    function CurrentDeps(): Deps
      reads this
    {
      RestartDeps(bugState, bugTick, isManuallyPaused, animationKey)
    }

    /** The full schedule for the current state. */
    function FullSchedule(): Option<Timer>
      reads this
    {
      Schedule(bugState, BugTimeMs(bugTick), isManuallyPaused)
    }

    ghost predicate Valid()
      reads this
    {
      bugTick < BitsInLoop
      && signalVisibility.Keys == {CLK, RESET_N, VALID, DATA}
      && effectDeps == CurrentDeps()
      && TimerAgrees(pending, FullSchedule())
    }

    /** The widget as mounted: bug at tick 55, every row shown, playing, and the
        effect's first run has set the IDLE timer. */
    constructor ()
      ensures Valid()
      ensures bugState == Idle && bugTick == 55 && manualBugTick == "55"
      ensures animationKey == 0 && !isManuallyPaused
      ensures forall name :: name in signalVisibility && signalVisibility[name]
      ensures pending == Some(Timer(Detected, BugTimeMs(55)))
    {
      bugState := Idle;
      bugTick := 55;
      DefaultTickText();
      manualBugTick := Decimal(55);
      animationKey := 0;
      isManuallyPaused := false;
      var allShown := map[CLK := true, RESET_N := true, VALID := true, DATA := true];
      forall name: SignalName ensures name in allShown && allShown[name] {
        match name
        case CLK =>
        case RESET_N =>
        case VALID =>
        case DATA =>
      }
      signalVisibility := allShown;
      effectDeps := RestartDeps(Idle, 55, false, 0);
      pending := Schedule(Idle, BugTimeMs(55), false);
    }

    /** The commit after a render: cancel and re-run the effect if its
        dependencies changed. */
    method CommitEffect()
      modifies this`effectDeps, this`pending
      ensures effectDeps == CurrentDeps()
      ensures pending == Reconcile(old(effectDeps), CurrentDeps(), old(pending))
    {
      var deps := CurrentDeps();
      pending := Reconcile(effectDeps, deps, pending);
      effectDeps := deps;
    }

    /** The field's onChange: only the text changes. */
    method SetManualBugTick(text: string)
      requires Valid()
      modifies this
      ensures Valid()
      ensures manualBugTick == text
      ensures bugState == old(bugState) && bugTick == old(bugTick) && animationKey == old(animationKey)
      ensures isManuallyPaused == old(isManuallyPaused) && signalVisibility == old(signalVisibility)
      ensures pending == old(pending)
    {
      manualBugTick := text;
      CommitEffect();
    }

    /** handleSignalClick: flips one row's visibility and nothing else. */
    method SignalClick(name: SignalName)
      requires Valid()
      modifies this
      ensures Valid()
      ensures signalVisibility == old(signalVisibility)[name := !old(signalVisibility)[name]]
      ensures bugState == old(bugState) && bugTick == old(bugTick) && animationKey == old(animationKey)
      ensures isManuallyPaused == old(isManuallyPaused) && manualBugTick == old(manualBugTick)
      ensures pending == old(pending)
    {
      signalVisibility := signalVisibility[name := !signalVisibility[name]];
      CommitEffect();
    }

    /** handleInjectBug: an acceptable tick becomes the bug tick and restarts
        everything (new key, IDLE, playing, full IDLE timer); anything else is
        rejected with no change at all. */
    method InjectBug() returns (outcome: InjectOutcome)
      requires Valid()
      modifies this
      ensures Valid()
      ensures outcome == Injected <==> AcceptedTick(old(manualBugTick)).Some?
      ensures outcome == Injected ==>
        bugTick == AcceptedTick(old(manualBugTick)).value && animationKey == old(animationKey) + 1
        && bugState == Idle && !isManuallyPaused
        && pending == Some(Timer(Detected, BugTimeMs(bugTick)))
        && manualBugTick == old(manualBugTick) && signalVisibility == old(signalVisibility)
      ensures outcome == Rejected ==> unchanged(this)
    {
      match AcceptedTick(manualBugTick)
      case None =>
        outcome := Rejected;
      case Some(tick) =>
        RestartAt(tick);
        outcome := Injected;
    }

    /** The accepted branch of handleInjectBug: the new tick, a new animation
        key, IDLE and playing, then the commit that restarts the effect. */
    method RestartAt(tick: nat)
      requires Valid() && tick < BitsInLoop
      modifies this
      ensures Valid()
      ensures bugTick == tick && animationKey == old(animationKey) + 1
      ensures bugState == Idle && !isManuallyPaused
      ensures pending == Some(Timer(Detected, BugTimeMs(tick)))
      ensures manualBugTick == old(manualBugTick) && signalVisibility == old(signalVisibility)
    {
      bugTick := tick;
      animationKey := animationKey + 1;
      bugState := Idle;
      isManuallyPaused := false;
      CommitEffect();
    }

    /** handleContainerClick: flips the manual pause. Resuming also restarts
        (new key, IDLE, full IDLE timer); pausing keeps the key and the state and
        cancels the timer. */
    method ContainerClick()
      requires Valid()
      modifies this
      ensures Valid()
      ensures isManuallyPaused == !old(isManuallyPaused)
      ensures old(isManuallyPaused) ==>
        animationKey == old(animationKey) + 1 && bugState == Idle
        && pending == Some(Timer(Detected, BugTimeMs(bugTick)))
      ensures !old(isManuallyPaused) ==>
        animationKey == old(animationKey) && bugState == old(bugState) && pending == None
      ensures bugTick == old(bugTick) && manualBugTick == old(manualBugTick)
      ensures signalVisibility == old(signalVisibility)
    {
      if isManuallyPaused {
        animationKey := animationKey + 1;
        bugState := Idle;
      }
      isManuallyPaused := !isManuallyPaused;
      CommitEffect();
    }

    /** Lets up to `ms` milliseconds pass with no user event. If the pending timer
        runs out within them, time stops there (`used` says how much passed), the
        state takes the timer's next value and the effect sets the next timer. */
    method Elapse(ms: nat) returns (used: nat)
      requires Valid()
      modifies this
      ensures Valid()
      ensures used <= ms
      ensures old(pending).None? ==> used == ms && unchanged(this)
      ensures old(pending).Some? && ms < old(pending).value.delayMs ==>
        used == ms && bugState == old(bugState)
        && pending == Some(Timer(old(pending).value.next, old(pending).value.delayMs - ms))
      ensures old(pending).Some? && ms >= old(pending).value.delayMs ==>
        used == old(pending).value.delayMs && bugState == old(pending).value.next
        && Rank(bugState) == Rank(old(bugState)) + 1
        && pending == FullSchedule()
      ensures bugTick == old(bugTick) && animationKey == old(animationKey)
      ensures isManuallyPaused == old(isManuallyPaused) && manualBugTick == old(manualBugTick)
      ensures signalVisibility == old(signalVisibility)
    {
      match pending
      case None =>
        used := ms;
      case Some(t) =>
        if ms < t.delayMs {
          used := ms;
          pending := Some(Timer(t.next, t.delayMs - ms));
        } else {
          used := t.delayMs;
          bugState := t.next;
          CommitEffect();
        }
    }
  }

  /** Two injections of the same tick three seconds apart: the second one
      cancels the first one's timer and sets the full IDLE delay again. */
  method ReinjectionScenario() returns (w: Waveform)
    ensures w.Valid() && w.bugState == Idle && w.bugTick == 55
    ensures w.pending == Some(Timer(Detected, 6500))
  {
    w := new Waveform();
    var used := w.Elapse(3000);
    assert w.pending == Some(Timer(Detected, 3500));
    DefaultTickAccepted();
    var outcome := w.InjectBug();
    assert outcome == Injected;
  }

  /** From the second injection the lifecycle runs its full course: DETECTED
      6.5 s later, CORRECTING 1 s after that, FIXED 1.5 s after that, and then
      no timer is left. */
  method CourseAfterReinjection(w: Waveform)
    requires w.Valid() && w.bugState == Idle && w.bugTick == 55
    requires w.pending == Some(Timer(Detected, 6500))
    modifies w
    ensures w.Valid() && w.bugState == Fixed && w.pending == None && w.bugTick == 55
  {
    var used := w.Elapse(6499);
    assert w.bugState == Idle;
    used := w.Elapse(1);
    assert w.bugState == Detected && w.pending == Some(Timer(Correcting, 1000));
    used := w.Elapse(1000);
    assert w.bugState == Correcting && w.pending == Some(Timer(Fixed, 1500));
    used := w.Elapse(1500);
    assert w.bugState == Fixed && w.pending == None;
    used := w.Elapse(60000);
    assert w.bugState == Fixed;
  }
}
