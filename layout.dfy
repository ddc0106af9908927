/** The values the widget derives from its state on every render: where the bug
    is drawn, whether the scroll animation is frozen, and which marker and
    message stand over the fault. */
module Layout {
  import opened Wrappers
  import opened Signals
  import opened Lifecycle

  /** Height of one signal row's SVG and the gap between rows, in pixels. */
  const SignalRowHeight: nat := 40
  const SignalRowGap: nat := 16

  /** bugPositionX: the horizontal middle of the bug tick's cell. */
  function BugPositionX(bugTick: nat): (x: nat)
    ensures bugTick * BitWidth < x < (bugTick + 1) * BitWidth
    ensures 2 * x == bugTick * BitWidth + (bugTick + 1) * BitWidth
  {
    bugTick * BitWidth + BitWidth / 2
  }

  /** Whether a row is shown; a name missing from the record reads as hidden. */
  predicate Shown(vis: map<SignalName, bool>, name: SignalName) {
    name in vis && vis[name]
  }

  /** The positions of `names` whose row is shown. */
  function ShownPositions(names: seq<SignalName>, vis: map<SignalName, bool>): set<int> {
    set i | 0 <= i < |names| && Shown(vis, names[i])
  }

  /** The number of shown rows among `names`: the count of positions whose name
      is shown. */
  function VisibleCount(names: seq<SignalName>, vis: map<SignalName, bool>): (n: nat)
    ensures n == |ShownPositions(names, vis)|
  {
    if |names| == 0 then 0
    else
      var init, last := names[..|names| - 1], |names| - 1;
      ShownPositionsSplit(names, vis);
      VisibleCount(init, vis) + (if Shown(vis, names[last]) then 1 else 0)
  }

  /** The shown positions of a non-empty sequence: those of all but its last
      name, and the last position when that name is shown. */
  lemma ShownPositionsSplit(names: seq<SignalName>, vis: map<SignalName, bool>)
    requires |names| > 0
    ensures var last := |names| - 1;
      |ShownPositions(names, vis)| ==
      |ShownPositions(names[..last], vis)| + (if Shown(vis, names[last]) then 1 else 0)
  {
    var init, last := names[..|names| - 1], |names| - 1;
    var before := ShownPositions(init, vis);
    var added: set<int> := if Shown(vis, names[last]) then {last} else {};
    assert ShownPositions(names, vis) == before + added;
    assert before * added == {};
  }

  /** visibleSignalsBeforeDataCount: how many of CLK, RESET_N and VALID are shown. */
  function VisibleBeforeData(vis: map<SignalName, bool>): (n: nat)
    ensures n == (if Shown(vis, CLK) then 1 else 0) + (if Shown(vis, RESET_N) then 1 else 0)
                 + (if Shown(vis, VALID) then 1 else 0)
  {
    var before: seq<SignalName> := SignalOrder[..DataSignalIndex];
    var one, two: seq<SignalName> := [CLK], [CLK, RESET_N];
    assert before == [CLK, RESET_N, VALID] && before[..2] == two && two[..1] == one && one[..0] == [];
    assert VisibleCount(one, vis) == VisibleCount([], vis) + (if Shown(vis, CLK) then 1 else 0);
    assert VisibleCount(two, vis) == VisibleCount(one, vis) + (if Shown(vis, RESET_N) then 1 else 0);
    assert VisibleCount(before, vis) == VisibleCount(two, vis) + (if Shown(vis, VALID) then 1 else 0);
    VisibleCount(before, vis)
  }

  /** bugHighlightTop: the top of the DATA row, below every shown row before it. */
  function DataRowTop(vis: map<SignalName, bool>): nat {
    VisibleBeforeData(vis) * (SignalRowHeight + SignalRowGap)
  }

  /** bugHighlightCenterY: the vertical middle of the DATA row. */
  function HighlightCenterY(vis: map<SignalName, bool>): (y: nat)
    ensures DataRowTop(vis) < y < DataRowTop(vis) + SignalRowHeight
    ensures 2 * y == 2 * DataRowTop(vis) + SignalRowHeight
  {
    DataRowTop(vis) + SignalRowHeight / 2
  }

  /** Toggling one name changes the count of shown rows among `names` by the
      number of times the name occurs there, up when it is shown, down when it
      is hidden. */
  lemma {:induction false} VisibleCountToggle(names: seq<SignalName>, vis: map<SignalName, bool>, name: SignalName)
    requires name in vis
    ensures var vis' := vis[name := !vis[name]];
      VisibleCount(names, vis') + (if vis[name] then multiset(names)[name] else 0)
      == VisibleCount(names, vis) + (if vis[name] then 0 else multiset(names)[name])
  {
    if |names| > 0 {
      var init := names[..|names| - 1];
      VisibleCountToggle(init, vis, name);
      assert names == init + [names[|names| - 1]];
      assert multiset(names) == multiset(init) + multiset{names[|names| - 1]};
    }
  }

  /** The highlight tracks the reflowed rows: hiding a row above DATA lifts it
      by one row and gap (56 px), showing one lowers it by as much, and
      toggling DATA itself leaves it where it is. It always lies within the
      four rows. */
  lemma HighlightFollowsToggles(vis: map<SignalName, bool>, name: SignalName)
    requires name in vis
    ensures var vis' := vis[name := !vis[name]];
      if name == DATA then HighlightCenterY(vis') == HighlightCenterY(vis)
      else if vis[name] then HighlightCenterY(vis') + SignalRowHeight + SignalRowGap == HighlightCenterY(vis)
      else HighlightCenterY(vis') == HighlightCenterY(vis) + SignalRowHeight + SignalRowGap
    ensures SignalRowHeight / 2 <= HighlightCenterY(vis) <= 3 * (SignalRowHeight + SignalRowGap) + SignalRowHeight / 2
  {
    var before := SignalOrder[..DataSignalIndex];
    assert before == [CLK, RESET_N, VALID];
    VisibleCountToggle(before, vis, name);
    assert multiset(before)[name] == if name == DATA then 0 else 1;
  }

  /** With every row shown the highlight sits in the middle of the fourth row,
      188 px down; with CLK, RESET_N and VALID hidden it sits in the first, 20 px
      down. */
  lemma HighlightPositions(vis: map<SignalName, bool>)
    ensures Shown(vis, CLK) && Shown(vis, RESET_N) && Shown(vis, VALID) ==> HighlightCenterY(vis) == 188
    ensures !Shown(vis, CLK) && !Shown(vis, RESET_N) && !Shown(vis, VALID) ==> HighlightCenterY(vis) == 20
  {
  }

  /** isAnimationPaused: manual pause, or a bug being detected or corrected. */
  function AnimationPaused(state: BugState, manuallyPaused: bool): (paused: bool)
    ensures paused <==> manuallyPaused || state == Detected || state == Correcting
  {
    var isBugPause := state == Detected || state == Correcting;
    isBugPause || manuallyPaused
  }

  /** A pause that the bug causes always ends by itself, since the lifecycle
      timer keeps running; a manual pause holds no timer and lasts until the
      next click. */
  lemma BugPauseEndsByItself(state: BugState, bugTick: nat, manuallyPaused: bool)
    ensures AnimationPaused(state, manuallyPaused) && !manuallyPaused ==>
      Schedule(state, BugTimeMs(bugTick), manuallyPaused).Some?
    ensures manuallyPaused ==>
              AnimationPaused(state, manuallyPaused) && Schedule(state, BugTimeMs(bugTick), manuallyPaused).None?
  {
  }

  /** The marker over the fault: a pulsing highlight with "BUG DETECTED", or a
      fading one with "BUG CORRECTED". */
  datatype Marker = Marker(fading: bool, message: string)

  /** The highlight and message rendered while the DATA row is shown. */
  function BugMarker(dataVisible: bool, state: BugState): (m: Option<Marker>)
    ensures m.Some? <==> dataVisible && (state == Detected || state == Correcting)
    ensures m.Some? ==> (m.value.fading <==> state == Correcting)
    ensures m.Some? ==> m.value.message == if state == Detected then "BUG DETECTED" else "BUG CORRECTED"
  {
    if !dataVisible then None
    else match state
      case Detected => Some(Marker(false, "BUG DETECTED"))
      case Correcting => Some(Marker(true, "BUG CORRECTED"))
      case _ => None
  }

  /** A marker is only ever shown over a frozen trace. */
  lemma MarkerOnlyWhilePaused(dataVisible: bool, state: BugState, manuallyPaused: bool)
    ensures BugMarker(dataVisible, state).Some? ==> AnimationPaused(state, manuallyPaused)
  {
  }
}
