/** The geometry the widget shows: one trace per signal, built from 100 bits
    drawn twice in a row for a seamless loop, the corrected DATA trace, and the
    list of rows after the corrected trace is swapped in. */
module Traces {
  import opened Signals
  import opened PathData
  import opened Lifecycle

  /** A row of the widget: its signal, its step trace and its fault overlay. */
  datatype Trace = Trace(name: SignalName, path: seq<Cmd>, bugPath: seq<Cmd>)

  /** The trace of one row: the loop's bits duplicated, then turned into paths. */
  function RowTrace(name: SignalName, bugTick: nat, coins: Coins): Trace {
    var bits := RowBits(name, bugTick, coins);
    Trace(name, TracePath(bits + bits), BugPath(bits + bits))
  }

  /** initialSignals: the four rows in declaration order. */
  function InitialSignals(bugTick: nat, coins: Coins): (rows: seq<Trace>)
    ensures |rows| == |SignalOrder|
    ensures forall i :: 0 <= i < |SignalOrder| ==> rows[i] == RowTrace(SignalOrder[i], bugTick, coins)
  {
    seq(|SignalOrder|, (i: int) requires 0 <= i < |SignalOrder| => RowTrace(SignalOrder[i], bugTick, coins))
  }

  /** correctedDataSignal: the DATA row redrawn from fresh bits with no bug, and
      with no overlay. */
  function CorrectedDataSignal(coins: Coins): Trace {
    var bits := CorrectedBits(coins);
    Trace(DATA, TracePath(bits + bits), [])
  }

  /** finalSignalList: the DATA row is replaced by the corrected one while the
      bug is being corrected and once it is fixed; the other rows stay. */
  function FinalSignalList(initial: seq<Trace>, corrected: Trace, state: BugState): (rows: seq<Trace>)
    ensures |rows| == |initial|
    ensures forall i :: 0 <= i < |initial| && (initial[i].name != DATA || state == Idle || state == Detected) ==>
      rows[i] == initial[i]
    ensures forall i :: 0 <= i < |initial| && initial[i].name == DATA && (state == Correcting || state == Fixed) ==>
      rows[i] == corrected
  {
    seq(|initial|, (i: int) requires 0 <= i < |initial| =>
      if initial[i].name == DATA && (state == Correcting || state == Fixed) then corrected else initial[i])
  }

  /** The fault cells of a string whose only 'X's are at `p` and `q` (when
      `present`), up to `n`. */
  lemma {:induction false} FaultCellsOfTwo(bits: seq<Bit>, p: nat, q: nat, present: bool, n: nat)
    requires p < q && n <= |bits|
    requires forall i :: 0 <= i < |bits| ==> (bits[i] == Unknown <==> present && (i == p || i == q))
    ensures FaultCellsUpTo(bits, n) ==
      (if present && p < n then [p] else []) + (if present && q < n then [q] else [])
  {
    if n > 0 {
      FaultCellsOfTwo(bits, p, q, present, n - 1);
    }
  }

  /** The DATA row's overlay holds one glyph at the bug tick and one at the same
      tick of the repeated loop when its VALID draw there is high, and nothing
      otherwise. The other rows never have an overlay. */
  lemma RowOverlays(name: SignalName, bugTick: nat, coins: Coins)
    requires bugTick < BitsInLoop
    ensures name == DATA ==>
              RowTrace(name, bugTick, coins).bugPath ==
              if ValidBit(bugTick, coins.dataValid(bugTick)) == One
              then Glyph(bugTick) + Glyph(bugTick + BitsInLoop) else []
    ensures name != DATA ==> RowTrace(name, bugTick, coins).bugPath == []
  {
    var bits := RowBits(name, bugTick, coins);
    var loop := bits + bits;
    var present := name == DATA && ValidBit(bugTick, coins.dataValid(bugTick)) == One;
    forall i | 0 <= i < |loop|
      ensures loop[i] == Unknown <==> present && (i == bugTick || i == bugTick + BitsInLoop)
    {
      var t := if i < BitsInLoop then i else i - BitsInLoop;
      assert loop[i] == bits[t];
      DataRowFaultAtBugTick(bugTick, coins);
      if name != DATA {
        OnlyDataRowHasFaults(name, bugTick, coins);
      }
    }
    FaultCellsOfTwo(loop, bugTick, bugTick + BitsInLoop, present, |loop|);
    if present {
      assert FaultCells(loop) == [bugTick, bugTick + BitsInLoop];
      assert [bugTick, bugTick + BitsInLoop][..1] == [bugTick];
      assert Glyphs([bugTick]) == Glyphs([]) + Glyph(bugTick);
    } else {
      assert FaultCells(loop) == [];
    }
  }

  /** The corrected DATA trace has no overlay and is one unbroken trace: after
      the opening `M`, nothing but lines, all at the high or the low level. */
  lemma CorrectedTraceUnbroken(coins: Coins)
    ensures CorrectedDataSignal(coins).bugPath == []
    ensures var path := CorrectedDataSignal(coins).path;
      forall k :: 1 <= k < |path| ==> path[k].LineTo? && (path[k].y == HighY || path[k].y == LowY)
  {
    var bits := CorrectedBits(coins);
    var loop := bits + bits;
    forall i | 0 <= i < |loop| ensures loop[i] != Unknown {
      var t := if i < BitsInLoop then i else i - BitsInLoop;
      assert loop[i] == bits[t];
      CorrectedIsDataWithoutBug(t, coins.correctedValid(t), coins.correctedData(t));
    }
    MovesOnlyAfterFaults(loop, |loop|);
    TraceLevels(loop, |loop|);
    var path := TracePath(loop);
    forall k | 1 <= k < |path| ensures path[k].LineTo? {
      if path[k].MoveTo? {
        assert false;
      }
    }
  }

  /** The rows on screen: CLK, RESET_N and VALID as generated; DATA as generated,
      with its fault glyphs, while IDLE or DETECTED; the corrected DATA trace from
      CORRECTING on. */
  lemma DisplayedRows(bugTick: nat, coins: Coins, state: BugState)
    ensures var rows := FinalSignalList(InitialSignals(bugTick, coins), CorrectedDataSignal(coins), state);
      |rows| == 4
      && (forall i :: 0 <= i < DataSignalIndex ==> rows[i] == RowTrace(SignalOrder[i], bugTick, coins))
      && (state == Idle || state == Detected ==> rows[DataSignalIndex] == RowTrace(DATA, bugTick, coins))
      && (state == Correcting || state == Fixed ==> rows[DataSignalIndex] == CorrectedDataSignal(coins))
  {
    var initial := InitialSignals(bugTick, coins);
    assert initial[DataSignalIndex].name == DATA;
    forall i | 0 <= i < DataSignalIndex ensures initial[i].name != DATA {
      assert SignalOrder[i] != DATA;
    }
  }
}
