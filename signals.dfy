/** The four signal templates of the waveform widget and their bit rules.
    Every `Math.random()` draw a rule makes is a boolean parameter (a coin), so
    each rule is a function of the tick, the bug tick and its coins. */
module Signals {
  import opened Wrappers

  /** Ticks in one animation loop (BITS_IN_LOOP). */
  const BitsInLoop: nat := 100
  /** Width in pixels of one tick's cell (BIT_WIDTH_PX). */
  const BitWidth: nat := 16

  /** A cell of a trace: '0', '1', or 'X', the bug marker. */
  datatype Bit = Zero | One | Unknown

  /** The signal names as the widget labels them (DATA stands for DATA[7:0]). */
  datatype SignalName = CLK | RESET_N | VALID | DATA

  /** The templates in declaration order; DATA[7:0] comes fourth. */
  const SignalOrder: seq<SignalName> := [CLK, RESET_N, VALID, DATA]
  const DataSignalIndex: nat := 3

  /** CLK: two ticks high, two ticks low. */
  function ClkBit(tick: nat): Bit {
    if tick % 4 < 2 then One else Zero
  }

  /** RESET_N: active low for the first 15 ticks. */
  function ResetBit(tick: nat): Bit {
    if tick < 15 then Zero else One
  }

  /** generateValidBit; `coin` is the outcome of `Math.random() > 0.3`. */
  function ValidBit(tick: nat, coin: bool): Bit {
    if tick > 20 && coin && tick % 20 < 10 then One else Zero
  }

  /** The DATA[7:0] rule. It draws its own VALID bit (`validCoin`), separately from
      the VALID row; `dataCoin` is the outcome of `Math.random() > 0.5`. */
  function DataBit(tick: nat, bugTick: Option<int>, validCoin: bool, dataCoin: bool): Bit {
    if ValidBit(tick, validCoin) == Zero then Zero
    else if bugTick.Some? && tick % BitsInLoop == bugTick.value then Unknown
    else if dataCoin then One else Zero
  }

  /** The healed DATA bit drawn for the corrected trace. */
  function CorrectedBit(tick: nat, validCoin: bool, dataCoin: bool): Bit {
    if ValidBit(tick, validCoin) == Zero then Zero
    else if dataCoin then One else Zero
  }

  /** CLK is high exactly when `tick % 4 < 2`, repeats every four ticks and is high
      for two ticks of every four consecutive ones. */
  lemma ClockIsPeriodic(tick: nat)
    ensures ClkBit(tick) == One <==> tick % 4 < 2
    ensures ClkBit(tick) != Unknown
    ensures ClkBit(tick + 4) == ClkBit(tick)
    ensures |set k | tick <= k < tick + 4 && ClkBit(k) == One| == 2
  {
    var window := set k | tick <= k < tick + 4 && ClkBit(k) == One;
    var r := tick % 4;
    var highs := if r == 0 then (tick, tick + 1)
                 else if r == 1 then (tick, tick + 3)
                 else if r == 2 then (tick + 2, tick + 3)
                 else (tick + 1, tick + 2);
    var a, b := highs.0, highs.1;
    assert window == {a, b} by {
      forall k | tick <= k < tick + 4
        ensures ClkBit(k) == One <==> k == a || k == b
      {
        assert k % 4 == (r + (k - tick)) % 4;
      }
    }
  }

  /** RESET_N is low exactly for ticks below 15 and, once released, stays high. */
  lemma ResetReleasesOnce(tick: nat, later: nat)
    requires tick <= later
    ensures ResetBit(tick) == Zero <==> tick < 15
    ensures ResetBit(tick) != Unknown
    ensures ResetBit(tick) == One ==> ResetBit(later) == One
  {
  }

  /** Whatever the coin, VALID is low up to tick 20 and in the second half of every
      20-tick window; inside the asserted windows it follows the coin. */
  lemma ValidWindows(tick: nat, coin: bool)
    ensures tick <= 20 || tick % 20 >= 10 ==> ValidBit(tick, coin) == Zero
    ensures tick > 20 && tick % 20 < 10 ==> (ValidBit(tick, coin) == One <==> coin)
    ensures ValidBit(tick, coin) != Unknown
  {
  }

  /** DATA is low whenever its own VALID draw is low, and it is 'X' exactly at a
      tick congruent to the bug tick modulo the loop length with that draw high. */
  lemma DataFollowsItsValidDraw(tick: nat, bugTick: Option<int>, validCoin: bool, dataCoin: bool)
    ensures ValidBit(tick, validCoin) == Zero ==> DataBit(tick, bugTick, validCoin, dataCoin) == Zero
    ensures DataBit(tick, bugTick, validCoin, dataCoin) == Unknown <==>
      ValidBit(tick, validCoin) == One && bugTick.Some? && tick % BitsInLoop == bugTick.value
  {
  }

  /** The corrected trace follows the DATA rule with no bug injected, so it never
      holds an 'X'. */
  lemma CorrectedIsDataWithoutBug(tick: nat, validCoin: bool, dataCoin: bool)
    ensures CorrectedBit(tick, validCoin, dataCoin) == DataBit(tick, None, validCoin, dataCoin)
    ensures CorrectedBit(tick, validCoin, dataCoin) != Unknown
  {
  }

  /** Because DATA draws its validity afresh, the DATA row is not tied to the VALID
      row on screen: at tick 21 VALID can show '0' while DATA shows '1'. */
  lemma DataRowNotTiedToValidRow()
    ensures ValidBit(21, false) == Zero && DataBit(21, Some(55), true, true) == One
  {
  }

  /** The coins a regeneration of the traces consumes, one per tick and per call
      of `Math.random()` in the source: the VALID row, the DATA row's own VALID
      draw and data draw, and the same two for the corrected DATA trace. */
  datatype Coins = Coins(
    valid: nat -> bool,
    dataValid: nat -> bool,
    data: nat -> bool,
    correctedValid: nat -> bool,
    correctedData: nat -> bool)

  function SignalBit(name: SignalName, tick: nat, bugTick: nat, coins: Coins): Bit {
    match name
    case CLK => ClkBit(tick)
    case RESET_N => ResetBit(tick)
    case VALID => ValidBit(tick, coins.valid(tick))
    case DATA => DataBit(tick, Some(bugTick), coins.dataValid(tick), coins.data(tick))
  }

  /** The bits of one row over the loop's ticks 0 .. 99. */
  function RowBits(name: SignalName, bugTick: nat, coins: Coins): (bits: seq<Bit>)
    ensures |bits| == BitsInLoop
    ensures forall i :: 0 <= i < BitsInLoop ==> bits[i] == SignalBit(name, i, bugTick, coins)
  {
    seq(BitsInLoop, (i: int) requires 0 <= i => SignalBit(name, i, bugTick, coins))
  }

  /** The bits of the corrected DATA trace over ticks 0 .. 99. */
  function CorrectedBits(coins: Coins): (bits: seq<Bit>)
    ensures |bits| == BitsInLoop
    ensures forall i :: 0 <= i < BitsInLoop ==>
      bits[i] == CorrectedBit(i, coins.correctedValid(i), coins.correctedData(i))
  {
    seq(BitsInLoop, (i: int) requires 0 <= i => CorrectedBit(i, coins.correctedValid(i), coins.correctedData(i)))
  }

  /** Within one loop the DATA row holds at most one 'X', at the bug tick, and it
      holds it exactly when its own VALID draw there is high. */
  lemma DataRowFaultAtBugTick(bugTick: nat, coins: Coins)
    requires bugTick < BitsInLoop
    ensures forall i :: 0 <= i < BitsInLoop && RowBits(DATA, bugTick, coins)[i] == Unknown ==> i == bugTick
    ensures RowBits(DATA, bugTick, coins)[bugTick] == Unknown <==>
      ValidBit(bugTick, coins.dataValid(bugTick)) == One
  {
  }

  /** The other rows and the corrected trace hold no 'X' at all. */
  lemma OnlyDataRowHasFaults(name: SignalName, bugTick: nat, coins: Coins)
    requires name != DATA
    ensures forall i :: 0 <= i < BitsInLoop ==> RowBits(name, bugTick, coins)[i] != Unknown
    ensures forall i :: 0 <= i < BitsInLoop ==> CorrectedBits(coins)[i] != Unknown
  {
  }

  /** The default bug tick 55 never shows an 'X': 55 % 20 == 15 lies in the low
      half of VALID's window, so DATA's own VALID draw there is low whatever the
      coins. */
  lemma DefaultTickNeverFaults(coins: Coins)
    ensures forall i :: 0 <= i < BitsInLoop ==> RowBits(DATA, 55, coins)[i] != Unknown
  {
    DataRowFaultAtBugTick(55, coins);
    ValidWindows(55, coins.dataValid(55));
  }
}
