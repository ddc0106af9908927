/** generatePathData: turns a string of bits into the step trace of a signal and
    the overlay that draws an X-shaped glyph over every 'X' cell. Paths are
    sequences of drawing commands; RenderPath and RenderBugPath print them as the
    SVG path text the widget builds. */
module PathData {
  import opened Signals
  import opened Numerals

  /** One SVG path command: `M x,y` or `L x,y`. */
  datatype Cmd = MoveTo(x: nat, y: nat) | LineTo(x: nat, y: nat)

  const HighY: nat := 10
  const LowY: nat := 30
  const UnknownY: nat := 20

  /** The y coordinate a bit is drawn at. */
  function Level(b: Bit): nat {
    match b
    case One => HighY
    case Zero => LowY
    case Unknown => UnknownY
  }

  /** The level of the first bit; `bits[0]` of an empty string is undefined,
      which is neither '1' nor '0'. */
  function StartLevel(bits: seq<Bit>): nat {
    if |bits| == 0 then UnknownY else Level(bits[0])
  }

  /** The commands iteration `i` of the loop appends to `path`. The first
      iteration compares the bit with itself. */
  function Step(bits: seq<Bit>, i: nat): seq<Cmd>
    requires i < |bits|
  {
    StepFrom(if i > 0 then bits[i - 1] else bits[i], bits[i], i)
  }

  /** The commands for cell `i` holding `cur` after a cell holding `prev`. */
  function StepFrom(prev: Bit, cur: Bit, i: nat): seq<Cmd>
  {
    var x1, x2 := i * BitWidth, (i + 1) * BitWidth;
    if cur == Unknown then
      if prev != Unknown then [LineTo(x1, Level(prev))] else []
    else
      (if prev == Unknown then [MoveTo(x1, Level(cur))]
       else if cur != prev then [LineTo(x1, Level(prev)), LineTo(x1, Level(cur))]
       else [])
      + [LineTo(x2, Level(cur))]
  }

  /** `path` after the first `n` iterations. */
  function TraceUpTo(bits: seq<Bit>, n: nat): seq<Cmd>
    requires n <= |bits|
  {
    if n == 0 then [MoveTo(0, StartLevel(bits))]
    else TraceUpTo(bits, n - 1) + Step(bits, n - 1)
  }

  /** The step trace of `bits`: the `path` result. */
  function TracePath(bits: seq<Bit>): seq<Cmd> {
    TraceUpTo(bits, |bits|)
  }

  /** The glyph drawn over cell `i`: two diagonals crossing the cell. */
  function Glyph(i: nat): seq<Cmd> {
    var x1, x2 := i * BitWidth, (i + 1) * BitWidth;
    [MoveTo(x1, HighY), LineTo(x2, LowY), MoveTo(x1, LowY), LineTo(x2, HighY)]
  }

  /** The indices below `n` that hold an 'X', in increasing order. */
  function FaultCellsUpTo(bits: seq<Bit>, n: nat): seq<nat>
    requires n <= |bits|
  {
    if n == 0 then []
    else FaultCellsUpTo(bits, n - 1) + (if bits[n - 1] == Unknown then [n - 1] else [])
  }

  function FaultCells(bits: seq<Bit>): seq<nat> {
    FaultCellsUpTo(bits, |bits|)
  }

  function Glyphs(cells: seq<nat>): seq<Cmd> {
    if |cells| == 0 then [] else Glyphs(cells[..|cells| - 1]) + Glyph(cells[|cells| - 1])
  }

  lemma GlyphsAppend(cells: seq<nat>, c: nat)
    ensures Glyphs(cells + [c]) == Glyphs(cells) + Glyph(c)
  {
    var s := cells + [c];
    assert s[..|s| - 1] == cells;
  }

  /** Iteration `i` adds a glyph to the overlay exactly when bit `i` is 'X'. */
  lemma BugPathStep(bits: seq<Bit>, i: nat, overlay: seq<Cmd>)
    requires i < |bits| && overlay == Glyphs(FaultCellsUpTo(bits, i))
    ensures bits[i] == Unknown ==> overlay + Glyph(i) == Glyphs(FaultCellsUpTo(bits, i + 1))
    ensures bits[i] != Unknown ==> overlay == Glyphs(FaultCellsUpTo(bits, i + 1))
  {
    if bits[i] == Unknown {
      GlyphsAppend(FaultCellsUpTo(bits, i), i);
    } else {
      var cells := FaultCellsUpTo(bits, i);
      assert FaultCellsUpTo(bits, i + 1) == cells + [] == cells;
      assert Glyphs(cells) + [] == Glyphs(cells);
    }
  }

  /** The fault overlay of `bits`: the `bugPath` result. */
  function BugPath(bits: seq<Bit>): seq<Cmd> {
    Glyphs(FaultCells(bits))
  }

  /** generatePathData, one loop iteration per bit. */
  method GeneratePathData(bits: seq<Bit>) returns (path: seq<Cmd>, bugPath: seq<Cmd>)
    ensures path == TracePath(bits)
    ensures bugPath == BugPath(bits)
  {
    path := [MoveTo(0, StartLevel(bits))];
    bugPath := [];
    var i := 0;
    while i < |bits|
      invariant 0 <= i <= |bits|
      invariant path == TraceUpTo(bits, i)
      invariant bugPath == Glyphs(FaultCellsUpTo(bits, i))
    {
      var cur := bits[i];
      var prev := if i > 0 then bits[i - 1] else cur;
      var x1, x2 := i * BitWidth, (i + 1) * BitWidth;
      var y, prevY := Level(cur), Level(prev);
      ghost var before := path;
      assert TraceUpTo(bits, i + 1) == before + StepFrom(prev, cur, i);
      if cur == Unknown {
        if prev != Unknown {
          path := path + [LineTo(x1, prevY)];
        }
        assert path == before + StepFrom(prev, cur, i);
        BugPathStep(bits, i, bugPath);
        bugPath := bugPath + Glyph(i);
      } else {
        if prev == Unknown {
          path := path + [MoveTo(x1, y)];
        } else if cur != prev {
          path := path + [LineTo(x1, prevY), LineTo(x1, y)];
        }
        path := path + [LineTo(x2, y)];
        assert path == before + StepFrom(prev, cur, i);
        BugPathStep(bits, i, bugPath);
      }
      i := i + 1;
    }
  }

  // ---------------------------------------------------------------------------
  // The shape of the step trace

  /** A trace after fewer iterations is a prefix of a trace after more, and no
      trace is empty. */
  lemma {:induction false} TracePrefix(bits: seq<Bit>, m: nat, n: nat)
    requires m <= n <= |bits|
    ensures 1 <= |TraceUpTo(bits, m)| <= |TraceUpTo(bits, n)|
    ensures TraceUpTo(bits, m) == TraceUpTo(bits, n)[..|TraceUpTo(bits, m)|]
    decreases n - m, 1
  {
    TraceNonEmpty(bits, m);
    if m == n {
      TracePrefixSame(bits, m, n);
    } else {
      TracePrefixLater(bits, m, n);
    }
  }

  lemma TracePrefixSame(bits: seq<Bit>, m: nat, n: nat)
    requires m == n <= |bits|
    ensures |TraceUpTo(bits, m)| <= |TraceUpTo(bits, n)|
    ensures TraceUpTo(bits, m) == TraceUpTo(bits, n)[..|TraceUpTo(bits, m)|]
  {
    SelfPrefix(TraceUpTo(bits, m));
  }

  lemma TracePrefixLater(bits: seq<Bit>, m: nat, n: nat)
    requires m < n <= |bits|
    ensures |TraceUpTo(bits, m)| <= |TraceUpTo(bits, n)|
    ensures TraceUpTo(bits, m) == TraceUpTo(bits, n)[..|TraceUpTo(bits, m)|]
    decreases n - m, 0
  {
    TracePrefix(bits, m, n - 1);
    TracePrefixStep(bits, m, n);
  }

  /** One more iteration keeps an earlier trace a prefix. */
  lemma TracePrefixStep(bits: seq<Bit>, m: nat, n: nat)
    requires m < n <= |bits|
    requires |TraceUpTo(bits, m)| <= |TraceUpTo(bits, n - 1)|
    requires TraceUpTo(bits, m) == TraceUpTo(bits, n - 1)[..|TraceUpTo(bits, m)|]
    ensures |TraceUpTo(bits, m)| <= |TraceUpTo(bits, n)|
    ensures TraceUpTo(bits, m) == TraceUpTo(bits, n)[..|TraceUpTo(bits, m)|]
  {
    PrefixExtends(TraceUpTo(bits, m), TraceUpTo(bits, n - 1), Step(bits, n - 1));
  }

  lemma PrefixExtends(a: seq<Cmd>, p: seq<Cmd>, s: seq<Cmd>)
    requires |a| <= |p| && a == p[..|a|]
    ensures |a| <= |p + s| && a == (p + s)[..|a|]
  {
    assert (p + s)[..|a|] == p[..|a|];
  }

  lemma SelfPrefix(a: seq<Cmd>)
    ensures a == a[..|a|]
  {
  }

  lemma {:induction false} TraceNonEmpty(bits: seq<Bit>, n: nat)
    requires n <= |bits|
    ensures |TraceUpTo(bits, n)| >= 1
  {
    if n > 0 {
      TraceNonEmpty(bits, n - 1);
    }
  }

  /** The trace starts with `M 0,y` at the level of the first bit. */
  lemma TraceStart(bits: seq<Bit>)
    ensures |TracePath(bits)| >= 1
    ensures TracePath(bits)[0] == MoveTo(0, StartLevel(bits))
  {
    TracePrefix(bits, 0, |bits|);
  }

  /** After a cell that is not 'X' the pen stands at that cell's right edge, at
      its level. */
  lemma TraceEnd(bits: seq<Bit>, n: nat)
    requires 0 < n <= |bits| && bits[n - 1] != Unknown
    ensures var p := TraceUpTo(bits, n); |p| >= 1 && p[|p| - 1] == LineTo(n * BitWidth, Level(bits[n - 1]))
  {
  }

  predicate AtBitLevels(p: seq<Cmd>) {
    forall k :: 1 <= k < |p| ==> p[k].y == HighY || p[k].y == LowY
  }

  /** Apart from the opening `M`, every command of the trace lies at the high or
      the low level: the middle level of 'X' is never drawn. */
  lemma {:induction false} TraceLevels(bits: seq<Bit>, n: nat)
    requires n <= |bits|
    ensures AtBitLevels(TraceUpTo(bits, n))
  {
    if n > 0 {
      TraceLevels(bits, n - 1);
      var p, q, s := TraceUpTo(bits, n), TraceUpTo(bits, n - 1), Step(bits, n - 1);
      assert p == q + s;
      forall k | 1 <= k < |p| ensures p[k].y == HighY || p[k].y == LowY {
        if k >= |q| {
          assert p[k] == s[k - |q|];
        }
      }
    }
  }

  /** A vertical edge: a line that keeps the x of the point before it and changes y. */
  predicate IsVerticalEdge(p: seq<Cmd>, k: int) {
    1 <= k < |p| && p[k].LineTo? && p[k].x == p[k - 1].x && p[k].y != p[k - 1].y
  }

  /** Cell `i` holds a defined bit different from the defined bit before it. */
  predicate IsTransition(bits: seq<Bit>, i: int) {
    0 < i < |bits| && bits[i - 1] != Unknown && bits[i] != Unknown && bits[i - 1] != bits[i]
  }

  /** Cell `i` holds a defined bit right after an 'X'. */
  predicate IsRestart(bits: seq<Bit>, i: int) {
    0 < i < |bits| && bits[i - 1] == Unknown && bits[i] != Unknown
  }

  /** The cell a command's x coordinate starts, when it is at a cell boundary. */
  function CellAt(x: nat): nat {
    x / BitWidth
  }

  predicate EdgeExplained(bits: seq<Bit>, p: seq<Cmd>, k: int)
    requires 1 <= k < |p|
  {
    p[k].x == CellAt(p[k].x) * BitWidth && IsTransition(bits, CellAt(p[k].x))
    && p[k - 1].y == Level(bits[CellAt(p[k].x) - 1]) && p[k].y == Level(bits[CellAt(p[k].x)])
  }

  /** Every vertical edge of the trace stands at the left boundary of a cell whose
      defined bit differs from the defined bit before it, and runs from the old
      level to the new one. With LinesAreAxisAligned: a run of equal defined
      bits is drawn with horizontal lines only. */
  lemma {:induction false} VerticalEdgesOnlyAtTransitions(bits: seq<Bit>, n: nat)
    requires n <= |bits|
    ensures forall k :: IsVerticalEdge(TraceUpTo(bits, n), k) ==> EdgeExplained(bits, TraceUpTo(bits, n), k)
  {
    if n > 0 {
      VerticalEdgesOnlyAtTransitions(bits, n - 1);
      var i := n - 1;
      var p, q, s := TraceUpTo(bits, n), TraceUpTo(bits, i), Step(bits, i);
      assert p == q + s;
      TracePrefix(bits, i, i);
      var last := q[|q| - 1];
      var x1, x2 := i * BitWidth, (i + 1) * BitWidth;
      assert CellAt(x1) == i;
      if i > 0 && bits[i - 1] != Unknown {
        TraceEnd(bits, i);
        assert last == LineTo(x1, Level(bits[i - 1]));
      }
      if i == 0 {
        assert last == MoveTo(0, StartLevel(bits));
      }
      // Only the second command of a step that changes level is a vertical edge.
      forall k | IsVerticalEdge(p, k) ensures EdgeExplained(bits, p, k) {
        if k < |q| {
          assert IsVerticalEdge(q, k);
        } else if k == |q| {
          assert false;
        } else {
          assert p[k] == s[k - |q|] && p[k - 1] == s[k - 1 - |q|];
          assert k == |q| + 1 && IsTransition(bits, i);
        }
      }
    }
  }

  /** A line that changes the level of the point before it. */
  predicate IsLevelChange(p: seq<Cmd>, k: int) {
    1 <= k < |p| && p[k].LineTo? && p[k].y != p[k - 1].y
  }

  /** Every line of the trace is horizontal or vertical: a line that changes the
      level keeps the x of the point before it. */
  lemma {:induction false} LinesAreAxisAligned(bits: seq<Bit>, n: nat)
    requires n <= |bits|
    ensures forall k :: IsLevelChange(TraceUpTo(bits, n), k) ==> TraceUpTo(bits, n)[k].x == TraceUpTo(bits, n)[k - 1].x
  {
    if n > 0 {
      LinesAreAxisAligned(bits, n - 1);
      var i := n - 1;
      var p, q, s := TraceUpTo(bits, n), TraceUpTo(bits, i), Step(bits, i);
      assert p == q + s;
      TracePrefix(bits, i, i);
      var last := q[|q| - 1];
      if i > 0 && bits[i - 1] != Unknown {
        TraceEnd(bits, i);
        assert last == LineTo(i * BitWidth, Level(bits[i - 1]));
      }
      if i == 0 {
        assert last == MoveTo(0, StartLevel(bits));
      }
      // The step's first command is a move or stays at the level where the pen stands.
      assert |s| > 0 && s[0].LineTo? ==> s[0].y == last.y;
      forall k | IsLevelChange(p, k) ensures p[k].x == p[k - 1].x {
        if k < |q| {
          assert p[k] == q[k] && p[k - 1] == q[k - 1] && IsLevelChange(q, k);
        } else if k > |q| {
          assert p[k] == s[k - |q|] && p[k - 1] == s[k - 1 - |q|];
        }
      }
    }
  }

  /** A line of the trace changes the level only at the left boundary of a cell
      whose defined bit differs from the defined bit before it: a run of equal
      defined bits is drawn with horizontal lines only. */
  lemma LevelChangesOnlyAtTransitions(bits: seq<Bit>)
    ensures forall k :: IsLevelChange(TracePath(bits), k) ==> EdgeExplained(bits, TracePath(bits), k)
  {
    var p := TraceUpTo(bits, |bits|);
    assert p == TracePath(bits);
    LinesAreAxisAligned(bits, |bits|);
    VerticalEdgesOnlyAtTransitions(bits, |bits|);
    forall k | IsLevelChange(p, k) ensures EdgeExplained(bits, p, k) {
      assert IsVerticalEdge(p, k);
    }
  }

  /** Conversely, every transition between two different defined bits is drawn as
      a vertical edge at that cell's left boundary. */
  lemma TransitionsDrawVerticalEdges(bits: seq<Bit>, i: nat)
    requires IsTransition(bits, i)
    ensures exists k :: IsVerticalEdge(TracePath(bits), k) && TracePath(bits)[k] == LineTo(i * BitWidth, Level(bits[i]))
  {
    var q, p := TraceUpTo(bits, i), TraceUpTo(bits, i + 1);
    assert p == q + Step(bits, i);
    var k := |q| + 1;
    assert IsVerticalEdge(p, k);
    TracePrefix(bits, i + 1, |bits|);
    TracePrefix(bits, 0, i);
    assert IsVerticalEdge(TracePath(bits), k);
  }

  predicate MoveExplained(bits: seq<Bit>, p: seq<Cmd>, k: int)
    requires 0 <= k < |p|
  {
    p[k].x == CellAt(p[k].x) * BitWidth && IsRestart(bits, CellAt(p[k].x))
    && p[k].y == Level(bits[CellAt(p[k].x)])
  }

  /** After the opening `M`, the trace restarts with `M` only at a defined bit that
      follows an 'X', at that bit's level: no line is drawn out of an 'X'. */
  lemma {:induction false} MovesOnlyAfterFaults(bits: seq<Bit>, n: nat)
    requires n <= |bits|
    ensures forall k :: 1 <= k < |TraceUpTo(bits, n)| && TraceUpTo(bits, n)[k].MoveTo? ==>
      MoveExplained(bits, TraceUpTo(bits, n), k)
  {
    if n > 0 {
      MovesOnlyAfterFaults(bits, n - 1);
      var i := n - 1;
      var p, q, s := TraceUpTo(bits, n), TraceUpTo(bits, i), Step(bits, i);
      assert p == q + s;
      assert CellAt(i * BitWidth) == i;
      forall k | 1 <= k < |p| && p[k].MoveTo? ensures MoveExplained(bits, p, k) {
        if k < |q| {
          assert p[k] == q[k];
        } else {
          assert p[k] == s[k - |q|];
        }
      }
    }
  }

  /** Conversely, a defined bit after an 'X' restarts the trace with `M` at its level. */
  lemma RestartAfterFault(bits: seq<Bit>, i: nat)
    requires IsRestart(bits, i)
    ensures MoveTo(i * BitWidth, Level(bits[i])) in TracePath(bits)
  {
    var q, p := TraceUpTo(bits, i), TraceUpTo(bits, i + 1);
    assert p == q + Step(bits, i);
    assert p[|q|] == MoveTo(i * BitWidth, Level(bits[i]));
    TracePrefix(bits, i + 1, |bits|);
    assert TracePath(bits)[|q|] == p[|q|];
  }

  /** A flat line of `n` cells at level `y`: the opening `M 0,y`, then one
      horizontal line to the right edge of every cell. */
  function FlatLine(y: nat, n: nat): (p: seq<Cmd>)
    ensures |p| == n + 1 && p[0] == MoveTo(0, y)
    ensures forall k :: 1 <= k <= n ==> p[k] == LineTo(k * BitWidth, y)
  {
    if n == 0 then [MoveTo(0, y)] else FlatLine(y, n - 1) + [LineTo(n * BitWidth, y)]
  }

  /** A non-empty string of one defined bit value draws a single unbroken
      horizontal line at that bit's level and no fault overlay. */
  lemma {:induction false} ConstantBitsDrawFlatLine(bits: seq<Bit>, b: Bit, n: nat)
    requires |bits| > 0 && b != Unknown
    requires forall i :: 0 <= i < |bits| ==> bits[i] == b
    requires n <= |bits|
    ensures TraceUpTo(bits, n) == FlatLine(Level(b), n)
    ensures FaultCellsUpTo(bits, n) == []
  {
    if n > 0 {
      ConstantBitsDrawFlatLine(bits, b, n - 1);
      assert Step(bits, n - 1) == [LineTo(n * BitWidth, Level(b))];
    }
  }

  // ---------------------------------------------------------------------------
  // The fault overlay

  /** The fault cells are exactly the indices that hold an 'X', in increasing order. */
  lemma {:induction false} FaultCellsAreTheUnknowns(bits: seq<Bit>, n: nat)
    requires n <= |bits|
    ensures forall c :: c in FaultCellsUpTo(bits, n) <==> 0 <= c < n && bits[c] == Unknown
    ensures forall a, b :: 0 <= a < b < |FaultCellsUpTo(bits, n)| ==>
      FaultCellsUpTo(bits, n)[a] < FaultCellsUpTo(bits, n)[b]
  {
    if n > 0 {
      FaultCellsAreTheUnknowns(bits, n - 1);
      var q := FaultCellsUpTo(bits, n - 1);
      forall a | 0 <= a < |q| ensures q[a] < n - 1 {
        assert q[a] in q;
      }
      assert FaultCellsUpTo(bits, n) == q + (if bits[n - 1] == Unknown then [n - 1] else []);
    }
  }

  /** The overlay is four commands per cell, the k-th group being the glyph of
      the k-th cell. */
  lemma {:induction false} GlyphsLayout(cells: seq<nat>)
    ensures |Glyphs(cells)| == 4 * |cells|
    ensures forall k :: 0 <= k < |cells| ==> Glyphs(cells)[4 * k .. 4 * k + 4] == Glyph(cells[k])
  {
    if |cells| > 0 {
      var init := cells[..|cells| - 1];
      GlyphsLayout(init);
      var g := Glyphs(cells);
      assert g == Glyphs(init) + Glyph(cells[|cells| - 1]);
      forall k | 0 <= k < |cells| ensures g[4 * k .. 4 * k + 4] == Glyph(cells[k]) {
        if k < |cells| - 1 {
          assert g[4 * k .. 4 * k + 4] == Glyphs(init)[4 * k .. 4 * k + 4];
        }
      }
    }
  }

  /** `bugPath` holds exactly one glyph `M x1,10 L x2,30 M x1,30 L x2,10` for each
      'X', with x1 = 16 i and x2 = 16 (i + 1), in the order of the cells. */
  lemma OneGlyphPerFault(bits: seq<Bit>)
    ensures |BugPath(bits)| == 4 * |FaultCells(bits)|
    ensures forall k :: 0 <= k < |FaultCells(bits)| ==>
      BugPath(bits)[4 * k .. 4 * k + 4] == Glyph(FaultCells(bits)[k])
    ensures forall c :: c in FaultCells(bits) <==> 0 <= c < |bits| && bits[c] == Unknown
    ensures forall a, b :: 0 <= a < b < |FaultCells(bits)| ==> FaultCells(bits)[a] < FaultCells(bits)[b]
  {
    GlyphsLayout(FaultCells(bits));
    FaultCellsAreTheUnknowns(bits, |bits|);
  }

  /** `bugPath` is empty exactly when the bits hold no 'X'. */
  lemma BugPathEmptyIffNoFault(bits: seq<Bit>)
    ensures BugPath(bits) == [] <==> forall i :: 0 <= i < |bits| ==> bits[i] != Unknown
  {
    OneGlyphPerFault(bits);
    if FaultCells(bits) != [] {
      assert FaultCells(bits)[0] in FaultCells(bits);
    }
  }

  // ---------------------------------------------------------------------------
  // Printing

  /** `M x,y` or `L x,y`, numbers in decimal. */
  function CmdText(c: Cmd): string {
    (if c.MoveTo? then "M " else "L ") + Decimal(c.x) + "," + Decimal(c.y)
  }

  /** The text of `path`: the opening command, then every later command preceded
      by one space. */
  function RenderPath(p: seq<Cmd>): (s: string)
    ensures s == [] <==> p == []
    ensures |p| > 0 ==> |s| >= |CmdText(p[0])| && s[..|CmdText(p[0])|] == CmdText(p[0])
  {
    if |p| <= 1 then (if p == [] then "" else CmdText(p[0]))
    else
      var s := RenderPath(p[..|p| - 1]) + " " + CmdText(p[|p| - 1]);
      assert p[..|p| - 1][0] == p[0];
      s
  }

  /** The text of `bugPath`: each glyph printed as a path, glyphs appended with no
      separator. */
  function RenderBugPath(p: seq<Cmd>): (s: string)
    ensures s == [] <==> p == []
    decreases |p|
  {
    if |p| <= 4 then RenderPath(p) else RenderPath(p[..4]) + RenderBugPath(p[4..])
  }

  /** The printed trace starts with `M 0,` and the level of the first bit. */
  lemma RenderedTraceStart(bits: seq<Bit>)
    ensures var s := RenderPath(TracePath(bits)); var head := "M 0," + Decimal(StartLevel(bits));
      |s| >= |head| && s[..|head|] == head
  {
    TraceStart(bits);
    assert Decimal(0) == "0";
    assert CmdText(MoveTo(0, StartLevel(bits))) == "M 0," + Decimal(StartLevel(bits));
  }

  /** The printed overlay is the empty string, which the widget does not draw,
      exactly when there is no 'X'. */
  lemma RenderedBugPathEmptyIffNoFault(bits: seq<Bit>)
    ensures RenderBugPath(BugPath(bits)) == [] <==> forall i :: 0 <= i < |bits| ==> bits[i] != Unknown
  {
    BugPathEmptyIffNoFault(bits);
  }
}
