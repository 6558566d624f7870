/**
  screen::to_string as a function from two frames to terminal operations, with the
  same case distinctions as the loops of src/tui/screen.cpp.  ScreenLoops.dfy proves
  that the loops compute it; ScreenRefinement.dfy proves what it does to a terminal.
 */
module ScreenDiff {
  import opened Bytes
  import opened Terminal
  import opened Cells

  /** What the loop carries: where the terminal cursor should be and the style sent last. */
  datatype Pen = Pen(lastX: int, lastY: int, style: Style)

  const START := Pen(-1, -1, RESET)

  function SgrOp(params: seq<nat>): Op { Csi(false, params, false, 109) }

  function LinkOps(link: byte, links: seq<seq<byte>>): seq<Op> {
    [Osc([56, 59, 59] + (if 0 < link <= |links| then links[link - 1] else []))]
  }

  function ColorOps(c: Color, background: bool, depth: Depth): seq<Op> {
    if c.a == 0 then [SgrOp([if background then 49 else 39])]
    else match depth
      case Ansi16 => [SgrOp([(if background then 40 else 30) + AnsiBasic(c)])]
      case Ansi256 => [SgrOp([if background then 48 else 38, 5, Ansi256Index(c)])]
      case TrueColor => [SgrOp([if background then 48 else 38, 2, c.r, c.g, c.b])]
  }

  function WeightOps(prev: Style, next: Style): seq<Op> {
    if next.bold == prev.bold && next.dim == prev.dim then []
    else
      (if (prev.bold && !next.bold) || (prev.dim && !next.dim) then [SgrOp([22])] else []) +
      (if next.bold then [SgrOp([1])] else []) +
      (if next.dim then [SgrOp([2])] else [])
  }

  function UnderlineOps(prev: Style, next: Style): seq<Op> {
    if next.underlined == prev.underlined && next.underlinedDouble == prev.underlinedDouble then []
    else
      (if (prev.underlined && !next.underlined) || (prev.underlinedDouble && !next.underlinedDouble)
       then [SgrOp([24])] else []) +
      (if next.underlinedDouble then [SgrOp([21])] else if next.underlined then [SgrOp([4])] else [])
  }

  function SwitchOps(prev: bool, next: bool, on: nat, off: nat): seq<Op> {
    if prev == next then [] else [SgrOp([if next then on else off])]
  }

  /** update_cell_style */
  function StyleOps(prev: Style, next: Style, depth: Depth, links: seq<seq<byte>>): seq<Op> {
    (if next.link == prev.link then [] else LinkOps(next.link, links)) +
    (WeightOps(prev, next) +
    (SwitchOps(prev.italic, next.italic, 3, 23) +
    (UnderlineOps(prev, next) +
    (SwitchOps(prev.blink, next.blink, 5, 25) +
    (SwitchOps(prev.inverted, next.inverted, 7, 27) +
    (SwitchOps(prev.strikethrough, next.strikethrough, 9, 29) +
    ((if next.fg == prev.fg then [] else ColorOps(next.fg, false, depth)) +
     (if next.bg == prev.bg then [] else ColorOps(next.bg, true, depth)))))))))
  }

  /** append_cursor_move */
  function GotoOp(x: nat, y: nat): Op { Csi(false, [y + 1, x + 1], false, 72) }

  function StepOp(n: nat, final: byte): Op { Csi(false, if n == 1 then [] else [n], false, final) }

  /** append_relative_move */
  function RelativeMove(fromX: int, fromY: int, x: nat, y: nat): Op {
    if y == fromY && x > fromX then StepOp(x - fromX, 67)
    else if x == fromX && y > fromY then StepOp(y - fromY, 66)
    else GotoOp(x, y)
  }

  function MoveOps(pen: Pen, x: nat, y: nat): seq<Op> {
    if pen.lastY == y && pen.lastX + 1 == x then []
    else if pen.lastX >= 0 && pen.lastY >= 0 then [RelativeMove(pen.lastX + 1, pen.lastY, x, y)]
    else [GotoOp(x, y)]
  }

  /** A cell the loop writes: not a continuation and visibly different from the previous frame. */
  predicate Emitted(row: seq<Cell>, prow: seq<Cell>, i: int)
    requires |prow| == |row|
  {
    0 <= i < |row| && !row[i].automerge && !Same(row[i], prow[i])
  }

  /** Last cell of the run that starts at the emitted cell first. */
  function RunEnd(row: seq<Cell>, prow: seq<Cell>, first: nat, e: nat, xEnd: nat): (r: nat)
    requires first <= e <= xEnd < |row| == |prow|
    ensures e <= r <= xEnd
    ensures forall i | e < i <= r :: Emitted(row, prow, i) && row[i].style == row[first].style
    ensures r < xEnd ==> !Emitted(row, prow, r + 1) || row[r + 1].style != row[first].style
    decreases xEnd - e
  {
    if e < xEnd && Emitted(row, prow, e + 1) && row[e + 1].style == row[first].style
    then RunEnd(row, prow, first, e + 1, xEnd)
    else e
  }

  function RunWidth(row: seq<Cell>, x: nat, e: int): nat
    requires x <= e + 1 <= |row|
    decreases e + 1 - x
  {
    if x > e then 0 else (if row[x].width > 1 then row[x].width else 1) + RunWidth(row, x + 1, e)
  }

  function GlyphOps(row: seq<Cell>, x: nat, e: int): seq<Op>
    requires x <= e + 1 <= |row|
    decreases e + 1 - x
  {
    if x > e then [] else [Print(row[x].text)] + GlyphOps(row, x + 1, e)
  }

  /** Frame-wide context of a row. */
  datatype Line = Line(row: seq<Cell>, prow: seq<Cell>, y: nat, depth: Depth, links: seq<seq<byte>>)

  predicate PenOk(pen: Pen) {
    (pen.lastX >= 0 && pen.lastY >= 0) || pen.lastX == pen.lastY == -1
  }

  function RunOps(l: Line, x: nat, e: nat, pen: Pen): (r: (seq<Op>, Pen))
    requires x <= e < |l.row| && PenOk(pen)
    ensures PenOk(r.1)
  {
    (MoveOps(pen, x, l.y) + (StyleOps(pen.style, l.row[x].style, l.depth, l.links) + GlyphOps(l.row, x, e)),
     Pen(x + RunWidth(l.row, x, e) - 1, l.y, l.row[x].style))
  }

  /** The cell loop from column x to the last changed column. */
  function RowOps(l: Line, x: nat, xEnd: nat, pen: Pen): (r: (seq<Op>, Pen))
    requires x <= xEnd + 1 <= |l.row| == |l.prow| && PenOk(pen)
    ensures PenOk(r.1)
    decreases xEnd + 1 - x
  {
    if x > xEnd then ([], pen)
    else if !Emitted(l.row, l.prow, x) then RowOps(l, x + 1, xEnd, pen)
    else
      var e := RunEnd(l.row, l.prow, x, x, xEnd);
      var run := RunOps(l, x, e, pen);
      var rest := RowOps(l, e + 1, xEnd, run.1);
      (run.0 + rest.0, rest.1)
  }

  /** Least column at which the rows differ in any field, or their length. */
  function FirstChange(row: seq<Cell>, prow: seq<Cell>): (i: nat)
    requires |row| == |prow|
    ensures i <= |row| && (forall k | 0 <= k < i :: row[k] == prow[k])
    ensures i < |row| ==> row[i] != prow[i]
  {
    if row == [] then 0
    else if row[0] != prow[0] then 0
    else
      var i := FirstChange(row[1..], prow[1..]) + 1;
      assert forall k | 0 < k < i :: row[k] == row[1..][k - 1] && prow[k] == prow[1..][k - 1];
      i
  }

  function LastChange(row: seq<Cell>, prow: seq<Cell>): (i: nat)
    requires |row| == |prow| && row != prow
    ensures i < |row| && row[i] != prow[i] && (forall k | i < k < |row| :: row[k] == prow[k])
  {
    var n := |row| - 1;
    if row[n] != prow[n] then n
    else
      assert row == row[..n] + [row[n]] && prow == prow[..n] + [prow[n]];
      var i := LastChange(row[..n], prow[..n]);
      assert forall k | i < k < n :: row[..n][k] == prow[..n][k];
      i
  }

  /** One row: nothing when it is unchanged, otherwise the loop over its changed span. */
  function LineOps(l: Line, pen: Pen): (r: (seq<Op>, Pen))
    requires |l.row| == |l.prow| && PenOk(pen)
    ensures PenOk(r.1)
  {
    if l.row == l.prow then ([], pen)
    else
      SpanOrder(l.row, l.prow);
      RowOps(l, FirstChange(l.row, l.prow), LastChange(l.row, l.prow), pen)
  }

  lemma SpanOrder(row: seq<Cell>, prow: seq<Cell>)
    requires |row| == |prow| && row != prow
    ensures FirstChange(row, prow) <= LastChange(row, prow)
  {
    var k := LastChange(row, prow);
    assert row[k] != prow[k];
  }

  function Least(a: nat, b: nat): nat { if a < b then a else b }

  /** Frames of different sizes are compared on the rectangle they share. */
  function LineOf(cur: Frame, prev: Frame, y: nat): (l: Line)
    requires Sized(cur) && Sized(prev) && y < cur.h && y < prev.h
    ensures |l.row| == |l.prow| == Least(cur.w, prev.w)
  {
    var w := Least(cur.w, prev.w);
    Line(Row(cur, y)[..w], Row(prev, y)[..w], y, cur.depth, cur.links)
  }

  /** The row loop from row y on. */
  function LinesOps(cur: Frame, prev: Frame, y: nat, pen: Pen): (r: (seq<Op>, Pen))
    requires Sized(cur) && Sized(prev) && PenOk(pen)
    ensures PenOk(r.1)
    decreases cur.h - y
  {
    if y >= cur.h || y >= prev.h then ([], pen)
    else
      var line := LineOps(LineOf(cur, prev, y), pen);
      var rest := LinesOps(cur, prev, y + 1, line.1);
      (line.0 + rest.0, rest.1)
  }

  /** append_cursor */
  function CursorOps(f: Frame): seq<Op>
    requires f.w > 0 && f.h > 0
  {
    if f.cursor.shape.Hidden? then [Csi(true, [25], false, 108)]
    else [GotoOp(ClampTo(f.cursor.x, f.w), ClampTo(f.cursor.y, f.h)),
          Csi(false, [ShapeCode(f.cursor.shape)], true, 113),
          Csi(true, [25], false, 104)]
  }

  predicate CursorChanged(cur: Frame, prev: Frame) {
    || cur.cursor.shape != prev.cursor.shape
    || (!cur.cursor.shape.Hidden? && (cur.cursor.x != prev.cursor.x || cur.cursor.y != prev.cursor.y))
  }

  /** screen::to_string; the pen has left its start exactly when some cell was written. */
  function DiffOps(cur: Frame, prev: Frame): seq<Op>
    requires Sized(cur) && Sized(prev)
  {
    var body := LinesOps(cur, prev, 0, START);
    if body.1.lastX < 0 && !CursorChanged(cur, prev) then []
    else [Csi(true, [25], false, 108)] + (body.0 + ([SgrOp([0])] + CursorOps(cur)))
  }
}
