/**
  The loops of src/tui/screen.cpp: the blocked byte scans, the string builders and
  screen::to_string itself, proved to write exactly the operations of DiffOps.
 */
module ScreenLoops {
  import opened Bytes
  import opened Terminal
  import opened Cells
  import opened ScreenDiff
  import opened ScreenRefinement
  import opened ScreenTheorem

  // ---- Byte scans ----------------------------------------------------------

  /** match_bytes and to_bitmask: lane k of the block that starts at i. */
  function EqualLanes(left: seq<byte>, right: seq<byte>, i: nat): (mask: seq<bool>)
    requires i + 16 <= |left| == |right|
    ensures |mask| == 16
    ensures forall k | i <= k < i + 16 :: mask[k - i] == (left[k] == right[k])
  {
    seq(16, k requires 0 <= k < 16 => left[i + k] == right[i + k])
  }

  const ALL_LANES := seq(16, _ => true)

  ghost predicate Agree(left: seq<byte>, right: seq<byte>, from: int, to: int)
    requires |left| == |right|
  {
    forall k | from <= k < to && 0 <= k < |left| :: left[k] == right[k]
  }

  /** Least differing index, or the length: 16 bytes at a time, then the tail. */
  method FirstChangedByte(left: seq<byte>, right: seq<byte>) returns (r: nat)
    requires |left| == |right|
    ensures r <= |left| && Agree(left, right, 0, r)
    ensures r < |left| ==> left[r] != right[r]
  {
    var i := 0;
    while i + 16 <= |left|
      invariant i <= |left| && Agree(left, right, 0, i)
    {
      var mask := EqualLanes(left, right, i);
      if mask != ALL_LANES {
        var k := 0;
        while k < 16
          invariant k <= 16 && Agree(left, right, 0, i + k)
          invariant forall j | 0 <= j < k :: mask[j]
        {
          if !mask[k] {
            assert mask[(i + k) - i] == (left[i + k] == right[i + k]);
            return i + k;
          }
          assert mask[(i + k) - i] == (left[i + k] == right[i + k]);
          k := k + 1;
        }
        assert false;
      } else {
        forall k | i <= k < i + 16
          ensures left[k] == right[k]
        {
          assert mask[k - i] == ALL_LANES[k - i];
        }
      }
      i := i + 16;
    }
    while i < |left|
      invariant i <= |left| && Agree(left, right, 0, i)
    {
      if left[i] != right[i] {
        return i;
      }
      i := i + 1;
    }
    return |left|;
  }

  /** Greatest differing index, or 0 when there is none: 128 bytes at a time, then 16, then one. */
  method LastChangedByte(left: seq<byte>, right: seq<byte>) returns (r: nat)
    requires |left| == |right|
    ensures left == right ==> r == 0
    ensures left != right ==> r < |left| && left[r] != right[r] && Agree(left, right, r + 1, |left|)
  {
    var i := |left|;
    while i >= 128
      invariant i <= |left| && Agree(left, right, i, |left|)
    {
      if left[i - 128..i] != right[i - 128..i] {
        break;
      }
      forall k | i - 128 <= k < i
        ensures left[k] == right[k]
      {
        assert left[i - 128..i][k - (i - 128)] == right[i - 128..i][k - (i - 128)];
      }
      i := i - 128;
    }
    while i >= 16
      invariant i <= |left| && Agree(left, right, i, |left|)
    {
      var mask := EqualLanes(left, right, i - 16);
      if mask != ALL_LANES {
        var k := 16;
        while k > 0
          invariant 0 <= k <= 16 && Agree(left, right, i - 16 + k, |left|)
          invariant forall j | k <= j < 16 :: mask[j]
        {
          k := k - 1;
          assert mask[(i - 16 + k) - (i - 16)] == (left[i - 16 + k] == right[i - 16 + k]);
          if !mask[k] {
            return i - 16 + k;
          }
        }
        assert false;
      } else {
        forall k | i - 16 <= k < i
          ensures left[k] == right[k]
        {
          assert mask[k - (i - 16)] == ALL_LANES[k - (i - 16)];
        }
      }
      i := i - 16;
    }
    while i > 0
      invariant i <= |left| && Agree(left, right, i, |left|)
    {
      i := i - 1;
      if left[i] != right[i] {
        return i;
      }
    }
    assert left == right;
    return 0;
  }

  /** The bytes of cell i inside the memory of its row. */
  lemma CellBytes(row: seq<Cell>, i: nat, b: nat)
    requires i < |row| && CELL_SIZE * i <= b < CELL_SIZE * (i + 1)
    ensures RowImage(row)[b] == Image(row[i])[b - CELL_SIZE * i]
  {
    RowImageAt(row, i);
    assert RowImage(row)[CELL_SIZE * i..CELL_SIZE * (i + 1)][b - CELL_SIZE * i] == RowImage(row)[b];
  }

  lemma AgreeingSlices(a: seq<byte>, b: seq<byte>, from: nat, to: nat)
    requires |a| == |b| && from <= to <= |a| && Agree(a, b, from, to)
    ensures a[from..to] == b[from..to]
  {
  }

  /** Cells whose bytes all agree are equal. */
  lemma AgreeingCells(row: seq<Cell>, prow: seq<Cell>, i: nat)
    requires i < |row| == |prow|
    requires Agree(RowImage(row), RowImage(prow), CELL_SIZE * i, CELL_SIZE * (i + 1))
    ensures row[i] == prow[i]
  {
    RowImageAt(row, i);
    RowImageAt(prow, i);
    AgreeingSlices(RowImage(row), RowImage(prow), CELL_SIZE * i, CELL_SIZE * (i + 1));
    ImageInjective(row[i], prow[i]);
  }

  lemma DifferingCell(row: seq<Cell>, prow: seq<Cell>, b: nat)
    requires |row| == |prow| && b < CELL_SIZE * |row| && RowImage(row)[b] != RowImage(prow)[b]
    ensures b / CELL_SIZE < |row| && row[b / CELL_SIZE] != prow[b / CELL_SIZE]
  {
    CellBytes(row, b / CELL_SIZE, b);
    CellBytes(prow, b / CELL_SIZE, b);
  }

  /** The byte scan finds the first changed cell, or that there is none. */
  lemma FirstByteIsFirstCell(row: seq<Cell>, prow: seq<Cell>, b: nat)
    requires |row| == |prow| && b <= CELL_SIZE * |row|
    requires Agree(RowImage(row), RowImage(prow), 0, b)
    requires b < CELL_SIZE * |row| ==> RowImage(row)[b] != RowImage(prow)[b]
    ensures b == CELL_SIZE * |row| <==> row == prow
    ensures row != prow ==> b / CELL_SIZE == FirstChange(row, prow)
  {
    hide Image, RowImage;
    forall i | 0 <= i < |row| && CELL_SIZE * (i + 1) <= b
      ensures row[i] == prow[i]
    {
      AgreeingCells(row, prow, i);
    }
    if b < CELL_SIZE * |row| {
      DifferingCell(row, prow, b);
      assert FirstChange(row, prow) <= b / CELL_SIZE;
    }
  }

  lemma LastByteIsLastCell(row: seq<Cell>, prow: seq<Cell>, b: nat)
    requires |row| == |prow| && row != prow && b < CELL_SIZE * |row|
    requires RowImage(row)[b] != RowImage(prow)[b]
    requires Agree(RowImage(row), RowImage(prow), b + 1, CELL_SIZE * |row|)
    ensures b / CELL_SIZE == LastChange(row, prow)
  {
    DifferingCell(row, prow, b);
    var last := LastChange(row, prow);
    if last > b / CELL_SIZE {
      AgreeingCells(row, prow, last);
      assert false;
    }
  }

  // ---- The loops of to_string ----------------------------------------------

  /** The run that starts at x: how far it reaches and how many columns it takes. */
  method MeasureRun(l: Line, x: nat, xEnd: nat) returns (runEnd: nat, width: nat)
    requires x <= xEnd < |l.row| == |l.prow| && Emitted(l.row, l.prow, x)
    ensures runEnd == RunEnd(l.row, l.prow, x, x, xEnd) && width == RunWidth(l.row, x, runEnd)
  {
    runEnd := x;
    while runEnd < xEnd
      invariant x <= runEnd <= xEnd
      invariant RunEnd(l.row, l.prow, x, runEnd, xEnd) == RunEnd(l.row, l.prow, x, x, xEnd)
    {
      var next := l.row[runEnd + 1];
      if next.automerge || next.style != l.row[x].style {
        break;
      }
      if Same(next, l.prow[runEnd + 1]) {
        break;
      }
      runEnd := runEnd + 1;
    }
    width := 0;
    for i := x to runEnd + 1
      invariant width + RunWidth(l.row, i, runEnd) == RunWidth(l.row, x, runEnd)
    {
      width := width + (if l.row[i].width > 1 then l.row[i].width else 1);
    }
  }

  method AppendGlyphs(out: seq<byte>, row: seq<Cell>, x: nat, runEnd: nat) returns (r: seq<byte>)
    requires x <= runEnd < |row|
    ensures r == out + Serialize(GlyphOps(row, x, runEnd))
  {
    r := out;
    for i := x to runEnd + 1
      invariant r + Serialize(GlyphOps(row, i, runEnd)) == out + Serialize(GlyphOps(row, x, runEnd))
    {
      GlyphsUnfold(row, i, runEnd);
      r := r + row[i].text;
    }
  }

  lemma {:induction false} GlyphsUnfold(row: seq<Cell>, x: nat, e: nat)
    requires x <= e < |row|
    ensures Serialize(GlyphOps(row, x, e)) == row[x].text + Serialize(GlyphOps(row, x + 1, e))
  {
    assert GlyphOps(row, x, e)[0] == Print(row[x].text);
    assert GlyphOps(row, x, e)[1..] == GlyphOps(row, x + 1, e);
  }

  /** The changed span of a row, found on its memory image. */
  method ChangedSpan(row: seq<Cell>, prow: seq<Cell>, prevBlank: bool) returns (changed: bool, xBegin: nat, xEnd: nat)
    requires |row| == |prow|
    ensures changed <==> row != prow
    ensures changed ==> xBegin == FirstChange(row, prow) && xEnd == LastChange(row, prow)
  {
    var left, right := RowImage(row), RowImage(prow);
    changed, xBegin, xEnd := false, 0, 0;
    if !prevBlank && left == right {
      FirstByteIsFirstCell(row, prow, |left|);
      return;
    }
    var first := FirstChangedByte(left, right);
    FirstByteIsFirstCell(row, prow, first);
    if first == |left| {
      return;
    }
    changed, xBegin := true, first / CELL_SIZE;
    var last := LastChangedByte(left, right);
    LastByteIsLastCell(row, prow, last);
    xEnd := last / CELL_SIZE;
  }

  /** The loop over the changed span of one row. */
  method AppendRow(out: seq<byte>, l: Line, xBegin: nat, xEnd: nat, start: Pen) returns (r: seq<byte>, pen: Pen)
    requires xBegin <= xEnd < |l.row| == |l.prow| && PenOk(start)
    ensures r == out + Serialize(RowOps(l, xBegin, xEnd, start).0)
    ensures pen == RowOps(l, xBegin, xEnd, start).1
  {
    r, pen := out, start;
    var x := xBegin;
    while x <= xEnd
      invariant xBegin <= x <= xEnd + 1 && PenOk(pen)
      invariant RowOps(l, x, xEnd, pen).1 == RowOps(l, xBegin, xEnd, start).1
      invariant r + Serialize(RowOps(l, x, xEnd, pen).0) == out + Serialize(RowOps(l, xBegin, xEnd, start).0)
    {
      if l.row[x].automerge {
        x := x + 1;
        continue;
      }
      if Same(l.row[x], l.prow[x]) {
        x := x + 1;
        continue;
      }
      r, pen, x := AppendRun(r, l, x, xEnd, pen);
    }
  }

  /** One cursor move and one style update per run, then its glyphs. */
  method AppendRun(out: seq<byte>, l: Line, x: nat, xEnd: nat, start: Pen) returns (r: seq<byte>, pen: Pen, next: nat)
    requires x <= xEnd < |l.row| == |l.prow| && PenOk(start) && Emitted(l.row, l.prow, x)
    ensures x < next <= xEnd + 1 && PenOk(pen)
    ensures RowOps(l, next, xEnd, pen).1 == RowOps(l, x, xEnd, start).1
    ensures r + Serialize(RowOps(l, next, xEnd, pen).0) == out + Serialize(RowOps(l, x, xEnd, start).0)
  {
    hide *;
    var runEnd, width := MeasureRun(l, x, xEnd);
    pen := Pen(x + width - 1, l.y, l.row[x].style);
    next := runEnd + 1;
    r := AppendHead(out, l, x, start);
    r := AppendGlyphs(r, l.row, x, runEnd);
    RunUnfold(l, x, xEnd, start);
    Regroup5(out, Serialize(MoveOps(start, x, l.y)),
             Serialize(StyleOps(start.style, l.row[x].style, l.depth, l.links)),
             Serialize(GlyphOps(l.row, x, runEnd)), Serialize(RowOps(l, next, xEnd, pen).0));
  }

  method AppendHead(out: seq<byte>, l: Line, x: nat, start: Pen) returns (r: seq<byte>)
    requires x < |l.row|
    ensures r == out + Serialize(MoveOps(start, x, l.y)) +
                 Serialize(StyleOps(start.style, l.row[x].style, l.depth, l.links))
  {
    hide StyleOps, MoveOps;
    r := out + Serialize(MoveOps(start, x, l.y));
    r := r + Serialize(StyleOps(start.style, l.row[x].style, l.depth, l.links));
  }

  lemma {:induction false} RunUnfold(l: Line, x: nat, xEnd: nat, pen: Pen)
    requires x <= xEnd < |l.row| == |l.prow| && PenOk(pen) && Emitted(l.row, l.prow, x)
    ensures
      var e := RunEnd(l.row, l.prow, x, x, xEnd);
      var after := Pen(x + RunWidth(l.row, x, e) - 1, l.y, l.row[x].style);
      && PenOk(after)
      && RowOps(l, x, xEnd, pen).1 == RowOps(l, e + 1, xEnd, after).1
      && Serialize(RowOps(l, x, xEnd, pen).0) ==
           Serialize(MoveOps(pen, x, l.y)) +
           Serialize(StyleOps(pen.style, l.row[x].style, l.depth, l.links)) +
           Serialize(GlyphOps(l.row, x, e)) +
           Serialize(RowOps(l, e + 1, xEnd, after).0)
  {
    hide Serialize, MoveOps, StyleOps, GlyphOps, Emitted, RunEnd, RunWidth;
    var e := RunEnd(l.row, l.prow, x, x, xEnd);
    var run := RunOps(l, x, e, pen);
    SerializeRun(MoveOps(pen, x, l.y), StyleOps(pen.style, l.row[x].style, l.depth, l.links), GlyphOps(l.row, x, e),
                 RowOps(l, e + 1, xEnd, run.1).0);
  }

  lemma {:induction false} SerializeRun(a: seq<Op>, b: seq<Op>, c: seq<Op>, d: seq<Op>)
    ensures Serialize(a + (b + c) + d) == Serialize(a) + Serialize(b) + Serialize(c) + Serialize(d)
  {
    hide *;
    SerializeConcat(b, c);
    SerializeConcat(a, b + c);
    SerializeConcat(a + (b + c), d);
    Regroup3(Serialize(a), Serialize(b), Serialize(c));
  }

  lemma {:induction false} SerializeParts(a: seq<Op>, b: seq<Op>, c: seq<Op>, d: seq<Op>)
    ensures Serialize(a + (b + (c + d))) == Serialize(a) + Serialize(b) + Serialize(c) + Serialize(d)
  {
    hide *;
    SerializeConcat(c, d);
    SerializeConcat(b, c + d);
    SerializeConcat(a, b + (c + d));
    Regroup4(Serialize(a), Serialize(b), Serialize(c), Serialize(d));
  }

  lemma Regroup4(a: seq<byte>, b: seq<byte>, c: seq<byte>, d: seq<byte>)
    ensures a + (b + (c + d)) == a + b + c + d
  {
  }

  lemma Regroup5(a: seq<byte>, b: seq<byte>, c: seq<byte>, d: seq<byte>, e: seq<byte>)
    ensures a + b + c + d + e == a + (b + c + d + e)
  {
  }

  lemma {:induction false} LineUnfold(cur: Frame, prev: Frame, y: nat, pen: Pen)
    requires Sized(cur) && Sized(prev) && y < cur.h && y < prev.h && PenOk(pen)
    ensures
      var line := LineOps(LineOf(cur, prev, y), pen);
      && LinesOps(cur, prev, y, pen).1 == LinesOps(cur, prev, y + 1, line.1).1
      && Serialize(LinesOps(cur, prev, y, pen).0) == Serialize(line.0) + Serialize(LinesOps(cur, prev, y + 1, line.1).0)
  {
    var line := LineOps(LineOf(cur, prev, y), pen);
    SerializeConcat(line.0, LinesOps(cur, prev, y + 1, line.1).0);
  }

  /** screen::to_string, byte for byte. */
  method ToString(cur: Frame, prev: Frame) returns (out: seq<byte>)
    requires Sized(cur) && Sized(prev)
    ensures out == Serialize(DiffOps(cur, prev))
  {
    var result, pen := Body(cur, prev);
    if pen.lastX < 0 && !CursorChanged(cur, prev) {
      return [];
    }
    out := Serialize([HIDE]) + result + Serialize([SgrOp([0])]) + Serialize(CursorOps(cur));
    SerializeParts([HIDE], LinesOps(cur, prev, 0, START).0, [SgrOp([0])], CursorOps(cur));
  }

  method Body(cur: Frame, prev: Frame) returns (result: seq<byte>, pen: Pen)
    requires Sized(cur) && Sized(prev)
    ensures result == Serialize(LinesOps(cur, prev, 0, START).0) && pen == LinesOps(cur, prev, 0, START).1
  {
    hide LineOps;
    result, pen := [], START;
    var y := 0;
    ghost var rest := LinesOps(cur, prev, 0, START);
    ghost var total, last := Serialize(rest.0), rest.1;
    while y < cur.h && y < prev.h
      invariant y <= cur.h && y <= prev.h && PenOk(pen)
      invariant rest == LinesOps(cur, prev, y, pen)
      invariant last == rest.1 && total == result + Serialize(rest.0)
    {
      result, pen, rest := BodyStep(cur, prev, y, pen, result, rest);
      y := y + 1;
    }
    NoLinesLeft(cur, prev, y, pen, result);
  }

  lemma {:induction false} NoLinesLeft(cur: Frame, prev: Frame, y: nat, pen: Pen, out: seq<byte>)
    requires Sized(cur) && Sized(prev) && PenOk(pen) && (y >= cur.h || y >= prev.h)
    ensures LinesOps(cur, prev, y, pen).1 == pen
    ensures out + Serialize(LinesOps(cur, prev, y, pen).0) == out
  {
  }

  method BodyStep(cur: Frame, prev: Frame, y: nat, start: Pen, out: seq<byte>, ghost before: (seq<Op>, Pen))
    returns (r: seq<byte>, pen: Pen, ghost rest: (seq<Op>, Pen))
    requires Sized(cur) && Sized(prev) && y < cur.h && y < prev.h && PenOk(start)
    requires before == LinesOps(cur, prev, y, start)
    ensures PenOk(pen) && rest == LinesOps(cur, prev, y + 1, pen) && rest.1 == before.1
    ensures r + Serialize(rest.0) == out + Serialize(before.0)
  {
    LineUnfold(cur, prev, y, start);
    r, pen := AppendLine(out, LineOf(cur, prev, y), start, prev.blank);
    rest := LinesOps(cur, prev, y + 1, pen);
    Regroup3(out, Serialize(LineOps(LineOf(cur, prev, y), start).0), Serialize(rest.0));
  }

  lemma Regroup3(a: seq<byte>, b: seq<byte>, c: seq<byte>)
    ensures a + b + c == a + (b + c)
  {
  }

  method AppendLine(out: seq<byte>, l: Line, start: Pen, prevBlank: bool) returns (r: seq<byte>, pen: Pen)
    requires |l.row| == |l.prow| && PenOk(start)
    ensures r == out + Serialize(LineOps(l, start).0) && pen == LineOps(l, start).1
  {
    r, pen := out, start;
    var changed, xBegin, xEnd := ChangedSpan(l.row, l.prow, prevBlank);
    if changed {
      SpanOrder(l.row, l.prow);
      r, pen := AppendRow(out, l, xBegin, xEnd, start);
    }
  }
}
