/**
  The refinement theorem for whole frames: after the diff the terminal shows the new frame,
  in the default rendition, with the new cursor; and exactly when it also does so to the letter.
 */
module ScreenTheorem {
  import opened Bytes
  import opened Terminal
  import opened Cells
  import opened ScreenDiff
  import opened ScreenRefinement

  predicate SameSize(cur: Frame, prev: Frame) {
    Sized(cur) && Sized(prev) && cur.w == prev.w && cur.h == prev.h
  }

  /** The changed cells of a frame, in the terms of its previous frame. */
  predicate Changed(cur: Frame, prev: Frame, y: nat, i: nat)
    requires SameSize(cur, prev)
  {
    y < cur.h && Emitted(Row(cur, y), Row(prev, y), i)
  }

  /** Every changed cell above row y asks for opaque black. */
  ghost predicate UnsetAbove(cur: Frame, prev: Frame, y: nat)
    requires SameSize(cur, prev) && y <= cur.h
  {
    forall k | 0 <= k < y :: Unset(Row(cur, k), Row(prev, k), cur.w, true)
  }

  /** A changed cell with visible opaque black ink before which no other colour has been asked for. */
  ghost predicate LostInk(cur: Frame, prev: Frame, y: nat, i: nat)
    requires SameSize(cur, prev)
  {
    && Changed(cur, prev, y, i) && Inked(Row(cur, y)[i])
    && UnsetAbove(cur, prev, y) && Unset(Row(cur, y), Row(prev, y), i + 1, true)
  }

  ghost predicate KeepsInk(cur: Frame, prev: Frame)
    requires SameSize(cur, prev)
  {
    forall y: nat, i: nat :: !LostInk(cur, prev, y, i)
  }

  lemma LineIs(cur: Frame, prev: Frame, y: nat)
    requires SameSize(cur, prev) && y < cur.h
    ensures LineOf(cur, prev, y) == Line(Row(cur, y), Row(prev, y), y, cur.depth, cur.links)
  {
    assert Row(cur, y)[..cur.w] == Row(cur, y);
    assert Row(prev, y)[..cur.w] == Row(prev, y);
  }

  // ---- All rows ------------------------------------------------------------

  /** From row y on, wide glyphs sit where the previous frame has them. */
  ghost predicate KindsFrom(t: Term, prev: Frame, y: nat) {
    && Valid(t) && Sized(prev) && t.w == prev.w && t.h == prev.h
    && forall k | y <= k < prev.h :: Kinds(t.grid[k], Row(prev, k), t.wide)
  }

  /** The rows from y on are painted, the ones above are as they were. */
  ghost predicate PaintedFrom(t: Term, u: Term, cur: Frame, prev: Frame, y: nat)
    requires SameSize(cur, prev) && Valid(t) && t.w == cur.w && t.h == cur.h
  {
    && Valid(u) && u.w == t.w && u.h == t.h
    && (forall k | 0 <= k < y && k < t.h :: u.grid[k] == t.grid[k])
    && (forall k | y <= k < t.h ::
          AllPainted(u.grid[k], t.grid[k], LineOf(cur, prev, k), UnsetAbove(cur, prev, k), t.wide))
  }

  lemma {:induction false} LinesPaint(t: Term, cur: Frame, prev: Frame, y: nat, pen: Pen, ops: seq<Op>)
    returns (u: Term)
    requires SameSize(cur, prev) && y <= cur.h && KindsFrom(t, prev, y)
    requires WellFormed(cur, t.wide) && WellFormed(prev, t.wide)
    requires InStep(t, pen, cur.depth, UnsetAbove(cur, prev, y))
    requires ops == LinesOps(cur, prev, y, pen).0
    ensures u == Run(t, ops)
    ensures PaintedFrom(t, u, cur, prev, y)
    ensures u.visible == t.visible
    decreases cur.h - y, 1
  {
    if y == cur.h {
      u := t;
    } else {
      u := LineThenRest(t, cur, prev, y, pen, ops);
    }
  }

  lemma {:induction false} LineThenRest(t: Term, cur: Frame, prev: Frame, y: nat, pen: Pen, ops: seq<Op>)
    returns (u: Term)
    requires SameSize(cur, prev) && y < cur.h && KindsFrom(t, prev, y)
    requires WellFormed(cur, t.wide) && WellFormed(prev, t.wide)
    requires InStep(t, pen, cur.depth, UnsetAbove(cur, prev, y))
    requires ops == LinesOps(cur, prev, y, pen).0
    ensures u == Run(t, ops)
    ensures PaintedFrom(t, u, cur, prev, y)
    ensures u.visible == t.visible
    decreases cur.h - y, 0
  {
    hide LinesOps, LineOps, Run, WellFormed, InStep, AllPainted;
    var v, after, rest := FirstLine(t, cur, prev, y, pen, ops);
    u := LinesPaint(v, cur, prev, y + 1, after, rest);
    PaintedJoin(t, v, u, cur, prev, y, ops, rest);
  }

  lemma FirstLine(t: Term, cur: Frame, prev: Frame, y: nat, pen: Pen, ops: seq<Op>)
    returns (v: Term, after: Pen, rest: seq<Op>)
    requires SameSize(cur, prev) && y < cur.h && KindsFrom(t, prev, y)
    requires WellFormed(cur, t.wide) && WellFormed(prev, t.wide)
    requires InStep(t, pen, cur.depth, UnsetAbove(cur, prev, y))
    ensures Valid(v) && OnlyLine(t, v, y) && v.wide == t.wide && KindsFrom(v, prev, y + 1)
    ensures AllPainted(v.grid[y], t.grid[y], LineOf(cur, prev, y), UnsetAbove(cur, prev, y), t.wide)
    ensures v.visible == t.visible
    ensures InStep(v, after, cur.depth, UnsetAbove(cur, prev, y + 1))
    requires ops == LinesOps(cur, prev, y, pen).0
    ensures PenOk(after) && rest == LinesOps(cur, prev, y + 1, after).0
    ensures Run(t, ops) == Run(v, rest)
  {
    LineIs(cur, prev, y);
    var l := LineOf(cur, prev, y);
    assert Kinds(t.grid[y], Row(prev, y), t.wide);
    v := LinePaints(t, l, pen, UnsetAbove(cur, prev, y));
    after := LineOps(l, pen).1;
    assert UnsetAbove(cur, prev, y + 1) == Unset(l.row, l.prow, cur.w, UnsetAbove(cur, prev, y));
    rest := LinesOps(cur, prev, y + 1, after).0;
    RunConcat(t, LineOps(l, pen).0, rest);
    forall k | y < k < cur.h
      ensures Kinds(v.grid[k], Row(prev, k), t.wide)
    {
      assert Kinds(t.grid[k], Row(prev, k), t.wide) && v.grid[k] == t.grid[k];
    }
  }

  lemma {:induction false} PaintedJoin(t: Term, v: Term, u: Term, cur: Frame, prev: Frame, y: nat, ops: seq<Op>,
                                       rest: seq<Op>)
    requires u.visible == v.visible == t.visible && Valid(t) && Valid(v) && Run(t, ops) == Run(v, rest) == u
    requires SameSize(cur, prev) && y < cur.h && Valid(t) && t.w == cur.w && t.h == cur.h
    requires Valid(v) && OnlyLine(t, v, y)
    requires AllPainted(v.grid[y], t.grid[y], LineOf(cur, prev, y), UnsetAbove(cur, prev, y), t.wide)
    requires PaintedFrom(v, u, cur, prev, y + 1)
    ensures PaintedFrom(t, u, cur, prev, y) && u == Run(t, ops) && u.visible == t.visible
  {
    assert u.grid[y] == v.grid[y];
    forall k | y < k < t.h
      ensures v.grid[k] == t.grid[k]
      ensures AllPainted(u.grid[k], v.grid[k], LineOf(cur, prev, k), UnsetAbove(cur, prev, k), t.wide)
    {
    }
  }

  // ---- From squares back to cells ------------------------------------------

  /** A row that showed the old cells shows the new ones; exactly, unless some ink was washed out. */
  lemma RowShowsAfter(before: seq<Square>, now: seq<Square>, l: Line, unset: bool, wide: Glyph -> bool)
    requires RowOk(l.row, wide) && RowOk(l.prow, wide) && |before| == |l.row| == |l.prow|
    requires RowShows(before, l.prow, false, l.depth, wide)
    requires AllPainted(now, before, l, unset, wide)
    ensures RowShows(now, l.row, false, l.depth, wide)
    ensures RowShows(before, l.prow, true, l.depth, wide) ==>
              (RowShows(now, l.row, true, l.depth, wide) <==>
               forall i | 0 <= i < |l.row| ::
                 !(Emitted(l.row, l.prow, i) && Inked(l.row[i]) && Unset(l.row, l.prow, i + 1, unset)))
  {
    forall i | 0 <= i < |now|
      ensures Matches(now[i], l.row[i], false, l.depth, wide)
      ensures Matches(before[i], l.prow[i], true, l.depth, wide) ==>
                (Matches(now[i], l.row[i], true, l.depth, wide) <==>
                 !(Emitted(l.row, l.prow, i) && Inked(l.row[i]) && Unset(l.row, l.prow, i + 1, unset)))
    {
      SquareMatches(before[i], l, i, unset, wide);
    }
  }

  lemma SquareMatches(before: Square, l: Line, i: nat, unset: bool, wide: Glyph -> bool)
    requires i < |l.row| == |l.prow| && CellOk(l.row, i, wide) && CellOk(l.prow, i, wide)
    requires Matches(before, l.prow[i], false, l.depth, wide)
    ensures
      var now := if l.row[i].automerge then Right
                 else if Emitted(l.row, l.prow, i)
                 then Draw(l.row[i], Unset(l.row, l.prow, i + 1, unset), l.depth, wide)
                 else before;
      && Matches(now, l.row[i], false, l.depth, wide)
      && (Matches(before, l.prow[i], true, l.depth, wide) ==>
           (Matches(now, l.row[i], true, l.depth, wide) <==>
            !(Emitted(l.row, l.prow, i) && Inked(l.row[i]) && Unset(l.row, l.prow, i + 1, unset))))
  {
    var washed := Unset(l.row, l.prow, i + 1, unset);
    assert AttrOf(l.row[i].style, washed, l.depth).(fg := Default) == AttrOf(l.row[i].style, true, l.depth);
    if Emitted(l.row, l.prow, i) && washed {
      assert l.row[i].style.fg == BLACK;
      assert Want(BLACK, l.depth) != Default;
    }
  }

  lemma KindsOfShown(squares: seq<Square>, row: seq<Cell>, depth: Depth, wide: Glyph -> bool)
    requires RowShows(squares, row, false, depth, wide)
    ensures Kinds(squares, row, wide)
  {
    forall i | 0 <= i < |row|
      ensures KindOk(squares[i], row[i], wide)
    {
      assert Matches(squares[i], row[i], false, depth, wide);
    }
  }

  lemma FrameShowsAfter(t: Term, u: Term, cur: Frame, prev: Frame)
    requires SameSize(cur, prev) && WellFormed(cur, t.wide) && WellFormed(prev, t.wide) && prev.depth == cur.depth
    requires Shows(t, prev, false) && u.wide == t.wide
    requires PaintedFrom(t, u, cur, prev, 0)
    ensures Shows(u, cur, false)
    ensures Shows(t, prev, true) ==> (Shows(u, cur, true) <==> KeepsInk(cur, prev))
  {
    forall y | 0 <= y < cur.h
      ensures RowShows(u.grid[y], Row(cur, y), false, cur.depth, t.wide)
      ensures RowShows(t.grid[y], Row(prev, y), true, cur.depth, t.wide) ==>
                (RowShows(u.grid[y], Row(cur, y), true, cur.depth, t.wide) <==> RowKeepsInk(cur, prev, y))
    {
      LineIs(cur, prev, y);
      assert RowShows(t.grid[y], Row(prev, y), false, cur.depth, t.wide);
      RowShowsAfter(t.grid[y], u.grid[y], LineOf(cur, prev, y), UnsetAbove(cur, prev, y), t.wide);
    }
    InkByRows(cur, prev);
  }

  ghost predicate RowKeepsInk(cur: Frame, prev: Frame, y: nat)
    requires SameSize(cur, prev) && y < cur.h
  {
    forall i | 0 <= i < cur.w ::
      !(Emitted(Row(cur, y), Row(prev, y), i) && Inked(Row(cur, y)[i]) &&
        Unset(Row(cur, y), Row(prev, y), i + 1, UnsetAbove(cur, prev, y)))
  }

  lemma InkByRows(cur: Frame, prev: Frame)
    requires SameSize(cur, prev)
    ensures KeepsInk(cur, prev) <==> forall y | 0 <= y < cur.h :: RowKeepsInk(cur, prev, y)
  {
    if KeepsInk(cur, prev) {
      forall y, i | 0 <= y < cur.h && 0 <= i < cur.w
        ensures !(Emitted(Row(cur, y), Row(prev, y), i) && Inked(Row(cur, y)[i]) &&
                  Unset(Row(cur, y), Row(prev, y), i + 1, UnsetAbove(cur, prev, y)))
      {
        assert !LostInk(cur, prev, y, i);
      }
    }
    if forall y | 0 <= y < cur.h :: RowKeepsInk(cur, prev, y) {
      forall y: nat, i: nat
        ensures !LostInk(cur, prev, y, i)
      {
        assert y < cur.h ==> RowKeepsInk(cur, prev, y);
      }
    }
  }

  // ---- When nothing is written ---------------------------------------------

  lemma {:induction false} RowWrites(l: Line, x: nat, xEnd: nat, pen: Pen)
    requires x <= xEnd + 1 <= |l.row| == |l.prow| && PenOk(pen)
    ensures RowOps(l, x, xEnd, pen).1.lastX < 0 <==>
              pen.lastX < 0 && forall i | x <= i <= xEnd :: !Emitted(l.row, l.prow, i)
    decreases xEnd + 1 - x
  {
    if x <= xEnd {
      if Emitted(l.row, l.prow, x) {
        var e := RunEnd(l.row, l.prow, x, x, xEnd);
        RowWrites(l, e + 1, xEnd, RunOps(l, x, e, pen).1);
      } else {
        RowWrites(l, x + 1, xEnd, pen);
      }
    }
  }

  lemma LineWrites(l: Line, pen: Pen)
    requires |l.row| == |l.prow| && PenOk(pen)
    ensures LineOps(l, pen).1.lastX < 0 <==>
              pen.lastX < 0 && forall i | 0 <= i < |l.row| :: !Emitted(l.row, l.prow, i)
  {
    if l.row != l.prow {
      var f, last := FirstChange(l.row, l.prow), LastChange(l.row, l.prow);
      SpanOrder(l.row, l.prow);
      RowWrites(l, f, last, pen);
    }
  }

  /** No cell of row y or below is changed. */
  ghost predicate UnchangedFrom(cur: Frame, prev: Frame, y: nat)
    requires SameSize(cur, prev)
  {
    forall k: nat, i: nat | y <= k :: !Changed(cur, prev, k, i)
  }

  lemma UnchangedRow(cur: Frame, prev: Frame, y: nat)
    requires SameSize(cur, prev) && y < cur.h
    ensures UnchangedFrom(cur, prev, y) <==>
      UnchangedFrom(cur, prev, y + 1) && forall i | 0 <= i < cur.w :: !Emitted(Row(cur, y), Row(prev, y), i)
  {
    hide Row;
    forall i: nat ensures Changed(cur, prev, y, i) <==> i < cur.w && Emitted(Row(cur, y), Row(prev, y), i) {
    }
  }

  lemma {:induction false} LinesWrite(cur: Frame, prev: Frame, y: nat, pen: Pen)
    requires SameSize(cur, prev) && y <= cur.h && PenOk(pen)
    ensures LinesOps(cur, prev, y, pen).1.lastX < 0 <==> pen.lastX < 0 && UnchangedFrom(cur, prev, y)
    decreases cur.h - y
  {
    hide LineOps, Emitted;
    if y < cur.h {
      LineIs(cur, prev, y);
      var l := LineOf(cur, prev, y);
      LineWrites(l, pen);
      UnchangedRow(cur, prev, y);
      hide UnchangedFrom, Row;
      LinesWrite(cur, prev, y + 1, LineOps(l, pen).1);
    }
  }

  // ---- The whole diff ------------------------------------------------------

  /** append_cursor on its own, whatever the cursor was. */
  lemma {:induction false} CursorLands(t: Term, f: Frame)
    requires Valid(t) && Sized(f) && t.w == f.w && t.h == f.h
    ensures
      var u := Run(t, CursorOps(f));
      && CursorShows(u, f)
      && u.grid == t.grid && u.sgr == t.sgr
  {
    if f.cursor.shape.Hidden? {
      RunOne(t, CursorOps(f)[0]);
    } else {
      var a, b, c := CursorOps(f)[0], CursorOps(f)[1], CursorOps(f)[2];
      RunCons(t, a, [b, c]);
      RunCons(Apply(t, a), b, [c]);
      RunOne(Apply(Apply(t, a), b), c);
      assert CursorOps(f) == [a] + ([b] + [c]);
    }
  }

  const HIDE := Csi(true, [25], false, 108)

  /** Hide, body, reset, cursor. */
  lemma {:induction false} DiffSplits(t: Term, cur: Frame, prev: Frame)
    requires Valid(t) && Sized(cur) && Sized(prev) && DiffOps(cur, prev) != []
    ensures
      var v := Run(t.(visible := false), LinesOps(cur, prev, 0, START).0);
      Run(t, DiffOps(cur, prev)) == Run(v.(sgr := PLAIN), CursorOps(cur))
  {
    hide Run, Apply, LinesOps, CursorOps;
    var body := LinesOps(cur, prev, 0, START).0;
    var t1 := t.(visible := false);
    HideAndReset(t);
    RunCons(t, HIDE, body + ([SgrOp([0])] + CursorOps(cur)));
    RunConcat(t1, body, [SgrOp([0])] + CursorOps(cur));
    HideAndReset(Run(t1, body));
    RunCons(Run(t1, body), SgrOp([0]), CursorOps(cur));
  }

  lemma HideAndReset(t: Term)
    requires Valid(t)
    ensures Apply(t, HIDE) == t.(visible := false) && Apply(t, SgrOp([0])) == t.(sgr := PLAIN)
  {
  }

  lemma DiffEmpty(cur: Frame, prev: Frame)
    requires SameSize(cur, prev)
    ensures DiffOps(cur, prev) == [] <==>
              !CursorChanged(cur, prev) && forall y: nat, i: nat :: !Changed(cur, prev, y, i)
    ensures CursorChanged(cur, prev) <==>
              cur.cursor != prev.cursor && !(cur.cursor.shape == prev.cursor.shape == Hidden)
  {
    LinesWrite(cur, prev, 0, START);
  }

  /** With nothing changed the old frame is the new one, cell for cell. */
  lemma UnchangedShows(t: Term, cur: Frame, prev: Frame, exact: bool)
    requires SameSize(cur, prev) && WellFormed(cur, t.wide) && WellFormed(prev, t.wide) && prev.depth == cur.depth
    requires Shows(t, prev, exact) && forall y: nat, i: nat :: !Changed(cur, prev, y, i)
    ensures Shows(t, cur, exact) && KeepsInk(cur, prev)
  {
    forall y, i | 0 <= y < cur.h && 0 <= i < cur.w
      ensures Matches(t.grid[y][i], Row(cur, y)[i], exact, cur.depth, t.wide)
    {
      assert !Changed(cur, prev, y, i);
      assert RowShows(t.grid[y], Row(prev, y), exact, cur.depth, t.wide);
      assert CellOk(Row(cur, y), i, t.wide) && CellOk(Row(prev, y), i, t.wide);
      assert Matches(t.grid[y][i], Row(prev, y)[i], exact, cur.depth, t.wide);
      if Row(cur, y)[i].automerge {
        MergedBoth(t, cur, prev, y, i);
      }
    }
  }

  /** Where nothing changed, continuations are continuations in both frames. */
  lemma MergedBoth(t: Term, cur: Frame, prev: Frame, y: nat, i: nat)
    requires SameSize(cur, prev) && WellFormed(cur, t.wide) && WellFormed(prev, t.wide)
    requires y < cur.h && 0 < i < cur.w && Row(cur, y)[i].automerge
    requires forall k: nat :: !Changed(cur, prev, y, k)
    ensures Row(prev, y)[i].automerge
  {
    assert CellOk(Row(cur, y), i, t.wide) && CellOk(Row(cur, y), i - 1, t.wide);
    assert !Changed(cur, prev, y, i - 1);
    assert CellOk(Row(prev, y), i - 1, t.wide);
  }

  /**
    The incremental renderer refines the frame buffer.  The terminal may leave any square in the
    place of a half-overwritten wide glyph (t.orphan), and any table of wide glyphs will do
    (t.wide) as long as the frames were laid out with it.
   */
  lemma DiffRefines(t: Term, cur: Frame, prev: Frame) returns (u: Term)
    requires SameSize(cur, prev) && WellFormed(cur, t.wide) && WellFormed(prev, t.wide) && prev.depth == cur.depth
    requires Shows(t, prev, false) && CursorShows(t, prev) && t.sgr == PLAIN
    ensures u == Run(t, DiffOps(cur, prev))
    ensures Shows(u, cur, false) && CursorShows(u, cur) && u.sgr == PLAIN
    ensures Shows(t, prev, true) ==> (Shows(u, cur, true) <==> KeepsInk(cur, prev))
  {
    DiffEmpty(cur, prev);
    if DiffOps(cur, prev) == [] {
      u := t;
      UnchangedShows(t, cur, prev, false);
      if Shows(t, prev, true) {
        UnchangedShows(t, cur, prev, true);
      }
    } else {
      u := DiffPaints(t, cur, prev);
    }
  }

  lemma DiffPaints(t: Term, cur: Frame, prev: Frame) returns (u: Term)
    requires SameSize(cur, prev) && WellFormed(cur, t.wide) && WellFormed(prev, t.wide) && prev.depth == cur.depth
    requires Shows(t, prev, false) && t.sgr == PLAIN && DiffOps(cur, prev) != []
    ensures u == Run(t, DiffOps(cur, prev))
    ensures Shows(u, cur, false) && CursorShows(u, cur) && u.sgr == PLAIN
    ensures Shows(t, prev, true) ==> (Shows(u, cur, true) <==> KeepsInk(cur, prev))
    ensures PaintedFrom(t, u, cur, prev, 0)
  {
    hide Run, Apply, LinesOps, CursorOps, Matches, AllPainted, KeepsInk;
    var t1 := t.(visible := false);
    forall y | 0 <= y < prev.h
      ensures Kinds(t1.grid[y], Row(prev, y), t.wide)
    {
      assert RowShows(t.grid[y], Row(prev, y), false, prev.depth, t.wide);
      KindsOfShown(t.grid[y], Row(prev, y), prev.depth, t.wide);
    }
    assert AttrOf(RESET, true, cur.depth) == PLAIN;
    var v := LinesPaint(t1, cur, prev, 0, START, LinesOps(cur, prev, 0, START).0);
    assert Shows(t1, prev, false) && (Shows(t1, prev, true) <==> Shows(t, prev, true));
    FrameShowsAfter(t1, v, cur, prev);
    DiffSplits(t, cur, prev);
    CursorLands(v.(sgr := PLAIN), cur);
    u := Run(t, DiffOps(cur, prev));
    assert Shows(u, cur, false) <==> Shows(v, cur, false);
    assert Shows(u, cur, true) <==> Shows(v, cur, true);
    assert PaintedFrom(t, u, cur, prev, 0) by { SamePainting(t1, v, t, u, cur, prev); }
  }

  lemma SamePainting(t1: Term, v: Term, t: Term, u: Term, cur: Frame, prev: Frame)
    requires SameSize(cur, prev) && Valid(t1) && t1.w == cur.w && t1.h == cur.h && PaintedFrom(t1, v, cur, prev, 0)
    requires Valid(t) && t.w == t1.w && t.h == t1.h && t.grid == t1.grid && t.wide == t1.wide
    requires Valid(u) && u.w == v.w && u.h == v.h && u.grid == v.grid
    ensures PaintedFrom(t, u, cur, prev, 0)
  {
    hide AllPainted;
  }

  // ---- Cell by cell --------------------------------------------------------

  /** Cell (i, y) is displayed to the letter. */
  ghost predicate Exactly(t: Term, f: Frame, y: nat, i: nat)
    requires Valid(t) && Sized(f) && t.w == f.w && t.h == f.h && y < f.h && i < f.w
  {
    Matches(t.grid[y][i], Row(f, y)[i], true, f.depth, t.wide)
  }

  /**
    After the diff a cell is exact if and only if it was not washed out by the diff, and was exact if
    the diff left it alone.
   */
  ghost predicate CellFollows(t: Term, u: Term, cur: Frame, prev: Frame, y: nat, i: nat)
    requires SameSize(cur, prev) && Valid(t) && Valid(u) && t.w == u.w == cur.w && t.h == u.h == cur.h
    requires y < cur.h && i < cur.w
  {
    Exactly(u, cur, y, i) <==>
      !LostInk(cur, prev, y, i) && (Same(Row(cur, y)[i], Row(prev, y)[i]) ==> Exactly(t, prev, y, i))
  }

  /** One square, from its old content. */
  lemma SquareFollows(before: Square, l: Line, i: nat, unset: bool, wide: Glyph -> bool)
    requires i < |l.row| == |l.prow| && CellOk(l.row, i, wide) && CellOk(l.prow, i, wide)
    requires Matches(before, l.prow[i], false, l.depth, wide)
    ensures
      var washed := Unset(l.row, l.prow, i + 1, unset);
      var now := if l.row[i].automerge then Right
                 else if Emitted(l.row, l.prow, i) then Draw(l.row[i], washed, l.depth, wide)
                 else before;
      Matches(now, l.row[i], true, l.depth, wide) <==>
        && !(Emitted(l.row, l.prow, i) && Inked(l.row[i]) && washed)
        && (Same(l.row[i], l.prow[i]) ==> Matches(before, l.prow[i], true, l.depth, wide))
  {
    var washed := Unset(l.row, l.prow, i + 1, unset);
    if Emitted(l.row, l.prow, i) {
      assert washed ==> l.row[i].style.fg == BLACK;
      hide Unset, CellOk;
      DrawnExactly(l.row[i], washed, l.depth, wide);
    } else {
      hide Unset, AttrOf, Inked;
    }
  }

  /** What is drawn is as asked for, unless its ink is washed out. */
  lemma DrawnExactly(c: Cell, washed: bool, depth: Depth, wide: Glyph -> bool)
    requires !c.automerge && (washed ==> c.style.fg == BLACK)
    ensures Matches(Draw(c, washed, depth, wide), c, true, depth, wide) <==> !(Inked(c) && washed)
  {
    hide Inked;
    assert Want(BLACK, depth) != Default;
  }

  lemma PaintedFollows(t: Term, u: Term, cur: Frame, prev: Frame, y: nat, i: nat)
    requires SameSize(cur, prev) && WellFormed(cur, t.wide) && WellFormed(prev, t.wide) && prev.depth == cur.depth
    requires Shows(t, prev, false) && u.wide == t.wide && PaintedFrom(t, u, cur, prev, 0)
    requires y < cur.h && i < cur.w
    ensures CellFollows(t, u, cur, prev, y, i)
  {
    LineIs(cur, prev, y);
    assert RowShows(t.grid[y], Row(prev, y), false, cur.depth, t.wide);
    assert CellOk(Row(cur, y), i, t.wide) && CellOk(Row(prev, y), i, t.wide);
    SquareFollows(t.grid[y][i], LineOf(cur, prev, y), i, UnsetAbove(cur, prev, y), t.wide);
  }

  /** With nothing changed every cell stays as exact as it was. */
  lemma UnchangedFollows(t: Term, cur: Frame, prev: Frame, y: nat, i: nat)
    requires SameSize(cur, prev) && WellFormed(cur, t.wide) && WellFormed(prev, t.wide) && prev.depth == cur.depth
    requires Shows(t, prev, false) && forall k: nat, j: nat :: !Changed(cur, prev, k, j)
    requires y < cur.h && i < cur.w
    ensures CellFollows(t, t, cur, prev, y, i)
  {
    assert !Changed(cur, prev, y, i);
    assert RowShows(t.grid[y], Row(prev, y), false, cur.depth, t.wide);
    assert CellOk(Row(cur, y), i, t.wide) && CellOk(Row(prev, y), i, t.wide);
    if Row(cur, y)[i].automerge {
      MergedBoth(t, cur, prev, y, i);
    }
  }

  /** The diff, cell by cell. */
  lemma DiffFollows(t: Term, cur: Frame, prev: Frame) returns (u: Term)
    requires SameSize(cur, prev) && WellFormed(cur, t.wide) && WellFormed(prev, t.wide) && prev.depth == cur.depth
    requires Shows(t, prev, false) && t.sgr == PLAIN
    ensures u == Run(t, DiffOps(cur, prev)) && Shows(u, cur, false)
    ensures forall y, i | 0 <= y < cur.h && 0 <= i < cur.w :: CellFollows(t, u, cur, prev, y, i)
  {
    hide CellFollows;
    DiffEmpty(cur, prev);
    if DiffOps(cur, prev) == [] {
      u := t;
      UnchangedShows(t, cur, prev, false);
      forall y, i | 0 <= y < cur.h && 0 <= i < cur.w ensures CellFollows(t, u, cur, prev, y, i) {
        UnchangedFollows(t, cur, prev, y, i);
      }
    } else {
      u := DiffPaints(t, cur, prev);
      forall y, i | 0 <= y < cur.h && 0 <= i < cur.w ensures CellFollows(t, u, cur, prev, y, i) {
        PaintedFollows(t, u, cur, prev, y, i);
      }
    }
  }

  /** A frame is shown to the letter if every cell is. */
  lemma ExactByCells(t: Term, f: Frame)
    requires Shows(t, f, false)
    ensures Shows(t, f, true) <==> forall y, i | 0 <= y < f.h && 0 <= i < f.w :: Exactly(t, f, y, i)
  {
    hide Matches, Row;
    forall y | 0 <= y < f.h
      ensures |t.grid[y]| == |Row(f, y)| == f.w
      ensures RowShows(t.grid[y], Row(f, y), true, f.depth, t.wide) <==> forall i | 0 <= i < f.w :: Exactly(t, f, y, i)
    {
      assert RowShows(t.grid[y], Row(f, y), false, f.depth, t.wide);
      assert forall i | 0 <= i < f.w :: Exactly(t, f, y, i) <==>
        Matches(t.grid[y][i], Row(f, y)[i], true, f.depth, t.wide);
    }
  }

  // ---- Down to bytes -------------------------------------------------------

  /** Sets or resets a mode of the terminal, as synchronized output and the visibility of the cursor are. */
  predicate SetsMode(op: Op) { op.Csi? && op.priv }

  /** Every operation can be told apart again, and leaves the modes alone. */
  predicate AllWritable(ops: seq<Op>) {
    forall i | 0 <= i < |ops| :: Writable(ops[i]) && !SetsMode(ops[i])
  }

  lemma {:induction false} GlyphsWritable(row: seq<Cell>, x: nat, e: int, wide: Glyph -> bool)
    requires RowOk(row, wide) && x <= e + 1 <= |row| && forall i | x <= i <= e :: !row[i].automerge
    ensures AllWritable(GlyphOps(row, x, e))
    decreases e + 1 - x
  {
    if x <= e {
      assert CellOk(row, x, wide);
      GlyphsWritable(row, x + 1, e, wide);
    }
  }

  lemma {:induction false} RunWritable(l: Line, x: nat, e: nat, pen: Pen, wide: Glyph -> bool)
    requires x <= e < |l.row| && PenOk(pen) && pen.style.link == 0 && RowOk(l.row, wide) && NoLinks(l.row)
    requires forall i | x <= i <= e :: !l.row[i].automerge
    ensures AllWritable(RunOps(l, x, e, pen).0)
  {
    var move, style, glyphs := MoveOps(pen, x, l.y), StyleOps(pen.style, l.row[x].style, l.depth, l.links),
      GlyphOps(l.row, x, e);
    GlyphsWritable(l.row, x, e, wide);
    StyleWritable(pen.style, l.row[x].style, l.depth, l.links);
    MoveWritable(pen, x, l.y);
    hide GlyphOps, StyleOps, MoveOps, Writable;
    assert RunOps(l, x, e, pen).0 == move + (style + glyphs);
  }

  lemma StyleWritable(prev: Style, next: Style, depth: Depth, links: seq<seq<byte>>)
    requires prev.link == next.link
    ensures AllWritable(StyleOps(prev, next, depth, links))
  {
    FoldStyle(prev, next, depth, links, false);
    var style := StyleOps(prev, next, depth, links);
    assert forall i | 0 <= i < |style| :: IsSgr(style[i]) && Writable(style[i]);
  }

  lemma MoveWritable(pen: Pen, x: nat, y: nat)
    requires PenOk(pen)
    ensures AllWritable(MoveOps(pen, x, y))
  {
  }

  lemma {:induction false} RowWritable(l: Line, x: nat, xEnd: nat, pen: Pen, wide: Glyph -> bool)
    requires x <= xEnd + 1 <= |l.row| == |l.prow| && PenOk(pen) && pen.style.link == 0
    requires RowOk(l.row, wide) && NoLinks(l.row)
    ensures AllWritable(RowOps(l, x, xEnd, pen).0) && RowOps(l, x, xEnd, pen).1.style.link == 0
    decreases xEnd + 1 - x
  {
    hide MoveOps, StyleOps, GlyphOps, Writable, RunWidth;
    if x <= xEnd {
      if Emitted(l.row, l.prow, x) {
        var e := RunEnd(l.row, l.prow, x, x, xEnd);
        RunWritable(l, x, e, pen, wide);
        RowWritable(l, e + 1, xEnd, RunOps(l, x, e, pen).1, wide);
      } else {
        RowWritable(l, x + 1, xEnd, pen, wide);
      }
    }
  }

  lemma LineWritable(l: Line, pen: Pen, wide: Glyph -> bool)
    requires |l.row| == |l.prow| && PenOk(pen) && pen.style.link == 0
    requires RowOk(l.row, wide) && NoLinks(l.row)
    ensures AllWritable(LineOps(l, pen).0) && LineOps(l, pen).1.style.link == 0
  {
    if l.row != l.prow {
      SpanOrder(l.row, l.prow);
      RowWritable(l, FirstChange(l.row, l.prow), LastChange(l.row, l.prow), pen, wide);
    }
  }

  lemma {:induction false} LinesWritable(cur: Frame, prev: Frame, y: nat, pen: Pen, wide: Glyph -> bool)
    requires SameSize(cur, prev) && WellFormed(cur, wide) && y <= cur.h && PenOk(pen) && pen.style.link == 0
    ensures AllWritable(LinesOps(cur, prev, y, pen).0)
    decreases cur.h - y
  {
    hide LineOps;
    if y < cur.h {
      LineIs(cur, prev, y);
      var l := LineOf(cur, prev, y);
      LineWritable(l, pen, wide);
      LinesWritable(cur, prev, y + 1, LineOps(l, pen).1, wide);
    }
  }

  lemma {:induction false} DiffWritable(cur: Frame, prev: Frame, wide: Glyph -> bool)
    requires SameSize(cur, prev) && WellFormed(cur, wide)
    ensures forall i | 0 <= i < |DiffOps(cur, prev)| ::
      Writable(DiffOps(cur, prev)[i]) && !SetsSync(DiffOps(cur, prev)[i])
  {
    hide LinesOps;
    LinesWritable(cur, prev, 0, START, wide);
  }

  lemma {:induction false} ModesStay(t: Term, ops: seq<Op>)
    requires Valid(t) && forall i | 0 <= i < |ops| :: !SetsMode(ops[i])
    ensures Run(t, ops).visible == t.visible
    decreases |ops|
  {
    hide Sgr;
    if ops != [] {
      assert forall i | 0 <= i < |ops[1..]| :: ops[1..][i] == ops[i + 1];
      assert Apply(t, ops[0]).visible == t.visible;
      ModesStay(Apply(t, ops[0]), ops[1..]);
    }
  }

  /** While the diff is being written the cursor is hidden, and it is shown only where it belongs. */
  lemma HiddenWhilePainting(t: Term, cur: Frame, prev: Frame, k: nat)
    requires Valid(t) && SameSize(cur, prev) && WellFormed(cur, t.wide) && 1 <= k < |DiffOps(cur, prev)|
    ensures !Run(t, DiffOps(cur, prev)[..k]).visible
  {
    hide LinesOps, Run, Apply, Writable;
    var ops := DiffOps(cur, prev);
    LinesWritable(cur, prev, 0, START, t.wide);
    var middle := ops[1..k];
    assert ops[..k] == [HIDE] + middle && ops[0] == HIDE;
    assert forall i | 0 <= i < |middle| :: middle[i] == ops[i + 1] && !SetsMode(middle[i]);
    HideAndReset(t);
    RunCons(t, HIDE, middle);
    ModesStay(t.(visible := false), middle);
  }

  /** The bytes of the diff are read back as the operations that were meant. */
  lemma BytesMean(t: Term, cur: Frame, prev: Frame)
    requires Valid(t) && SameSize(cur, prev) && WellFormed(cur, t.wide)
    ensures Feed(t, Serialize(DiffOps(cur, prev))) == Run(t, DiffOps(cur, prev))
  {
    hide Run, DiffOps, Serialize, Lex, Writable;
    DiffWritable(cur, prev, t.wide);
    LexSerialize(DiffOps(cur, prev));
  }

  /** The refinement theorem on the byte string itself. */
  lemma OutputRefines(t: Term, cur: Frame, prev: Frame)
    requires SameSize(cur, prev) && WellFormed(cur, t.wide) && WellFormed(prev, t.wide) && prev.depth == cur.depth
    requires Shows(t, prev, false) && CursorShows(t, prev) && t.sgr == PLAIN
    ensures
      var u := Feed(t, Serialize(DiffOps(cur, prev)));
      && Shows(u, cur, false) && CursorShows(u, cur) && u.sgr == PLAIN
      && (Shows(t, prev, true) ==> (Shows(u, cur, true) <==> KeepsInk(cur, prev)))
  {
    BytesMean(t, cur, prev);
    var u := DiffRefines(t, cur, prev);
  }

  /**
    The exact form is not free: on a terminal that exactly shows an empty 1x1 frame, drawing an
    opaque black letter leaves a letter in the terminal's default foreground.
   */
  lemma BlackInkIsLost(wide: Glyph -> bool, orphan: (Glyph, Attr)) returns (t: Term, cur: Frame, prev: Frame)
    requires !wide(SPACE) && !wide([120])
    ensures SameSize(cur, prev) && WellFormed(cur, t.wide) && WellFormed(prev, t.wide) && prev.depth == cur.depth
    ensures Shows(t, prev, true) && CursorShows(t, prev) && t.sgr == PLAIN
    ensures |cur.cells| == 1 && cur.cells[0].text == [120] && cur.cells[0].style.fg == Color(0, 0, 0, 255)
    ensures !Shows(Feed(t, Serialize(DiffOps(cur, prev))), cur, true)
  {
    hide Feed, DiffOps, Serialize;
    var letter := Cell([120], 1, RESET, false);
    prev := Frame(1, 1, [BLANK], NO_CURSOR, Ansi256, [], true);
    cur := Frame(1, 1, [letter], NO_CURSOR, Ansi256, [], false);
    t := Term(1, 1, [[Narrow(SPACE, PLAIN)]], 0, 0, false, PLAIN, false, 0, wide, orphan);
    assert Row(cur, 0) == [letter] && Row(prev, 0) == [BLANK];
    assert CellOk([letter], 0, wide) && CellOk([BLANK], 0, wide);
    assert Matches(Narrow(SPACE, PLAIN), BLANK, true, Ansi256, wide);
    assert LostInk(cur, prev, 0, 0);
    OutputRefines(t, cur, prev);
  }
}
