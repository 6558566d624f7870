/**
  What the diff does to a terminal.  The grid it leaves behind is described exactly
  (PaintedRow): changed cells are drawn, everything else keeps its square.  From that
  follow the refinement theorem and the exact condition under which it holds.
 */
module ScreenRefinement {
  import opened Bytes
  import opened Terminal
  import opened Cells
  import opened ScreenDiff

  // ---- Small interpreter facts ---------------------------------------------

  lemma RunOne(t: Term, op: Op)
    requires Valid(t)
    ensures Run(t, [op]) == Apply(t, op)
  {
    assert Run(t, [op]) == Run(Apply(t, op), [op][1..]);
  }

  /** Operations that only change the rendition, and the rendition they lead to. */
  predicate AllSgr(ops: seq<Op>) {
    forall i | 0 <= i < |ops| :: IsSgr(ops[i])
  }

  predicate IsSgr(op: Op) {
    op.Csi? && !op.priv && !op.space && op.final == 109
  }

  function Fold(a: Attr, ops: seq<Op>): Attr
    requires AllSgr(ops)
    decreases |ops|
  {
    if ops == [] then a else Fold(Sgr(a, ops[0].params), ops[1..])
  }

  lemma {:induction false} RunFold(t: Term, ops: seq<Op>)
    requires Valid(t) && AllSgr(ops)
    ensures Run(t, ops) == t.(sgr := Fold(t.sgr, ops))
    decreases |ops|
  {
    if ops != [] {
      assert IsSgr(ops[0]);
      RunFold(Apply(t, ops[0]), ops[1..]);
    }
  }

  lemma {:induction false} FoldConcat(a: Attr, x: seq<Op>, y: seq<Op>)
    requires AllSgr(x) && AllSgr(y)
    ensures AllSgr(x + y) && Fold(a, x + y) == Fold(Fold(a, x), y)
    decreases |x|
  {
    if x == [] {
      assert x + y == y;
    } else {
      assert (x + y)[1..] == x[1..] + y;
      FoldConcat(Sgr(a, x[0].params), x[1..], y);
    }
  }

  lemma {:induction false} FoldOne(a: Attr, ps: seq<nat>)
    ensures AllSgr([SgrOp(ps)]) && Fold(a, [SgrOp(ps)]) == Sgr(a, ps)
    ensures AllSgr([]) && Fold(a, []) == a
  {
    assert Fold(a, [SgrOp(ps)]) == Fold(Sgr(a, ps), [SgrOp(ps)][1..]);
  }

  // ---- Style updates -------------------------------------------------------

  function Opt(b: bool, p: nat): seq<Op> { if b then [SgrOp([p])] else [] }

  lemma {:induction false} FoldOpt(a: Attr, b: bool, p: nat)
    ensures AllSgr(Opt(b, p)) && Fold(a, Opt(b, p)) == if b then Sgr(a, [p]) else a
  {
    FoldOne(a, [p]);
  }

  lemma {:induction false} FoldWeight(p: Style, n: Style, a: Attr)
    requires a.bold == p.bold && a.dim == p.dim
    ensures AllSgr(WeightOps(p, n)) && Fold(a, WeightOps(p, n)) == a.(bold := n.bold, dim := n.dim)
  {
    if n.bold == p.bold && n.dim == p.dim {
      FoldOne(a, []);
    } else {
      var off := (p.bold && !n.bold) || (p.dim && !n.dim);
      var a1 := if off then Sgr(a, [22]) else a;
      var a2 := if n.bold then Sgr(a1, [1]) else a1;
      FoldOpt(a, off, 22);
      FoldOpt(a1, n.bold, 1);
      FoldOpt(a2, n.dim, 2);
      FoldConcat(a, Opt(off, 22), Opt(n.bold, 1));
      FoldConcat(a, Opt(off, 22) + Opt(n.bold, 1), Opt(n.dim, 2));
      assert WeightOps(p, n) == Opt(off, 22) + Opt(n.bold, 1) + Opt(n.dim, 2);
    }
  }

  function LineKind(s: Style): Underline {
    if s.underlinedDouble then TwoLines else if s.underlined then OneLine else NoLine
  }

  lemma {:induction false} FoldUnderline(p: Style, n: Style, a: Attr)
    requires a.underline == LineKind(p)
    ensures AllSgr(UnderlineOps(p, n)) && Fold(a, UnderlineOps(p, n)) == a.(underline := LineKind(n))
  {
    if n.underlined == p.underlined && n.underlinedDouble == p.underlinedDouble {
      FoldOne(a, []);
    } else {
      var off := (p.underlined && !n.underlined) || (p.underlinedDouble && !n.underlinedDouble);
      var on := n.underlinedDouble || n.underlined;
      var code := if n.underlinedDouble then 21 else 4;
      var a1 := if off then Sgr(a, [24]) else a;
      FoldOpt(a, off, 24);
      FoldOpt(a1, on, code);
      FoldConcat(a, Opt(off, 24), Opt(on, code));
      assert UnderlineOps(p, n) == Opt(off, 24) + Opt(on, code);
    }
  }

  lemma {:induction false} FoldSwitch(p: bool, n: bool, on: nat, off: nat, a: Attr)
    ensures AllSgr(SwitchOps(p, n, on, off))
    ensures Fold(a, SwitchOps(p, n, on, off)) == if p == n then a else Sgr(a, [if n then on else off])
  {
    FoldOne(a, [if n then on else off]);
  }

  lemma {:induction false} FoldItalic(p: Style, n: Style, a: Attr)
    requires a.italic == p.italic
    ensures AllSgr(SwitchOps(p.italic, n.italic, 3, 23))
    ensures Fold(a, SwitchOps(p.italic, n.italic, 3, 23)) == a.(italic := n.italic)
  {
    FoldSwitch(p.italic, n.italic, 3, 23, a);
  }

  lemma {:induction false} FoldBlink(p: Style, n: Style, a: Attr)
    requires a.blink == p.blink
    ensures AllSgr(SwitchOps(p.blink, n.blink, 5, 25))
    ensures Fold(a, SwitchOps(p.blink, n.blink, 5, 25)) == a.(blink := n.blink)
  {
    FoldSwitch(p.blink, n.blink, 5, 25, a);
  }

  lemma {:induction false} FoldInverse(p: Style, n: Style, a: Attr)
    requires a.inverse == p.inverted
    ensures AllSgr(SwitchOps(p.inverted, n.inverted, 7, 27))
    ensures Fold(a, SwitchOps(p.inverted, n.inverted, 7, 27)) == a.(inverse := n.inverted)
  {
    FoldSwitch(p.inverted, n.inverted, 7, 27, a);
  }

  lemma {:induction false} FoldStrike(p: Style, n: Style, a: Attr)
    requires a.strike == p.strikethrough
    ensures AllSgr(SwitchOps(p.strikethrough, n.strikethrough, 9, 29))
    ensures Fold(a, SwitchOps(p.strikethrough, n.strikethrough, 9, 29)) == a.(strike := n.strikethrough)
  {
    FoldSwitch(p.strikethrough, n.strikethrough, 9, 29, a);
  }

  lemma {:induction false} FoldColor(c: Color, background: bool, depth: Depth, a: Attr)
    ensures AllSgr(ColorOps(c, background, depth))
    ensures Fold(a, ColorOps(c, background, depth))
         == if background then a.(bg := Want(c, depth)) else a.(fg := Want(c, depth))
  {
    hide AnsiBasic, Ansi256Index;
    var k := if background then 48 else 38;
    if c.a == 0 {
      FoldOne(a, [if background then 49 else 39]);
    } else {
      match depth
      case Ansi16 => FoldOne(a, [(if background then 40 else 30) + AnsiBasic(c)]);
      case Ansi256 => FoldOne(a, [k, 5, Ansi256Index(c)]);
      case TrueColor => FoldOne(a, [k, 2, c.r, c.g, c.b]);
    }
  }

  lemma {:induction false} FoldThen(a: Attr, x: seq<Op>, y: seq<Op>, b: Attr, c: Attr)
    requires AllSgr(x) && AllSgr(y) && Fold(a, x) == b && Fold(b, y) == c
    ensures AllSgr(x + y) && Fold(a, x + y) == c
  {
    FoldConcat(a, x, y);
  }

  function FgPart(p: Style, n: Style, depth: Depth): seq<Op> {
    if n.fg == p.fg then [] else ColorOps(n.fg, false, depth)
  }

  function BgPart(p: Style, n: Style, depth: Depth): seq<Op> {
    if n.bg == p.bg then [] else ColorOps(n.bg, true, depth)
  }

  /** The foreground the terminal really has: its default until something else was asked for. */
  function RealFg(s: Style, washed: bool, depth: Depth): Colour {
    if washed then Default else Want(s.fg, depth)
  }

  lemma {:induction false} FoldFg(p: Style, n: Style, depth: Depth, washed: bool, a: Attr)
    requires washed ==> p.fg == BLACK
    requires a.fg == RealFg(p, washed, depth)
    ensures AllSgr(FgPart(p, n, depth))
    ensures Fold(a, FgPart(p, n, depth)) == a.(fg := RealFg(n, washed && n.fg == BLACK, depth))
  {
    if n.fg == p.fg {
      FoldOne(a, []);
    } else {
      FoldColor(n.fg, false, depth, a);
    }
  }

  lemma {:induction false} FoldBg(p: Style, n: Style, depth: Depth, a: Attr)
    requires a.bg == Want(p.bg, depth)
    ensures AllSgr(BgPart(p, n, depth))
    ensures Fold(a, BgPart(p, n, depth)) == a.(bg := Want(n.bg, depth))
  {
    if n.bg == p.bg {
      FoldOne(a, []);
    } else {
      FoldColor(n.bg, true, depth, a);
    }
  }

  /** Six renditions in a row, each reached from the one before. */
  lemma {:induction false} FoldChain(a0: Attr, a1: Attr, a2: Attr, a3: Attr, a4: Attr,
                                     x1: seq<Op>, x2: seq<Op>, x3: seq<Op>, x4: seq<Op>)
    requires AllSgr(x1) && AllSgr(x2) && AllSgr(x3) && AllSgr(x4)
    requires Fold(a0, x1) == a1 && Fold(a1, x2) == a2 && Fold(a2, x3) == a3 && Fold(a3, x4) == a4
    ensures AllSgr(x1 + (x2 + (x3 + x4))) && Fold(a0, x1 + (x2 + (x3 + x4))) == a4
  {
    FoldConcat(a2, x3, x4);
    FoldConcat(a1, x2, x3 + x4);
    FoldConcat(a0, x1, x2 + (x3 + x4));
  }

  function EarlyPart(p: Style, n: Style, rest: seq<Op>): seq<Op> {
    WeightOps(p, n) + (SwitchOps(p.italic, n.italic, 3, 23) + (UnderlineOps(p, n) + rest))
  }

  function LatePart(p: Style, n: Style, rest: seq<Op>): seq<Op> {
    SwitchOps(p.blink, n.blink, 5, 25) + (SwitchOps(p.inverted, n.inverted, 7, 27) +
      (SwitchOps(p.strikethrough, n.strikethrough, 9, 29) + rest))
  }

  lemma {:induction false} FoldEarly(p: Style, n: Style, rest: seq<Op>, a: Attr, b: Attr)
    requires a.bold == p.bold && a.dim == p.dim && a.italic == p.italic && a.underline == LineKind(p)
    requires AllSgr(rest)
    requires Fold(a.(bold := n.bold, dim := n.dim, italic := n.italic, underline := LineKind(n)), rest) == b
    ensures AllSgr(EarlyPart(p, n, rest)) && Fold(a, EarlyPart(p, n, rest)) == b
  {
    var a1 := a.(bold := n.bold, dim := n.dim);
    var a2 := a1.(italic := n.italic);
    FoldWeight(p, n, a);
    FoldItalic(p, n, a1);
    FoldUnderline(p, n, a2);
    FoldChain(a, a1, a2, a2.(underline := LineKind(n)), b,
              WeightOps(p, n), SwitchOps(p.italic, n.italic, 3, 23), UnderlineOps(p, n), rest);
  }

  lemma {:induction false} FoldLate(p: Style, n: Style, rest: seq<Op>, a: Attr, b: Attr)
    requires a.blink == p.blink && a.inverse == p.inverted && a.strike == p.strikethrough
    requires AllSgr(rest)
    requires Fold(a.(blink := n.blink, inverse := n.inverted, strike := n.strikethrough), rest) == b
    ensures AllSgr(LatePart(p, n, rest)) && Fold(a, LatePart(p, n, rest)) == b
  {
    var a1 := a.(blink := n.blink);
    var a2 := a1.(inverse := n.inverted);
    FoldBlink(p, n, a);
    FoldInverse(p, n, a1);
    FoldStrike(p, n, a2);
    FoldChain(a, a1, a2, a2.(strike := n.strikethrough), b,
              SwitchOps(p.blink, n.blink, 5, 25), SwitchOps(p.inverted, n.inverted, 7, 27),
              SwitchOps(p.strikethrough, n.strikethrough, 9, 29), rest);
  }

  /**
    update_cell_style brings the terminal from the tracked style to the next one.  The tracked
    foreground starts out opaque black while the terminal is still on its default, so the
    foreground stays washed until some other colour has been asked for.
   */
  lemma {:induction false} FoldStyle(p: Style, n: Style, depth: Depth, links: seq<seq<byte>>, washed: bool)
    requires p.link == n.link
    requires washed ==> p.fg == BLACK
    ensures AllSgr(StyleOps(p, n, depth, links))
    ensures Fold(AttrOf(p, washed, depth), StyleOps(p, n, depth, links)) == AttrOf(n, washed && n.fg == BLACK, depth)
  {
    var a0 := AttrOf(p, washed, depth);
    var a3 := a0.(bold := n.bold, dim := n.dim, italic := n.italic, underline := LineKind(n));
    var a6 := a3.(blink := n.blink, inverse := n.inverted, strike := n.strikethrough);
    var a7 := a6.(fg := RealFg(n, washed && n.fg == BLACK, depth));
    var a8 := a7.(bg := Want(n.bg, depth));
    FoldFg(p, n, depth, washed, a6);
    FoldBg(p, n, depth, a7);
    FoldThen(a6, FgPart(p, n, depth), BgPart(p, n, depth), a7, a8);
    var colors := FgPart(p, n, depth) + BgPart(p, n, depth);
    FoldLate(p, n, colors, a3, a8);
    FoldEarly(p, n, LatePart(p, n, colors), a0, a8);
    assert StyleOps(p, n, depth, links) == [] + EarlyPart(p, n, LatePart(p, n, colors));
    assert [] + EarlyPart(p, n, LatePart(p, n, colors)) == EarlyPart(p, n, LatePart(p, n, colors));
  }

  // ---- What a row becomes --------------------------------------------------

  /** No colour other than opaque black has been asked for before column i. */
  predicate Unset(row: seq<Cell>, prow: seq<Cell>, i: nat, unset: bool)
    requires |row| == |prow|
  {
    unset && forall j | 0 <= j < i :: Emitted(row, prow, j) ==> row[j].style.fg == BLACK
  }

  /** Contents of column i afterwards, given the row before and whether a colour was set earlier on. */
  ghost function Painted(before: seq<Square>, l: Line, i: nat, unset: bool, wide: Glyph -> bool): Square
    requires |before| == |l.row| == |l.prow| && i < |before|
  {
    if l.row[i].automerge then Right
    else if Emitted(l.row, l.prow, i) then Draw(l.row[i], Unset(l.row, l.prow, i + 1, unset), l.depth, wide)
    else before[i]
  }

  predicate KindOk(q: Square, c: Cell, wide: Glyph -> bool) {
    if c.automerge then q == Right else if wide(c.text) then q.Left? else q.Narrow?
  }

  ghost predicate Kinds(squares: seq<Square>, row: seq<Cell>, wide: Glyph -> bool) {
    |squares| == |row| && forall i | 0 <= i < |row| :: KindOk(squares[i], row[i], wide)
  }

  /** The row when everything left of p is done; column p may hold the orphan of a half-overwritten glyph. */
  ghost predicate Halfway(now: seq<Square>, before: seq<Square>, l: Line, p: nat, unset: bool, wide: Glyph -> bool)
    requires |before| == |l.row| == |l.prow|
  {
    && |now| == |before| && p <= |now|
    && (forall i | 0 <= i < p :: now[i] == Painted(before, l, i, unset, wide))
    && (forall i | p < i < |now| :: now[i] == before[i])
    && (p < |now| ==> if before[p].Right? then now[p].Narrow? else now[p] == before[p])
  }

  ghost predicate LineOk(l: Line, before: seq<Square>, wide: Glyph -> bool) {
    && |before| == |l.row| == |l.prow|
    && RowOk(l.row, wide) && RowOk(l.prow, wide) && Kinds(before, l.prow, wide)
  }

  function Advance(l: Line, p: nat, wide: Glyph -> bool): nat
    requires p < |l.row|
  {
    if wide(l.row[p].text) then p + 2 else p + 1
  }

  /** Writing the head cell at p, whatever it overwrites, moves the boundary past it. */
  lemma PaintHead(now: seq<Square>, before: seq<Square>, l: Line, p: nat, unset: bool, wide: Glyph -> bool,
                  orphan: Square)
    requires LineOk(l, before, wide) && orphan.Narrow?
    requires p < |now| && Halfway(now, before, l, p, unset, wide)
    requires Emitted(l.row, l.prow, p)
    ensures
      var c := l.row[p];
      var a := AttrOf(c.style, Unset(l.row, l.prow, p + 1, unset), l.depth);
      && p + (if wide(c.text) then 2 else 1) <= |now|
      && Halfway(Put(now, p, c.text, a, wide(c.text), orphan), before, l, Advance(l, p, wide), unset, wide)
  {
    hide AttrOf, Unset;
    var c := l.row[p];
    assert CellOk(l.row, p, wide);
    Neighbours(before, l, p, wide);
    assert !now[p].Right?;
    var one := Sever(now, p, orphan);
    assert forall i | 0 <= i < p :: one[i] == now[i];
    if wide(c.text) {
      assert !one[p + 1].Right?;
      var two := Sever(one, p + 1, orphan);
      assert forall i | 0 <= i <= p :: two[i] == one[i];
      if p + 2 < |now| && before[p + 2].Right? {
        assert before[p + 1].Left? && !before[p].Left? && one == now;
      }
    } else {
      assert p + 1 < |now| ==> if before[p + 1].Right? then one[p + 1].Narrow? else one[p + 1] == before[p + 1];
    }
  }

  /** In a well-formed row a right half is exactly what follows a left half. */
  lemma Neighbours(before: seq<Square>, l: Line, p: nat, wide: Glyph -> bool)
    requires LineOk(l, before, wide) && p < |before|
    ensures forall i | p <= i < |before| - 1 && i <= p + 2 :: before[i].Left? <==> before[i + 1].Right?
    ensures before[p].Left? ==> p + 1 < |before|
    ensures p + 1 < |before| && before[p + 1].Left? ==> p + 2 < |before|
  {
    forall i | p <= i < |before| && i <= p + 3
      ensures CellOk(l.prow, i, wide) && KindOk(before[i], l.prow[i], wide)
    {
    }
  }

  /** Skipping an unchanged head cell does the same: its square, and its other half, are already right. */
  lemma SkipHead(now: seq<Square>, before: seq<Square>, l: Line, p: nat, unset: bool, wide: Glyph -> bool)
    requires LineOk(l, before, wide)
    requires p < |now| && Halfway(now, before, l, p, unset, wide)
    requires !l.row[p].automerge && !Emitted(l.row, l.prow, p)
    ensures Advance(l, p, wide) <= |now| && Halfway(now, before, l, Advance(l, p, wide), unset, wide)
  {
    assert CellOk(l.row, p, wide) && CellOk(l.prow, p, wide) && KindOk(before[p], l.prow[p], wide);
    Neighbours(before, l, p, wide);
    assert !l.prow[p].automerge;
  }

  // ---- Cursor moves --------------------------------------------------------

  /** The terminal cursor after writing up to column x; past the last column it waits to wrap. */
  predicate CursorAfter(t: Term, x: int, y: int) {
    t.cy == y && if x < t.w then t.cx == x && !t.pending else t.cx == t.w - 1 && t.pending
  }

  predicate InStep(t: Term, pen: Pen, depth: Depth, washed: bool) {
    && t.sgr == AttrOf(pen.style, washed, depth)
    && (washed ==> pen.style.fg == BLACK)
    && pen.style.link == 0
    && PenOk(pen)
    && (pen.lastX >= 0 ==> pen.lastX < t.w && pen.lastY < t.h && CursorAfter(t, pen.lastX + 1, pen.lastY))
  }

  /** Relative moves start from where the cursor really is: they are never used while a wrap is pending. */
  lemma MoveLands(t: Term, pen: Pen, depth: Depth, washed: bool, x: nat, y: nat)
    requires Valid(t) && InStep(t, pen, depth, washed) && x < t.w && y < t.h
    ensures Run(t, MoveOps(pen, x, y)) == t.(cx := x, cy := y, pending := false)
  {
    hide AttrOf;
    if pen.lastY == y && pen.lastX + 1 == x {
    } else if pen.lastX >= 0 && pen.lastY >= 0 {
      RunOne(t, RelativeMove(pen.lastX + 1, pen.lastY, x, y));
    } else {
      RunOne(t, GotoOp(x, y));
    }
  }

  /** Where the cursor is known, a place further on in its row or straight below takes only the distance to it. */
  lemma MoveIsShort(pen: Pen, x: nat, y: nat, n: nat)
    requires pen.lastX >= 0 && pen.lastY >= 0
    requires n > 0 && ((y == pen.lastY && x == pen.lastX + 1 + n) || (x == pen.lastX + 1 && y == pen.lastY + n))
    ensures |Serialize(MoveOps(pen, x, y))| == 3 + if n == 1 then 0 else |Dec(n)|
    ensures y == pen.lastY ==> Serialize(MoveOps(pen, x - n, y)) == []
  {
    hide Dec;
    var op := RelativeMove(pen.lastX + 1, pen.lastY, x, y);
    assert op == StepOp(n, if y == pen.lastY then 67 else 66);
    assert Serialize([op]) == Encode(op) + Serialize([]);
  }

  // ---- Runs ----------------------------------------------------------------

  /** The terminal is on line l.y, whose squares are halfway at column p. */
  ghost predicate OnLine(t: Term, before: seq<Square>, l: Line, p: nat, unset: bool) {
    && Valid(t) && t.w == |l.row| == |l.prow| == |before| && l.y < t.h
    && LineOk(l, before, t.wide)
    && Halfway(t.grid[l.y], before, l, p, unset, t.wide)
  }

  /** Same terminal except for line y and the cursor column. */
  ghost predicate SameButLine(t: Term, u: Term, y: nat)
    requires Valid(t) && Valid(u) && y < t.h == u.h
  {
    u == t.(grid := t.grid[y := u.grid[y]], cx := u.cx, pending := u.pending)
  }

  lemma GlyphPaints(t: Term, before: seq<Square>, l: Line, x: nat, unset: bool) returns (u: Term)
    requires x < |l.row| && OnLine(t, before, l, x, unset) && Emitted(l.row, l.prow, x)
    requires t.cx == x && t.cy == l.y && !t.pending
    requires t.sgr == AttrOf(l.row[x].style, Unset(l.row, l.prow, x + 1, unset), l.depth)
    ensures u == Apply(t, Print(l.row[x].text)) && Valid(u)
    ensures SameButLine(t, u, l.y)
    ensures Advance(l, x, t.wide) <= t.w && OnLine(u, before, l, Advance(l, x, t.wide), unset)
    ensures CursorAfter(u, Advance(l, x, t.wide), l.y)
  {
    assert CellOk(l.row, x, t.wide);
    PaintHead(t.grid[l.y], before, l, x, unset, t.wide, Narrow(t.orphan.0, t.orphan.1));
    u := Apply(t, Print(l.row[x].text));
  }

  /** Every cell of the run is emitted and asks for the rendition a. */
  ghost predicate Uniform(l: Line, x: nat, e: nat, unset: bool, a: Attr)
    requires e < |l.row| == |l.prow|
  {
    forall i | x <= i <= e ::
      Emitted(l.row, l.prow, i) && AttrOf(l.row[i].style, Unset(l.row, l.prow, i + 1, unset), l.depth) == a
  }

  lemma {:induction false} GlyphsPaint(t: Term, before: seq<Square>, l: Line, x: nat, e: nat, unset: bool)
    returns (u: Term)
    requires x <= e < |l.row| && OnLine(t, before, l, x, unset)
    requires t.cx == x && t.cy == l.y && !t.pending
    requires Uniform(l, x, e, unset, t.sgr)
    ensures u == Run(t, GlyphOps(l.row, x, e)) && Valid(u)
    ensures x + RunWidth(l.row, x, e) == Advance(l, e, t.wide) <= t.w
    ensures OnLine(u, before, l, Advance(l, e, t.wide), unset)
    ensures CursorAfter(u, Advance(l, e, t.wide), l.y)
    ensures SameButLine(t, u, l.y)
    decreases e - x
  {
    hide AttrOf, Unset, Halfway, Kinds, Apply;
    var op := Print(l.row[x].text);
    var v := GlyphPaints(t, before, l, x, unset);
    RunCons(t, op, GlyphOps(l.row, x + 1, e));
    WidthStep(l, x, e, t.wide);
    if x == e {
      u := v;
    } else {
      u := GlyphsPaint(v, before, l, x + 1, e, unset);
      SameTrans(t, v, u, l.y);
    }
  }

  lemma SameTrans(t: Term, v: Term, u: Term, y: nat)
    requires Valid(t) && Valid(v) && Valid(u) && y < t.h == v.h == u.h
    requires SameButLine(t, v, y) && SameButLine(v, u, y)
    ensures SameButLine(t, u, y)
  {
    assert t.grid[y := v.grid[y]][y := u.grid[y]] == t.grid[y := u.grid[y]];
  }

  /** Inside a run every glyph is narrow: a wide one is followed by a continuation, which ends the run. */
  lemma WidthStep(l: Line, x: nat, e: nat, wide: Glyph -> bool)
    requires x <= e < |l.row| == |l.prow| && RowOk(l.row, wide)
    requires forall i | x <= i <= e :: Emitted(l.row, l.prow, i)
    ensures RunWidth(l.row, x, e) == Advance(l, x, wide) - x + RunWidth(l.row, x + 1, e)
    ensures x < e ==> Advance(l, x, wide) == x + 1
    ensures x == e ==> RunWidth(l.row, x + 1, e) == 0
  {
    assert Emitted(l.row, l.prow, x) && CellOk(l.row, x, wide);
    if x < e {
      assert Emitted(l.row, l.prow, x + 1);
    }
  }

  lemma {:induction false} RunCons(t: Term, op: Op, more: seq<Op>)
    requires Valid(t)
    ensures Run(t, [op] + more) == Run(Apply(t, op), more)
  {
    assert ([op] + more)[1..] == more;
  }

  /** The move and the style update that precede the glyphs of a run. */
  lemma RunStarts(t: Term, l: Line, x: nat, pen: Pen, washed: bool) returns (u: Term)
    requires Valid(t) && t.w == |l.row| && l.y < t.h && x < t.w && l.row[x].style.link == 0
    requires InStep(t, pen, l.depth, washed)
    ensures u == Run(t, MoveOps(pen, x, l.y) + StyleOps(pen.style, l.row[x].style, l.depth, l.links))
    ensures u == t.(cx := x, cy := l.y, pending := false,
                    sgr := AttrOf(l.row[x].style, washed && l.row[x].style.fg == BLACK, l.depth))
  {
    hide StyleOps, MoveOps;
    var style := l.row[x].style;
    var move, turn := MoveOps(pen, x, l.y), StyleOps(pen.style, style, l.depth, l.links);
    MoveLands(t, pen, l.depth, washed, x, l.y);
    u := t.(cx := x, cy := l.y, pending := false);
    FoldStyle(pen.style, style, l.depth, l.links, washed);
    RunFold(u, turn);
    RunConcat(t, move, turn);
    u := u.(sgr := AttrOf(style, washed && style.fg == BLACK, l.depth));
  }

  lemma RunIsUniform(l: Line, x: nat, e: nat, unset: bool)
    requires x <= e < |l.row| == |l.prow|
    requires forall i | x <= i <= e :: Emitted(l.row, l.prow, i) && l.row[i].style == l.row[x].style
    ensures
      var washed := Unset(l.row, l.prow, x, unset) && l.row[x].style.fg == BLACK;
      && Uniform(l, x, e, unset, AttrOf(l.row[x].style, washed, l.depth))
      && Unset(l.row, l.prow, e + 1, unset) == washed
  {
    forall i | x <= i <= e && Emitted(l.row, l.prow, i)
      ensures Unset(l.row, l.prow, i + 1, unset) == (Unset(l.row, l.prow, x, unset) && l.row[x].style.fg == BLACK)
    {
      assert Emitted(l.row, l.prow, x);
    }
  }

  /** One run: a move, a style update and the glyphs. */
  lemma RunPaints(t: Term, before: seq<Square>, l: Line, x: nat, e: nat, pen: Pen, unset: bool) returns (u: Term)
    requires x <= e < |l.row| && OnLine(t, before, l, x, unset) && NoLinks(l.row)
    requires InStep(t, pen, l.depth, Unset(l.row, l.prow, x, unset))
    requires forall i | x <= i <= e :: Emitted(l.row, l.prow, i) && l.row[i].style == l.row[x].style
    ensures u == Run(t, RunOps(l, x, e, pen).0) && Valid(u)
    ensures Advance(l, e, t.wide) <= t.w && OnLine(u, before, l, Advance(l, e, t.wide), unset)
    ensures InStep(u, RunOps(l, x, e, pen).1, l.depth, Unset(l.row, l.prow, e + 1, unset))
    ensures OnlyLine(t, u, l.y)
  {
    hide StyleOps, MoveOps;
    var v := RunStarts(t, l, x, pen, Unset(l.row, l.prow, x, unset));
    RunIsUniform(l, x, e, unset);
    u := GlyphsPaint(v, before, l, x, e, unset);
    RunConcat3(t, MoveOps(pen, x, l.y), StyleOps(pen.style, l.row[x].style, l.depth, l.links), GlyphOps(l.row, x, e));
  }

  lemma {:induction false} RunConcat3(t: Term, x: seq<Op>, y: seq<Op>, z: seq<Op>)
    requires Valid(t)
    ensures Run(t, x + (y + z)) == Run(Run(t, x + y), z)
  {
    RunConcat(t, x + y, z);
    assert x + y + z == x + (y + z);
  }

  /** Only line y of the grid differs, and the cursor's look is the same. */
  ghost predicate OnlyLine(t: Term, u: Term, y: nat)
    requires Valid(t) && Valid(u) && y < t.h
  {
    && u.w == t.w && u.h == t.h && u.wide == t.wide && u.orphan == t.orphan
    && u.grid == t.grid[y := u.grid[y]] && u.visible == t.visible && u.shape == t.shape
  }

  lemma LineTrans(t: Term, v: Term, u: Term, y: nat)
    requires Valid(t) && Valid(v) && Valid(u) && y < t.h
    requires OnlyLine(t, v, y) && OnlyLine(v, u, y)
    ensures OnlyLine(t, u, y)
  {
    assert t.grid[y := v.grid[y]][y := u.grid[y]] == t.grid[y := u.grid[y]];
  }

  // ---- Rows ----------------------------------------------------------------

  /** Where the finished part ends when the loop variable is x. */
  function Boundary(l: Line, x: nat): nat
    requires x <= |l.row|
  {
    if x < |l.row| && l.row[x].automerge then x + 1 else x
  }

  lemma {:induction false} RowPaints(t: Term, before: seq<Square>, l: Line, x: nat, xEnd: nat, pen: Pen, unset: bool)
    returns (u: Term)
    requires x <= xEnd + 1 <= |l.row| && NoLinks(l.row)
    requires OnLine(t, before, l, Boundary(l, x), unset)
    requires InStep(t, pen, l.depth, Unset(l.row, l.prow, x, unset))
    ensures u == Run(t, RowOps(l, x, xEnd, pen).0) && Valid(u)
    ensures OnLine(u, before, l, Boundary(l, xEnd + 1), unset)
    ensures InStep(u, RowOps(l, x, xEnd, pen).1, l.depth, Unset(l.row, l.prow, xEnd + 1, unset))
    ensures OnlyLine(t, u, l.y)
    decreases xEnd + 1 - x, 1
  {
    hide RunOps, Halfway, LineOk, InStep;
    if x > xEnd {
      u := t;
    } else if Emitted(l.row, l.prow, x) {
      u := RunFirst(t, before, l, x, xEnd, pen, unset);
    } else {
      CellSkipped(t, before, l, x, unset);
      u := RowPaints(t, before, l, x + 1, xEnd, pen, unset);
    }
  }

  lemma {:induction false} RunFirst(t: Term, before: seq<Square>, l: Line, x: nat, xEnd: nat, pen: Pen, unset: bool)
    returns (u: Term)
    requires x <= xEnd < |l.row| == |l.prow| && Emitted(l.row, l.prow, x) && NoLinks(l.row)
    requires OnLine(t, before, l, x, unset)
    requires InStep(t, pen, l.depth, Unset(l.row, l.prow, x, unset))
    ensures u == Run(t, RowOps(l, x, xEnd, pen).0) && Valid(u)
    ensures OnLine(u, before, l, Boundary(l, xEnd + 1), unset)
    ensures InStep(u, RowOps(l, x, xEnd, pen).1, l.depth, Unset(l.row, l.prow, xEnd + 1, unset))
    ensures OnlyLine(t, u, l.y)
    decreases xEnd + 1 - x, 0
  {
    hide RowOps, OnlyLine, Halfway, LineOk, InStep, Run, Unset;
    var v, e, after := FirstRun(t, before, l, x, xEnd, pen, unset);
    u := RowPaints(v, before, l, e + 1, xEnd, after, unset);
    LineTrans(t, v, u, l.y);
  }

  lemma {:induction false} FirstRun(t: Term, before: seq<Square>, l: Line, x: nat, xEnd: nat, pen: Pen, unset: bool)
    returns (v: Term, e: nat, after: Pen)
    requires x <= xEnd < |l.row| == |l.prow| && Emitted(l.row, l.prow, x) && NoLinks(l.row)
    requires OnLine(t, before, l, x, unset)
    requires InStep(t, pen, l.depth, Unset(l.row, l.prow, x, unset))
    ensures x <= e <= xEnd && PenOk(after) && Valid(v)
    ensures RowOps(l, x, xEnd, pen).1 == RowOps(l, e + 1, xEnd, after).1
    ensures Run(t, RowOps(l, x, xEnd, pen).0) == Run(v, RowOps(l, e + 1, xEnd, after).0)
    ensures OnLine(v, before, l, Boundary(l, e + 1), unset)
    ensures InStep(v, after, l.depth, Unset(l.row, l.prow, e + 1, unset))
    ensures OnlyLine(t, v, l.y)
  {
    hide Run, Halfway, Unset, RowOps, StyleOps, MoveOps, GlyphOps, OnlyLine;
    e := RunEnd(l.row, l.prow, x, x, xEnd);
    v := RunPaints(t, before, l, x, e, pen, unset);
    after := RunOps(l, x, e, pen).1;
    BoundaryAfter(l, e, t.wide);
    RunThenRest(t, l, x, xEnd, pen);
  }

  lemma {:induction false} RunThenRest(t: Term, l: Line, x: nat, xEnd: nat, pen: Pen)
    requires Valid(t) && x <= xEnd < |l.row| == |l.prow| && PenOk(pen) && Emitted(l.row, l.prow, x)
    ensures
      var e := RunEnd(l.row, l.prow, x, x, xEnd);
      var run := RunOps(l, x, e, pen);
      var rest := RowOps(l, e + 1, xEnd, run.1);
      && Run(t, RowOps(l, x, xEnd, pen).0) == Run(Run(t, run.0), rest.0)
      && RowOps(l, x, xEnd, pen).1 == rest.1
  {
    hide RunOps, RunEnd, Run, Emitted;
    var e := RunEnd(l.row, l.prow, x, x, xEnd);
    var run := RunOps(l, x, e, pen);
    RunConcat(t, run.0, RowOps(l, e + 1, xEnd, run.1).0);
  }

  lemma CellSkipped(t: Term, before: seq<Square>, l: Line, x: nat, unset: bool)
    requires x < |l.row| && OnLine(t, before, l, Boundary(l, x), unset) && !Emitted(l.row, l.prow, x)
    ensures OnLine(t, before, l, Boundary(l, x + 1), unset)
    ensures Unset(l.row, l.prow, x + 1, unset) == Unset(l.row, l.prow, x, unset)
  {
    hide Halfway, Painted, Kinds;
    assert CellOk(l.row, x, t.wide);
    assert x + 1 < |l.row| ==> CellOk(l.row, x + 1, t.wide);
    if !l.row[x].automerge {
      SkipHead(t.grid[l.y], before, l, x, unset, t.wide);
    }
  }

  lemma BoundaryAfter(l: Line, e: nat, wide: Glyph -> bool)
    requires e < |l.row| == |l.prow| && RowOk(l.row, wide) && Emitted(l.row, l.prow, e)
    ensures Boundary(l, e + 1) == Advance(l, e, wide)
  {
    assert CellOk(l.row, e, wide);
    assert e + 1 < |l.row| ==> CellOk(l.row, e + 1, wide);
  }

  /** The row after the diff, column by column. */
  ghost predicate AllPainted(now: seq<Square>, before: seq<Square>, l: Line, unset: bool, wide: Glyph -> bool)
    requires |before| == |l.row| == |l.prow|
  {
    |now| == |before| && forall i | 0 <= i < |now| :: now[i] == Painted(before, l, i, unset, wide)
  }

  /** Outside the changed span nothing is missed, and the span never starts inside a wide glyph. */
  lemma SpanStart(before: seq<Square>, l: Line, f: nat, unset: bool, wide: Glyph -> bool)
    requires LineOk(l, before, wide) && f < |l.row| && forall k | 0 <= k < f :: l.row[k] == l.prow[k]
    ensures Halfway(before, before, l, Boundary(l, f), unset, wide)
  {
    hide AttrOf, Unset;
    forall i | 0 <= i < |before|
      ensures CellOk(l.row, i, wide) && CellOk(l.prow, i, wide) && KindOk(before[i], l.prow[i], wide)
    {
    }
  }

  lemma SpanEnd(now: seq<Square>, before: seq<Square>, l: Line, last: nat, unset: bool, wide: Glyph -> bool)
    requires LineOk(l, before, wide) && last < |l.row| && forall k | last < k < |l.row| :: l.row[k] == l.prow[k]
    requires Halfway(now, before, l, Boundary(l, last + 1), unset, wide)
    ensures AllPainted(now, before, l, unset, wide)
    ensures Unset(l.row, l.prow, last + 1, unset) == Unset(l.row, l.prow, |l.row|, unset)
  {
    var p := Boundary(l, last + 1);
    forall i | p <= i < |now|
      ensures now[i] == Painted(before, l, i, unset, wide)
    {
      assert CellOk(l.row, i, wide) && CellOk(l.prow, i, wide) && KindOk(before[i], l.prow[i], wide);
      assert i > 0 ==> CellOk(l.row, i - 1, wide) && CellOk(l.prow, i - 1, wide);
    }
  }

  lemma LinePaints(t: Term, l: Line, pen: Pen, unset: bool) returns (u: Term)
    requires Valid(t) && l.y < t.h && t.w == |l.row| && LineOk(l, t.grid[l.y], t.wide) && NoLinks(l.row)
    requires InStep(t, pen, l.depth, unset)
    ensures u == Run(t, LineOps(l, pen).0) && Valid(u)
    ensures InStep(u, LineOps(l, pen).1, l.depth, Unset(l.row, l.prow, |l.row|, unset))
    ensures OnlyLine(t, u, l.y)
    ensures AllPainted(u.grid[l.y], t.grid[l.y], l, unset, t.wide)
  {
    var before := t.grid[l.y];
    if l.row == l.prow {
      u := t;
      forall i | 0 <= i < |before|
        ensures before[i] == Painted(before, l, i, unset, t.wide)
      {
        assert KindOk(before[i], l.prow[i], t.wide);
      }
    } else {
      var f, last := FirstChange(l.row, l.prow), LastChange(l.row, l.prow);
      SpanOrder(l.row, l.prow);
      SpanStart(before, l, f, unset, t.wide);
      assert Unset(l.row, l.prow, f, unset) == unset;
      u := RowPaints(t, before, l, f, last, pen, unset);
      SpanEnd(u.grid[l.y], before, l, last, unset, t.wide);
    }
  }
}
