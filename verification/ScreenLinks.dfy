/**
  Hyperlinks in the output of screen::to_string: which link each written glyph gets, and which one is
  left open for the next frame.
 */
module ScreenLinks {
  import opened Bytes
  import opened Terminal
  import opened Cells
  import opened ScreenDiff
  import opened ScreenRefinement
  import opened ScreenTheorem

  /** The address of a link, empty for none. */
  type Url = seq<byte>

  /** screen::hyperlink */
  function UrlOf(id: byte, links: seq<Url>): Url {
    if 0 < id <= |links| then links[id - 1] else []
  }

  // ---- The terminal's side -------------------------------------------------

  /** OSC 8 ; ; address, which closes the link if the address is empty. */
  predicate SetsLink(op: Op) {
    op.Osc? && |op.payload| >= 3 && op.payload[..3] == [56, 59, 59]
  }

  datatype Linked = Linked(glyph: Glyph, url: Url)

  /** The glyphs that are printed, each with the link that is open then. */
  function Printed(open: Url, ops: seq<Op>): seq<Linked>
    decreases |ops|
  {
    if ops == [] then []
    else if ops[0].Print? then [Linked(ops[0].glyph, open)] + Printed(open, ops[1..])
    else Printed(if SetsLink(ops[0]) then ops[0].payload[3..] else open, ops[1..])
  }

  /** The link that is open in the end. */
  function OpenAfter(open: Url, ops: seq<Op>): Url
    decreases |ops|
  {
    if ops == [] then open else OpenAfter(if SetsLink(ops[0]) then ops[0].payload[3..] else open, ops[1..])
  }

  lemma {:induction false} PrintedConcat(open: Url, a: seq<Op>, b: seq<Op>)
    ensures Printed(open, a + b) == Printed(open, a) + Printed(OpenAfter(open, a), b)
    ensures OpenAfter(open, a + b) == OpenAfter(OpenAfter(open, a), b)
    decreases |a|
  {
    if a == [] {
      assert a + b == b;
    } else {
      assert (a + b)[1..] == a[1..] + b;
      PrintedConcat(if SetsLink(a[0]) then a[0].payload[3..] else open, a[1..], b);
    }
  }

  predicate NoText(ops: seq<Op>) {
    forall i | 0 <= i < |ops| :: ops[i].Csi?
  }

  lemma {:induction false} NothingPrinted(open: Url, ops: seq<Op>)
    requires NoText(ops)
    ensures Printed(open, ops) == [] && OpenAfter(open, ops) == open
    decreases |ops|
  {
    if ops != [] {
      NothingPrinted(open, ops[1..]);
    }
  }

  // ---- The frame's side ----------------------------------------------------

  /** The cells of a row that are written, from column x on. */
  function Written(row: seq<Cell>, prow: seq<Cell>, x: nat): seq<Cell>
    requires x <= |row| == |prow|
    decreases |row| - x
  {
    if x == |row| then [] else (if Emitted(row, prow, x) then [row[x]] else []) + Written(row, prow, x + 1)
  }

  /** The cells of a frame that are written, from row y on. */
  function WrittenFrom(cur: Frame, prev: Frame, y: nat): seq<Cell>
    requires SameSize(cur, prev) && y <= cur.h
    decreases cur.h - y
  {
    if y == cur.h then [] else Written(Row(cur, y), Row(prev, y), 0) + WrittenFrom(cur, prev, y + 1)
  }

  /** What the cells ask for. */
  function Asked(cells: seq<Cell>, links: seq<Url>): (r: seq<Linked>)
    ensures |r| == |cells|
    ensures forall i | 0 <= i < |cells| :: r[i] == Linked(cells[i].text, UrlOf(cells[i].style.link, links))
  {
    seq(|cells|, i requires 0 <= i < |cells| => Linked(cells[i].text, UrlOf(cells[i].style.link, links)))
  }

  lemma AskedConcat(a: seq<Cell>, b: seq<Cell>, links: seq<Url>)
    ensures Asked(a + b, links) == Asked(a, links) + Asked(b, links)
  {
  }

  /** The link of the last cell, if there is one. */
  function LastId(id: byte, cells: seq<Cell>): byte {
    if cells == [] then id else cells[|cells| - 1].style.link
  }

  lemma LastIdConcat(id: byte, a: seq<Cell>, b: seq<Cell>)
    ensures LastId(id, a + b) == LastId(LastId(id, a), b)
  {
  }

  // ---- One run -------------------------------------------------------------

  lemma StyleSplits(prev: Style, next: Style, depth: Depth, links: seq<Url>)
    ensures StyleOps(prev, next, depth, links) ==
      (if next.link == prev.link then [] else LinkOps(next.link, links)) +
      StyleOps(prev.(link := next.link), next, depth, links)
  {
    hide SwitchOps, ColorOps, LinkOps;
    var same := prev.(link := next.link);
    var rest := StyleOps(same, next, depth, links);
    assert WeightOps(prev, next) == WeightOps(same, next) && UnderlineOps(prev, next) == UnderlineOps(same, next);
    hide WeightOps, UnderlineOps;
    assert [] + rest == rest;
  }

  lemma StyleIsNoText(prev: Style, next: Style, depth: Depth, links: seq<Url>)
    requires next.link == prev.link
    ensures NoText(StyleOps(prev, next, depth, links))
  {
    FoldStyle(prev, next, depth, links, false);
    hide StyleOps;
    var style := StyleOps(prev, next, depth, links);
    assert forall i | 0 <= i < |style| :: IsSgr(style[i]);
  }

  lemma LinkSets(id: byte, links: seq<Url>, open: Url)
    ensures Printed(open, LinkOps(id, links)) == [] && OpenAfter(open, LinkOps(id, links)) == UrlOf(id, links)
  {
    var ops := LinkOps(id, links);
    assert ops[0].payload[..3] == [56, 59, 59] && ops[0].payload[3..] == UrlOf(id, links);
    assert ops[1..] == [];
  }

  lemma StyleLinks(prev: Style, next: Style, depth: Depth, links: seq<Url>, open: Url)
    requires next.link == prev.link ==> open == UrlOf(next.link, links)
    ensures
      var ops := StyleOps(prev, next, depth, links);
      Printed(open, ops) == [] && OpenAfter(open, ops) == UrlOf(next.link, links)
  {
    hide StyleOps, LinkOps, Printed, OpenAfter, UrlOf;
    var rest := StyleOps(prev.(link := next.link), next, depth, links);
    var front := if next.link == prev.link then [] else LinkOps(next.link, links);
    StyleSplits(prev, next, depth, links);
    StyleIsNoText(prev.(link := next.link), next, depth, links);
    PrintedConcat(open, front, rest);
    NothingPrinted(UrlOf(next.link, links), rest);
    if next.link == prev.link {
      NothingPrinted(open, []);
    } else {
      LinkSets(next.link, links, open);
    }
  }

  lemma PrintOne(open: Url, c: Cell, links: seq<Url>, rest: seq<Op>)
    requires UrlOf(c.style.link, links) == open
    ensures Printed(open, [Print(c.text)] + rest) == Asked([c], links) + Printed(open, rest)
    ensures OpenAfter(open, [Print(c.text)] + rest) == OpenAfter(open, rest)
  {
    hide UrlOf;
    var ops := [Print(c.text)] + rest;
    assert ops[0] == Print(c.text) && ops[1..] == rest;
    assert Asked([c], links) == [Linked(c.text, open)];
  }

  lemma {:induction false} GlyphLinks(row: seq<Cell>, x: nat, e: int, links: seq<Url>, open: Url)
    requires x <= e + 1 <= |row|
    requires forall i | x <= i <= e :: UrlOf(row[i].style.link, links) == open
    ensures Printed(open, GlyphOps(row, x, e)) == Asked(row[x..e + 1], links)
    ensures OpenAfter(open, GlyphOps(row, x, e)) == open
    decreases e + 1 - x
  {
    hide Printed, OpenAfter, Asked, UrlOf;
    if x <= e {
      GlyphLinks(row, x + 1, e, links, open);
      PrintOne(open, row[x], links, GlyphOps(row, x + 1, e));
      assert row[x..e + 1] == [row[x]] + row[x + 1..e + 1];
      AskedConcat([row[x]], row[x + 1..e + 1], links);
    } else {
      NothingPrinted(open, []);
      NothingAsked(links);
      assert row[x..e + 1] == [];
    }
  }

  lemma MoveLinks(pen: Pen, x: nat, y: nat)
    ensures NoText(MoveOps(pen, x, y))
  {
  }

  lemma RunLinks(l: Line, x: nat, e: nat, pen: Pen, open: Url)
    requires x <= e < |l.row| && PenOk(pen) && open == UrlOf(pen.style.link, l.links)
    requires forall i | x < i <= e :: l.row[i].style == l.row[x].style
    ensures
      var ops := RunOps(l, x, e, pen).0;
      && Printed(open, ops) == Asked(l.row[x..e + 1], l.links)
      && OpenAfter(open, ops) == UrlOf(l.row[x].style.link, l.links)
  {
    hide StyleOps, MoveOps, GlyphOps, Printed, OpenAfter, UrlOf;
    var move, style := MoveOps(pen, x, l.y), StyleOps(pen.style, l.row[x].style, l.depth, l.links);
    var url := UrlOf(l.row[x].style.link, l.links);
    MoveLinks(pen, x, l.y);
    NothingPrinted(open, move);
    StyleLinks(pen.style, l.row[x].style, l.depth, l.links, open);
    GlyphLinks(l.row, x, e, l.links, url);
    PrintedConcat(open, move, style + GlyphOps(l.row, x, e));
    PrintedConcat(open, style, GlyphOps(l.row, x, e));
  }

  // ---- Rows ----------------------------------------------------------------

  lemma WrittenNext(row: seq<Cell>, prow: seq<Cell>, x: nat)
    requires x < |row| == |prow|
    ensures Written(row, prow, x) == (if Emitted(row, prow, x) then [row[x]] else []) + Written(row, prow, x + 1)
  {
  }

  lemma {:induction false} WrittenRun(row: seq<Cell>, prow: seq<Cell>, x: nat, e: nat)
    requires x <= e < |row| == |prow| && forall i | x <= i <= e :: Emitted(row, prow, i)
    ensures Written(row, prow, x) == row[x..e + 1] + Written(row, prow, e + 1)
    decreases e - x
  {
    hide Emitted, Written;
    WrittenNext(row, prow, x);
    if x < e {
      WrittenRun(row, prow, x + 1, e);
      assert row[x..e + 1] == [row[x]] + row[x + 1..e + 1];
      assert [row[x]] + (row[x + 1..e + 1] + Written(row, prow, e + 1)) == row[x..e + 1] + Written(row, prow, e + 1);
    } else {
      assert row[x..x + 1] == [row[x]];
    }
  }

  /** Equal cells are not written. */
  lemma {:induction false} NoneWritten(row: seq<Cell>, prow: seq<Cell>, x: nat, n: nat)
    requires x <= n <= |row| == |prow| && forall i | x <= i < n :: row[i] == prow[i]
    ensures Written(row, prow, x) == Written(row, prow, n)
    decreases n - x
  {
    if x < n {
      NoneWritten(row, prow, x + 1, n);
    }
  }

  /** The operations print the cells and leave the link of the last one open. */
  ghost predicate Follows(open: Url, ops: seq<Op>, cells: seq<Cell>, links: seq<Url>, before: byte, after: byte) {
    && Printed(open, ops) == Asked(cells, links)
    && after == LastId(before, cells) && OpenAfter(open, ops) == UrlOf(after, links)
  }

  lemma FollowsConcat(open: Url, ops: seq<Op>, more: seq<Op>, cells: seq<Cell>, rest: seq<Cell>, links: seq<Url>,
                      before: byte, middle: byte, after: byte)
    requires Follows(open, ops, cells, links, before, middle)
    requires Follows(UrlOf(middle, links), more, rest, links, middle, after)
    ensures Follows(open, ops + more, cells + rest, links, before, after)
  {
    hide Printed, OpenAfter, UrlOf, Asked;
    PrintedConcat(open, ops, more);
    AskedConcat(cells, rest, links);
    LastIdConcat(before, cells, rest);
  }

  lemma FollowsNothing(open: Url, links: seq<Url>, id: byte)
    requires open == UrlOf(id, links)
    ensures Follows(open, [], [], links, id, id)
  {
  }

  lemma {:induction false} RowLinks(l: Line, x: nat, xEnd: nat, pen: Pen, open: Url)
    requires x <= xEnd + 1 <= |l.row| == |l.prow| && PenOk(pen) && open == UrlOf(pen.style.link, l.links)
    requires forall i | xEnd < i < |l.row| :: l.row[i] == l.prow[i]
    ensures
      var (ops, after) := RowOps(l, x, xEnd, pen);
      Follows(open, ops, Written(l.row, l.prow, x), l.links, pen.style.link, after.style.link)
    decreases xEnd + 1 - x
  {
    hide Emitted, RunOps, Follows, Written, UrlOf;
    if x > xEnd {
      NoneWritten(l.row, l.prow, x, |l.row|);
      NothingAtTheEnd(l.row, l.prow);
      FollowsNothing(open, l.links, pen.style.link);
    } else {
      WrittenNext(l.row, l.prow, x);
      if !Emitted(l.row, l.prow, x) {
        RowLinks(l, x + 1, xEnd, pen, open);
        assert [] + Written(l.row, l.prow, x + 1) == Written(l.row, l.prow, x + 1);
      } else {
        var e := RunEnd(l.row, l.prow, x, x, xEnd);
        var (ops, next) := RunOps(l, x, e, pen);
        RunFollows(l, x, e, pen, open);
        WrittenRun(l.row, l.prow, x, e);
        RowLinks(l, e + 1, xEnd, next, UrlOf(next.style.link, l.links));
        var (more, last) := RowOps(l, e + 1, xEnd, next);
        FollowsConcat(open, ops, more, l.row[x..e + 1], Written(l.row, l.prow, e + 1), l.links,
                      pen.style.link, next.style.link, last.style.link);
      }
    }
  }

  lemma RunFollows(l: Line, x: nat, e: nat, pen: Pen, open: Url)
    requires x <= e < |l.row| && PenOk(pen) && open == UrlOf(pen.style.link, l.links)
    requires forall i | x < i <= e :: l.row[i].style == l.row[x].style
    ensures
      var (ops, next) := RunOps(l, x, e, pen);
      Follows(open, ops, l.row[x..e + 1], l.links, pen.style.link, next.style.link)
  {
    hide RunOps, Printed, OpenAfter, Asked, UrlOf;
    RunLinks(l, x, e, pen, open);
    PenAfter(l, x, e, pen);
  }

  lemma NothingAsked(links: seq<Url>)
    ensures Asked([], links) == []
  {
  }

  lemma PenAfter(l: Line, x: nat, e: nat, pen: Pen)
    requires x <= e < |l.row| && PenOk(pen) && forall i | x < i <= e :: l.row[i].style == l.row[x].style
    ensures RunOps(l, x, e, pen).1.style.link == l.row[x].style.link == LastId(pen.style.link, l.row[x..e + 1])
  {
    hide MoveOps, StyleOps, GlyphOps;
    assert l.row[x..e + 1][e - x] == l.row[e];
  }

  lemma LineLinks(l: Line, pen: Pen, open: Url)
    requires |l.row| == |l.prow| && PenOk(pen) && open == UrlOf(pen.style.link, l.links)
    ensures
      var (ops, after) := LineOps(l, pen);
      Follows(open, ops, Written(l.row, l.prow, 0), l.links, pen.style.link, after.style.link)
  {
    hide RowOps, Written, UrlOf, Follows;
    if l.row == l.prow {
      NoneWritten(l.row, l.prow, 0, |l.row|);
      NothingAtTheEnd(l.row, l.prow);
      FollowsNothing(open, l.links, pen.style.link);
    } else {
      SpanOrder(l.row, l.prow);
      var x, xEnd := FirstChange(l.row, l.prow), LastChange(l.row, l.prow);
      NoneWritten(l.row, l.prow, 0, x);
      RowLinks(l, x, xEnd, pen, open);
    }
  }

  lemma NothingAtTheEnd(row: seq<Cell>, prow: seq<Cell>)
    requires |row| == |prow|
    ensures Written(row, prow, |row|) == []
  {
  }

  lemma {:induction false} LinesLinks(cur: Frame, prev: Frame, y: nat, pen: Pen, open: Url)
    requires SameSize(cur, prev) && y <= cur.h && PenOk(pen) && open == UrlOf(pen.style.link, cur.links)
    ensures
      var (ops, after) := LinesOps(cur, prev, y, pen);
      Follows(open, ops, WrittenFrom(cur, prev, y), cur.links, pen.style.link, after.style.link)
    decreases cur.h - y
  {
    hide LineOps, Written, UrlOf, Follows, Row;
    if y == cur.h {
      FollowsNothing(open, cur.links, pen.style.link);
    } else {
      LineIs(cur, prev, y);
      var l := LineOf(cur, prev, y);
      var (ops, next) := LineOps(l, pen);
      LineLinks(l, pen, open);
      LinesLinks(cur, prev, y + 1, next, UrlOf(next.style.link, cur.links));
      var (more, last) := LinesOps(cur, prev, y + 1, next);
      FollowsConcat(open, ops, more, Written(l.row, l.prow, 0), WrittenFrom(cur, prev, y + 1), cur.links,
                    pen.style.link, next.style.link, last.style.link);
    }
  }

  // ---- The whole diff ------------------------------------------------------

  lemma FrameLinks(cur: Frame, prev: Frame, open: Url)
    requires SameSize(cur, prev) && DiffOps(cur, prev) != []
    ensures Printed(open, DiffOps(cur, prev)) == Printed(open, LinesOps(cur, prev, 0, START).0)
    ensures OpenAfter(open, DiffOps(cur, prev)) == OpenAfter(open, LinesOps(cur, prev, 0, START).0)
  {
    hide LinesOps, Printed, OpenAfter;
    var body := LinesOps(cur, prev, 0, START).0;
    var tail := [SgrOp([0])] + CursorOps(cur);
    PrintedConcat(open, [HIDE], body + tail);
    NothingPrinted(open, [HIDE]);
    PrintedConcat(open, body, tail);
    NothingPrinted(OpenAfter(open, body), tail);
    assert DiffOps(cur, prev) == [HIDE] + (body + tail);
  }

  /**
    On a terminal without an open link every written glyph gets exactly the link of its cell, and the
    link of the last written cell stays open.
   */
  lemma DiffLinks(cur: Frame, prev: Frame)
    requires SameSize(cur, prev)
    ensures
      var ops, cells := DiffOps(cur, prev), WrittenFrom(cur, prev, 0);
      && Printed([], ops) == Asked(cells, cur.links)
      && OpenAfter([], ops) == UrlOf(LastId(0, cells), cur.links)
  {
    hide LinesOps, WrittenFrom, Asked;
    LinesLinks(cur, prev, 0, START, []);
    if DiffOps(cur, prev) != [] {
      FrameLinks(cur, prev, []);
    } else {
      DiffEmpty(cur, prev);
      hide Changed, Emitted;
      AllUnchanged(cur, prev, 0);
      NothingAsked(cur.links);
    }
  }

  lemma {:induction false} RowUnchanged(row: seq<Cell>, prow: seq<Cell>, x: nat)
    requires x <= |row| == |prow| && forall i | x <= i < |row| :: !Emitted(row, prow, i)
    ensures Written(row, prow, x) == []
    decreases |row| - x
  {
    hide Emitted;
    if x < |row| {
      RowUnchanged(row, prow, x + 1);
    }
  }

  lemma {:induction false} AllUnchanged(cur: Frame, prev: Frame, y: nat)
    requires SameSize(cur, prev) && y <= cur.h && forall v: nat, i: nat :: !Changed(cur, prev, v, i)
    ensures WrittenFrom(cur, prev, y) == []
    decreases cur.h - y
  {
    hide Emitted, Row, Written;
    if y < cur.h {
      forall i | 0 <= i < cur.w ensures !Emitted(Row(cur, y), Row(prev, y), i) {
        assert !Changed(cur, prev, y, i);
      }
      RowUnchanged(Row(cur, y), Row(prev, y), 0);
      AllUnchanged(cur, prev, y + 1);
    }
  }

  // ---- A link left open ----------------------------------------------------

  /** A glyph is printed before any link is set. */
  predicate Exposed(ops: seq<Op>)
    decreases |ops|
  {
    ops != [] && (ops[0].Print? || (!SetsLink(ops[0]) && Exposed(ops[1..])))
  }

  /** Neither prints anything nor sets a link. */
  predicate Untouched(ops: seq<Op>) {
    forall i | 0 <= i < |ops| :: !ops[i].Print? && !SetsLink(ops[i])
  }

  lemma {:induction false} ExposedConcat(a: seq<Op>, b: seq<Op>)
    ensures Exposed(a + b) <==> Exposed(a) || (Untouched(a) && Exposed(b))
    ensures Untouched(a + b) <==> Untouched(a) && Untouched(b)
    ensures Untouched(a) ==> !Exposed(a)
    decreases |a|
  {
    if a == [] {
      assert a + b == b;
    } else {
      assert (a + b)[1..] == a[1..] + b && a == [a[0]] + a[1..];
      ExposedConcat(a[1..], b);
      UntouchedNext(a);
      UntouchedNext(a + b);
    }
  }

  lemma UntouchedNext(ops: seq<Op>)
    requires ops != []
    ensures Untouched(ops) <==> !ops[0].Print? && !SetsLink(ops[0]) && Untouched(ops[1..])
  {
    assert ops == [ops[0]] + ops[1..];
  }

  /** The link that is open in the beginning matters exactly to what is exposed to it. */
  lemma {:induction false} ExposedIff(a: Url, b: Url, ops: seq<Op>)
    ensures Printed(a, ops) == Printed(b, ops) <==> a == b || !Exposed(ops)
    decreases |ops|
  {
    if ops != [] {
      ExposedIff(a, b, ops[1..]);
      if ops[0].Print? && a != b {
        assert Printed(a, ops)[0] != Printed(b, ops)[0];
      }
    }
  }

  lemma NoTextIsUntouched(ops: seq<Op>)
    requires NoText(ops)
    ensures Untouched(ops) && !Exposed(ops)
  {
    assert ops + [] == ops;
    ExposedConcat(ops, []);
  }

  /** A run starts with its first glyph or with its link. */
  lemma RunExposed(l: Line, x: nat, e: nat, pen: Pen)
    requires x <= e < |l.row| && PenOk(pen) && pen.style.link == 0
    ensures
      var ops := RunOps(l, x, e, pen).0;
      !Untouched(ops) && (Exposed(ops) <==> l.row[x].style.link == 0)
  {
    hide StyleOps, MoveOps, GlyphOps, Exposed, Untouched, LinkOps;
    var next := l.row[x].style;
    var move, style, glyphs := MoveOps(pen, x, l.y), StyleOps(pen.style, next, l.depth, l.links), GlyphOps(l.row, x, e);
    var rest := StyleOps(pen.style.(link := next.link), next, l.depth, l.links);
    var front := if next.link == 0 then [] else LinkOps(next.link, l.links);
    MoveLinks(pen, x, l.y);
    NoTextIsUntouched(move);
    StyleSplits(pen.style, next, l.depth, l.links);
    StyleIsNoText(pen.style.(link := next.link), next, l.depth, l.links);
    NoTextIsUntouched(rest);
    GlyphsExposed(l.row, x, e);
    LinkTouches(next.link, l.links);
    NoTextIsUntouched([]);
    ExposedConcat(move, style + glyphs);
    ExposedConcat(style, glyphs);
    ExposedConcat(front, rest);
  }

  lemma GlyphsExposed(row: seq<Cell>, x: nat, e: nat)
    requires x <= e < |row|
    ensures Exposed(GlyphOps(row, x, e)) && !Untouched(GlyphOps(row, x, e))
  {
    assert GlyphOps(row, x, e)[0] == Print(row[x].text);
  }

  lemma LinkTouches(id: byte, links: seq<Url>)
    ensures !Untouched(LinkOps(id, links)) && !Exposed(LinkOps(id, links))
  {
    assert LinkOps(id, links)[0].payload[..3] == [56, 59, 59];
  }

  predicate StartsPlain(cells: seq<Cell>) { cells != [] && cells[0].style.link == 0 }

  lemma {:induction false} RowExposed(l: Line, x: nat, xEnd: nat, pen: Pen)
    requires x <= xEnd + 1 <= |l.row| == |l.prow| && PenOk(pen) && pen.style.link == 0
    requires forall i | xEnd < i < |l.row| :: l.row[i] == l.prow[i]
    ensures
      var ops, cells := RowOps(l, x, xEnd, pen).0, Written(l.row, l.prow, x);
      (Exposed(ops) <==> StartsPlain(cells)) && (Untouched(ops) <==> cells == [])
    decreases xEnd + 1 - x
  {
    hide Emitted, RunOps, Exposed, Untouched, Written;
    if x > xEnd {
      NoneWritten(l.row, l.prow, x, |l.row|);
      NothingAtTheEnd(l.row, l.prow);
      NoTextIsUntouched([]);
    } else {
      WrittenNext(l.row, l.prow, x);
      if !Emitted(l.row, l.prow, x) {
        RowExposed(l, x + 1, xEnd, pen);
      } else {
        var e := RunEnd(l.row, l.prow, x, x, xEnd);
        var (ops, next) := RunOps(l, x, e, pen);
        RunExposed(l, x, e, pen);
        ExposedConcat(ops, RowOps(l, e + 1, xEnd, next).0);
      }
    }
  }

  lemma LineExposed(l: Line, pen: Pen)
    requires |l.row| == |l.prow| && PenOk(pen) && pen.style.link == 0
    ensures
      var ops, cells := LineOps(l, pen).0, Written(l.row, l.prow, 0);
      (Exposed(ops) <==> StartsPlain(cells)) && (Untouched(ops) <==> cells == [])
  {
    hide RowOps, Written, Exposed, Untouched;
    if l.row == l.prow {
      NoneWritten(l.row, l.prow, 0, |l.row|);
      NothingAtTheEnd(l.row, l.prow);
      NoTextIsUntouched([]);
    } else {
      SpanOrder(l.row, l.prow);
      var x := FirstChange(l.row, l.prow);
      NoneWritten(l.row, l.prow, 0, x);
      RowExposed(l, x, LastChange(l.row, l.prow), pen);
    }
  }

  lemma {:induction false} LinesExposed(cur: Frame, prev: Frame, y: nat, pen: Pen)
    requires SameSize(cur, prev) && y <= cur.h && PenOk(pen) && pen.style.link == 0
    ensures
      var ops, cells := LinesOps(cur, prev, y, pen).0, WrittenFrom(cur, prev, y);
      (Exposed(ops) <==> StartsPlain(cells)) && (Untouched(ops) <==> cells == [])
    decreases cur.h - y
  {
    hide LineOps, Written, Exposed, Untouched, Row;
    if y == cur.h {
      NoTextIsUntouched([]);
    } else {
      LineIs(cur, prev, y);
      var l := LineOf(cur, prev, y);
      var (ops, next) := LineOps(l, pen);
      LineExposed(l, pen);
      ExposedConcat(ops, LinesOps(cur, prev, y + 1, next).0);
      if Written(l.row, l.prow, 0) == [] {
        LineLinks(l, pen, UrlOf(0, l.links));
        LinesExposed(cur, prev, y + 1, next);
      }
    }
  }

  /**
    The diff takes it for granted that no link is open.  If one is, the written glyphs still get the
    links of their cells if and only if the first of them has one of its own.
   */
  lemma OpenLinkIff(cur: Frame, prev: Frame, open: Url)
    requires SameSize(cur, prev)
    ensures
      var cells := WrittenFrom(cur, prev, 0);
      Printed(open, DiffOps(cur, prev)) == Asked(cells, cur.links) <==>
        open == [] || cells == [] || cells[0].style.link != 0
  {
    hide LinesOps, WrittenFrom, Asked, Printed, Exposed;
    var body := LinesOps(cur, prev, 0, START).0;
    DiffLinks(cur, prev);
    LinesExposed(cur, prev, 0, START);
    if DiffOps(cur, prev) != [] {
      FrameLinks(cur, prev, open);
      FrameLinks(cur, prev, []);
      ExposedIff(open, [], body);
    } else {
      DiffEmpty(cur, prev);
      hide Changed;
      AllUnchanged(cur, prev, 0);
      NoTextIsUntouched([]);
      NothingPrinted(open, []);
      NothingPrinted([], []);
    }
  }

  /**
    So of two frames in a row the second is written with the right links if and only if the last cell
    of the first has none, the second writes nothing, or its first written cell has a link.
   */
  lemma NextFrameLinks(first: Frame, second: Frame, prev: Frame)
    requires SameSize(first, prev) && SameSize(second, first)
    ensures
      var before, cells := WrittenFrom(first, prev, 0), WrittenFrom(second, first, 0);
      Printed(OpenAfter([], DiffOps(first, prev)), DiffOps(second, first)) == Asked(cells, second.links) <==>
        UrlOf(LastId(0, before), first.links) == [] || cells == [] || cells[0].style.link != 0
  {
    DiffLinks(first, prev);
    OpenLinkIff(second, first, OpenAfter([], DiffOps(first, prev)));
  }

  /** A linked letter, then a plain one in its place: the second is printed under the link of the first. */
  lemma LinkLeaks(url: Url) returns (prev: Frame, first: Frame, second: Frame)
    requires url != []
    ensures SameSize(first, prev) && SameSize(second, first)
    ensures OpenAfter([], DiffOps(first, prev)) == url
    ensures Asked(second.cells, second.links) == [Linked([98], [])]
    ensures Printed(url, DiffOps(second, first)) != Asked(second.cells, second.links)
  {
    hide DiffOps, OpenAfter, Printed;
    var a, b := Cell([97], 1, RESET.(link := 1), false), Cell([98], 1, RESET, false);
    prev := Frame(1, 1, [BLANK], NO_CURSOR, Ansi256, [], true);
    first := Frame(1, 1, [a], NO_CURSOR, Ansi256, [url], false);
    second := Frame(1, 1, [b], NO_CURSOR, Ansi256, [], false);
    assert Row(first, 0) == [a] && Row(prev, 0) == [BLANK] && Row(second, 0) == [b];
    assert Written([a], [BLANK], 0) == [a] + [] && Written([b], [a], 0) == [b] + [];
    assert WrittenFrom(first, prev, 0) == [a] + [] && WrittenFrom(second, first, 0) == [b] + [];
    DiffLinks(first, prev);
    OpenLinkIff(second, first, url);
  }

  /** Numbers belong to one frame but are compared across frames: a letter whose link alone changed is not written. */
  lemma StaleLink(before: Url, after: Url) returns (first: Frame, second: Frame)
    requires before != after
    ensures SameSize(second, first) && DiffOps(second, first) == []
    ensures Asked(first.cells, first.links) == [Linked([97], before)]
    ensures Asked(second.cells, second.links) == [Linked([97], after)]
  {
    var a := Cell([97], 1, RESET.(link := 1), false);
    first := Frame(1, 1, [a], NO_CURSOR, Ansi256, [before], false);
    second := first.(links := [after]);
    assert Row(first, 0) == Row(second, 0) == [a];
    DiffEmpty(second, first);
  }
}
