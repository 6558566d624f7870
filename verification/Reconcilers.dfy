/**
  The painting side of src/tui/reconciler.cpp: which frame is diffed against which, when the
  whole terminal is repainted, and what that keeps true over every run.  What the renderer
  paints into the cleared frame is an input (Picture).
 */
module Reconcilers {
  import opened Bytes
  import opened Terminal
  import opened Cells
  import opened ScreenDiff
  import opened ScreenRefinement
  import opened ScreenTheorem
  import opened ScreenLoops

  /** Everything the renderer leaves in a frame of the current size. */
  datatype Picture = Picture(cells: seq<Cell>, cursor: Cursor, links: seq<seq<byte>>, blank: bool)

  datatype State = State(
    cur: Frame, prev: Frame,
    paintedW: int, paintedH: int, termW: nat, termH: nat, forcedW: int, forcedH: int,
    dirty: bool, mounted: bool, synchronized: bool)

  /** refresh_term_size: a forced size wins, a nonsensical console size is ignored. */
  function Refreshed(s: State, consoleW: int, consoleH: int): (size: (nat, nat))
    requires s.termW > 0 && s.termH > 0
    ensures size.0 > 0 && size.1 > 0
  {
    if s.forcedW > 0 && s.forcedH > 0 then (s.forcedW, s.forcedH)
    else if consoleW > 0 && consoleH > 0 then (consoleW, consoleH)
    else (s.termW, s.termH)
  }

  ghost predicate Consistent(s: State) {
    && s.termW > 0 && s.termH > 0
    && Sized(s.cur) && Sized(s.prev) && SameSize(s.cur, s.prev) && s.cur.depth == s.prev.depth
  }

  /** A new object: two blank frames of the console's size, nothing painted yet. */
  function Fresh(consoleW: int, consoleH: int, depth: Depth): (s: State)
    ensures Consistent(s)
  {
    var w: nat := if consoleW > 0 && consoleH > 0 then consoleW else 80;
    var h: nat := if consoleW > 0 && consoleH > 0 then consoleH else 24;
    State(Cleared(w, h, depth), Cleared(w, h, depth), 0, 0, w, h, 0, 0, true, false, true)
  }

  const ERASE := Csi(false, [2], false, 74)
  const BEGIN_SYNC := Csi(true, [2026], false, 104)
  const END_SYNC := Csi(true, [2026], false, 108)

  function Marked(s: State): State { s.(dirty := true) }

  function Mounted(s: State): State { s.(mounted := true, dirty := true) }

  function Invalidated(s: State): State { s.(paintedW := 0, paintedH := 0, dirty := true) }

  function WithDepth(s: State, depth: Depth): State {
    Invalidated(s.(cur := s.cur.(depth := depth), prev := s.prev.(depth := depth)))
  }

  function Forced(s: State, w: int, h: int): State { s.(forcedW := w, forcedH := h, dirty := true) }

  /** The frame the new picture is compared with. */
  function Baseline(s: State, w: nat, h: nat): (f: Frame)
    requires Sized(s.cur) && Sized(s.prev) && w > 0 && h > 0
    ensures Sized(f)
  {
    if w != s.paintedW || h != s.paintedH then
      // Both the resize and the clear leave a blank frame of the size of the current one.
      Cleared(if s.cur.w != w || s.cur.h != h then w else s.prev.w,
              if s.cur.w != w || s.cur.h != h then h else s.prev.h, s.prev.depth)
    else if s.cur.w != w || s.cur.h != h then Cleared(w, h, s.prev.depth)
    else s.prev
  }

  function Painting(s: State, w: nat, h: nat, pic: Picture): Frame {
    Frame(w, h, pic.cells, pic.cursor, s.cur.depth, pic.links, pic.blank)
  }

  /** Erase, synchronized-output brackets, diff; an idle frame gets no brackets either. */
  function Wrapped(repaint: bool, sync: bool, diff: seq<Op>): seq<Op> {
    (if repaint then [ERASE] else []) +
    (if repaint || diff != [] then
       (if sync then [BEGIN_SYNC] else []) + (diff + (if sync then [END_SYNC] else []))
     else [])
  }

  function OutputOps(s: State, w: nat, h: nat, pic: Picture): seq<Op>
    requires Sized(s.cur) && Sized(s.prev) && w > 0 && h > 0 && |pic.cells| == w * h
  {
    var repaint := w != s.paintedW || h != s.paintedH;
    Wrapped(repaint, s.synchronized, DiffOps(Painting(s, w, h, pic), Baseline(s, w, h)))
  }

  function Flushed(s: State, w: nat, h: nat, pic: Picture): State {
    var cur := Painting(s, w, h, pic);
    s.(cur := cur, prev := cur, termW := w, termH := h, paintedW := w, paintedH := h, dirty := false)
  }

  // ---- The object ----------------------------------------------------------

  class Reconciler {
    var cur: Frame
    var prev: Frame
    var paintedW: int
    var paintedH: int
    var termW: nat
    var termH: nat
    var forcedW: int
    var forcedH: int
    var dirty: bool
    var mounted: bool
    var synchronized: bool

    function Abstract(): State
      reads this
    {
      State(cur, prev, paintedW, paintedH, termW, termH, forcedW, forcedH, dirty, mounted, synchronized)
    }

    constructor (consoleW: int, consoleH: int, depth: Depth)
      ensures Abstract() == Fresh(consoleW, consoleH, depth)
    {
      var w: nat := if consoleW > 0 && consoleH > 0 then consoleW else 80;
      var h: nat := if consoleW > 0 && consoleH > 0 then consoleH else 24;
      termW, termH := w, h;
      cur, prev := Cleared(w, h, depth), Cleared(w, h, depth);
      paintedW, paintedH, forcedW, forcedH := 0, 0, 0, 0;
      dirty, mounted, synchronized := true, false, true;
    }

    method MarkDirty()
      modifies this`dirty
      ensures Abstract() == Marked(old(Abstract()))
    {
      dirty := true;
    }

    method Invalidate()
      modifies this
      ensures Abstract() == Invalidated(old(Abstract()))
    {
      paintedW, paintedH, dirty := 0, 0, true;
    }

    method SetColorDepth(depth: Depth)
      modifies this
      ensures Abstract() == WithDepth(old(Abstract()), depth)
    {
      cur, prev := cur.(depth := depth), prev.(depth := depth);
      Invalidate();
    }

    method SetTermSize(width: int, height: int)
      modifies this
      ensures Abstract() == Forced(old(Abstract()), width, height)
    {
      forcedW, forcedH, dirty := width, height, true;
    }

    method RefreshTermSize(consoleW: int, consoleH: int)
      requires termW > 0 && termH > 0
      modifies this`termW, this`termH
      ensures (termW, termH) == old(Refreshed(Abstract(), consoleW, consoleH))
    {
      if forcedW > 0 && forcedH > 0 {
        termW, termH := forcedW, forcedH;
        return;
      }
      if consoleW > 0 && consoleH > 0 {
        termW, termH := consoleW, consoleH;
      }
    }

    /** The bytes a flush prints once both frames are in place. */
    method Compose(repaintAll: bool) returns (output: seq<byte>)
      requires Sized(cur) && Sized(prev)
      ensures output == Serialize(Wrapped(repaintAll, synchronized, DiffOps(cur, prev)))
    {
      hide DiffOps, Serialize, Wrapped;
      EraseBytes();
      output := [];
      if repaintAll {
        output := output + Serialize([ERASE]);
      }
      var diff := ToString(cur, prev);
      DiffBytesEmpty(cur, prev);
      if repaintAll || diff != [] {
        if synchronized {
          output := output + Serialize([BEGIN_SYNC]);
        }
        output := output + diff;
        if synchronized {
          output := output + Serialize([END_SYNC]);
        }
      }
      WrappedPieces(repaintAll, synchronized, DiffOps(cur, prev), output);
    }

    /** Both frames take the new size, the new picture is painted, and a repaint compares it with nothing. */
    method PlaceFrames(repaintAll: bool, pic: Picture)
      requires Sized(cur) && Sized(prev) && termW > 0 && termH > 0 && |pic.cells| == termW * termH
      requires repaintAll == (termW != paintedW || termH != paintedH)
      modifies this`cur, this`prev
      ensures cur == Painting(old(Abstract()), termW, termH, pic) && prev == Baseline(old(Abstract()), termW, termH)
    {
      if cur.w != termW || cur.h != termH {
        cur, prev := Cleared(termW, termH, cur.depth), Cleared(termW, termH, prev.depth);
      }
      cur := Frame(termW, termH, pic.cells, pic.cursor, cur.depth, pic.links, pic.blank);
      if repaintAll {
        prev := Cleared(prev.w, prev.h, prev.depth);
      }
    }

    /** flush(); pic is what the renderer paints into the cleared frame of the refreshed size. */
    method Flush(consoleW: int, consoleH: int, pic: Picture) returns (output: seq<byte>)
      requires Consistent(Abstract())
      requires var size := Refreshed(Abstract(), consoleW, consoleH); |pic.cells| == size.0 * size.1
      modifies this
      ensures
        var s := old(Abstract());
        var size := Refreshed(s, consoleW, consoleH);
        if s.mounted && s.dirty then
          && Abstract() == Flushed(s, size.0, size.1, pic)
          && output == Serialize(OutputOps(s, size.0, size.1, pic))
        else Abstract() == s && output == []
      ensures Consistent(Abstract())
    {
      hide DiffOps, Serialize, Wrapped, Baseline, Refreshed;
      output := [];
      if !mounted {
        return;
      }
      if !dirty {
        return;
      }
      RefreshTermSize(consoleW, consoleH);
      var repaintAll := termW != paintedW || termH != paintedH;
      SameBaseline(old(Abstract()), termW, termH);
      PlaceFrames(repaintAll, pic);
      output := Compose(repaintAll);
      prev := cur;
      paintedW, paintedH, dirty := termW, termH, false;
    }

    /** mount(): the first flush always paints. */
    method Mount(consoleW: int, consoleH: int, pic: Picture) returns (output: seq<byte>)
      requires Consistent(Abstract())
      requires var size := Refreshed(Abstract(), consoleW, consoleH); |pic.cells| == size.0 * size.1
      modifies this
      ensures
        var s := Mounted(old(Abstract()));
        var size := Refreshed(s, consoleW, consoleH);
        && Abstract() == Flushed(s, size.0, size.1, pic) && mounted
        && output == Serialize(OutputOps(s, size.0, size.1, pic))
      ensures Consistent(Abstract())
    {
      hide OutputOps, Serialize;
      mounted := true;
      MarkDirty();
      output := Flush(consoleW, consoleH, pic);
    }
  }

  lemma SameBaseline(s: State, w: nat, h: nat)
    requires Sized(s.cur) && Sized(s.prev) && w > 0 && h > 0
    ensures Baseline(s.(termW := w, termH := h), w, h) == Baseline(s, w, h)
  {
  }

  lemma {:induction false} DiffBytesEmpty(cur: Frame, prev: Frame)
    requires Sized(cur) && Sized(prev)
    ensures Serialize(DiffOps(cur, prev)) == [] <==> DiffOps(cur, prev) == []
  {
    if DiffOps(cur, prev) != [] {
      assert DiffOps(cur, prev)[0] == HIDE;
    }
  }

  lemma {:induction false} WrappedBytes(repaint: bool, sync: bool, diff: seq<Op>)
    ensures Serialize(Wrapped(repaint, sync, diff)) ==
              (if repaint then Serialize([ERASE]) else []) +
              (if repaint || diff != [] then
                 (if sync then Serialize([BEGIN_SYNC]) else []) + Serialize(diff) +
                 (if sync then Serialize([END_SYNC]) else [])
               else [])
  {
    hide Encode;
    var first := if repaint then [ERASE] else [];
    var begin, end := if sync then [BEGIN_SYNC] else [], if sync then [END_SYNC] else [];
    if repaint || diff != [] {
      SerializeParts(first, begin, diff, end);
      Regroup3(Serialize(first), Serialize(begin), Serialize(diff));
    } else {
      assert first + [] == first;
    }
  }

  /** The same bytes in the order in which they are appended. */
  lemma {:induction false} WrappedPieces(repaint: bool, sync: bool, diff: seq<Op>, output: seq<byte>)
    requires
      var begin := if repaint then Serialize([ERASE]) else [];
      output == if repaint || diff != [] then
                  if sync then begin + Serialize([BEGIN_SYNC]) + Serialize(diff) + Serialize([END_SYNC])
                  else begin + Serialize(diff)
                else begin
    ensures output == Serialize(Wrapped(repaint, sync, diff))
  {
    hide Serialize, Wrapped;
    WrappedBytes(repaint, sync, diff);
    var begin := if repaint then Serialize([ERASE]) else [];
    Regroup4(begin, Serialize([BEGIN_SYNC]), Serialize(diff), Serialize([END_SYNC]));
    Regroup3(Serialize([BEGIN_SYNC]), Serialize(diff), Serialize([END_SYNC]));
    assert [] + Serialize(diff) + [] == Serialize(diff);
  }

  // ---- Runs ----------------------------------------------------------------

  /** The object together with the terminal it writes to. */
  datatype World = World(s: State, t: Term)

  datatype Event =
    | Mount                        // up to the flush that mount() ends with, which is the next event
    | MarkDirty
    | Invalidate
    | SetDepth(depth: Depth)
    | SetSize(w: int, h: int)
    | Resize(t: Term)              // the terminal itself changed size; its contents are arbitrary
    | Flush(pic: Picture)

  /**
    A resize is one the next flush can observe: it leaves a size other than the painted one.
    A flush runs on a terminal whose size is the one the object believes in, with a picture laid
    out for it.
   */
  ghost predicate Possible(world: World, e: Event) {
    var World(s, t) := world;
    match e
    case Mount => true
    case MarkDirty => true
    case Invalidate => true
    case SetDepth(_) => true
    case SetSize(_, _) => true
    case Resize(u) =>
      Valid(u) && u.sgr == PLAIN && u.wide == t.wide && (u.w != s.paintedW || u.h != s.paintedH)
    case Flush(pic) =>
      && s.termW > 0 && s.termH > 0 && Refreshed(s, t.w, t.h) == (t.w, t.h)
      && |pic.cells| == t.w * t.h
      && WellFormed(Painting(s, t.w, t.h, pic), t.wide)
  }

  ghost function Step(world: World, e: Event): World
    requires Holds(world) && Possible(world, e)
  {
    var World(s, t) := world;
    match e
    case Mount => World(Mounted(s), t)
    case MarkDirty => World(Marked(s), t)
    case Invalidate => World(Invalidated(s), t)
    case SetDepth(d) => World(WithDepth(s, d), t)
    case SetSize(w, h) => World(Forced(s, w, h), t)
    case Resize(u) => World(s, u)
    case Flush(pic) =>
      if s.mounted && s.dirty then
        World(Flushed(s, t.w, t.h, pic), Feed(t, Serialize(OutputOps(s, t.w, t.h, pic))))
      else world
  }

  /** The terminal shows prev_screen_ whenever it has the size that was painted last. */
  ghost predicate Holds(world: World) {
    var World(s, t) := world;
    && Consistent(s) && Valid(t) && t.sgr == PLAIN && !t.wide(SPACE)
    && WellFormed(s.prev, t.wide)
    && (t.w == s.paintedW && t.h == s.paintedH ==> Shows(t, s.prev, false))
  }

  lemma {:induction false} ClearedCell(w: nat, h: nat, depth: Depth, y: nat)
    requires w > 0 && h > 0 && y < h
    ensures Sized(Cleared(w, h, depth))
    ensures |Row(Cleared(w, h, depth), y)| == w && forall i | 0 <= i < w :: Row(Cleared(w, h, depth), y)[i] == BLANK
  {
    RowFits(w, h, y);
  }

  lemma ClearedIsFine(w: nat, h: nat, depth: Depth, wide: Glyph -> bool)
    requires w > 0 && h > 0 && !wide(SPACE)
    ensures WellFormed(Cleared(w, h, depth), wide)
  {
    forall y | 0 <= y < h
      ensures RowOk(Row(Cleared(w, h, depth), y), wide) && NoLinks(Row(Cleared(w, h, depth), y))
    {
      ClearedCell(w, h, depth, y);
    }
  }

  /** Erasing the display shows the cleared frame, to the letter. */
  lemma ErasedShows(t: Term, depth: Depth)
    requires Valid(t) && t.sgr == PLAIN && !t.wide(SPACE)
    ensures Shows(Apply(t, ERASE), Cleared(t.w, t.h, depth), true)
    ensures Shows(Apply(t, ERASE), Cleared(t.w, t.h, depth), false)
    ensures Apply(t, ERASE) == t.(grid := Apply(t, ERASE).grid)
  {
    var u := Apply(t, ERASE);
    forall y | 0 <= y < t.h
      ensures RowShows(u.grid[y], Row(Cleared(t.w, t.h, depth), y), true, depth, t.wide)
      ensures RowShows(u.grid[y], Row(Cleared(t.w, t.h, depth), y), false, depth, t.wide)
    {
      ClearedCell(t.w, t.h, depth, y);
      assert u.grid[y] == BlankRow(t.w, PLAIN);
      assert Matches(Narrow(SPACE, PLAIN), BLANK, true, depth, t.wide);
    }
  }

  lemma {:induction false} WrappedRuns(t: Term, repaint: bool, sync: bool, diff: seq<Op>)
    requires Valid(t)
    ensures Run(t, Wrapped(repaint, sync, diff)) == Run(if repaint then Apply(t, ERASE) else t, diff)
  {
    var first := if repaint then [ERASE] else [];
    var begin, end := if sync then [BEGIN_SYNC] else [], if sync then [END_SYNC] else [];
    var t1 := if repaint then Apply(t, ERASE) else t;
    RunOne(t, ERASE);
    assert Run(t, first) == t1;
    if repaint || diff != [] {
      RunConcat(t, first, begin + (diff + end));
      RunConcat(t1, begin, diff + end);
      RunOne(t1, BEGIN_SYNC);
      RunConcat(t1, diff, end);
      RunOne(Run(t1, diff), END_SYNC);
    } else {
      assert first + [] == first;
    }
  }

  /** What the diff is taken against, and that the terminal shows it by then. */
  lemma BaselineShown(world: World, pic: Picture)
    requires Holds(world) && Possible(world, Flush(pic))
    ensures
      var World(s, t) := world;
      var repaint := t.w != s.paintedW || t.h != s.paintedH;
      var t1 := if repaint then Apply(t, ERASE) else t;
      var base := Baseline(s, t.w, t.h);
      && base == (if repaint then Cleared(t.w, t.h, s.cur.depth) else s.prev)
      && SameSize(Painting(s, t.w, t.h, pic), base) && base.depth == s.cur.depth
      && WellFormed(base, t.wide) && Shows(t1, base, false)
      && (repaint ==> Shows(t1, base, true))
      && t1 == t.(grid := t1.grid)
  {
    var World(s, t) := world;
    ClearedIsFine(t.w, t.h, s.cur.depth, t.wide);
    ErasedShows(t, s.cur.depth);
  }

  /** The bytes of a flush do what its operations say. */
  lemma OutputMeans(world: World, pic: Picture)
    requires Holds(world) && Possible(world, Flush(pic))
    ensures
      var World(s, t) := world;
      var t1 := if t.w != s.paintedW || t.h != s.paintedH then Apply(t, ERASE) else t;
      Feed(t, Serialize(OutputOps(s, t.w, t.h, pic)))
        == Run(t1, DiffOps(Painting(s, t.w, t.h, pic), Baseline(s, t.w, t.h)))
  {
    hide Run, DiffOps, Serialize, Lex, Apply;
    var World(s, t) := world;
    BaselineShown(world, pic);
    var diff := DiffOps(Painting(s, t.w, t.h, pic), Baseline(s, t.w, t.h));
    DiffWritable(Painting(s, t.w, t.h, pic), Baseline(s, t.w, t.h), t.wide);
    LexSerialize(OutputOps(s, t.w, t.h, pic));
    WrappedRuns(t, t.w != s.paintedW || t.h != s.paintedH, s.synchronized, diff);
  }

  /**
    One flush.  The terminal ends up showing the new frame.  It does so to the letter, starting
    from a repaint or an exactly shown frame, if and only if the diff keeps its black ink.  Its
    cursor is right if and only if something was written or it was right already: a repaint
    that finds an empty frame with a hidden cursor leaves a visible cursor visible.
   */
  lemma FlushShows(world: World, pic: Picture)
    requires Holds(world) && Possible(world, Flush(pic)) && world.s.mounted && world.s.dirty
    ensures
      var World(s, t) := world;
      var World(s', u) := Step(world, Flush(pic));
      var repaint := t.w != s.paintedW || t.h != s.paintedH;
      var base := Baseline(s, t.w, t.h);
      && s'.prev == s'.cur == Painting(s, t.w, t.h, pic)
      && Shows(u, s'.prev, false) && u.sgr == PLAIN
      && (repaint || Shows(t, s.prev, true) ==>
            SameSize(s'.prev, base) && (Shows(u, s'.prev, true) <==> KeepsInk(s'.prev, base)))
      && (CursorShows(u, s'.prev) <==>
            || DiffOps(s'.prev, base) != []
            || (if repaint then !t.visible else CursorShows(t, s.prev)))
  {
    var World(s, t) := world;
    var cur, base := Painting(s, t.w, t.h, pic), Baseline(s, t.w, t.h);
    var t1 := if t.w != s.paintedW || t.h != s.paintedH then Apply(t, ERASE) else t;
    BaselineShown(world, pic);
    OutputMeans(world, pic);
    DiffEmpty(cur, base);
    if DiffOps(cur, base) == [] {
      assert Run(t1, []) == t1;
      UnchangedShows(t1, cur, base, false);
      if Shows(t1, base, true) {
        UnchangedShows(t1, cur, base, true);
      }
    } else {
      var u := DiffPaints(t1, cur, base);
    }
  }

  /** A flush writes nothing exactly when it need not repaint and nothing visible has changed. */
  lemma QuietFlush(world: World, pic: Picture)
    requires Holds(world) && Possible(world, Flush(pic))
    ensures
      var World(s, t) := world;
      var cur, base := Painting(s, t.w, t.h, pic), Baseline(s, t.w, t.h);
      && SameSize(cur, base)
      && (Serialize(OutputOps(s, t.w, t.h, pic)) == [] <==>
            && t.w == s.paintedW && t.h == s.paintedH
            && !CursorChanged(cur, base)
            && forall y: nat, i: nat :: !Changed(cur, base, y, i))
  {
    hide DiffOps, Serialize, Apply;
    var World(s, t) := world;
    var cur, base := Painting(s, t.w, t.h, pic), Baseline(s, t.w, t.h);
    BaselineShown(world, pic);
    DiffEmpty(cur, base);
    DiffBytesEmpty(cur, base);
    WrappedBytes(t.w != s.paintedW || t.h != s.paintedH, s.synchronized, DiffOps(cur, base));
    EraseBytes();
  }

  lemma EraseBytes()
    ensures Serialize([ERASE]) != [] && Serialize([]) == []
  {
  }

  lemma StepHolds(world: World, e: Event)
    requires Holds(world) && Possible(world, e)
    ensures Holds(Step(world, e))
  {
    var World(s, t) := world;
    match e
    case Mount =>
    case MarkDirty =>
    case Invalidate =>
    case SetDepth(d) => DepthKeeps(s.prev, d, t.wide);
    case SetSize(_, _) =>
    case Resize(_) =>
    case Flush(pic) =>
      if s.mounted && s.dirty {
        FlushShows(world, pic);
      }
  }

  lemma DepthKeeps(f: Frame, depth: Depth, wide: Glyph -> bool)
    requires WellFormed(f, wide)
    ensures WellFormed(f.(depth := depth), wide)
  {
    forall y | 0 <= y < f.h
      ensures Row(f.(depth := depth), y) == Row(f, y)
    {
    }
  }

  ghost predicate PossibleRun(world: World, events: seq<Event>)
    requires Holds(world)
    decreases |events|
  {
    events == [] ||
    (Possible(world, events[0]) && (StepHolds(world, events[0]); PossibleRun(Step(world, events[0]), events[1..])))
  }

  /** The invariant is kept over every run. */
  ghost function Play(world: World, events: seq<Event>): (after: World)
    requires Holds(world) && PossibleRun(world, events)
    ensures Holds(after)
    decreases |events|
  {
    if events == [] then world
    else StepHolds(world, events[0]); Play(Step(world, events[0]), events[1..])
  }

  // ---- What is on the screen -----------------------------------------------

  /** A terminal whose screen is up to date. */
  function Current(t: Term): Display { Display(t, false, t) }

  predicate Quiet(ops: seq<Op>) {
    forall i | 0 <= i < |ops| :: !SetsSync(ops[i])
  }

  /** The operations before the brackets and the brackets themselves. */
  lemma BeginPresents(t: Term, repaint: bool)
    requires Valid(t)
    ensures
      var t1 := if repaint then Apply(t, ERASE) else t;
      var first := if repaint then [ERASE] else [];
      && PresentAll(Current(t), first) == Current(t1) &&
         PresentAll(Current(t), first + [BEGIN_SYNC]) == Display(t1, true, t1)
  {
    var first := if repaint then [ERASE] else [];
    var t1 := if repaint then Apply(t, ERASE) else t;
    PresentQuiet(Current(t), first);
    RunOne(t, ERASE);
    PresentConcat(Current(t), first, [BEGIN_SYNC]);
    assert [BEGIN_SYNC][1..] == [] && Apply(t1, BEGIN_SYNC) == t1;
  }

  lemma EndPresents(d: Display)
    requires Valid(d.t)
    ensures PresentAll(d, [END_SYNC]) == Current(d.t)
  {
    assert [END_SYNC][1..] == [] && Apply(d.t, END_SYNC) == d.t;
  }

  /**
    The screen after the first k operations of a flush with synchronized output: as before, erased
    once a repaint has begun, and not before the last operation what the flush leaves.
   */
  lemma WrappedPrefix(t: Term, repaint: bool, diff: seq<Op>, k: nat)
    requires Valid(t) && Quiet(diff) && k <= |Wrapped(repaint, true, diff)|
    ensures
      var ops := Wrapped(repaint, true, diff);
      var shown := PresentAll(Current(t), ops[..k]).shown;
      if k == |ops| then PresentAll(Current(t), ops) == Current(Run(t, ops))
      else shown == if repaint && k > 0 then Apply(t, ERASE) else t
  {
    hide Run, Apply, SetsSync, Present;
    var ops := Wrapped(repaint, true, diff);
    var first := if repaint then [ERASE] else [];
    var t1 := if repaint then Apply(t, ERASE) else t;
    BeginPresents(t, repaint);
    var open := first + [BEGIN_SYNC];
    var d := Display(t1, true, t1);
    if k == |ops| {
      assert ops[..k] == ops;
      if ops != [] {
        assert ops == open + diff + [END_SYNC];
        PresentConcat(Current(t), open + diff, [END_SYNC]);
        EndPresents(PresentAll(Current(t), open + diff));
      }
    } else if k <= |first| {
      assert ops[..k] == if k == 0 then [] else first;
    } else {
      var j := k - |open|;
      assert ops[..k] == open + diff[..j];
      PresentConcat(Current(t), open, diff[..j]);
      PresentQuiet(d, diff[..j]);
    }
  }

  /** With or without brackets, the screen is up to date in the end. */
  lemma WrappedPresents(t: Term, repaint: bool, sync: bool, diff: seq<Op>)
    requires Valid(t) && Quiet(diff)
    ensures
      var ops := Wrapped(repaint, sync, diff);
      PresentAll(Current(t), ops) == Current(Run(t, ops))
  {
    var ops := Wrapped(repaint, sync, diff);
    if sync {
      WrappedPrefix(t, repaint, diff, |ops|);
    } else {
      assert !SetsSync(ERASE);
      PresentQuiet(Current(t), ops);
    }
  }

  lemma DiffIsQuiet(world: World, pic: Picture)
    requires Holds(world) && Possible(world, Flush(pic))
    ensures Quiet(DiffOps(Painting(world.s, world.t.w, world.t.h, pic), Baseline(world.s, world.t.w, world.t.h)))
  {
    hide DiffOps, SetsSync, Writable;
    var World(s, t) := world;
    BaselineShown(world, pic);
    DiffWritable(Painting(s, t.w, t.h, pic), Baseline(s, t.w, t.h), t.wide);
  }

  lemma OutputLexes(world: World, pic: Picture)
    requires Holds(world) && Possible(world, Flush(pic))
    ensures
      var ops := OutputOps(world.s, world.t.w, world.t.h, pic);
      Lex(Serialize(ops)) == ops
  {
    hide DiffOps, Serialize, Lex;
    var World(s, t) := world;
    BaselineShown(world, pic);
    DiffWritable(Painting(s, t.w, t.h, pic), Baseline(s, t.w, t.h), t.wide);
    LexSerialize(OutputOps(s, t.w, t.h, pic));
  }

  /**
    A flush leaves the screen up to date and output no longer held back.  With synchronized output
    no partial diff is ever on the screen: until the flush is complete it is what it was before, but
    for the erasing of a repaint, which comes before the brackets.
   */
  lemma FlushPresents(world: World, pic: Picture)
    requires Holds(world) && Possible(world, Flush(pic)) && world.s.mounted && world.s.dirty
    ensures
      var World(s, t) := world;
      var ops := OutputOps(s, t.w, t.h, pic);
      && Presented(Current(t), Serialize(ops)) == Current(Step(world, Flush(pic)).t)
      && (s.synchronized ==> forall k | 0 <= k < |ops| ::
            PresentAll(Current(t), ops[..k]).shown ==
            if (t.w != s.paintedW || t.h != s.paintedH) && k > 0 then Apply(t, ERASE) else t)
  {
    hide DiffOps, Serialize, Lex, Run, Apply, Wrapped, PresentAll;
    var World(s, t) := world;
    var ops := OutputOps(s, t.w, t.h, pic);
    var repaint := t.w != s.paintedW || t.h != s.paintedH;
    var diff := DiffOps(Painting(s, t.w, t.h, pic), Baseline(s, t.w, t.h));
    DiffIsQuiet(world, pic);
    OutputLexes(world, pic);
    WrappedPresents(t, repaint, s.synchronized, diff);
    if s.synchronized {
      forall k | 0 <= k < |ops|
        ensures PresentAll(Current(t), ops[..k]).shown == if repaint && k > 0 then Apply(t, ERASE) else t
      {
        WrappedPrefix(t, repaint, diff, k);
      }
    }
  }

  /** The screen over a run; a terminal that changes its size draws it anew. */
  ghost function PlayDisplay(world: World, events: seq<Event>, d: Display): Display
    requires Holds(world) && PossibleRun(world, events) && d.t == world.t
    decreases |events|
  {
    if events == [] then d
    else
      StepHolds(world, events[0]);
      var World(s, t) := world;
      var next :=
        match events[0]
        case Resize(u) => Current(u)
        case Flush(pic) =>
          if s.mounted && s.dirty then Presented(d, Serialize(OutputOps(s, t.w, t.h, pic))) else d
        case _ => d;
      PlayDisplay(Step(world, events[0]), events[1..], next)
  }

  lemma {:induction false} RunPresents(world: World, events: seq<Event>)
    requires Holds(world) && PossibleRun(world, events)
    ensures PlayDisplay(world, events, Current(world.t)) == Current(Play(world, events).t)
    decreases |events|
  {
    hide Holds, Possible, OutputOps, Serialize, Presented, Feed;
    if events != [] {
      StepHolds(world, events[0]);
      if events[0].Flush? && world.s.mounted && world.s.dirty {
        FlushPresents(world, events[0].pic);
      }
      RunPresents(Step(world, events[0]), events[1..]);
    }
  }

  // ---- To the letter -------------------------------------------------------

  /**
    What can be told about the terminal without looking at it: the cells whose ink is lost, whether
    its cursor is visible, and whether the cursor is that of the frame.
   */
  datatype Track = Track(lost: set<(nat, nat)>, visible: bool, right: bool)

  /** The cells that a diff washes out, and those that were lost before and that it leaves alone. */
  ghost function LostAfter(cur: Frame, base: Frame, lost: set<(nat, nat)>): set<(nat, nat)>
    requires SameSize(cur, base)
  {
    set y: nat, i: nat | y < cur.h && i < cur.w &&
      (LostInk(cur, base, y, i) || (Same(Row(cur, y)[i], Row(base, y)[i]) && (y, i) in lost)) :: (y, i)
  }

  /** A repaint starts afresh, and something written always ends with the cursor of the frame. */
  ghost function TrackFlush(r: Track, s: State, w: nat, h: nat, pic: Picture): Track
    requires Sized(s.cur) && Sized(s.prev) && w > 0 && h > 0 && |pic.cells| == w * h
    requires SameSize(Painting(s, w, h, pic), Baseline(s, w, h))
  {
    var repaint := w != s.paintedW || h != s.paintedH;
    var cur, base := Painting(s, w, h, pic), Baseline(s, w, h);
    var written := CursorChanged(cur, base) || exists y: nat, i: nat :: Changed(cur, base, y, i);
    Track(LostAfter(cur, base, if repaint then {} else r.lost),
          if written then !cur.cursor.shape.Hidden? else r.visible,
          written || (if repaint then !r.visible else r.right))
  }

  ghost function Next(r: Track, world: World, e: Event): Track
    requires Holds(world) && Possible(world, e)
  {
    match e
    case Resize(u) => r.(visible := u.visible)
    case Flush(pic) =>
      if world.s.mounted && world.s.dirty then
        BaselineShown(world, pic);
        TrackFlush(r, world.s, world.t.w, world.t.h, pic)
      else r
    case _ => r
  }

  /** The track is right about the terminal, as long as it has the size that was painted last. */
  ghost predicate Tracks(world: World, r: Track) {
    var World(s, t) := world;
    && Holds(world) && t.visible == r.visible
    && (t.w == s.paintedW && t.h == s.paintedH ==>
         && (forall p | p in r.lost :: p.0 < t.h && p.1 < t.w)
         && (forall y: nat, i: nat | y < t.h && i < t.w :: Exactly(t, s.prev, y, i) <==> (y, i) !in r.lost)
         && (CursorShows(t, s.prev) <==> r.right))
  }

  /** After a flush a cell is exact if and only if it is not among the lost ones. */
  lemma FlushTracksCell(world: World, pic: Picture, r: Track, y: nat, i: nat)
    requires Tracks(world, r) && Possible(world, Flush(pic)) && world.s.mounted && world.s.dirty
    requires y < world.t.h && i < world.t.w
    ensures
      var World(s', u) := Step(world, Flush(pic));
      && Shows(u, s'.prev, false)
      && (Exactly(u, s'.prev, y, i) <==> (y, i) !in Next(r, world, Flush(pic)).lost)
  {
    hide Baseline, OutputOps, DiffOps, Serialize, Feed, Run, LostInk, Matches, Apply;
    var World(s, t) := world;
    var repaint := t.w != s.paintedW || t.h != s.paintedH;
    var cur, base := Painting(s, t.w, t.h, pic), Baseline(s, t.w, t.h);
    var t1 := if repaint then Apply(t, ERASE) else t;
    BaselineShown(world, pic);
    OutputMeans(world, pic);
    ExactByCells(t1, base);
    var u := DiffFollows(t1, cur, base);
    assert CellFollows(t1, u, cur, base, y, i);
  }

  lemma FlushTracks(world: World, pic: Picture, r: Track)
    requires Tracks(world, r) && Possible(world, Flush(pic)) && world.s.mounted && world.s.dirty
    ensures Tracks(Step(world, Flush(pic)), Next(r, world, Flush(pic)))
  {
    hide Baseline, OutputOps, DiffOps, Serialize, Feed, LostInk, Exactly, Changed, Holds;
    var next := Next(r, world, Flush(pic));
    StepHolds(world, Flush(pic));
    FlushCursor(world, pic, r);
    forall y: nat, i: nat | y < world.t.h && i < world.t.w
      ensures Exactly(Step(world, Flush(pic)).t, Step(world, Flush(pic)).s.prev, y, i) <==> (y, i) !in next.lost
    {
      FlushTracksCell(world, pic, r, y, i);
    }
  }

  lemma FlushCursor(world: World, pic: Picture, r: Track)
    requires Tracks(world, r) && Possible(world, Flush(pic)) && world.s.mounted && world.s.dirty
    ensures
      var World(s', u) := Step(world, Flush(pic));
      var next := Next(r, world, Flush(pic));
      u.visible == next.visible && (CursorShows(u, s'.prev) <==> next.right)
  {
    hide Exactly, LostAfter;
    var World(s, t) := world;
    var cur, base := Painting(s, t.w, t.h, pic), Baseline(s, t.w, t.h);
    BaselineShown(world, pic);
    FlushShows(world, pic);
    DiffEmpty(cur, base);
    OutputMeans(world, pic);
  }

  lemma StepTracks(world: World, e: Event, r: Track)
    requires Tracks(world, r) && Possible(world, e)
    ensures Tracks(Step(world, e), Next(r, world, e))
  {
    StepHolds(world, e);
    match e
    case Flush(pic) =>
      if world.s.mounted && world.s.dirty {
        FlushTracks(world, pic, r);
      }
    case _ =>
  }

  ghost function TrackAll(world: World, events: seq<Event>, r: Track): Track
    requires Holds(world) && PossibleRun(world, events)
    decreases |events|
  {
    if events == [] then r
    else
      StepHolds(world, events[0]);
      TrackAll(Step(world, events[0]), events[1..], Next(r, world, events[0]))
  }

  lemma {:induction false} RunTracks(world: World, events: seq<Event>, r: Track)
    requires Tracks(world, r) && PossibleRun(world, events)
    ensures Tracks(Play(world, events), TrackAll(world, events, r))
    decreases |events|
  {
    hide Holds, Step, Next, Exactly, CursorShows;
    if events != [] {
      StepHolds(world, events[0]);
      StepTracks(world, events[0], r);
      RunTracks(Step(world, events[0]), events[1..], Next(r, world, events[0]));
    }
  }

  // ---- Which flushes paint --------------------------------------------------

  /** What the application calls when something has changed. */
  predicate IsChange(e: Event) {
    e.Mount? || e.MarkDirty? || e.Invalidate? || e.SetDepth? || e.SetSize?
  }

  predicate NoFlush(events: seq<Event>) {
    forall i | 0 <= i < |events| :: !events[i].Flush?
  }

  predicate Changes(events: seq<Event>) {
    exists i :: 0 <= i < |events| && IsChange(events[i])
  }

  predicate Mounts(events: seq<Event>) {
    exists i :: 0 <= i < |events| && events[i].Mount?
  }

  predicate Repaints(events: seq<Event>) {
    exists i :: 0 <= i < |events| && (events[i].Invalidate? || events[i].SetDepth?)
  }

  /** Calls without a flush: the changes add up, and the frames stay. */
  lemma {:induction false} ChangesAddUp(world: World, events: seq<Event>)
    requires Holds(world) && PossibleRun(world, events) && NoFlush(events)
    ensures
      var s, s' := world.s, Play(world, events).s;
      && (s'.dirty <==> s.dirty || Changes(events))
      && (s'.mounted <==> s.mounted || Mounts(events))
      && (Repaints(events) ==> s'.paintedW == s'.paintedH == 0)
      && (s.paintedW == s.paintedH == 0 ==> s'.paintedW == s'.paintedH == 0)
      && s'.synchronized == s.synchronized
    decreases |events|
  {
    hide Holds, Possible;
    if events != [] {
      var next := Step(world, events[0]);
      StepHolds(world, events[0]);
      ChangesAddUp(next, events[1..]);
      assert events == [events[0]] + events[1..];
    }
  }

  /** The flush paints the picture in the size of the terminal, first erasing the display if asked to. */
  ghost predicate Paints(w: World, pic: Picture, erases: bool)
    requires Holds(w) && Possible(w, Flush(pic))
  {
    var ops := OutputOps(w.s, w.t.w, w.t.h, pic);
    var after := Step(w, Flush(pic));
    && after.s.prev.cells == pic.cells && after.s.prev.cursor == pic.cursor
    && after.s.prev.w == after.s.paintedW == w.t.w && after.s.prev.h == after.s.paintedH == w.t.h
    && !after.s.dirty && after.t == Feed(w.t, Serialize(ops))
    && (erases ==> ops != [] && ops[0] == Csi(false, [2], false, 74))
  }

  /**
    Nothing is lost: after any calls, one of which reports a change, the next flush of a mounted
    object paints the picture, in the size of the terminal, and starts by erasing the display if it
    was invalidated or changed depth.
   */
  lemma ChangeIsPainted(world: World, events: seq<Event>, pic: Picture)
    requires Holds(world) && PossibleRun(world, events) && NoFlush(events)
    requires Changes(events) && (world.s.mounted || Mounts(events)) && Possible(Play(world, events), Flush(pic))
    ensures Paints(Play(world, events), pic, Repaints(events))
  {
    hide Holds, Play, PossibleRun, Possible, Paints;
    ChangesAddUp(world, events);
    DirtyFlush(Play(world, events), pic, Repaints(events));
  }

  lemma DirtyFlush(w: World, pic: Picture, erases: bool)
    requires Holds(w) && Possible(w, Flush(pic)) && w.s.mounted && w.s.dirty
    requires erases ==> w.s.paintedW == w.s.paintedH == 0
    ensures Paints(w, pic, erases)
  {
    hide DiffOps, Serialize, Feed, Shows, WellFormed;
  }

  /** A flush with nothing to paint, or of an object that is not mounted, does nothing at all. */
  lemma IdleFlush(world: World, events: seq<Event>, pic: Picture)
    requires Holds(world) && PossibleRun(world, events) && NoFlush(events)
    requires Possible(Play(world, events), Flush(pic))
    requires (!world.s.dirty && !Changes(events)) || (!world.s.mounted && !Mounts(events))
    ensures Step(Play(world, events), Flush(pic)) == Play(world, events)
  {
    hide Holds, Possible, DiffOps, Serialize, Feed;
    ChangesAddUp(world, events);
  }

  /** Which size is painted: the last one that was forced, else the console's if it has one, else the old one. */
  lemma SizeIsRefreshed(s: State, w: int, h: int, consoleW: int, consoleH: int)
    requires s.termW > 0 && s.termH > 0
    ensures
      var size := Refreshed(Forced(s, w, h), consoleW, consoleH);
      && (w > 0 && h > 0 ==> size == (w, h))
      && ((w <= 0 || h <= 0) && consoleW > 0 && consoleH > 0 ==> size == (consoleW, consoleH))
      && ((w <= 0 || h <= 0) && (consoleW <= 0 || consoleH <= 0) ==> size == (s.termW, s.termH))
  {
  }

  /** A new object has not painted, is not mounted, and has 80 by 24 cells without a console. */
  lemma NewObject(consoleW: int, consoleH: int, depth: Depth)
    ensures
      var s := Fresh(consoleW, consoleH, depth);
      && !s.mounted && s.dirty && s.cur == s.prev && s.cur.depth == depth
      && (consoleW > 0 && consoleH > 0 ==> s.cur.w == s.termW == consoleW && s.cur.h == s.termH == consoleH)
      && (consoleW <= 0 || consoleH <= 0 ==> s.cur.w == s.termW == 80 && s.cur.h == s.termH == 24)
      && s.paintedW == s.paintedH == s.forcedW == s.forcedH == 0 && s.synchronized
  {
  }

  /** A new object on any terminal in its default rendition. */
  ghost function FreshWorld(consoleW: int, consoleH: int, depth: Depth, t: Term): (world: World)
    requires Valid(t) && t.sgr == PLAIN && !t.wide(SPACE)
    ensures Holds(world) && Tracks(world, Track({}, t.visible, false))
  {
    var s := Fresh(consoleW, consoleH, depth);
    ClearedIsFine(s.termW, s.termH, depth, t.wide);
    World(s, t)
  }

  /**
    Every run of a new object, on any terminal: after every flush that paints, output is not held
    back and the screen shows the frame kept as prev_screen_, but for black ink in the default
    colour; to the letter if and
    only if no ink is lost since the last repaint; and its cursor is right exactly when the track
    says so.
   */
  lemma EveryFlushShows(consoleW: int, consoleH: int, depth: Depth, t: Term, events: seq<Event>, pic: Picture)
    requires Valid(t) && t.sgr == PLAIN && !t.wide(SPACE)
    requires PossibleRun(FreshWorld(consoleW, consoleH, depth, t), events)
    requires
      var w := Play(FreshWorld(consoleW, consoleH, depth, t), events);
      w.s.mounted && w.s.dirty && Possible(w, Flush(pic))
    ensures
      var start := FreshWorld(consoleW, consoleH, depth, t);
      var w := Play(start, events);
      var after := Step(w, Flush(pic));
      var track := Next(TrackAll(start, events, Track({}, t.visible, false)), w, Flush(pic));
      var before := PlayDisplay(start, events, Current(t));
      && before.t == w.t
      && var display := Presented(before, Serialize(OutputOps(w.s, w.t.w, w.t.h, pic)));
      && !display.held && display.shown == after.t
      && after.s.prev.cells == pic.cells && after.s.prev.cursor == pic.cursor
      && Shows(display.shown, after.s.prev, false)
      && (Shows(display.shown, after.s.prev, true) <==> track.lost == {})
      && (CursorShows(display.shown, after.s.prev) <==> track.right)
  {
    hide Next, TrackAll, Play, PossibleRun, PlayDisplay, Presented, OutputOps, Serialize;
    var start := FreshWorld(consoleW, consoleH, depth, t);
    var r := Track({}, t.visible, false);
    RunTracks(start, events, r);
    RunPresents(start, events);
    var w := Play(start, events);
    var track := TrackAll(start, events, r);
    FlushShows(w, pic);
    FlushPresents(w, pic);
    FlushTracks(w, pic, track);
    TracksExact(Step(w, Flush(pic)), Next(track, w, Flush(pic)));
  }

  lemma TracksExact(world: World, r: Track)
    requires Tracks(world, r) && Shows(world.t, world.s.prev, false)
    requires world.t.w == world.s.paintedW && world.t.h == world.s.paintedH
    ensures Shows(world.t, world.s.prev, true) <==> r.lost == {}
  {
    hide Exactly, Matches;
    ExactByCells(world.t, world.s.prev);
    if r.lost != {} {
      var p :| p in r.lost;
      assert (p.0, p.1) in r.lost && !Exactly(world.t, world.s.prev, p.0, p.1);
    }
  }

  /** A frame without black ink loses none. */
  lemma ColouredInkStays(cur: Frame, base: Frame)
    requires SameSize(cur, base)
    requires forall y, i | 0 <= y < cur.h && 0 <= i < cur.w :: Inked(Row(cur, y)[i]) ==>
      Row(cur, y)[i].style.fg != BLACK
    ensures LostAfter(cur, base, {}) == {}
  {
  }

  /** A terminal of one blank cell under a block cursor, as last painted. */
  function OneCell(wide: Glyph -> bool, orphan: (Glyph, Attr)): World {
    var f := Frame(1, 1, [BLANK], Cursor(0, 0, Block), Ansi256, [], false);
    World(State(f, f, 1, 1, 1, 1, 0, 0, true, true, true),
          Term(1, 1, [[Narrow(SPACE, PLAIN)]], 0, 0, false, PLAIN, true, 2, wide, orphan))
  }

  lemma OneCellHolds(wide: Glyph -> bool, orphan: (Glyph, Attr))
    requires !wide(SPACE)
    ensures Holds(OneCell(wide, orphan)) && CursorShows(OneCell(wide, orphan).t, OneCell(wide, orphan).s.prev)
  {
    var World(s, t) := OneCell(wide, orphan);
    assert Row(s.prev, 0) == [BLANK] && CellOk([BLANK], 0, wide);
    assert Matches(Narrow(SPACE, PLAIN), BLANK, false, Ansi256, wide);
    assert Shows(t, s.prev, false);
  }

  lemma EmptyPictureIsPossible(w: World, pic: Picture)
    requires w.s.termW == w.s.termH == 1 && w.s.forcedW == 0 && w.t.w == w.t.h == 1 && !w.t.wide(SPACE)
    requires pic == Picture([BLANK], NO_CURSOR, [], true)
    ensures Possible(w, Flush(pic))
  {
    var g := Painting(w.s, 1, 1, pic);
    assert Row(g, 0) == [BLANK] && CellOk([BLANK], 0, w.t.wide);
  }

  /** A visible cursor over a frame, an invalidation, and an empty frame with a hidden cursor: it stays visible. */
  lemma CursorLeftBehind(wide: Glyph -> bool, orphan: (Glyph, Attr)) returns (world: World, pic: Picture)
    requires !wide(SPACE)
    ensures Holds(world) && Possible(world, Invalidate) && CursorShows(world.t, world.s.prev)
    ensures
      var w := Step(world, Invalidate);
      && Holds(w) && w.s.mounted && w.s.dirty && Possible(w, Flush(pic))
      && pic.cursor.shape.Hidden? && Step(w, Flush(pic)).t.visible
  {
    hide DiffOps, Serialize, Feed, Shows, WellFormed, CursorShows, Apply;
    world := OneCell(wide, orphan);
    pic := Picture([BLANK], NO_CURSOR, [], true);
    OneCellHolds(wide, orphan);
    StepHolds(world, Invalidate);
    var w := Step(world, Invalidate);
    EmptyPictureIsPossible(w, pic);
    BlankIsUnchanged(Painting(w.s, 1, 1, pic));
    OutputMeans(w, pic);
    NothingRuns(Apply(w.t, ERASE));
    EraseKeepsCursor(w.t);
  }

  lemma NothingRuns(t: Term)
    requires Valid(t)
    ensures Run(t, []) == t
  {
  }

  lemma EraseKeepsCursor(t: Term)
    requires Valid(t)
    ensures Apply(t, ERASE).visible == t.visible
  {
  }

  lemma BlankIsUnchanged(g: Frame)
    requires g.w == 1 && g.h == 1 && g.cells == [BLANK] && g.cursor == NO_CURSOR
    ensures SameSize(g, Cleared(1, 1, g.depth)) && DiffOps(g, Cleared(1, 1, g.depth)) == []
  {
    hide DiffOps;
    var base := Cleared(1, 1, g.depth);
    ClearedCell(1, 1, g.depth, 0);
    forall y: nat, i: nat
      ensures !Changed(g, base, y, i)
    {
      if y < 1 && i < 1 {
        assert Row(g, 0)[0] == BLANK == Row(base, 0)[0];
      }
    }
    DiffEmpty(g, base);
  }
}
