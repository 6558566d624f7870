/** The scrollbar part of event_dispatcher::dispatch_mouse in src/tui/event_dispatcher.cpp. */
module Dispatchers {
  import opened InputEvents
  import opened Scrollbar

  /** A scrollbar as it was painted; target is the state that holds the offset. */
  datatype Hit = Hit(target: nat, trackX: int, trackY: int, trackH: nat, thumbPos: int, thumbSize: int,
                     content: int, viewX: int, viewW: int, vertical: bool)

  datatype Drag = NoDrag | Drag(target: nat, anchorPosition: int, anchorValue: int, vertical: bool)

  datatype MouseState = MouseState(drag: Drag, offsets: map<nat, int>, dirty: bool)

  predicate Bound(targets: set<nat>, hits: seq<Hit>) {
    forall k | 0 <= k < |hits| :: hits[k].target in targets
  }

  /** The index of the first hit with the property, or |hits|. */
  function First(hits: seq<Hit>, p: Hit -> bool): (k: nat)
    ensures k <= |hits|
    ensures k < |hits| ==> p(hits[k])
    ensures forall i | 0 <= i < k :: !p(hits[i])
  {
    if hits == [] || p(hits[0]) then 0 else First(hits[1..], p) + 1
  }

  function Set(s: MouseState, target: nat, offset: int): MouseState {
    s.(offsets := s.offsets[target := offset], dirty := true)
  }

  /** Where the mouse is along the bar. */
  function Along(e: MouseEvent, hit: Hit, vertical: bool): int {
    if vertical then e.y - hit.trackY else e.x - hit.trackX
  }

  /** The offset the mouse asks for. */
  function Asked(hit: Hit, rel: int): int {
    OffsetOf(hit.trackH, hit.thumbSize, hit.content, Target(hit.trackH, hit.thumbSize, rel))
  }

  function WheelDelta(b: MouseButton): int {
    if b == InputEvents.WheelUp then -3 else if b == InputEvents.WheelDown then 3 else 0
  }

  predicate UnderWheel(e: MouseEvent, hit: Hit) {
    && hit.vertical && hit.viewX <= e.x < hit.viewX + hit.viewW && hit.trackY <= e.y < hit.trackY + hit.trackH
  }

  /** In the column of the bar, over its length. */
  predicate InColumn(e: MouseEvent, hit: Hit) {
    e.x == hit.trackX && hit.trackY <= e.y < hit.trackY + hit.trackH
  }

  /** In the row of the bar, over its length. */
  predicate InRow(e: MouseEvent, hit: Hit) {
    e.y == hit.trackY && hit.trackX <= e.x < hit.trackX + hit.trackH
  }

  function DragHit(target: nat): Hit -> bool { (h: Hit) => h.target == target }

  function WheelHit(e: MouseEvent): Hit -> bool { h => UnderWheel(e, h) }

  function PressHit(e: MouseEvent): Hit -> bool { h => InColumn(e, h) || InRow(e, h) }

  /** A press on the bar: on the thumb it only starts a drag, elsewhere the thumb comes to the mouse first. */
  function PressOn(s: MouseState, e: MouseEvent, hit: Hit): MouseState
    requires hit.target in s.offsets
  {
    var vertical := InColumn(e, hit);
    var rel := Along(e, hit, vertical);
    var at := if vertical then e.y else e.x;
    if hit.thumbPos <= rel < hit.thumbPos + hit.thumbSize then
      s.(drag := Drag(hit.target, at, s.offsets[hit.target], vertical))
    else
      var offset := Asked(hit, rel);
      Set(s, hit.target, offset).(drag := Drag(hit.target, at, offset, vertical))
  }

  /** The new state and whether the event was for a scrollbar. */
  function Dispatch(s: MouseState, e: MouseEvent, hits: seq<Hit>): (MouseState, bool)
    requires Bound(s.offsets.Keys, hits)
  {
    if s.drag.Drag? && e.action == MouseRelease then (s.(drag := NoDrag), true)
    else
      var d := if s.drag.Drag? then First(hits, DragHit(s.drag.target)) else |hits|;
      if d < |hits| then (Set(s, s.drag.target, Asked(hits[d], Along(e, hits[d], s.drag.vertical))), true)
      else if e.action == MouseWheel && WheelDelta(e.button) != 0 && First(hits, WheelHit(e)) < |hits| then
        var hit := hits[First(hits, WheelHit(e))];
        (Set(s, hit.target, Wheeled(s.offsets[hit.target], WheelDelta(e.button), hit.trackH, hit.content)), true)
      else if e.action == MousePress && First(hits, PressHit(e)) < |hits| then
        (PressOn(s, e, hits[First(hits, PressHit(e))]), true)
      else (s, false)
  }

  lemma {:induction false} FirstIs(hits: seq<Hit>, p: Hit -> bool, k: nat)
    requires k <= |hits| && (k < |hits| ==> p(hits[k])) && forall i | 0 <= i < k :: !p(hits[i])
    ensures First(hits, p) == k
  {
    var f := First(hits, p);
    assert f < |hits| ==> p(hits[f]);
  }

  class Dispatcher {
    var drag: Drag
    var offsets: map<nat, int>
    var dirty: bool

    function Abstract(): MouseState
      reads this
    {
      MouseState(drag, offsets, dirty)
    }

    /** Handles the event if it concerns a scrollbar; the first hit that matches takes it. */
    method DispatchMouse(e: MouseEvent, hits: seq<Hit>) returns (handled: bool)
      requires Bound(offsets.Keys, hits)
      modifies this
      ensures (Abstract(), handled) == Dispatch(old(Abstract()), e, hits)
    {
      hide Asked, Wheeled, InColumn, InRow, UnderWheel, PressOn, First;
      if drag.Drag? && e.action == MouseRelease {
        drag := NoDrag;
        return true;
      }
      if drag.Drag? {
        var target := drag.target;
        var i := 0;
        while i < |hits|
          invariant 0 <= i <= |hits| && Abstract() == old(Abstract())
          invariant forall k | 0 <= k < i :: hits[k].target != target
        {
          var info := hits[i];
          if info.target == target {
            FirstIs(hits, DragHit(target), i);
            var rel := if drag.vertical then e.y - info.trackY else e.x - info.trackX;
            offsets := offsets[target := Asked(info, rel)];
            dirty := true;
            return true;
          }
          i := i + 1;
        }
        FirstIs(hits, DragHit(target), i);
      }
      if e.action == MouseWheel {
        var delta := WheelDelta(e.button);
        if delta != 0 {
          var i := 0;
          while i < |hits|
            invariant 0 <= i <= |hits| && Abstract() == old(Abstract())
            invariant forall k | 0 <= k < i :: !UnderWheel(e, hits[k])
          {
            var info := hits[i];
            if UnderWheel(e, info) {
              FirstIs(hits, WheelHit(e), i);
              offsets := offsets[info.target := Wheeled(offsets[info.target], delta, info.trackH, info.content)];
              dirty := true;
              return true;
            }
            i := i + 1;
          }
          FirstIs(hits, WheelHit(e), i);
        }
      }
      if e.action == MousePress {
        var i := 0;
        while i < |hits|
          invariant 0 <= i <= |hits| && Abstract() == old(Abstract())
          invariant forall k | 0 <= k < i :: !InColumn(e, hits[k]) && !InRow(e, hits[k])
        {
          var info := hits[i];
          if InColumn(e, info) || InRow(e, info) {
            FirstIs(hits, PressHit(e), i);
            PressBar(e, info);
            return true;
          }
          i := i + 1;
        }
        FirstIs(hits, PressHit(e), i);
      }
      return false;
    }

    method PressBar(e: MouseEvent, info: Hit)
      requires info.target in offsets
      modifies this
      ensures Abstract() == PressOn(old(Abstract()), e, info)
    {
      hide Asked, InColumn;
      var vertical := InColumn(e, info);
      var rel := if vertical then e.y - info.trackY else e.x - info.trackX;
      var at := if vertical then e.y else e.x;
      if rel >= info.thumbPos && rel < info.thumbPos + info.thumbSize {
        drag := Drag(info.target, at, offsets[info.target], vertical);
        return;
      }
      var offset := Asked(info, rel);
      offsets := offsets[info.target := offset];
      drag := Drag(info.target, at, offset, vertical);
      dirty := true;
    }
  }

  // ---- Results -------------------------------------------------------------------------

  /**
    What the painter knows of a scrollbar: its state and geometry, whether it belongs to a virtual
    list, whose painter limits the offset at both ends, and whether the bar itself is painted.
   */
  datatype Bar = Bar(target: nat, trackX: int, trackY: int, track: nat, content: int, viewX: int, viewW: int,
                     vertical: bool, list: bool, wanted: bool)

  function Limit(bar: Bar): int { Max(0, bar.content - bar.track) }

  /** The offset the bar is painted for, which is also written back. */
  function Clamp(bar: Bar, offset: int): int {
    Min(if bar.list then Max(0, offset) else offset, Limit(bar))
  }

  function HitOf(bar: Bar, offset: int): Hit {
    Hit(bar.target, bar.trackX, bar.trackY, bar.track, ThumbPos(bar.track, bar.content, offset),
        ThumbSize(bar.track, bar.content), bar.content, bar.viewX, bar.viewW, bar.vertical)
  }

  predicate Known(targets: set<nat>, bars: seq<Bar>) {
    forall k | 0 <= k < |bars| :: bars[k].target in targets
  }

  /** Paints the bars of a frame; each writes its clamped offset back. */
  function Paint(offsets: map<nat, int>, bars: seq<Bar>): (r: (map<nat, int>, seq<Hit>))
    requires Known(offsets.Keys, bars)
    ensures r.0.Keys == offsets.Keys && Bound(offsets.Keys, r.1)
    decreases |bars|
  {
    if bars == [] then (offsets, [])
    else
      var bar := bars[0];
      var offset := Clamp(bar, offsets[bar.target]);
      var (after, hits) := Paint(offsets[bar.target := offset], bars[1..]);
      (after, (if bar.content > bar.track && bar.wanted then [HitOf(bar, offset)] else []) + hits)
  }

  /** No state belongs to two bars of a frame. */
  predicate Distinct(bars: seq<Bar>) {
    forall i, j | 0 <= i < j < |bars| :: bars[i].target != bars[j].target
  }

  /** The bar has something to scroll, and the thumb is where the offset puts it. */
  predicate PaintedBy(hit: Hit, bar: Bar, offsets: map<nat, int>) {
    bar.target in offsets && bar.content > bar.track && hit == HitOf(bar, Clamp(bar, offsets[bar.target]))
  }

  predicate IsPainted(hit: Hit, bars: seq<Bar>, offsets: map<nat, int>) {
    exists k :: 0 <= k < |bars| && PaintedBy(hit, bars[k], offsets)
  }

  lemma PaintedSame(hit: Hit, bar: Bar, next: map<nat, int>, offsets: map<nat, int>)
    requires PaintedBy(hit, bar, next) && bar.target in offsets && next[bar.target] == offsets[bar.target]
    ensures PaintedBy(hit, bar, offsets)
  {
    hide HitOf, Clamp;
  }

  lemma {:induction false} PaintLeaves(offsets: map<nat, int>, bars: seq<Bar>, t: nat)
    requires Known(offsets.Keys, bars) && t in offsets && forall k | 0 <= k < |bars| :: bars[k].target != t
    ensures Paint(offsets, bars).0[t] == offsets[t]
    decreases |bars|
  {
    hide Clamp, HitOf;
    if bars != [] {
      var bar := bars[0];
      var next := offsets[bar.target := Clamp(bar, offsets[bar.target])];
      PaintLeaves(next, bars[1..], t);
    }
  }

  /** What painting does to the state of a bar. */
  lemma {:induction false} PaintClamps(offsets: map<nat, int>, bars: seq<Bar>, k: nat)
    requires Known(offsets.Keys, bars) && Distinct(bars) && k < |bars|
    ensures
      var t := bars[k].target;
      Paint(offsets, bars).0[t] == Clamp(bars[k], offsets[t])
    decreases |bars|
  {
    hide Clamp, HitOf;
    var bar := bars[0];
    var next := offsets[bar.target := Clamp(bar, offsets[bar.target])];
    if k == 0 {
      PaintLeaves(next, bars[1..], bar.target);
    } else {
      PaintClamps(next, bars[1..], k - 1);
    }
  }

  lemma {:induction false} PaintHits(offsets: map<nat, int>, bars: seq<Bar>, j: nat)
    requires Known(offsets.Keys, bars) && Distinct(bars) && j < |Paint(offsets, bars).1|
    ensures IsPainted(Paint(offsets, bars).1[j], bars, offsets)
    decreases |bars|
  {
    hide Clamp, HitOf;
    var bar := bars[0];
    var offset := Clamp(bar, offsets[bar.target]);
    var next := offsets[bar.target := offset];
    var first := if bar.content > bar.track && bar.wanted then [HitOf(bar, offset)] else [];
    var hit := Paint(offsets, bars).1[j];
    if j < |first| {
      assert PaintedBy(hit, bars[0], offsets);
    } else {
      hide PaintedBy;
      PaintHits(next, bars[1..], j - |first|);
      var k :| 0 <= k < |bars[1..]| && PaintedBy(hit, bars[1..][k], next);
      PaintedSame(hit, bars[k + 1], next, offsets);
    }
  }

  /**
    A virtual list is always put in range.  The clamp of a scroll view has no lower end: after
    painting its offset is in range exactly if it was not negative.
   */
  lemma PaintInRangeIff(offsets: map<nat, int>, bars: seq<Bar>, k: nat)
    requires Known(offsets.Keys, bars) && Distinct(bars) && k < |bars|
    ensures 0 <= Paint(offsets, bars).0[bars[k].target] <= Limit(bars[k]) <==>
      bars[k].list || offsets[bars[k].target] >= 0
  {
    PaintClamps(offsets, bars, k);
  }

  /**
    Bars may share a state: each clamps what the one before left, and no clamp raises an offset that
    is not negative.
   */
  lemma {:induction false} PaintLowers(offsets: map<nat, int>, bars: seq<Bar>, t: nat)
    requires Known(offsets.Keys, bars) && NotNegative(offsets) && t in offsets
    ensures 0 <= Paint(offsets, bars).0[t] <= offsets[t]
    decreases |bars|
  {
    hide HitOf;
    if bars != [] {
      var bar := bars[0];
      var next := offsets[bar.target := Clamp(bar, offsets[bar.target])];
      PaintLowers(next, bars[1..], t);
    }
  }

  /** After painting every state is in range, of whatever bars it belongs to. */
  lemma {:induction false} PaintInRange(offsets: map<nat, int>, bars: seq<Bar>, k: nat)
    requires Known(offsets.Keys, bars) && NotNegative(offsets) && k < |bars|
    ensures 0 <= Paint(offsets, bars).0[bars[k].target] <= Limit(bars[k])
    decreases |bars|
  {
    hide HitOf;
    var bar := bars[0];
    var next := offsets[bar.target := Clamp(bar, offsets[bar.target])];
    if k == 0 {
      PaintLowers(next, bars[1..], bar.target);
    } else {
      PaintInRange(next, bars[1..], k - 1);
    }
  }

  /** The thumb of a painted bar lies inside its track. */
  lemma {:induction false} PaintedThumb(offsets: map<nat, int>, bars: seq<Bar>, j: nat)
    requires Known(offsets.Keys, bars) && NotNegative(offsets) && j < |Paint(offsets, bars).1|
    ensures
      var hit := Paint(offsets, bars).1[j];
      hit.trackH >= 2 ==> 0 <= hit.thumbPos && hit.thumbPos + hit.thumbSize <= hit.trackH
    decreases |bars|
  {
    hide ThumbPos, ThumbSize;
    var bar := bars[0];
    var offset := Clamp(bar, offsets[bar.target]);
    var count := if bar.content > bar.track && bar.wanted then 1 else 0;
    if j < count {
      assert Paint(offsets, bars).1[j] == HitOf(bar, offset);
      if bar.track >= 2 {
        ThumbInside(bar.track, bar.content, offset);
      }
    } else {
      PaintedThumb(offsets[bar.target := offset], bars[1..], j - count);
    }
  }

  /** A hit has the geometry of a bar that has something to scroll. */
  predicate FromBar(hit: Hit, bar: Bar) {
    bar.content > bar.track && hit == HitOf(bar, 0).(thumbPos := hit.thumbPos)
  }

  predicate IsFrom(hit: Hit, bars: seq<Bar>) {
    exists k :: 0 <= k < |bars| && FromBar(hit, bars[k])
  }

  lemma {:induction false} PaintFrom(offsets: map<nat, int>, bars: seq<Bar>, j: nat)
    requires Known(offsets.Keys, bars) && j < |Paint(offsets, bars).1|
    ensures IsFrom(Paint(offsets, bars).1[j], bars)
    decreases |bars|
  {
    hide Clamp, ThumbPos, ThumbSize;
    var bar := bars[0];
    var offset := Clamp(bar, offsets[bar.target]);
    var count := if bar.content > bar.track && bar.wanted then 1 else 0;
    var hit := Paint(offsets, bars).1[j];
    if j < count {
      assert FromBar(hit, bars[0]);
    } else {
      PaintFrom(offsets[bar.target := offset], bars[1..], j - count);
      var k :| 0 <= k < |bars[1..]| && FromBar(hit, bars[1..][k]);
      assert FromBar(hit, bars[k + 1]);
    }
  }

  /** The state of the bar, and no other, is put in range. */
  predicate MovesTo(before: map<nat, int>, after: map<nat, int>, hit: Hit) {
    && hit.target in after && 0 <= after[hit.target] <= Max(0, hit.content - hit.trackH)
    && after == before[hit.target := after[hit.target]]
  }

  /** An event changes at most the state of one bar, and puts that in range. */
  predicate OneMoves(before: map<nat, int>, after: map<nat, int>, hits: seq<Hit>) {
    && after.Keys == before.Keys
    && (after == before ||
        exists j :: 0 <= j < |hits| && MovesTo(before, after, hits[j]))
  }

  lemma Moves(before: map<nat, int>, hits: seq<Hit>, j: nat, v: int)
    requires j < |hits| && hits[j].target in before && 0 <= v <= Max(0, hits[j].content - hits[j].trackH)
    ensures OneMoves(before, before[hits[j].target := v], hits)
  {
    var after := before[hits[j].target := v];
    assert after.Keys == before.Keys && after == before[hits[j].target := after[hits[j].target]];
    assert MovesTo(before, after, hits[j]);
  }

  /** A hit as the painter leaves it. */
  predicate Sensible(hit: Hit) {
    hit.trackH < hit.content && hit.thumbSize == ThumbSize(hit.trackH, hit.content)
  }

  lemma DispatchMovesOne(s: MouseState, e: MouseEvent, hits: seq<Hit>)
    requires Bound(s.offsets.Keys, hits) && forall k | 0 <= k < |hits| :: Sensible(hits[k])
    ensures OneMoves(s.offsets, Dispatch(s, e, hits).0.offsets, hits)
  {
    hide Asked, First, InColumn, InRow, UnderWheel, ThumbSize, OneMoves;
    assert OneMoves(s.offsets, s.offsets, hits) by { SameMoves(s.offsets, hits); }
    forall j, rel | 0 <= j < |hits|
      ensures OneMoves(s.offsets, s.offsets[hits[j].target := Asked(hits[j], rel)], hits)
    {
      AskedFits(hits[j], rel);
      Moves(s.offsets, hits, j, Asked(hits[j], rel));
    }
    var w := First(hits, WheelHit(e));
    if w < |hits| {
      var offset := Wheeled(s.offsets[hits[w].target], WheelDelta(e.button), hits[w].trackH, hits[w].content);
      Moves(s.offsets, hits, w, offset);
    }
  }

  lemma SameMoves(offsets: map<nat, int>, hits: seq<Hit>)
    ensures OneMoves(offsets, offsets, hits)
  {
  }

  lemma AskedFits(hit: Hit, rel: int)
    requires Sensible(hit)
    ensures 0 <= Asked(hit, rel) <= hit.content - hit.trackH
  {
    AskedRange(hit.trackH, hit.content, rel);
  }

  /** The application may set offsets, the bars are painted with the geometry of the day, and an event arrives. */
  datatype Frame = Frame(writes: map<nat, int>, bars: seq<Bar>, event: MouseEvent)

  predicate NotNegative(offsets: map<nat, int>) {
    forall t | t in offsets :: offsets[t] >= 0
  }

  /** Bars that share a state have equally much to scroll. */
  predicate Agree(bars: seq<Bar>) {
    forall i, j | 0 <= i < |bars| && 0 <= j < |bars| && bars[i].target == bars[j].target ::
      Limit(bars[i]) == Limit(bars[j])
  }

  predicate Fits(targets: set<nat>, f: Frame) {
    f.writes.Keys <= targets && NotNegative(f.writes) && Known(targets, f.bars) && Agree(f.bars)
  }

  function Written(s: MouseState, f: Frame): (t: MouseState)
    requires Fits(s.offsets.Keys, f)
    ensures t.offsets.Keys == s.offsets.Keys
  {
    s.(offsets := s.offsets + f.writes)
  }

  function PlayFrame(s: MouseState, f: Frame): (t: MouseState)
    requires Fits(s.offsets.Keys, f)
    ensures t.offsets.Keys == s.offsets.Keys
  {
    var (offsets, hits) := Paint(Written(s, f).offsets, f.bars);
    KeysStay(s.(offsets := offsets), f.event, hits);
    Dispatch(s.(offsets := offsets), f.event, hits).0
  }

  lemma KeysStay(s: MouseState, e: MouseEvent, hits: seq<Hit>)
    requires Bound(s.offsets.Keys, hits)
    ensures Dispatch(s, e, hits).0.offsets.Keys == s.offsets.Keys
  {
    hide Asked, First, InColumn, InRow, UnderWheel, Wheeled;
  }

  predicate AllFit(targets: set<nat>, frames: seq<Frame>) {
    forall k | 0 <= k < |frames| :: Fits(targets, frames[k])
  }

  function Play(s: MouseState, frames: seq<Frame>): MouseState
    requires AllFit(s.offsets.Keys, frames)
    decreases |frames|
  {
    if frames == [] then s else Play(PlayFrame(s, frames[0]), frames[1..])
  }

  /** The state of every bar of the frame is in range. */
  predicate InRange(s: MouseState, bars: seq<Bar>)
    requires Known(s.offsets.Keys, bars)
  {
    forall k | 0 <= k < |bars| :: 0 <= s.offsets[bars[k].target] <= Limit(bars[k])
  }

  lemma {:induction false} PaintNotNegative(offsets: map<nat, int>, bars: seq<Bar>)
    requires Known(offsets.Keys, bars) && NotNegative(offsets)
    ensures NotNegative(Paint(offsets, bars).0)
    decreases |bars|
  {
    if bars != [] {
      var bar := bars[0];
      PaintNotNegative(offsets[bar.target := Clamp(bar, offsets[bar.target])], bars[1..]);
    }
  }

  lemma FromLimit(hit: Hit, bars: seq<Bar>, k: nat)
    requires IsFrom(hit, bars) && Agree(bars) && k < |bars| && bars[k].target == hit.target
    ensures Max(0, hit.content - hit.trackH) == Limit(bars[k])
  {
    hide ThumbPos, ThumbSize;
  }

  lemma FromSensible(hit: Hit, bars: seq<Bar>)
    requires IsFrom(hit, bars)
    ensures Sensible(hit)
  {
    hide ThumbPos, ThumbSize;
  }

  lemma FrameKeepsRange(s: MouseState, f: Frame)
    requires Fits(s.offsets.Keys, f) && NotNegative(s.offsets)
    ensures NotNegative(PlayFrame(s, f).offsets) && InRange(PlayFrame(s, f), f.bars)
  {
    hide Dispatch, Paint, IsFrom, Sensible, Agree, Limit;
    var w := Written(s, f).offsets;
    var (offsets, hits) := Paint(w, f.bars);
    PaintNotNegative(w, f.bars);
    forall j | 0 <= j < |hits| ensures IsFrom(hits[j], f.bars) && Sensible(hits[j]) {
      PaintFrom(w, f.bars, j);
      FromSensible(hits[j], f.bars);
    }
    DispatchMovesOne(s.(offsets := offsets), f.event, hits);
    var after := PlayFrame(s, f).offsets;
    assert OneMoves(offsets, after, hits);
    forall k | 0 <= k < |f.bars| ensures 0 <= after[f.bars[k].target] <= Limit(f.bars[k]) {
      PaintInRange(w, f.bars, k);
      forall j | 0 <= j < |hits| && hits[j].target == f.bars[k].target
        ensures Max(0, hits[j].content - hits[j].trackH) == Limit(f.bars[k])
      {
        FromLimit(hits[j], f.bars, k);
      }
    }
  }

  /**
    Two scroll views of one state, the second with more to scroll: a turn of the wheel over it takes
    the state out of the range of the first, until both are painted again.
   */
  lemma SharedOutOfRange() returns (s: MouseState, bars: seq<Bar>, e: MouseEvent)
    ensures Known(s.offsets.Keys, bars) && InRange(s, bars) && Paint(s.offsets, bars).0 == s.offsets
    ensures !InRange(Dispatch(s, e, Paint(s.offsets, bars).1).0, bars)
  {
    var a, b := Bar(0, 4, 0, 10, 20, 0, 5, true, false, true), Bar(0, 24, 0, 10, 30, 20, 5, true, false, true);
    bars := [a, b];
    e := MouseEvent(21, 3, InputEvents.WheelDown, MouseWheel, PLAIN);
    s := MouseState(NoDrag, map[0 := 10], false);
    assert bars[1..] == [b] && [b][1..] == [];
    assert s.offsets[0 := 10] == s.offsets;
    assert Paint(s.offsets, []) == (s.offsets, []);
    assert Clamp(a, 10) == 10 && Clamp(b, 10) == 10;
    var hits := [HitOf(a, 10), HitOf(b, 10)];
    assert [HitOf(b, 10)] + [] == [HitOf(b, 10)] && [HitOf(a, 10)] + [HitOf(b, 10)] == hits;
    assert Paint(s.offsets, [b]) == (s.offsets, [HitOf(b, 10)]);
    assert Paint(s.offsets, bars) == (s.offsets, hits);
    FirstIs(hits, WheelHit(e), 1);
    assert Dispatch(s, e, hits).0.offsets == map[0 := 13];
  }

  /**
    Over any run of frames, each with its own geometry, painted and then given a press, drag, wheel
    turn or release: every offset that does not start negative, and is never set so, is in the
    range of the scroll view or list it was last painted for.
   */
  lemma {:induction false} RunKeepsRange(s: MouseState, frames: seq<Frame>)
    requires AllFit(s.offsets.Keys, frames) && NotNegative(s.offsets) && frames != []
    ensures NotNegative(Play(s, frames).offsets) && Play(s, frames).offsets.Keys == s.offsets.Keys
    ensures
      var last := frames[|frames| - 1].bars;
      Known(Play(s, frames).offsets.Keys, last) && InRange(Play(s, frames), last)
    decreases |frames|
  {
    hide PlayFrame, NotNegative, InRange;
    FrameKeepsRange(s, frames[0]);
    if |frames| > 1 {
      RunKeepsRange(PlayFrame(s, frames[0]), frames[1..]);
    } else {
      assert Play(s, frames) == PlayFrame(s, frames[0]);
    }
  }

  /** After a press beside the thumb, the repainted thumb starts at the mouse's target, or one cell before it. */
  lemma PressBringsThumb(s: MouseState, e: MouseEvent, hit: Hit)
    requires hit.target in s.offsets && Scrolls(hit.trackH, hit.content) &&
      hit.thumbSize == ThumbSize(hit.trackH, hit.content)
    ensures
      var t := PressOn(s, e, hit);
      var rel := Along(e, hit, InColumn(e, hit));
      var goal := Target(hit.trackH, hit.thumbSize, rel);
      var pos := ThumbPos(hit.trackH, hit.content, t.offsets[hit.target]);
      if hit.thumbPos <= rel < hit.thumbPos + hit.thumbSize then t.offsets == s.offsets
      else goal - 1 <= pos <= goal
  {
    MouseTargetRoundTrip(hit.trackH, hit.content, Along(e, hit, InColumn(e, hit)));
  }

  /** Where a drag was anchored makes no difference to what it does. */
  lemma AnchorsUnused(s: MouseState, e: MouseEvent, hits: seq<Hit>, position: int, value: int)
    requires Bound(s.offsets.Keys, hits) && s.drag.Drag?
    ensures
      var (t, handled) := Dispatch(s, e, hits);
      var (u, same) := Dispatch(s.(drag := s.drag.(anchorPosition := position, anchorValue := value)), e, hits);
      u.offsets == t.offsets && u.dirty == t.dirty && same == handled
  {
    hide Asked, First, InColumn, InRow, UnderWheel, Wheeled;
  }

  /**
    So a drag does not start from where the thumb was grabbed: its middle jumps to the mouse.  A
    press on the thumb and a drag event at the very same cell leave the offset alone exactly if the
    middle of the thumb is at the mouse already and the rows divide evenly there, or if it is one
    cell before and the thumb is almost there.
   */
  lemma DragInPlace(s: MouseState, e: MouseEvent, hits: seq<Hit>, k: nat)
    requires Bound(s.offsets.Keys, hits) && e.action == MousePress && s.drag == NoDrag
    requires k < |hits| && PressHit(e)(hits[k]) && forall i | 0 <= i < k :: !PressHit(e)(hits[i])
    requires forall i | 0 <= i < k :: hits[i].target != hits[k].target
    requires
      var hit := hits[k];
      var rel := Along(e, hit, InColumn(e, hit));
      && Scrolls(hit.trackH, hit.content) && hit.thumbSize == ThumbSize(hit.trackH, hit.content)
      && 0 <= s.offsets[hit.target] <= hit.content - hit.trackH
      && hit.thumbPos == ThumbPos(hit.trackH, hit.content, s.offsets[hit.target])
      && hit.thumbPos <= rel < hit.thumbPos + hit.thumbSize
    ensures
      var hit := hits[k];
      var goal := Target(hit.trackH, hit.thumbSize, Along(e, hit, InColumn(e, hit)));
      var room, rows := hit.trackH - hit.thumbSize, hit.content - hit.trackH;
      var rest := room * s.offsets[hit.target] % rows;
      var pressed := Dispatch(s, e, hits).0;
      var (dragged, handled) := Dispatch(pressed, e.(action := MouseMove), hits);
      && pressed.offsets == s.offsets && handled
      && (dragged.offsets == s.offsets <==>
            (goal == hit.thumbPos && rest == 0) || (goal == hit.thumbPos + 1 && rest > rows - room))
  {
    hide ThumbSize, Div, Target, InColumn, InRow;
    var hit := hits[k];
    FirstIs(hits, PressHit(e), k);
    FirstIs(hits, DragHit(hit.target), k);
    SizeFits(hit.trackH, hit.content);
    MouseTargetRoundTrip(hit.trackH, hit.content, Along(e, hit, InColumn(e, hit)));
    var goal := Target(hit.trackH, hit.thumbSize, Along(e, hit, InColumn(e, hit)));
    StaysIff(hit.trackH - hit.thumbSize, hit.content - hit.trackH, s.offsets[hit.target], goal);
    var asked := Asked(hit, Along(e, hit, InColumn(e, hit)));
    assert s.offsets[hit.target := asked] == s.offsets <==> asked == s.offsets[hit.target] by {
      assert s.offsets[hit.target := asked][hit.target] == asked;
    }
  }

  /** Half of the content in view, at the top: grabbing the last cell of the thumb scrolls four rows without a move. */
  lemma ThumbJumps() returns (s: MouseState, e: MouseEvent, hit: Hit)
    ensures Bound(s.offsets.Keys, [hit]) && e.action == MousePress &&
      hit.thumbPos <= e.y - hit.trackY < hit.thumbPos + hit.thumbSize
    ensures
      var pressed := Dispatch(s, e, [hit]).0;
      pressed.offsets == s.offsets == map[0 := 0] &&
        Dispatch(pressed, e.(action := MouseMove), [hit]).0.offsets == map[0 := 4]
  {
    hit := Hit(0, 10, 0, 10, 0, 5, 20, 0, 11, true);
    e := MouseEvent(10, 4, LeftButton, MousePress, PLAIN);
    s := MouseState(NoDrag, map[0 := 0], false);
    FirstIs([hit], PressHit(e), 0);
    FirstIs([hit], DragHit(0), 0);
    assert Asked(hit, 4) == 4;
  }

  /** The first vertical bar whose view has the mouse in it is turned by three rows, up or down, or to its end. */
  lemma WheelTurns(s: MouseState, e: MouseEvent, hits: seq<Hit>, k: nat)
    requires Bound(s.offsets.Keys, hits) && e.action == MouseWheel && s.drag == NoDrag && k < |hits|
    requires
      var hit := hits[k];
      && hit.vertical && hit.viewX <= e.x < hit.viewX + hit.viewW && hit.trackY <= e.y < hit.trackY + hit.trackH
      && 0 <= s.offsets[hit.target] <= hit.content - hit.trackH
    requires forall i | 0 <= i < k ::
      var hit := hits[i];
      || !hit.vertical || e.x < hit.viewX || e.x >= hit.viewX + hit.viewW
      || e.y < hit.trackY || e.y >= hit.trackY + hit.trackH
    ensures
      var (t, handled) := Dispatch(s, e, hits);
      var target, offset, last := hits[k].target, s.offsets[hits[k].target], hits[k].content - hits[k].trackH;
      && (e.button == InputEvents.WheelDown ==>
            handled &&
              t == MouseState(NoDrag, s.offsets[target := if offset + 3 <= last then offset + 3 else last], true))
      && (e.button == InputEvents.WheelUp ==>
            handled && t == MouseState(NoDrag, s.offsets[target := if offset >= 3 then offset - 3 else 0], true))
      && (e.button !in {InputEvents.WheelUp, InputEvents.WheelDown} ==> !handled)
  {
    FirstIs(hits, WheelHit(e), k);
  }

  /** What is not for a bar changes nothing; whatever changes an offset asks for a repaint. */
  lemma UnhandledIsIgnored(s: MouseState, e: MouseEvent, hits: seq<Hit>)
    requires Bound(s.offsets.Keys, hits)
    ensures
      var (t, handled) := Dispatch(s, e, hits);
      (!handled ==> t == s) && (t.offsets != s.offsets ==> handled && t.dirty) && (s.dirty ==> t.dirty)
  {
    hide Asked, First, InColumn, InRow, UnderWheel, Wheeled;
  }

  /** The events of a gesture over the same bars. */
  function Gesture(s: MouseState, es: seq<MouseEvent>, hits: seq<Hit>): (t: MouseState)
    requires Bound(s.offsets.Keys, hits)
    ensures t.offsets.Keys == s.offsets.Keys
    decreases |es|
  {
    if es == [] then s
    else
      KeysStay(s, es[0], hits);
      Gesture(Dispatch(s, es[0], hits).0, es[1..], hits)
  }

  /**
    A drag goes on, wherever the mouse is and whatever it does, until the button is released: only
    the last place counts, along the bar, and the release moves nothing.
   */
  lemma {:induction false} DragFollows(s: MouseState, es: seq<MouseEvent>, release: MouseEvent, hits: seq<Hit>, k: nat)
    requires Bound(s.offsets.Keys, hits) && s.drag.Drag? && es != [] && release.action == MouseRelease
    requires forall i | 0 <= i < |es| :: es[i].action != MouseRelease
    requires k < |hits| && hits[k].target == s.drag.target && forall i | 0 <= i < k :: hits[i].target != s.drag.target
    ensures
      var hit, last := hits[k], es[|es| - 1];
      var asked := Asked(hit, if s.drag.vertical then last.y - hit.trackY else last.x - hit.trackX);
      var t := Gesture(s, es, hits);
      && t == MouseState(s.drag, s.offsets[hit.target := asked], true)
      && Dispatch(t, release, hits) == (t.(drag := NoDrag), true)
    decreases |es|
  {
    hide Asked;
    FirstIs(hits, DragHit(s.drag.target), k);
    var t := Dispatch(s, es[0], hits).0;
    if |es| > 1 {
      assert es[1..][|es| - 2] == es[|es| - 1];
      DragFollows(t, es[1..], release, hits, k);
      var a := Gesture(t, es[1..], hits).offsets[hits[k].target];
      assert t.offsets[hits[k].target := a] == s.offsets[hits[k].target := a];
    } else {
      assert Gesture(s, es, hits) == t;
    }
  }

  /** With a painted bar the repainted thumb then has the mouse in its middle, a cell more or less, ends aside. */
  lemma DragCentres(hit: Hit, rel: int)
    requires Scrolls(hit.trackH, hit.content) && hit.thumbSize == ThumbSize(hit.trackH, hit.content)
    requires 0 <= rel < hit.trackH
    ensures
      var pos := ThumbPos(hit.trackH, hit.content, Asked(hit, rel));
      && 0 <= pos && pos + hit.thumbSize <= hit.trackH && pos <= rel <= pos + hit.thumbSize
      && (0 < pos && pos + 1 + hit.thumbSize < hit.trackH ==> 0 <= (rel - pos) - (pos + hit.thumbSize - 1 - rel) <= 3)
  {
    hide ThumbPos, ThumbSize, Target, Asked, OffsetOf;
    SizeFits(hit.trackH, hit.content);
    MouseTargetRoundTrip(hit.trackH, hit.content, rel);
    TargetCentres(hit.trackH, hit.thumbSize, rel);
    AskedIs(hit, rel);
  }

  lemma AskedIs(hit: Hit, rel: int)
    ensures Asked(hit, rel) == OffsetOf(hit.trackH, hit.thumbSize, hit.content, Target(hit.trackH, hit.thumbSize, rel))
  {
  }

  /** One of the cells the painter filled with the bar. */
  predicate OnBar(e: MouseEvent, hit: Hit) {
    if hit.vertical then e.x == hit.trackX && hit.trackY <= e.y < hit.trackY + hit.trackH
    else e.y == hit.trackY && hit.trackX <= e.x < hit.trackX + hit.trackH
  }

  /** Beside the first cell of a vertical bar, as far to the right as the bar is long. */
  predicate BesideTop(e: MouseEvent, hit: Hit) {
    hit.vertical && e.y == hit.trackY && hit.trackX < e.x < hit.trackX + hit.trackH
  }

  /** Below the first cell of a horizontal bar, as far down as the bar is long. */
  predicate BelowStart(e: MouseEvent, hit: Hit) {
    !hit.vertical && e.x == hit.trackX && hit.trackY < e.y < hit.trackY + hit.trackH
  }

  /**
    A press is credited to the first bar in whose column or row it lies, whatever the direction of
    the bar.  So it may be on no cell of that bar, and the drag it starts may go across it: for a
    vertical bar exactly beside its first cell, for a horizontal bar exactly on and below its first
    cell.
   */
  lemma PressCredited(s: MouseState, e: MouseEvent, hits: seq<Hit>, k: nat)
    requires Bound(s.offsets.Keys, hits) && e.action == MousePress
    requires s.drag.Drag? ==> forall i | 0 <= i < |hits| :: hits[i].target != s.drag.target
    requires k < |hits| && PressHit(e)(hits[k]) && forall i | 0 <= i < k :: !PressHit(e)(hits[i])
    ensures
      var (t, handled) := Dispatch(s, e, hits);
      var hit := hits[k];
      && handled && t.drag.Drag? && t.drag.target == hit.target
      && t.drag.anchorPosition == (if t.drag.vertical then e.y else e.x)
      && t.drag.anchorValue == t.offsets[hit.target]
      && (!OnBar(e, hit) <==> BesideTop(e, hit) || BelowStart(e, hit))
      && (t.drag.vertical != hit.vertical <==>
            BesideTop(e, hit) || BelowStart(e, hit) || (!hit.vertical && e.x == hit.trackX && e.y == hit.trackY))
  {
    FirstIs(hits, PressHit(e), k);
    if s.drag.Drag? {
      FirstIs(hits, DragHit(s.drag.target), |hits|);
    }
  }

  /** A press on a bar is taken by it, along it, unless an earlier bar captures it or a horizontal bar starts there. */
  lemma PressOnBar(s: MouseState, e: MouseEvent, hits: seq<Hit>, k: nat)
    requires Bound(s.offsets.Keys, hits) && e.action == MousePress && s.drag == NoDrag
    requires k < |hits| && OnBar(e, hits[k]) && forall i | 0 <= i < |hits| && i != k :: hits[i].target != hits[k].target
    ensures
      var drag := Dispatch(s, e, hits).0.drag;
      && drag.Drag?
      && (drag.target == hits[k].target <==> forall i | 0 <= i < k :: !InColumn(e, hits[i]) && !InRow(e, hits[i]))
      && (drag.target == hits[k].target && drag.vertical == hits[k].vertical <==>
            && (forall i | 0 <= i < k :: !InColumn(e, hits[i]) && !InRow(e, hits[i]))
            && (hits[k].vertical || e.x != hits[k].trackX))
  {
    var f := First(hits, PressHit(e));
    assert PressHit(e)(hits[k]);
    PressCredited(s, e, hits, f);
  }

  /** A press right of a vertical bar of two cells scrolls it and starts a horizontal drag. */
  lemma BesideIsCaptured() returns (s: MouseState, e: MouseEvent, hit: Hit)
    ensures Bound(s.offsets.Keys, [hit]) && s.drag == NoDrag && hit.vertical && !OnBar(e, hit)
    ensures
      var (t, handled) := Dispatch(s, e, [hit]);
      handled && t.drag.Drag? && !t.drag.vertical && t.offsets[hit.target] != s.offsets[hit.target]
  {
    hit := Hit(0, 10, 5, 2, 0, 1, 4, 0, 11, true);
    e := MouseEvent(11, 5, LeftButton, MousePress, PLAIN);
    s := MouseState(NoDrag, map[0 := 0], false);
    FirstIs([hit], PressHit(e), 0);
    assert Asked(hit, 1) == 2;
  }
}
