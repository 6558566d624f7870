/**
  Scrollbar arithmetic: the painter (src/tui/renderer.cpp) turns an offset into a thumb, the mouse
  handler (src/tui/event_dispatcher.cpp) turns a thumb position into an offset.
 */
module Scrollbar {
  import opened Arithmetic

  function Max(a: int, b: int): int { if a < b then b else a }

  function Min(a: int, b: int): int { if b < a then b else a }

  /** Integer division as in C++, towards zero. */
  function Div(a: int, b: int): int
    requires b > 0
  {
    if a >= 0 then a / b else -(-a / b)
  }

  // ---- Painter -----------------------------------------------------------------------

  function ThumbSize(track: nat, content: int): int {
    Max(1, Div(track * track, Max(1, content)))
  }

  function ThumbPos(track: nat, content: int, offset: int): int {
    Div((track - ThumbSize(track, content)) * offset, Max(1, content - track))
  }

  // ---- Mouse handler -------------------------------------------------------------------

  /** The thumb position a mouse at rel cells into the track asks for. */
  function Target(track: nat, size: int, rel: int): int {
    Min(Max(rel - Div(size, 2), 0), Max(1, track - size))
  }

  function OffsetOf(track: nat, size: int, content: int, target: int): int {
    Div(target * Max(1, content - track), Max(1, track - size))
  }

  /** Three rows a notch. */
  function Wheeled(offset: int, delta: int, track: nat, content: int): int {
    Max(0, Min(offset + delta, Max(0, content - track)))
  }

  // ---- Geometry ------------------------------------------------------------------------

  predicate Scrolls(track: int, content: int) {
    2 <= track < content
  }

  lemma Quotient(t: int, c: int, s: int)
    requires 2 <= t < c && s * c <= t * t < s * c + c
    ensures s < t && 2 * t - c <= s
  {
    assert (s - t + 1) * c == s * c - t * c + c;
    assert t * t < t * c;
    Cancel(s - t + 1, c);
    assert (2 * t - c - s) * c == 2 * (t * c) - c * c - s * c;
    assert (c - t) * (c - t) == c * c - 2 * (t * c) + t * t;
    assert (c - t) * (c - t) >= 0;
    Cancel(2 * t - c - s, c);
  }

  /** The thumb is shorter than the track, and the room it has is no more than there is to scroll. */
  lemma SizeFits(track: nat, content: int)
    requires Scrolls(track, content)
    ensures 1 <= ThumbSize(track, content) < track
    ensures 1 <= track - ThumbSize(track, content) <= content - track
  {
    assert track * track >= 0;
    var s := track * track / content;
    DivBounds(track * track, content);
    Quotient(track, content, s);
  }

  /** The thumb is to the track what the track is to the content, rounded down, but never nothing. */
  lemma SizeIsProportional(track: nat, content: int)
    requires Scrolls(track, content)
    ensures
      var size := ThumbSize(track, content);
      size * content <= track * track < (size + 1) * content || (size == 1 && track * track < content)
  {
    assert track * track >= 0;
    DivBounds(track * track, content);
    var q := track * track / content;
    assert (q + 1) * content == q * content + content;
  }

  /** The thumb a mouse on the track asks for is under it, in the middle of it unless it meets an end. */
  lemma TargetCentres(track: nat, size: int, rel: int)
    requires 1 <= size < track && 0 <= rel < track
    ensures
      var t := Target(track, size, rel);
      && 0 <= t && t + size <= track && t <= rel < t + size
      && (0 < t < track - size ==> 0 <= (rel - t) - (t + size - 1 - rel) <= 1)
      && (t == 0 ==> 2 * rel <= size + 1) && (t + size == track ==> 2 * rel >= 2 * track - size - 1)
  {
  }

  /** With r cells of room and m rows to scroll. */
  lemma ThumbRange(r: int, m: int, offset: int)
    requires r >= 1 && m >= 1 && 0 <= offset <= m
    ensures 0 <= Div(r * offset, m) <= r
    ensures offset == 0 ==> Div(r * offset, m) == 0
    ensures offset == m ==> Div(r * offset, m) == r
  {
    assert 0 <= r * offset <= r * m;
    DivBounds(r * offset, m);
    DivIs(r * m, m, r);
    DivMonotone(r * offset, r * m, m);
  }

  /** The thumb lies inside the track, touches both ends exactly, and never moves against the offset. */
  lemma ThumbInside(track: nat, content: int, offset: int)
    requires Scrolls(track, content) && 0 <= offset <= content - track
    ensures 0 <= ThumbPos(track, content, offset) &&
      ThumbPos(track, content, offset) + ThumbSize(track, content) <= track
    ensures ThumbPos(track, content, 0) == 0
    ensures ThumbPos(track, content, content - track) + ThumbSize(track, content) == track
  {
    hide Div, ThumbSize;
    SizeFits(track, content);
    ThumbRange(track - ThumbSize(track, content), content - track, offset);
    ThumbRange(track - ThumbSize(track, content), content - track, 0);
    ThumbRange(track - ThumbSize(track, content), content - track, content - track);
  }

  lemma ThumbMonotone(track: nat, content: int, a: int, b: int)
    requires Scrolls(track, content) && 0 <= a <= b <= content - track
    ensures ThumbPos(track, content, a) <= ThumbPos(track, content, b)
  {
    hide ThumbSize;
    SizeFits(track, content);
    ScaledMonotone(track - ThumbSize(track, content), content - track, a, b);
  }

  lemma ScaledMonotone(r: int, m: int, a: int, b: int)
    requires r >= 1 && m >= 1 && 0 <= a <= b
    ensures Div(r * a, m) <= Div(r * b, m)
  {
    Monotone(a, b, r);
    Monotone(0, a, r);
    assert r * a == a * r && r * b == b * r;
    DivMonotone(a * r, b * r, m);
  }

  // ---- The inverse ----------------------------------------------------------------------

  predicate Even(a: int, b: int) {
    b > 0 && a % b == 0
  }

  /** What is left of t * m after q times r is less than r, and r is at most m. */
  lemma BackAgain(rq: int, m: int, t: int, rest: int)
    requires m >= 1 && 0 <= rest < m && rq == t * m - rest
    ensures rq / m == if rest == 0 then t else t - 1
  {
    if rest == 0 {
      DivIs(rq, m, t);
    } else {
      assert (t - 1) * m == t * m - m;
      DivIs(rq, m, t - 1);
    }
  }

  lemma DivNat(a: int, b: int)
    requires a >= 0 && b > 0
    ensures Div(a, b) == a / b
  {
  }

  /** A quotient of at most r * m by r. */
  lemma AtMost(a: int, r: int, m: int)
    requires r >= 1 && m >= 0 && 0 <= a <= r * m
    ensures 0 <= a / r <= m && r * (a / r) >= 0 && a == r * (a / r) + a % r && 0 <= a % r < r
    ensures a == 0 ==> a / r == 0
    ensures a == r * m ==> a / r == m && a % r == 0
  {
    DivBounds(a, r);
    DivIs(r * m, r, m);
    DivMonotone(a, r * m, r);
  }

  /** t of r cells asks for q rows, and q rows put the thumb on t or just before it. */
  lemma ThereAndBack(r: int, m: int, t: int, q: int)
    requires 1 <= r <= m && 0 <= t <= r && q == Div(t * m, r)
    ensures 0 <= q <= m
    ensures Div(r * q, m) == if t * m % r == 0 then t else t - 1
    ensures t == 0 ==> q == 0
    ensures t == r ==> q == m && t * m % r == 0
  {
    hide Div;
    Monotone(0, t, m);
    Monotone(t, r, m);
    var tm := t * m;
    DivNat(tm, r);
    AtMost(tm, r, m);
    DivNat(r * q, m);
    BackAgain(r * q, m, t, tm % r);
  }

  lemma TargetFits(track: nat, size: int, rel: int)
    requires size < track
    ensures 0 <= Target(track, size, rel) <= track - size
  {
    hide Div;
  }

  /**
    Click or drag: the mouse asks for a target inside the track; the offset is in range, and the
    repainted thumb is at the target if the rows to scroll divide evenly there, one cell before it
    if they do not, and always exact at both ends.
   */
  lemma MouseTargetRoundTrip(track: nat, content: int, rel: int)
    requires Scrolls(track, content)
    ensures
      var size := ThumbSize(track, content);
      var target := Target(track, size, rel);
      var offset := OffsetOf(track, size, content, target);
      var room := track - size;
      && 0 <= target <= room && 0 <= offset <= content - track
      && ThumbPos(track, content, offset) == (if Even(target * (content - track), room) then target else target - 1)
      && (target == 0 ==> offset == 0) &&
           (target == room ==> offset == content - track && ThumbPos(track, content, offset) == room)
  {
    hide Div, ThumbSize, Target;
    SizeFits(track, content);
    var size := ThumbSize(track, content);
    TargetFits(track, size, rel);
    var target := Target(track, size, rel);
    ThereAndBack(track - size, content - track, target, OffsetOf(track, size, content, target));
  }

  /**
    Which target leaves the offset alone: with r cells of room and m rows to scroll, the one the
    thumb is at if it is there exactly, or the next one if the thumb is almost there.
   */
  lemma StaysIff(r: int, m: int, offset: int, target: int)
    requires 1 <= r <= m && 0 <= offset <= m && 0 <= target <= r
    ensures
      var pos, rest := Div(r * offset, m), r * offset % m;
      Div(target * m, r) == offset <==> (target == pos && rest == 0) || (target == pos + 1 && rest > m - r)
  {
    hide Div;
    Monotone(0, r, offset);
    Monotone(0, target, m);
    var ro, tm := r * offset, target * m;
    DivNat(ro, m);
    DivNat(tm, r);
    IsQuotient(tm, r, offset, ro);
    Apart(target, m, tm, ro);
    Near(tm, ro, r, m, target - ro / m, ro % m);
  }

  lemma IsQuotient(a: int, r: int, q: int, rq: int)
    requires a >= 0 && r >= 1 && rq == r * q
    ensures a / r == q <==> rq <= a < rq + r
  {
    DivBounds(a, r);
    if rq <= a < rq + r {
      DivIs(a, r, q);
    }
  }

  /** How far target * m is from the multiple of m at or below ro. */
  lemma Apart(target: int, m: int, tm: int, ro: int)
    requires m >= 1 && ro >= 0 && tm == target * m
    ensures
      var d, rest := target - ro / m, ro % m;
      && 0 <= rest < m
      && (d < 0 ==> tm <= ro - rest - m) && (d == 0 ==> tm == ro - rest)
      && (d == 1 ==> tm == ro - rest + m) && (d > 1 ==> tm >= ro - rest + 2 * m)
  {
    Split(target, ro / m, m);
    assert ro == m * (ro / m) + ro % m;
  }

  /** tm lies d times m from the multiple of m at or below ro. */
  lemma Near(tm: int, ro: int, r: int, m: int, d: int, rest: int)
    requires 1 <= r <= m && 0 <= rest < m
    requires d < 0 ==> tm <= ro - rest - m
    requires d == 0 ==> tm == ro - rest
    requires d == 1 ==> tm == ro - rest + m
    requires d > 1 ==> tm >= ro - rest + 2 * m
    ensures ro <= tm < ro + r <==> (d == 0 && rest == 0) || (d == 1 && rest > m - r)
  {
  }

  /** How far target * m is from pos * m. */
  lemma Split(target: int, pos: int, m: int)
    requires m >= 1
    ensures target < pos ==> target * m <= pos * m - m
    ensures target == pos ==> target * m == pos * m
    ensures target == pos + 1 ==> target * m == pos * m + m
    ensures target > pos + 1 ==> target * m >= pos * m + 2 * m
  {
    if target < pos {
      Monotone(target, pos - 1, m);
    } else if target > pos + 1 {
      Monotone(pos + 2, target, m);
    }
  }

  /** The mouse's offset is in range for every track shorter than its content. */
  lemma AskedRange(track: nat, content: int, rel: int)
    requires track < content
    ensures
      var size := ThumbSize(track, content);
      0 <= OffsetOf(track, size, content, Target(track, size, rel)) <= content - track
  {
    hide ThumbSize;
    var size := ThumbSize(track, content);
    var room, m := Max(1, track - size), content - track;
    var target := Target(track, size, rel);
    assert 0 <= target <= room by { hide Div; }
    assert 0 <= target * m <= room * m;
    DivBounds(target * m, room);
    DivIs(room * m, room, m);
    DivMonotone(target * m, room * m, room);
  }

  /** The wheel keeps the offset in range, and moves by its step unless an end is nearer. */
  lemma WheelInRange(track: nat, content: int, offset: int, delta: int)
    requires Scrolls(track, content) && 0 <= offset <= content - track
    ensures
      var next := Wheeled(offset, delta, track, content);
      && 0 <= next <= content - track
      && (delta >= 0 ==> next == offset + delta || (next == content - track < offset + delta))
      && (delta <= 0 ==> next == offset + delta || (next == 0 > offset + delta))
  {
  }
}
