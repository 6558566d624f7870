/** compute_virtual_window in src/tui/renderer.cpp: which items of a long list are in view. */
module VirtualWindow {
  import opened Arithmetic
  import opened Scrollbar

  datatype Window = Window(first: int, skip: int, visible: int, maxScroll: int, content: int)

  datatype Heights = Uniform(height: int) | Measured(heights: seq<int>, hint: int)

  /** item_rows_at: an item that was not measured yet counts as the hint. */
  function ItemRows(h: Heights, index: nat): (rows: int)
    requires h.Measured?
    ensures rows >= 1
  {
    if index < |h.heights| && h.heights[index] > 0 then h.heights[index] else Max(1, h.hint)
  }

  /** The rows of the items from index start up to but not including index end. */
  function Rows(h: Heights, start: nat, end: nat): (r: int)
    requires h.Measured? && start <= end
    ensures start + r >= end
    decreases end
  {
    if start == end then 0 else Rows(h, start, end - 1) + ItemRows(h, end - 1)
  }

  /** The first item that reaches below the offset, at most count. */
  function FirstBelow(h: Heights, count: nat, offset: int, i: nat): (f: nat)
    requires h.Measured? && i <= count
    ensures i <= f <= count
    decreases count - i
  {
    if i == count || Rows(h, 0, i + 1) > offset then i else FirstBelow(h, count, offset, i + 1)
  }

  /** How many items from index i on it takes to get from filled rows to area. */
  function Fill(h: Heights, count: nat, i: nat, filled: int, area: int): (n: nat)
    requires h.Measured? && i <= count
    ensures i + n <= count
    decreases count - i
  {
    if i == count || filled >= area then 0 else 1 + Fill(h, count, i + 1, filled + ItemRows(h, i), area)
  }

  function Clamped(scroll: int, maxScroll: int): int {
    if scroll < 0 then 0 else Min(scroll, maxScroll)
  }

  function UniformWindow(count: nat, height: int, scroll: int, areaH: int): Window {
    var area := Max(0, areaH);
    var h := Max(1, height);
    var maxScroll := Max(0, count * h - area);
    var offset := Clamped(scroll, maxScroll);
    Window(offset / h, offset % h, (area + h - 1) / h + 1, maxScroll, count * h)
  }

  function MeasuredWindow(h: Heights, count: nat, scroll: int, areaH: int): Window
    requires h.Measured?
  {
    var area := Max(0, areaH);
    var total := Rows(h, 0, count);
    var maxScroll := Max(0, total - area);
    var offset := Clamped(scroll, maxScroll);
    var f := FirstBelow(h, count, offset, 0);
    var first := Min(f, Max(0, count - 1));
    var skip := Max(0, offset - Rows(h, 0, f));
    Window(first, skip, 1 + Fill(h, count, first, skip, area), maxScroll, total)
  }

  method ComputeVirtualWindow(h: Heights, count: nat, scroll: int, areaH: int) returns (win: Window)
    ensures win == match h
                   case Uniform(height) => UniformWindow(count, height, scroll, areaH)
                   case Measured(_, _) => MeasuredWindow(h, count, scroll, areaH)
  {
    hide ItemRows;
    var area := Max(0, areaH);
    if h.Uniform? {
      var itemH := Max(1, h.height);
      var content := count * itemH;
      var maxScroll := Max(0, content - area);
      var offset := if scroll < 0 then 0 else Min(scroll, maxScroll);
      return Window(offset / itemH, offset % itemH, (area + itemH - 1) / itemH + 1, maxScroll, content);
    }

    var total := 0;
    var i := 0;
    while i < count
      invariant 0 <= i <= count && total == Rows(h, 0, i)
    {
      total := total + ItemRows(h, i);
      i := i + 1;
    }
    var maxScroll := Max(0, total - area);
    var offset := if scroll < 0 then 0 else Min(scroll, maxScroll);

    var first, consumed := FindFirst(h, count, offset);
    var start := Min(first, Max(0, count - 1));
    var skip := Max(0, offset - consumed);
    var visible := CountVisible(h, count, start, skip, area);
    win := Window(start, skip, if visible == 0 then 1 else visible + 1, maxScroll, total);
  }

  method FindFirst(h: Heights, count: nat, offset: int) returns (first: nat, consumed: int)
    requires h.Measured?
    ensures first == FirstBelow(h, count, offset, 0) && consumed == Rows(h, 0, first)
  {
    hide ItemRows;
    consumed := 0;
    first := 0;
    while first < count
      invariant 0 <= first <= count && consumed == Rows(h, 0, first)
      invariant FirstBelow(h, count, offset, first) == FirstBelow(h, count, offset, 0)
    {
      var rows := ItemRows(h, first);
      if consumed + rows > offset {
        break;
      }
      consumed := consumed + rows;
      first := first + 1;
    }
  }

  method CountVisible(h: Heights, count: nat, start: nat, skip: int, area: int) returns (visible: nat)
    requires h.Measured? && start <= count && skip >= 0
    ensures visible == Fill(h, count, start, skip, area)
  {
    hide ItemRows;
    visible := 0;
    var filled := if skip > 0 then skip else 0;
    var i := start;
    while i < count && filled < area
      invariant start <= i <= count && visible >= 0
      invariant visible + Fill(h, count, i, filled, area) == Fill(h, count, start, skip, area)
    {
      filled := filled + ItemRows(h, i);
      visible := visible + 1;
      i := i + 1;
    }
  }

  // ---- The offset is where the window says ---------------------------------------------

  lemma {:induction false} FirstBelowIs(h: Heights, count: nat, offset: int, i: nat)
    requires h.Measured? && i <= count && Rows(h, 0, i) <= offset
    ensures
      var f := FirstBelow(h, count, offset, i);
      Rows(h, 0, f) <= offset && (f < count ==> offset < Rows(h, 0, f + 1))
    decreases count - i
  {
    hide ItemRows;
    if i < count && Rows(h, 0, i + 1) <= offset {
      FirstBelowIs(h, count, offset, i + 1);
    }
  }

  lemma {:induction false} RowsMonotone(h: Heights, a: nat, b: nat)
    requires h.Measured? && a <= b
    ensures Rows(h, 0, a) <= Rows(h, 0, b)
    decreases b
  {
    if a < b {
      RowsMonotone(h, a, b - 1);
    }
  }

  /** In a viewport of at least one row: what is above the first item, plus the skipped rows, is the offset. */
  lemma MeasuredOffset(h: Heights, count: nat, scroll: int, areaH: int)
    requires h.Measured? && count >= 1 && areaH >= 1
    ensures
      var w := MeasuredWindow(h, count, scroll, areaH);
      && 0 <= w.first < count && 0 <= w.skip < ItemRows(h, w.first)
      && Rows(h, 0, w.first) + w.skip == Clamped(scroll, w.maxScroll)
      && w.content == Rows(h, 0, count) && w.maxScroll == Max(0, w.content - areaH)
      && 1 <= w.visible <= 1 + count - w.first
  {
    hide ItemRows;
    var w := MeasuredWindow(h, count, scroll, areaH);
    var offset := Clamped(scroll, w.maxScroll);
    var f := FirstBelow(h, count, offset, 0);
    FirstBelowIs(h, count, offset, 0);
    assert offset < Rows(h, 0, count);
    if f < count {
      assert Rows(h, 0, f + 1) == Rows(h, 0, f) + ItemRows(h, f);
    }
  }

  lemma UniformOffset(count: nat, height: int, scroll: int, areaH: int)
    requires count >= 1 && areaH >= 1
    ensures
      var w := UniformWindow(count, height, scroll, areaH);
      var h := Max(1, height);
      && 0 <= w.first < count && 0 <= w.skip < h
      && w.first * h + w.skip == Clamped(scroll, w.maxScroll)
      && w.content == count * h && w.maxScroll == Max(0, w.content - areaH)
  {
    var h := Max(1, height);
    var total := count * h;
    assert total >= h by { Monotone(1, count, h); }
    QuotientOf(Clamped(scroll, Max(0, total - areaH)), h, count);
  }

  /** An offset above the end of the content, in items and rows. */
  lemma QuotientOf(offset: int, h: int, count: int)
    requires h >= 1 && 0 <= offset < count * h
    ensures 0 <= offset / h < count && 0 <= offset % h < h && offset / h * h + offset % h == offset
  {
    DivBounds(offset, h);
    FirstBelowCount(offset / h, h, count, offset % h);
  }

  lemma FirstBelowCount(q: int, h: int, count: int, r: int)
    requires h >= 1 && r >= 0 && q * h + r < count * h
    ensures q < count
  {
    assert (q - count + 1) * h == q * h - count * h + h;
    Cancel(q - count + 1, h);
  }

  /** The items of the division form fill the viewport. */
  lemma UniformCovers(count: nat, height: int, scroll: int, areaH: int)
    requires count >= 1 && areaH >= 1
    ensures
      var w := UniformWindow(count, height, scroll, areaH);
      w.visible * Max(1, height) - w.skip > areaH
  {
    var h := Max(1, height);
    var w := UniformWindow(count, height, scroll, areaH);
    UniformOffset(count, height, scroll, areaH);
    var q := (areaH + h - 1) / h;
    DivBounds(areaH + h - 1, h);
    assert (q + 1) * h == q * h + h;
  }

  // ---- The two forms -----------------------------------------------------------------------

  predicate AllAsHigh(h: Heights, count: nat, height: int)
    requires h.Measured?
  {
    height >= 1 && forall i | 0 <= i < count :: ItemRows(h, i) == height
  }

  lemma {:induction false} RowsOfEqual(h: Heights, count: nat, height: int, start: nat, end: nat)
    requires h.Measured? && AllAsHigh(h, count, height) && start <= end <= count
    ensures Rows(h, start, end) == (end - start) * height
    decreases end
  {
    hide ItemRows;
    if start < end {
      RowsOfEqual(h, count, height, start, end - 1);
      assert (end - start) * height == (end - 1 - start) * height + height;
    }
  }

  lemma SameQuotient(a: int, b: int, h: int, r: int, s: int)
    requires h >= 1 && 0 <= r < h && 0 <= s < h && a * h + r == b * h + s
    ensures a == b && r == s
  {
    DivIs(a * h + r, h, a);
    DivIs(b * h + s, h, b);
  }

  /** For items of equal height the loops find what the division form computes. */
  lemma FormsAgree(h: Heights, count: nat, height: int, scroll: int, areaH: int)
    requires h.Measured? && count >= 1 && areaH >= 1 && AllAsHigh(h, count, height)
    ensures
      var m, u := MeasuredWindow(h, count, scroll, areaH), UniformWindow(count, height, scroll, areaH);
      m.first == u.first && m.skip == u.skip && m.maxScroll == u.maxScroll && m.content == u.content
  {
    hide ItemRows, MeasuredWindow, UniformWindow;
    var m, u := MeasuredWindow(h, count, scroll, areaH), UniformWindow(count, height, scroll, areaH);
    MeasuredOffset(h, count, scroll, areaH);
    UniformOffset(count, height, scroll, areaH);
    RowsOfEqual(h, count, height, 0, count);
    RowsOfEqual(h, count, height, 0, m.first);
    SameQuotient(m.first, u.first, height, m.skip, u.skip);
  }

  // ---- What the measured window covers ---------------------------------------------------------

  /** Row r of the viewport shows a row of a chosen item. */
  predicate RowShown(h: Heights, count: nat, w: Window, r: int)
    requires h.Measured? && 0 <= w.first < count && w.visible >= 1
  {
    exists i | w.first <= i < Min(w.first + w.visible, count) ::
      Rows(h, 0, i) <= Rows(h, 0, w.first) + w.skip + r < Rows(h, 0, i + 1)
  }

  /** Every row of the viewport for which there is content shows it. */
  predicate Covers(h: Heights, count: nat, w: Window, area: int)
    requires h.Measured? && 0 <= w.first < count && w.visible >= 1
  {
    forall r | 0 <= r < area && Rows(h, 0, w.first) + w.skip + r < Rows(h, 0, count) :: RowShown(h, count, w, r)
  }

  lemma {:induction false} RowsSplit(h: Heights, a: nat, b: nat)
    requires h.Measured? && a <= b
    ensures Rows(h, 0, b) == Rows(h, 0, a) + Rows(h, a, b)
    decreases b
  {
    hide ItemRows;
    if a < b {
      RowsSplit(h, a, b - 1);
    }
  }

  /** The item a content row belongs to. */
  lemma {:induction false} ItemOfRow(h: Heights, a: nat, b: nat, row: int) returns (i: nat)
    requires h.Measured? && a < b && Rows(h, 0, a) <= row < Rows(h, 0, b)
    ensures a <= i < b && Rows(h, 0, i) <= row < Rows(h, 0, i + 1)
    decreases b
  {
    hide ItemRows;
    if Rows(h, 0, b - 1) <= row {
      i := b - 1;
    } else {
      i := ItemOfRow(h, a, b - 1, row);
    }
  }

  lemma ShownIff(h: Heights, count: nat, w: Window, r: int)
    requires h.Measured? && 0 <= w.first < count && w.visible >= 1 && w.skip >= 0 && r >= 0
    ensures RowShown(h, count, w, r) <==>
      Rows(h, 0, w.first) + w.skip + r < Rows(h, 0, Min(w.first + w.visible, count))
  {
    hide ItemRows, Rows;
    var end := Min(w.first + w.visible, count);
    var row := Rows(h, 0, w.first) + w.skip + r;
    if row < Rows(h, 0, end) {
      var i := ItemOfRow(h, w.first, end, row);
    } else {
      forall i | w.first <= i < end
        ensures !(Rows(h, 0, i) <= row < Rows(h, 0, i + 1))
      {
        RowsMonotone(h, i + 1, end);
      }
    }
  }

  /** Covered means: the chosen items reach the bottom of the viewport or the end of the list. */
  lemma CoversIff(h: Heights, count: nat, w: Window, area: int)
    requires h.Measured? && 0 <= w.first < count && w.visible >= 1 && area >= 1 && 0 <= w.skip < ItemRows(h, w.first)
    ensures Covers(h, count, w, area) <==>
      w.first + w.visible >= count || Rows(h, w.first, w.first + w.visible) >= area + w.skip
  {
    hide ItemRows;
    var end := Min(w.first + w.visible, count);
    var offset := Rows(h, 0, w.first) + w.skip;
    RowsSplit(h, w.first, end);
    forall r | 0 <= r
      ensures RowShown(h, count, w, r) <==> offset + r < Rows(h, 0, end)
    {
      ShownIff(h, count, w, r);
    }
    if end < count && Rows(h, w.first, end) < area + w.skip {
      RowsMonotone(h, w.first + 1, end);
      RowsMonotone(h, end + 1, count);
      var r := Rows(h, 0, end) - offset;
      assert 0 <= r < area && offset + r < Rows(h, 0, count) && !RowShown(h, count, w, r);
    }
  }

  /** The last item whose top is at or above the offset. */
  predicate IsFirst(h: Heights, count: nat, offset: int, first: nat)
    requires h.Measured?
  {
    first < count && Rows(h, 0, first) <= offset && forall i | first < i < count :: offset < Rows(h, 0, i)
  }

  /** The least number of items from first on that reach area rows counted from skip, or all there are. */
  predicate IsLeast(h: Heights, count: nat, first: nat, skip: int, area: int, k: nat)
    requires h.Measured?
  {
    && first + k <= count
    && (first + k < count ==> skip + Rows(h, first, first + k) >= area)
    && forall m | first <= m < first + k :: skip + Rows(h, first, m) < area
  }

  lemma {:induction false} FillIsLeast(h: Heights, count: nat, first: nat, skip: int, area: int, j: nat)
    requires h.Measured? && first + j <= count && forall m | first <= m < first + j :: skip + Rows(h, first, m) < area
    ensures IsLeast(h, count, first, skip, area, j + Fill(h, count, first + j, skip + Rows(h, first, first + j), area))
    decreases count - first - j
  {
    hide ItemRows;
    if first + j < count && skip + Rows(h, first, first + j) < area {
      FillIsLeast(h, count, first, skip, area, j + 1);
    }
  }

  lemma LeastIsUnique(h: Heights, count: nat, first: nat, skip: int, area: int, k: nat, m: nat)
    requires h.Measured? && IsLeast(h, count, first, skip, area, k) && IsLeast(h, count, first, skip, area, m)
    ensures k == m
  {
    hide Rows;
  }

  lemma FirstIsUnique(h: Heights, count: nat, offset: int, first: nat, other: nat)
    requires h.Measured? && IsFirst(h, count, offset, first) && IsFirst(h, count, offset, other)
    ensures first == other
  {
    hide Rows;
  }

  /** There always are such a first item and such a number of items, and they are the window. */
  lemma WindowExists(h: Heights, count: nat, scroll: int, areaH: int) returns (first: nat, k: nat)
    requires h.Measured? && count >= 1 && areaH >= 1
    ensures
      var w := MeasuredWindow(h, count, scroll, areaH);
      var s := Clamped(scroll, Max(0, Rows(h, 0, count) - areaH));
      && IsFirst(h, count, s, first) && IsLeast(h, count, first, s - Rows(h, 0, first), areaH, k)
      && w.first == first && w.skip == s - Rows(h, 0, first) && w.visible == k + 1
  {
    hide ItemRows, IsLeast, Rows, FirstBelow, Fill;
    var w := MeasuredWindow(h, count, scroll, areaH);
    MeasuredOffset(h, count, scroll, areaH);
    first := w.first;
    assert Rows(h, 0, first + 1) == Rows(h, 0, first) + ItemRows(h, first) && Rows(h, first, first) == 0 by {
      OneMore(h, first);
    }
    forall i | first < i < count
      ensures Clamped(scroll, w.maxScroll) < Rows(h, 0, i)
    {
      RowsMonotone(h, first + 1, i);
    }
    FillIsLeast(h, count, first, w.skip, areaH, 0);
    k := Fill(h, count, first, w.skip, areaH);
  }

  lemma OneMore(h: Heights, first: nat)
    requires h.Measured?
    ensures Rows(h, 0, first + 1) == Rows(h, 0, first) + ItemRows(h, first) && Rows(h, first, first) == 0
  {
    hide ItemRows;
  }

  /** The window, from the offset and the heights alone. */
  lemma MeasuredWindowIs(h: Heights, count: nat, scroll: int, areaH: int, first: nat, k: nat)
    requires h.Measured? && count >= 1 && areaH >= 1
    requires
      var s := Clamped(scroll, Max(0, Rows(h, 0, count) - areaH));
      IsFirst(h, count, s, first) && IsLeast(h, count, first, s - Rows(h, 0, first), areaH, k)
    ensures
      var w := MeasuredWindow(h, count, scroll, areaH);
      var s := Clamped(scroll, Max(0, Rows(h, 0, count) - areaH));
      w.first == first && w.skip == s - Rows(h, 0, first) && w.visible == k + 1
  {
    hide ItemRows, IsLeast, IsFirst, Rows, MeasuredWindow;
    var s := Clamped(scroll, Max(0, Rows(h, 0, count) - areaH));
    var f, n := WindowExists(h, count, scroll, areaH);
    FirstIsUnique(h, count, s, first, f);
    LeastIsUnique(h, count, first, s - Rows(h, 0, first), areaH, k, n);
  }

  /**
    The fill loop starts to count at +skip rows where the first item begins at -skip, so it may stop
    too early: with k the number of items it counts, all rows are covered if and only if k + 1 items
    end the list or reach area + skip rows.
   */
  lemma MeasuredCovers(h: Heights, count: nat, scroll: int, areaH: int, first: nat, k: nat)
    requires h.Measured? && count >= 1 && areaH >= 1
    requires
      var s := Clamped(scroll, Max(0, Rows(h, 0, count) - areaH));
      IsFirst(h, count, s, first) && IsLeast(h, count, first, s - Rows(h, 0, first), areaH, k)
    ensures
      var w := MeasuredWindow(h, count, scroll, areaH);
      var skip := Clamped(scroll, Max(0, Rows(h, 0, count) - areaH)) - Rows(h, 0, first);
      && 0 <= w.first < count && w.visible >= 1
      && (Covers(h, count, w, areaH) <==>
            first + k + 1 >= count || Rows(h, first, first + k + 1) >= areaH + skip)
  {
    hide ItemRows, MeasuredWindow, IsLeast, Rows, Covers;
    var w := MeasuredWindow(h, count, scroll, areaH);
    MeasuredOffset(h, count, scroll, areaH);
    MeasuredWindowIs(h, count, scroll, areaH, first, k);
    CoversIff(h, count, w, areaH);
  }

  /** At an item boundary the viewport is always covered. */
  lemma BoundaryCovers(h: Heights, count: nat, scroll: int, areaH: int, first: nat)
    requires h.Measured? && count >= 1 && areaH >= 1
    requires
      var s := Clamped(scroll, Max(0, Rows(h, 0, count) - areaH));
      IsFirst(h, count, s, first) && s == Rows(h, 0, first)
    ensures
      var w := MeasuredWindow(h, count, scroll, areaH);
      0 <= w.first < count && w.visible >= 1 && Covers(h, count, w, areaH)
  {
    hide ItemRows, MeasuredWindow, Covers;
    var f, k := WindowExists(h, count, scroll, areaH);
    FirstIsUnique(h, count, Rows(h, 0, first), first, f);
    MeasuredCovers(h, count, scroll, areaH, first, k);
    RowsGrow(h, first, first + k);
  }

  lemma RowsGrow(h: Heights, a: nat, b: nat)
    requires h.Measured? && a <= b
    ensures Rows(h, a, b + 1) > Rows(h, a, b)
  {
  }

  /** Items that are equally high, counted from filled rows. */
  lemma {:induction false} FillOfEqual(h: Heights, count: nat, height: int, i: nat, filled: int, area: int)
    requires h.Measured? && AllAsHigh(h, count, height) && i <= count
    ensures Fill(h, count, i, filled, area) ==
      Min(count - i, if filled >= area then 0 else (area - filled + height - 1) / height)
    decreases count - i
  {
    hide ItemRows;
    if i < count && filled < area {
      FillOfEqual(h, count, height, i + 1, filled + height, area);
      OneFewer(area - filled, height);
    }
  }

  /** One item takes one off the count. */
  lemma OneFewer(d: int, height: int)
    requires d > 0 && height >= 1
    ensures (d + height - 1) / height == 1 + if d <= height then 0 else (d - height + height - 1) / height
  {
    DivBounds(d + height - 1, height);
    if d <= height {
      DivIs(d + height - 1, height, 1);
    } else {
      DivIs(d - height + height - 1, height, (d + height - 1) / height - 1);
    }
  }

  /**
    For items of equal height: the chosen items end the list, or the skipped rows do not outweigh
    what the last item adds.
   */
  lemma EqualHeightsCover(h: Heights, count: nat, height: int, scroll: int, areaH: int)
    requires h.Measured? && count >= 1 && areaH >= 1 && AllAsHigh(h, count, height)
    ensures
      var w := MeasuredWindow(h, count, scroll, areaH);
      var s := Clamped(scroll, Max(0, count * height - areaH));
      var skip := s % height;
      var k := if skip >= areaH then 0 else (areaH - skip + height - 1) / height;
      && 0 <= w.first < count && w.visible >= 1
      && (Covers(h, count, w, areaH) <==>
            || s / height + k + 1 >= count
            || (if skip < areaH then 2 * skip <= height + (skip - areaH) % height else areaH + skip <= height))
  {
    hide ItemRows, MeasuredWindow, AllAsHigh, Covers, IsFirst, IsLeast, Rows;
    var first, n := EqualWindow(h, count, height, scroll, areaH);
    MeasuredCovers(h, count, scroll, areaH, first, n);
    MeasuredOffset(h, count, scroll, areaH);
    var skip := Clamped(scroll, Max(0, count * height - areaH)) % height;
    var k := if skip >= areaH then 0 else (areaH - skip + height - 1) / height;
    EqualReach(h, count, height, first, n, k, skip, areaH);
  }

  lemma EqualWindow(h: Heights, count: nat, height: int, scroll: int, areaH: int) returns (first: nat, n: nat)
    requires h.Measured? && count >= 1 && areaH >= 1 && AllAsHigh(h, count, height)
    ensures
      var s := Clamped(scroll, Max(0, count * height - areaH));
      var skip := s % height;
      && Rows(h, 0, count) == count * height
      && IsFirst(h, count, s, first) && IsLeast(h, count, first, s - Rows(h, 0, first), areaH, n)
      && first == s / height && s - Rows(h, 0, first) == skip && 0 <= skip < height
      && n == Min(count - first, if skip >= areaH then 0 else (areaH - skip + height - 1) / height)
  {
    assert height >= 1;
    hide ItemRows, MeasuredWindow, AllAsHigh, IsFirst, IsLeast, UniformWindow, Rows;
    RowsOfEqual(h, count, height, 0, count);
    first, n := WindowExists(h, count, scroll, areaH);
    FormsAgree(h, count, height, scroll, areaH);
    EqualFirst(count, height, scroll, areaH);
    VisibleOfEqual(h, count, height, scroll, areaH);
  }

  /** n items of equal height are k, or all that are left. */
  lemma EqualReach(h: Heights, count: nat, height: int, first: nat, n: nat, k: int, skip: int, area: int)
    requires h.Measured? && AllAsHigh(h, count, height) && first + n <= count && area >= 1 && 0 <= skip < height
    requires k == if skip >= area then 0 else (area - skip + height - 1) / height
    requires n == Min(count - first, k)
    ensures
      (first + n + 1 >= count || Rows(h, first, first + n + 1) >= area + skip) <==>
        || first + k + 1 >= count
        || (if skip < area then 2 * skip <= height + (skip - area) % height else area + skip <= height)
  {
    assert height >= 1;
    hide ItemRows, AllAsHigh, Rows;
    if first + n + 1 < count {
      RowsOfEqual(h, count, height, first, first + n + 1);
      CoveredRows(k, height, skip, area);
    }
  }

  lemma EqualFirst(count: nat, height: int, scroll: int, areaH: int)
    requires height >= 1
    ensures
      var u := UniformWindow(count, height, scroll, areaH);
      var s := Clamped(scroll, Max(0, count * height - areaH));
      areaH >= 0 ==> u.first == s / height && u.skip == s % height
  {
  }

  lemma VisibleOfEqual(h: Heights, count: nat, height: int, scroll: int, areaH: int)
    requires h.Measured? && count >= 1 && areaH >= 1 && AllAsHigh(h, count, height)
    ensures
      var w := MeasuredWindow(h, count, scroll, areaH);
      w.visible == 1 + Min(count - w.first, if w.skip >= areaH then 0 else (areaH - w.skip + height - 1) / height)
  {
    assert height >= 1;
    hide ItemRows, AllAsHigh;
    var w := MeasuredWindow(h, count, scroll, areaH);
    FillOfEqual(h, count, height, w.first, w.skip, areaH);
  }

  /** k items reach area rows counted from +skip; k + 1 items start at -skip. */
  lemma CoveredRows(k: int, height: int, skip: int, area: int)
    requires height >= 1 && skip >= 0 && area >= 1
    requires k == if skip >= area then 0 else (area - skip + height - 1) / height
    ensures (k + 1) * height - skip >= area <==>
      if skip < area then 2 * skip <= height + (skip - area) % height else area + skip <= height
  {
    assert (k + 1) * height == k * height + height;
    if skip < area {
      RoundedUp(area - skip, height);
    }
  }

  lemma RoundedUp(d: int, h: int)
    requires d > 0 && h >= 1
    ensures (d + h - 1) / h * h == d + (-d) % h
  {
    var q, r := (d + h - 1) / h, (-d) % h;
    assert -d == h * (-d / h) + r;
    assert (-(-d / h)) * h == d + r;
    DivIs(d + h - 1, h, -(-d / h));
  }

  /** One item of four rows above items of one row, scrolled by three: two of four rows stay empty. */
  lemma GapAtTheBottom()
    ensures
      var h := Measured([4, 1, 1, 1, 1, 1], 1);
      var w := MeasuredWindow(h, 6, 3, 4);
      w == Window(0, 3, 2, 5, 9) && !Covers(h, 6, w, 4)
  {
    var h := Measured([4, 1, 1, 1, 1, 1], 1);
    assert Rows(h, 0, 1) == 4;
    assert Rows(h, 0, 2) == 5;
    assert Rows(h, 0, 3) == 6;
    assert Rows(h, 0, 4) == 7;
    assert Rows(h, 0, 5) == 8;
    assert Rows(h, 0, 6) == 9;
    assert Rows(h, 0, 0) == 0;
    assert FirstBelow(h, 6, 3, 0) == 0;
    assert Fill(h, 6, 1, 7, 4) == 0;
    assert Fill(h, 6, 0, 3, 4) == 1;
    CoversIff(h, 6, Window(0, 3, 2, 5, 9), 4);
  }
}
