/** The row loop of decode_png in src/tui/image.cpp, and the filters of section 6 of RFC 2083 it undoes. */
module PngFilter {
  import opened Bytes
  import Images

  function Abs(x: int): int { if x < 0 then -x else x }

  /** Of left, up and up-left the one nearest to left + up - up-left, in this order on a tie. */
  function Paeth(left: int, up: int, upLeft: int): (r: int)
    ensures r == left || r == up || r == upLeft
    ensures
      var p := left + up - upLeft;
      && Abs(p - r) <= Abs(p - left) && Abs(p - r) <= Abs(p - up) && Abs(p - r) <= Abs(p - upLeft)
      && (Abs(p - left) == Abs(p - r) ==> r == left)
      && (Abs(p - up) == Abs(p - r) ==> r == left || r == up)
  {
    var estimate := left + up - upLeft;
    var distanceLeft := if estimate > left then estimate - left else left - estimate;
    var distanceUp := if estimate > up then estimate - up else up - estimate;
    var distanceUpLeft := if estimate > upLeft then estimate - upLeft else upLeft - estimate;
    if distanceLeft <= distanceUp && distanceLeft <= distanceUpLeft then left
    else if distanceUp <= distanceUpLeft then up else upLeft
  }

  /** None, Sub, Up, Average, Paeth */
  type filter = x: int | 0 <= x <= 4

  function Predictor(f: filter, left: byte, up: byte, upLeft: byte): (r: int)
    ensures 0 <= r < 256
  {
    if f == 0 then 0
    else if f == 1 then left
    else if f == 2 then up
    else if f == 3 then (left + up) / 2
    else Paeth(left, up, upLeft)
  }

  /** The byte one pixel to the left, 0 before the first pixel. */
  function LeftOf(row: seq<byte>, i: nat, bpp: nat): byte
    requires i <= |row|
    requires bpp > 0
  {
    if i >= bpp then row[i - bpp] else 0
  }

  // ---- Filtering, as RFC 2083 has it ----------------------------------------------

  /** Nothing, the byte before, the byte above, their average, or the one Paeth chooses is taken away. */
  function FilterByte(f: filter, prev: seq<byte>, row: seq<byte>, bpp: nat, i: nat): byte
    requires |prev| == |row| && i < |row| && bpp > 0
  {
    var a := if i < bpp then 0 else row[i - bpp];
    var c := if i < bpp then 0 else prev[i - bpp];
    match f
    case 0 => row[i]
    case 1 => (row[i] - a) % 256
    case 2 => (row[i] - prev[i]) % 256
    case 3 => (row[i] - (a + prev[i]) / 2) % 256
    case 4 => (row[i] - Paeth(a, prev[i], c)) % 256
  }

  lemma FilterTakesAway(f: filter, prev: seq<byte>, row: seq<byte>, bpp: nat, i: nat)
    requires |prev| == |row| && i < |row| && bpp > 0
    ensures FilterByte(f, prev, row, bpp, i) ==
      (row[i] - Predictor(f, LeftOf(row, i, bpp), prev[i], LeftOf(prev, i, bpp))) % 256
  {
    hide Paeth;
    assert row[i] as int % 256 == row[i];
  }

  function FilterRow(f: filter, prev: seq<byte>, row: seq<byte>, bpp: nat): (r: seq<byte>)
    requires |prev| == |row| && bpp > 0
    ensures |r| == |row| && forall i | 0 <= i < |row| :: r[i] == FilterByte(f, prev, row, bpp, i)
  {
    seq(|row|, i requires 0 <= i < |row| => FilterByte(f, prev, row, bpp, i))
  }

  // ---- What the loop computes ---------------------------------------------------------

  /** The first n bytes of the row, each from the ones before it. */
  function Unfilter(f: filter, prev: seq<byte>, source: seq<byte>, bpp: nat, n: nat): (r: seq<byte>)
    requires |prev| == |source| && n <= |source| && bpp > 0
    ensures |r| == n
  {
    if n == 0 then []
    else
      var done := Unfilter(f, prev, source, bpp, n - 1);
      var i := n - 1;
      done + [(source[i] + Predictor(f, LeftOf(done, i, bpp), prev[i], LeftOf(prev, i, bpp))) % 256]
  }

  lemma UnfilterByte(f: filter, prev: seq<byte>, row: seq<byte>, bpp: nat, i: nat)
    requires |prev| == |row| && i < |row| && bpp > 0
    ensures
      var predictor := Predictor(f, LeftOf(row, i, bpp), prev[i], LeftOf(prev, i, bpp));
      (FilterByte(f, prev, row, bpp, i) + predictor) % 256 == row[i]
  {
    hide Predictor, FilterByte;
    var p := Predictor(f, LeftOf(row, i, bpp), prev[i], LeftOf(prev, i, bpp));
    FilterTakesAway(f, prev, row, bpp, i);
    AddBack(row[i], p);
  }

  lemma AddBack(v: int, p: int)
    requires 0 <= v < 256 && 0 <= p < 256
    ensures ((v - p) % 256 + p) % 256 == v
  {
    if v >= p {
      assert (v - p) % 256 == v - p;
    } else {
      assert (v - p) % 256 == v - p + 256;
    }
  }

  /** Unfiltering inverts filtering, row by row, whatever the filter. */
  lemma {:induction false} UnfilterInverts(f: filter, prev: seq<byte>, row: seq<byte>, bpp: nat, n: nat)
    requires |prev| == |row| && n <= |row| && bpp > 0
    ensures Unfilter(f, prev, FilterRow(f, prev, row, bpp), bpp, n) == row[..n]
  {
    hide FilterByte, Predictor;
    if n > 0 {
      UnfilterInverts(f, prev, row, bpp, n - 1);
      UnfilterByte(f, prev, row, bpp, n - 1);
      assert LeftOf(row[..n - 1], n - 1, bpp) == LeftOf(row, n - 1, bpp);
      assert row[..n] == row[..n - 1] + [row[n - 1]];
    }
  }

  lemma TakeAway(v: int, p: int)
    requires 0 <= v < 256 && 0 <= p < 256
    ensures ((v + p) % 256 - p) % 256 == v
  {
    if v + p < 256 {
      assert (v + p) % 256 == v + p;
    } else {
      assert (v + p) % 256 == v + p - 256;
    }
  }

  lemma {:induction false} UnfilterPrefix(f: filter, prev: seq<byte>, source: seq<byte>, bpp: nat, n: nat, m: nat)
    requires |prev| == |source| && n <= m <= |source| && bpp > 0
    ensures Unfilter(f, prev, source, bpp, m)[..n] == Unfilter(f, prev, source, bpp, n)
    decreases m
  {
    hide Predictor;
    if n < m {
      UnfilterPrefix(f, prev, source, bpp, n, m - 1);
    }
  }

  /** And the other way round: every filtered row is the filtering of what it is decoded to. */
  lemma FilterInverts(f: filter, prev: seq<byte>, source: seq<byte>, bpp: nat)
    requires |prev| == |source| && bpp > 0
    ensures FilterRow(f, prev, Unfilter(f, prev, source, bpp, |source|), bpp) == source
  {
    hide Predictor, FilterByte;
    var row := Unfilter(f, prev, source, bpp, |source|);
    forall i | 0 <= i < |source| ensures FilterByte(f, prev, row, bpp, i) == source[i] {
      var done := Unfilter(f, prev, source, bpp, i);
      UnfilterPrefix(f, prev, source, bpp, i, |source|);
      UnfilterPrefix(f, prev, source, bpp, i + 1, |source|);
      assert row[i] == row[..i + 1][i] && row[..i] == done;
      assert LeftOf(done, i, bpp) == LeftOf(row, i, bpp);
      FilterTakesAway(f, prev, row, bpp, i);
      TakeAway(source[i], Predictor(f, LeftOf(row, i, bpp), prev[i], LeftOf(prev, i, bpp)));
    }
  }

  // ---- Images of rows -----------------------------------------------------------------

  datatype Option<T> = Some(value: T) | None

  predicate AllOf<T>(rows: seq<seq<T>>, stride: nat) {
    forall y | 0 <= y < |rows| :: |rows[y]| == stride
  }

  /** The raw data of a PNG: before each filtered row the number of its filter. */
  function Raw(rows: seq<seq<byte>>, filters: seq<filter>, prev: seq<byte>, bpp: nat): seq<byte>
    requires AllOf(rows, |prev|) && |filters| == |rows| && bpp > 0
    decreases |rows|
  {
    if rows == [] then []
    else [filters[0]] + FilterRow(filters[0], prev, rows[0], bpp) + Raw(rows[1..], filters[1..], rows[0], bpp)
  }

  /** The rows in raw data, none if a filter number is out of range. */
  function Rows(raw: seq<byte>, height: nat, prev: seq<byte>, bpp: nat): (r: Option<seq<seq<byte>>>)
    requires |raw| == height * (|prev| + 1) && bpp > 0
    ensures r.Some? ==> |r.value| == height && AllOf(r.value, |prev|)
    decreases height
  {
    if height == 0 then Some([])
    else
      var stride := |prev|;
      FirstRow(height, stride);
      if raw[0] > 4 then None
      else
        var row := Unfilter(raw[0], prev, raw[1..1 + stride], bpp, stride);
        match Rows(raw[1 + stride..], height - 1, row, bpp)
        case Some(rest) => Some([row] + rest)
        case None => None
  }

  lemma FirstRow(height: nat, stride: nat)
    requires height > 0
    ensures height * (stride + 1) == (height - 1) * (stride + 1) + stride + 1 >= stride + 1
  {
  }

  lemma {:induction false} RawLength(rows: seq<seq<byte>>, filters: seq<filter>, prev: seq<byte>, bpp: nat)
    requires AllOf(rows, |prev|) && |filters| == |rows| && bpp > 0
    ensures |Raw(rows, filters, prev, bpp)| == |rows| * (|prev| + 1)
    decreases |rows|
  {
    if rows != [] {
      RawLength(rows[1..], filters[1..], rows[0], bpp);
      FirstRow(|rows|, |prev|);
    }
  }

  /** For every image and every choice of filters, the decoder finds the rows again. */
  lemma {:induction false} RowsOfRaw(rows: seq<seq<byte>>, filters: seq<filter>, prev: seq<byte>, bpp: nat)
    requires AllOf(rows, |prev|) && |filters| == |rows| && bpp > 0
    ensures |Raw(rows, filters, prev, bpp)| == |rows| * (|prev| + 1)
    ensures Rows(Raw(rows, filters, prev, bpp), |rows|, prev, bpp) == Some(rows)
    decreases |rows|
  {
    hide FilterRow, Unfilter;
    RawLength(rows, filters, prev, bpp);
    if rows != [] {
      var stride := |prev|;
      var raw := Raw(rows, filters, prev, bpp);
      var source := FilterRow(filters[0], prev, rows[0], bpp);
      RowsOfRaw(rows[1..], filters[1..], rows[0], bpp);
      UnfilterInverts(filters[0], prev, rows[0], bpp, stride);
      assert rows[0][..stride] == rows[0];
      assert raw[1..1 + stride] == source && raw[1 + stride..] == Raw(rows[1..], filters[1..], rows[0], bpp);
      assert rows == [rows[0]] + rows[1..];
    }
  }

  /** What is decoded to rows is the raw data of those rows, for some choice of filters. */
  lemma {:induction false} RawOfRows(raw: seq<byte>, height: nat, prev: seq<byte>, bpp: nat)
    returns (filters: seq<filter>)
    requires |raw| == height * (|prev| + 1) && bpp > 0 && Rows(raw, height, prev, bpp).Some?
    ensures |filters| == height && raw == Raw(Rows(raw, height, prev, bpp).value, filters, prev, bpp)
    decreases height
  {
    hide FilterRow, Unfilter;
    filters := [];
    if height > 0 {
      var stride := |prev|;
      FirstRow(height, stride);
      var source := raw[1..1 + stride];
      var row := Unfilter(raw[0], prev, source, bpp, stride);
      var more := RawOfRows(raw[1 + stride..], height - 1, row, bpp);
      FilterInverts(raw[0], prev, source, bpp);
      filters := [raw[0]] + more;
      var rows := Rows(raw, height, prev, bpp).value;
      assert rows[1..] == Rows(raw[1 + stride..], height - 1, row, bpp).value && filters[1..] == more;
      assert raw == [raw[0]] + source + raw[1 + stride..];
    }
  }

  /** The first n pixels of a row as RGBA; RGB pixels are opaque. */
  function RgbaRow(row: seq<byte>, bpp: nat, n: nat): (r: seq<byte>)
    requires 3 <= bpp <= 4 && n * bpp <= |row|
    ensures |r| == 4 * n
  {
    if n == 0 then []
    else
      var k := (n - 1) * bpp;
      RgbaRow(row, bpp, n - 1) + [row[k], row[k + 1], row[k + 2], if bpp == 4 then row[k + 3] else 255]
  }

  function PixelOf(row: seq<byte>, k: nat, bpp: nat): seq<byte>
    requires 3 <= bpp <= 4 && k + bpp <= |row|
  {
    [row[k], row[k + 1], row[k + 2], if bpp == 4 then row[k + 3] else 255]
  }

  lemma RgbaRowNext(row: seq<byte>, bpp: nat, x: nat)
    requires 3 <= bpp <= 4 && x * bpp + bpp == (x + 1) * bpp <= |row|
    ensures RgbaRow(row, bpp, x + 1) == RgbaRow(row, bpp, x) + PixelOf(row, x * bpp, bpp)
  {
  }

  function Rgba(rows: seq<seq<byte>>, bpp: nat, width: nat): (r: seq<byte>)
    requires 3 <= bpp <= 4 && AllOf(rows, width * bpp)
    ensures |r| == 4 * (|rows| * width)
  {
    if rows == [] then []
    else
      var last := |rows| - 1;
      assert last * width + width == |rows| * width;
      Rgba(rows[..last], bpp, width) + RgbaRow(rows[last], bpp, width)
  }

  /** Pixel x of a row, as the image has it. */
  lemma {:induction false} RgbaRowAt(row: seq<byte>, bpp: nat, n: nat, x: nat)
    requires 3 <= bpp <= 4 && n * bpp <= |row| && x < n
    ensures x * bpp + bpp <= |row|
    ensures RgbaRow(row, bpp, n)[4 * x..4 * x + 4] ==
      row[x * bpp..x * bpp + 3] + [if bpp == 4 then row[x * bpp + 3] else 255]
  {
    hide RgbaRow;
    PixelInRow(n - 1, n, bpp);
    PixelInRow(x, n, bpp);
    RgbaRowNext(row, bpp, n - 1);
    var before := RgbaRow(row, bpp, n - 1);
    if x < n - 1 {
      RgbaRowAt(row, bpp, n - 1, x);
      assert (before + PixelOf(row, (n - 1) * bpp, bpp))[4 * x..4 * x + 4] == before[4 * x..4 * x + 4];
    } else {
      var k := x * bpp;
      assert (before + PixelOf(row, k, bpp))[4 * x..4 * x + 4] == PixelOf(row, k, bpp);
      assert row[k..k + 3] == [row[k], row[k + 1], row[k + 2]];
    }
  }

  /** Pixel (x, y) of the image is pixel x of row y: its three colours, and its own alpha or none at all. */
  lemma {:induction false} RgbaAt(rows: seq<seq<byte>>, bpp: nat, width: nat, x: nat, y: nat)
    requires 3 <= bpp <= 4 && AllOf(rows, width * bpp) && x < width && y < |rows|
    ensures 0 <= 4 * (y * width + x) && 4 * (y * width + x) + 4 <= |Rgba(rows, bpp, width)|
    ensures x * bpp + bpp <= width * bpp
    ensures Rgba(rows, bpp, width)[4 * (y * width + x)..4 * (y * width + x) + 4] ==
      rows[y][x * bpp..x * bpp + 3] + [if bpp == 4 then rows[y][x * bpp + 3] else 255]
  {
    hide RgbaRow;
    var last := |rows| - 1;
    var at := 4 * (y * width + x);
    var before, row := Rgba(rows[..last], bpp, width), RgbaRow(rows[last], bpp, width);
    PixelInRow(x, width, bpp);
    Images.InRow(x, y, width, |rows|);
    if y < last {
      Images.InRow(x, y, width, last);
      RgbaAt(rows[..last], bpp, width, x, y);
      assert (before + row)[at..at + 4] == before[at..at + 4];
    } else {
      RgbaRowAt(rows[last], bpp, width, x);
      assert at == |before| + 4 * x;
      assert (before + row)[at..at + 4] == row[4 * x..4 * x + 4];
    }
  }

  // ---- The loops ------------------------------------------------------------------------

  /** Decodes one row into current, which still holds the row before previous. */
  method UnfilterRow(f: filter, source: seq<byte>, previous: array<byte>, current: array<byte>, bpp: nat)
    requires previous != current && previous.Length == current.Length == |source| && bpp > 0
    modifies current
    ensures current[..] == Unfilter(f, previous[..], source, bpp, |source|)
  {
    hide Predictor;
    var index := 0;
    while index < |source|
      invariant 0 <= index <= |source|
      invariant current[..index] == Unfilter(f, previous[..], source, bpp, index)
    {
      var left: byte := if index >= bpp then current[index - bpp] else 0;
      var up: byte := previous[index];
      var upLeft: byte := if index >= bpp then previous[index - bpp] else 0;
      assert left == LeftOf(current[..index], index, bpp) && upLeft == LeftOf(previous[..], index, bpp);
      var predictor := Predictor(f, left, up, upLeft);
      current[index] := (source[index] + predictor) % 256;
      index := index + 1;
    }
    assert current[..index] == current[..];
  }

  lemma PixelDone(row: seq<byte>, bpp: nat, x: nat, front: seq<byte>)
    requires 3 <= bpp <= 4 && x * bpp + bpp == (x + 1) * bpp <= |row|
    ensures front + RgbaRow(row, bpp, x) + PixelOf(row, x * bpp, bpp) == front + RgbaRow(row, bpp, x + 1)
  {
    hide RgbaRow, PixelOf;
    RgbaRowNext(row, bpp, x);
  }

  method UnpackRow(rgba: array<byte>, start: nat, row: array<byte>, width: nat, bpp: nat)
    requires rgba != row && 3 <= bpp <= 4 && row.Length == width * bpp && start + 4 * width <= rgba.Length
    modifies rgba
    ensures rgba[..start + 4 * width] == old(rgba[..start]) + RgbaRow(row[..], bpp, width)
  {
    assert RgbaRow(row[..], bpp, 0) == [];
    hide RgbaRow, PixelOf;
    var x := 0;
    while x < width
      invariant 0 <= x <= width && x * bpp <= width * bpp
      invariant rgba[..start + 4 * x] == old(rgba[..start]) + RgbaRow(row[..], bpp, x)
    {
      PixelInRow(x, width, bpp);
      UnpackPixel(rgba, start + x * 4, row, x * bpp, bpp);
      PixelDone(row[..], bpp, x, old(rgba[..start]));
      x := x + 1;
    }
  }

  method UnpackPixel(rgba: array<byte>, d: nat, row: array<byte>, s: nat, bpp: nat)
    requires rgba != row && 3 <= bpp <= 4 && s + bpp <= row.Length && d + 4 <= rgba.Length
    modifies rgba
    ensures rgba[..d + 4] == old(rgba[..d]) + PixelOf(row[..], s, bpp)
  {
    rgba[d] := row[s];
    rgba[d + 1] := row[s + 1];
    rgba[d + 2] := row[s + 2];
    rgba[d + 3] := if bpp == 4 then row[s + 3] else 255;
  }

  lemma PixelInRow(x: nat, width: nat, bpp: nat)
    requires x < width
    ensures x * bpp + bpp == (x + 1) * bpp <= width * bpp
  {
    assert (x + 1) * bpp <= width * bpp;
  }

  function Zeros(n: nat): (r: seq<byte>)
    ensures |r| == n && forall i | 0 <= i < n :: r[i] == 0
  {
    seq(n, _ => 0)
  }

  lemma Scaled(y: nat, height: nat, size: nat)
    requires y <= height
    ensures 0 <= y * size <= height * size && height * size - y * size == (height - y) * size
    ensures (y + 1) * size == y * size + size
    ensures y < height ==> (y + 1) * size <= height * size
  {
    if y < height {
      assert (y + 1) * size <= height * size;
    }
  }

  lemma RgbaGrows(done: seq<seq<byte>>, row: seq<byte>, bpp: nat, width: nat)
    requires 3 <= bpp <= 4 && AllOf(done, width * bpp) && |row| == width * bpp
    ensures AllOf(done + [row], width * bpp) &&
      Rgba(done + [row], bpp, width) == Rgba(done, bpp, width) + RgbaRow(row, bpp, width)
  {
    assert (done + [row])[..|done|] == done;
  }

  lemma NothingDone(bpp: nat, width: nat)
    requires 3 <= bpp <= 4
    ensures AllOf<byte>([], width * bpp) && Rgba([], bpp, width) == []
  {
  }

  lemma NoRows(raw: seq<byte>, prev: seq<byte>, bpp: nat)
    requires |raw| == 0 && bpp > 0
    ensures Rows(raw, 0, prev, bpp) == Some([])
  {
  }

  function Prepend(done: seq<seq<byte>>, rest: Option<seq<seq<byte>>>): Option<seq<seq<byte>>> {
    match rest
    case Some(rows) => Some(done + rows)
    case None => None
  }

  /** The loop has decoded done, and what is left decides the rest. */
  ghost predicate Progress(raw: seq<byte>, height: nat, stride: nat, bpp: nat, y: nat, done: seq<seq<byte>>,
                           prev: seq<byte>)
    requires |raw| == height * (stride + 1) && bpp > 0 && |prev| == stride && y <= height
  {
    Scaled(y, height, stride + 1);
    && |done| == y && AllOf(done, stride)
    && Rows(raw, height, Zeros(stride), bpp) == Prepend(done, Rows(raw[y * (stride + 1)..], height - y, prev, bpp))
  }

  lemma ProgressStarts(raw: seq<byte>, height: nat, stride: nat, bpp: nat)
    requires |raw| == height * (stride + 1) && bpp > 0
    ensures Progress(raw, height, stride, bpp, 0, [], Zeros(stride))
  {
    hide Rows;
    assert 0 * (stride + 1) == 0 && raw[0..] == raw;
    var r := Rows(raw, height, Zeros(stride), bpp);
    assert r.Some? ==> [] + r.value == r.value;
  }

  lemma ProgressGoesOn(raw: seq<byte>, height: nat, stride: nat, bpp: nat, y: nat, done: seq<seq<byte>>,
                       prev: seq<byte>)
    requires |raw| == height * (stride + 1) && bpp > 0 && |prev| == stride && y < height
    requires Progress(raw, height, stride, bpp, y, done, prev)
    ensures y * (stride + 1) + 1 + stride == (y + 1) * (stride + 1) <= |raw|
    ensures
      var offset := y * (stride + 1);
      && (raw[offset] > 4 ==> Rows(raw, height, Zeros(stride), bpp) == None)
      && (raw[offset] <= 4 ==>
            var row := Unfilter(raw[offset], prev, raw[offset + 1..offset + 1 + stride], bpp, stride);
            Progress(raw, height, stride, bpp, y + 1, done + [row], row))
  {
    hide Rows, Unfilter, Prepend, Zeros, AllOf;
    Scaled(y, height, stride + 1);
    Scaled(y + 1, height, stride + 1);
    var offset := y * (stride + 1);
    var left := raw[offset..];
    RowIsNext(left, height - y, prev, bpp);
    assert left[1..1 + stride] == raw[offset + 1..offset + 1 + stride];
    assert left[1 + stride..] == raw[(y + 1) * (stride + 1)..];
    if raw[offset] <= 4 {
      var row := Unfilter(raw[offset], prev, raw[offset + 1..offset + 1 + stride], bpp, stride);
      PrependMore(done, row, Rows(raw[(y + 1) * (stride + 1)..], height - (y + 1), row, bpp));
      OneMore(done, row, stride);
    } else {
      PrependNone(done);
    }
  }

  lemma PrependMore(done: seq<seq<byte>>, row: seq<byte>, rest: Option<seq<seq<byte>>>)
    ensures Prepend(done, Prepend([row], rest)) == Prepend(done + [row], rest)
  {
    assert rest.Some? ==> done + ([row] + rest.value) == done + [row] + rest.value;
  }

  lemma PrependNone(done: seq<seq<byte>>)
    ensures Prepend(done, None) == None
  {
  }

  lemma OneMore(done: seq<seq<byte>>, row: seq<byte>, size: nat)
    requires AllOf(done, size) && |row| == size
    ensures AllOf(done + [row], size)
  {
  }

  lemma ProgressEnds(raw: seq<byte>, height: nat, stride: nat, bpp: nat, done: seq<seq<byte>>, prev: seq<byte>)
    requires |raw| == height * (stride + 1) && bpp > 0 && |prev| == stride
    requires Progress(raw, height, stride, bpp, height, done, prev)
    ensures Rows(raw, height, Zeros(stride), bpp) == Some(done)
  {
    NoRows(raw[height * (stride + 1)..], prev, bpp);
    assert done + [] == done;
  }

  /** What Rows says about the first row of what is left. */
  lemma RowIsNext(raw: seq<byte>, height: nat, prev: seq<byte>, bpp: nat)
    requires height > 0 && |raw| == height * (|prev| + 1) && bpp > 0
    ensures 1 + |prev| <= |raw| && |raw[1 + |prev|..]| == (height - 1) * (|prev| + 1)
    ensures raw[0] > 4 ==> Rows(raw, height, prev, bpp) == None
    ensures raw[0] <= 4 ==>
      var row := Unfilter(raw[0], prev, raw[1..1 + |prev|], bpp, |prev|);
      Rows(raw, height, prev, bpp) == Prepend([row], Rows(raw[1 + |prev|..], height - 1, row, bpp))
  {
    hide Unfilter;
    FirstRow(height, |prev|);
  }

  /**
    The row loop: two row buffers take turns, and every pixel comes out as RGBA; a filter number
    out of range makes the whole image invalid.
   */
  method DecodeRows(raw: seq<byte>, width: nat, height: nat, bpp: nat) returns (r: Option<seq<byte>>)
    requires 3 <= bpp <= 4 && |raw| == height * (width * bpp + 1)
    ensures r == match Rows(raw, height, Zeros(width * bpp), bpp)
                 case Some(rows) => Some(Rgba(rows, bpp, width))
                 case None => None
  {
    hide Rows, Unfilter, Rgba, RgbaRow, AllOf, Progress, Zeros;
    var stride := width * bpp;
    NothingDone(bpp, width);
    var previous := new byte[stride](_ => 0);
    var current := new byte[stride](_ => 0);
    var rgba := new byte[height * width * 4](_ => 0);
    ghost var done: seq<seq<byte>> := [];
    assert previous[..] == Zeros(stride);
    ProgressStarts(raw, height, stride, bpp);
    var y := 0;
    while y < height
      invariant 0 <= y <= height
      invariant previous != current && previous.Length == current.Length == stride && rgba != previous &&
        rgba != current
      invariant fresh(previous) && fresh(current) && fresh(rgba) && rgba.Length == height * width * 4
      invariant Progress(raw, height, stride, bpp, y, done, previous[..])
      invariant AllOf(done, stride) && 0 <= y * width * 4 <= rgba.Length &&
        rgba[..y * width * 4] == Rgba(done, bpp, width)
    {
      var offset := y * (stride + 1);
      ProgressGoesOn(raw, height, stride, bpp, y, done, previous[..]);
      var f: int := raw[offset];
      if f > 4 {
        return None;
      }
      PixelsFit(y, height, width);
      UnfilterRow(f, raw[offset + 1..offset + 1 + stride], previous, current, bpp);
      UnpackRow(rgba, y * width * 4, current, width, bpp);
      RgbaGrows(done, current[..], bpp, width);
      done := done + [current[..]];
      previous, current := current, previous;
      y := y + 1;
    }
    ProgressEnds(raw, height, stride, bpp, done, previous[..]);
    assert rgba[..] == rgba[..y * width * 4];
    r := Some(rgba[..]);
  }

  lemma PixelsFit(y: nat, height: nat, width: nat)
    requires y < height
    ensures 0 <= y * width * 4 && y * width * 4 + 4 * width == (y + 1) * width * 4 <= height * width * 4
  {
    Scaled(y, height, width);
  }
}
