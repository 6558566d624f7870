/** encode_sixel in src/tui/image.cpp: six rows at a time, one pass per colour, run lengths. */
module SixelEncoder {
  import opened Bytes
  import opened Images
  import opened Sixel
  import opened SixelBands

  // ---- Palette ---------------------------------------------------------------

  datatype Color = Color(red: int, green: int, blue: int)

  const LEVELS: seq<int> := [0, 51, 102, 153, 204, 255]

  /** A 6x6x6 cube and 40 greys. */
  function PaletteColor(i: nat): Color
    requires i < 256
  {
    if i < 216 then Color(LEVELS[i / 36], LEVELS[i / 6 % 6], LEVELS[i % 6])
    else
      var v := ((i - 216) * 255 + 19) / 39;
      Color(v, v, v)
  }

  function Palette(): (r: seq<Color>)
    ensures |r| == 256 && forall i | 0 <= i < 256 :: r[i] == PaletteColor(i)
  {
    seq(256, i requires 0 <= i < 256 => PaletteColor(i))
  }

  /** make_sixel_palette */
  method MakePalette() returns (palette: seq<Color>)
    ensures palette == Palette()
  {
    hide PaletteColor;
    palette := [];
    var red := 0;
    while red < 6
      invariant 0 <= red <= 6 && palette == Palette()[..36 * red]
    {
      var green := 0;
      while green < 6
        invariant 0 <= green <= 6 && palette == Palette()[..36 * red + 6 * green]
      {
        var blue := 0;
        while blue < 6
          invariant 0 <= blue <= 6 && palette == Palette()[..36 * red + 6 * green + blue]
        {
          CubeColor(red, green, blue);
          PaletteNext(36 * red + 6 * green + blue);
          palette := palette + [Color(LEVELS[red], LEVELS[green], LEVELS[blue])];
          blue := blue + 1;
        }
        green := green + 1;
      }
      red := red + 1;
    }
    var index := 0;
    while index < 40
      invariant 0 <= index <= 40 && palette == Palette()[..216 + index]
    {
      var value := (index * 255 + 19) / 39;
      GreyColor(index);
      PaletteNext(216 + index);
      palette := palette + [Color(value, value, value)];
      index := index + 1;
    }
  }

  lemma PaletteNext(n: nat)
    requires n < 256
    ensures Palette()[..n + 1] == Palette()[..n] + [Palette()[n]]
  {
    hide PaletteColor;
  }

  lemma GreyColor(index: nat)
    requires index < 40
    ensures var v := (index * 255 + 19) / 39; Palette()[216 + index] == Color(v, v, v)
  {
  }

  lemma CubeIndex(red: nat, green: nat, blue: nat, i: nat)
    requires red < 6 && green < 6 && blue < 6 && i == 36 * red + 6 * green + blue
    ensures i < 216 && i / 36 == red && i / 6 % 6 == green && i % 6 == blue
  {
    assert i / 6 == 6 * red + green;
  }

  lemma CubeColor(red: nat, green: nat, blue: nat)
    requires red < 6 && green < 6 && blue < 6
    ensures Palette()[36 * red + 6 * green + blue] == Color(LEVELS[red], LEVELS[green], LEVELS[blue])
  {
    CubeIndex(red, green, blue, 36 * red + 6 * green + blue);
  }

  lemma PaletteIsBytes(i: nat)
    requires i < 256
    ensures IsByteColor(Palette()[i])
  {
  }

  function Square(d: int): int { d * d }

  function Distance(a: Color, b: Color): int {
    Square(b.red - a.red) + Square(b.green - a.green) + Square(b.blue - a.blue)
  }

  /** best is the first of the nearest colours. */
  predicate IsNearest(palette: seq<Color>, c: Color, best: int) {
    && 0 <= best < |palette|
    && (forall k | 0 <= k < |palette| :: Distance(palette[best], c) <= Distance(palette[k], c))
    && (forall k | 0 <= k < best :: Distance(palette[best], c) < Distance(palette[k], c))
  }

  /** The cube has equal steps from 0 to 255 in each channel, and the greys are the nearest to 40 equal steps. */
  lemma PaletteIs(red: nat, green: nat, blue: nat, j: nat)
    requires red < 6 && green < 6 && blue < 6 && j < 40
    ensures Palette()[36 * red + 6 * green + blue] == Color(51 * red, 51 * green, 51 * blue)
    ensures
      var c := Palette()[216 + j];
      c.red == c.green == c.blue && -39 <= 2 * (39 * c.red - 255 * j) <= 39
  {
    hide PaletteColor;
    CubeColor(red, green, blue);
    GreyColor(j);
  }

  predicate IsByteColor(c: Color) {
    0 <= c.red < 256 && 0 <= c.green < 256 && 0 <= c.blue < 256
  }

  lemma DistanceRange(a: Color, b: Color)
    requires IsByteColor(a) && IsByteColor(b)
    ensures 0 <= Distance(a, b) < 0x7FFFFFFF
    ensures Distance(a, b) == 0 ==> a == b
  {
    SquareRange(b.red - a.red);
    SquareRange(b.green - a.green);
    SquareRange(b.blue - a.blue);
  }

  lemma DistanceIs(a: Color, b: Color)
    ensures Distance(a, b) ==
      (a.red - b.red) * (a.red - b.red) + (a.green - b.green) * (a.green - b.green) +
      (a.blue - b.blue) * (a.blue - b.blue)
  {
    SquareOfNegative(b.red - a.red);
    SquareOfNegative(b.green - a.green);
    SquareOfNegative(b.blue - a.blue);
  }

  lemma SquareOfNegative(d: int)
    ensures Square(d) == (-d) * (-d)
  {
  }

  lemma SmallSquare(d: int)
    requires -25 <= d <= 25
    ensures Square(d) <= 625
  {
  }

  /** Some level is within 25. */
  lemma NearestLevel(v: int) returns (n: nat)
    requires 0 <= v < 256
    ensures n < 6 && -25 <= 51 * n - v <= 25
  {
    n := (v + 25) / 51;
  }

  /** The chosen colour is as near as one that is within 25 in every channel. */
  lemma NearestIsClose(c: Color, best: int)
    requires IsByteColor(c) && IsNearest(Palette(), c, best)
    ensures 0 <= best < 256 && Distance(Palette()[best], c) <= 3 * 625
  {
    hide PaletteColor, Square;
    var r := NearestLevel(c.red);
    var g := NearestLevel(c.green);
    var b := NearestLevel(c.blue);
    PaletteIs(r, g, b, 0);
    SmallSquare(c.red - 51 * r);
    SmallSquare(c.green - 51 * g);
    SmallSquare(c.blue - 51 * b);
    assert Distance(Palette()[36 * r + 6 * g + b], c) <= 3 * 625;
  }

  lemma SquareRange(d: int)
    requires -256 < d < 256
    ensures 0 <= Square(d) <= 65025 && (Square(d) == 0 ==> d == 0)
  {
    assert 0 <= d ==> d * d <= 255 * d;
    assert d < 0 ==> d * d <= -255 * d;
  }

  method NearestColor(palette: seq<Color>, c: Color) returns (best: int)
    requires |palette| > 0 && IsByteColor(c) && forall k | 0 <= k < |palette| :: IsByteColor(palette[k])
    ensures IsNearest(palette, c, best)
  {
    hide Distance, Square;
    best := 0;
    var bestDistance := 0x7FFFFFFF;
    var index := 0;
    while index < |palette|
      invariant 0 <= index <= |palette| && 0 <= best < |palette|
      invariant bestDistance == if index == 0 then 0x7FFFFFFF else Distance(palette[best], c)
      invariant index == 0 || best < index
      invariant forall k | 0 <= k < index :: Distance(palette[best], c) <= Distance(palette[k], c)
      invariant forall k | 0 <= k < best :: Distance(palette[best], c) < Distance(palette[k], c)
      invariant best == 0 || bestDistance != 0
    {
      var distance := Distance(palette[index], c);
      DistanceRange(palette[index], c);
      if distance < bestDistance {
        bestDistance := distance;
        best := index;
        if distance == 0 {
          forall k | 0 <= k < |palette| ensures 0 <= Distance(palette[k], c) {
            DistanceRange(palette[k], c);
          }
          return;
        }
      }
      index := index + 1;
    }
  }

  // ---- Indexed pixels ----------------------------------------------------------

  function ColorOf(rgba: seq<byte>, k: nat): Color
    requires 4 * k + 3 < |rgba|
  {
    Color(rgba[4 * k], rgba[4 * k + 1], rgba[4 * k + 2])
  }

  /** The palette index of pixel k, -1 when it is fully transparent. */
  predicate IsIndex(rgba: seq<byte>, k: nat, index: int)
    requires 4 * k + 3 < |rgba|
  {
    if rgba[4 * k + 3] == 0 then index == -1 else IsNearest(Palette(), ColorOf(rgba, k), index)
  }

  /** One index for every pixel. */
  predicate Indexes(image: Image, indices: seq<int>)
    requires Images.Valid(image)
  {
    && 4 * |indices| == |image.rgba|
    && forall k | 0 <= k < |indices| :: IsIndex(image.rgba, k, indices[k])
  }

  method PixelIndex(rgba: seq<byte>, k: nat, palette: seq<Color>) returns (index: int)
    requires 4 * k + 3 < |rgba| && palette == Palette()
    ensures IsIndex(rgba, k, index)
  {
    hide IsNearest, PaletteColor;
    if rgba[4 * k + 3] == 0 {
      return -1;
    }
    forall i | 0 <= i < |palette| ensures IsByteColor(palette[i]) {
      PaletteIsBytes(i);
    }
    index := NearestColor(palette, ColorOf(rgba, k));
  }

  /** The first n pixels have their index. */
  predicate IndexedUpTo(rgba: seq<byte>, indices: seq<int>, n: int)
    requires n <= |indices| && 4 * |indices| <= |rgba|
  {
    forall k | 0 <= k < n :: IsIndex(rgba, k, indices[k])
  }

  lemma IndexedNext(rgba: seq<byte>, indices: seq<int>, n: nat, index: int)
    requires n < |indices| && 4 * |indices| <= |rgba| && IndexedUpTo(rgba, indices, n) && IsIndex(rgba, n, index)
    ensures IndexedUpTo(rgba, indices[n := index], n + 1)
  {
  }

  lemma AllIndexed(image: Image, indices: seq<int>)
    requires Images.Valid(image) && 4 * |indices| == |image.rgba| && IndexedUpTo(image.rgba, indices, |indices|)
    ensures Indexes(image, indices)
  {
  }

  method IndexPixels(image: Image, palette: seq<Color>) returns (indices: array<int>)
    requires Images.Valid(image) && palette == Palette()
    ensures fresh(indices) && Indexes(image, indices[..])
  {
    hide IsIndex;
    PixelCount(image);
    var w: int, h: int := image.width, image.height;
    indices := new int[w * h](_ => -1);
    var y := 0;
    assert IndexedUpTo(image.rgba, indices[..], y * w);
    hide IndexedUpTo;
    while y < h
      invariant 0 <= y <= h && 0 <= y * w <= w * h
      invariant IndexedUpTo(image.rgba, indices[..], y * w)
    {
      var x := 0;
      RowEnd(y, w, h);
      while x < w
        invariant 0 <= x <= w
        invariant IndexedUpTo(image.rgba, indices[..], y * w + x)
      {
        InRow(x, y, w, h);
        var index := PixelIndex(image.rgba, y * w + x, palette);
        IndexedNext(image.rgba, indices[..], y * w + x, index);
        indices[y * w + x] := index;
        x := x + 1;
      }
      y := y + 1;
    }
    assert y * w == w * h;
    AllIndexed(image, indices[..]);
  }

  lemma RowEnd(y: int, w: int, h: int)
    requires 0 <= y < h && 0 < w
    ensures 0 <= y * w && y * w + w == (y + 1) * w <= w * h
  {
    assert (y + 1) * w <= h * w;
  }

  // ---- Bands --------------------------------------------------------------------

  method AppendSixelRun(out: seq<byte>, value: int, count: int) returns (r: seq<byte>)
    requires count > 0 ==> 0 <= value < 64
    requires count < 0x1_0000_0000_0000_0000
    ensures r == out + if count > 0 then Encode(Repeat(count, value)) else []
  {
    if count <= 0 {
      return out;
    }
    r := out;
    if count > 1 {
      r := r + [33];
      r := AppendNumber(r, count);
    }
    r := r + [63 + value];
  }

  /** Some pixel of the band above the given row has the colour. */
  predicate UsedAbove(p: Picture, band: nat, row: nat, color: int)
    requires SixelBands.Valid(p) && row <= p.height
  {
    exists x, y :: 0 <= x < p.width && 6 * band <= y < row && At(p, x, y) == color
  }

  predicate UsedLeft(p: Picture, row: nat, end: nat, color: int)
    requires SixelBands.Valid(p) && row < p.height && end <= p.width
  {
    exists x :: 0 <= x < end && At(p, x, row) == color
  }

  lemma RowIsUsed(p: Picture, band: nat, row: nat, color: int)
    requires SixelBands.Valid(p) && 6 * band <= row < p.height
    ensures UsedAbove(p, band, row + 1, color) <==> UsedAbove(p, band, row, color) || UsedLeft(p, row, p.width, color)
  {
    hide At;
    if UsedAbove(p, band, row, color) {
      var x, y :| 0 <= x < p.width && 6 * band <= y < row && At(p, x, y) == color;
      assert UsedAbove(p, band, row + 1, color);
    }
    if UsedAbove(p, band, row + 1, color) {
      var x, y :| 0 <= x < p.width && 6 * band <= y < row + 1 && At(p, x, y) == color;
      if y == row {
        assert At(p, x, row) == color;
      }
    }
  }

  lemma PixelIsUsed(p: Picture, row: nat, x: nat, color: int)
    requires SixelBands.Valid(p) && Inside(p, x, row)
    ensures UsedLeft(p, row, x + 1, color) <==> UsedLeft(p, row, x, color) || At(p, x, row) == color
  {
    hide At;
  }

  lemma NoneLeft(p: Picture, row: nat)
    requires SixelBands.Valid(p) && row < p.height
    ensures forall color :: !UsedLeft(p, row, 0, color)
  {
  }

  lemma NoneAbove(p: Picture, band: nat)
    requires SixelBands.Valid(p) && 6 * band < p.height
    ensures forall color: nat :: !UsedAbove(p, band, 6 * band, color)
  {
  }

  lemma AllAbove(p: Picture, band: nat)
    requires SixelBands.Valid(p) && 6 * band < p.height
    ensures forall color: nat :: UsedAbove(p, band, 6 * band + RowsOf(p, band), color) == Used(p, band, color)
  {
  }

  lemma AtIs(p: Picture, x: nat, y: nat)
    requires SixelBands.Valid(p) && Inside(p, x, y)
    ensures y * p.width + x < |p.indices| && p.indices[y * p.width + x] == At(p, x, y)
  {
    InPicture(p, x, y);
  }

  /** used marks the colours of the band. */
  method MarkUsed(p: Picture, indices: array<int>, band: nat) returns (used: array<bool>)
    requires SixelBands.Valid(p) && 6 * band < p.height && indices[..] == p.indices
    ensures fresh(used) && used.Length == 256
    ensures forall color | 0 <= color < 256 :: used[color] == Used(p, band, color)
  {
    hide At, UsedAbove, UsedLeft;
    used := new bool[256](_ => false);
    var row := 6 * band;
    NoneAbove(p, band);
    while row < 6 * band + 6 && row < p.height
      invariant 6 * band <= row <= 6 * band + RowsOf(p, band)
      invariant forall color | 0 <= color < 256 :: used[color] == UsedAbove(p, band, row, color)
    {
      MarkRow(p, indices, row, used);
      forall color | 0 <= color < 256 { RowIsUsed(p, band, row, color); }
      row := row + 1;
    }
    AllAbove(p, band);
  }

  method MarkRow(p: Picture, indices: array<int>, row: nat, used: array<bool>)
    requires SixelBands.Valid(p) && row < p.height && indices[..] == p.indices && used.Length == 256
    modifies used
    ensures forall color | 0 <= color < 256 :: used[color] == (old(used[color]) || UsedLeft(p, row, p.width, color))
  {
    hide At, UsedLeft;
    var x := 0;
    NoneLeft(p, row);
    while x < p.width
      invariant 0 <= x <= p.width
      invariant forall color | 0 <= color < 256 :: used[color] == (old(used[color]) || UsedLeft(p, row, x, color))
    {
      AtIs(p, x, row);
      var index := indices[row * p.width + x];
      forall color | 0 <= color < 256 { PixelIsUsed(p, row, x, color); }
      if index >= 0 {
        used[index] := true;
      }
      x := x + 1;
    }
  }

  lemma ColumnIs(p: Picture, band: nat, x: nat, color: nat)
    requires SixelBands.Valid(p) && 6 * band < p.height && x < p.width
    ensures Column(p, band, x, color) == MaskOf(ColumnBits(p, band, x, color))
  {
    hide MaskOf, ColumnBits;
  }

  lemma NoMask()
    ensures MaskOf([]) == 0
  {
  }

  /** mask |= 1 << bit sets a bit that was clear. */
  method ColumnMask(p: Picture, indices: array<int>, band: nat, x: nat, color: nat) returns (mask: nat)
    requires SixelBands.Valid(p) && 6 * band < p.height && x < p.width && indices[..] == p.indices
    ensures mask == Column(p, band, x, color)
  {
    hide Column, MaskOf, Pow2, At;
    ghost var bits := ColumnBits(p, band, x, color);
    mask := 0;
    NoMask();
    var bit := 0;
    while bit < 6
      invariant 0 <= bit <= |bits| && mask == MaskOf(bits[..bit])
    {
      var row := 6 * band + bit;
      if row >= p.height {
        break;
      }
      MaskAppend(bits[..bit], bits[bit]);
      assert bits[..bit + 1] == bits[..bit] + [bits[bit]];
      AtIs(p, x, row);
      if indices[row * p.width + x] == color {
        mask := mask + Pow2(bit);
      }
      bit := bit + 1;
    }
    assert bits[..bit] == bits;
    ColumnIs(p, band, x, color);
  }

  /** The masks of a pass, of which the last count are not written yet. */
  lemma RunStarts(value: nat, count: nat, rest: seq<nat>)
    requires count > 0 && (rest != [] ==> rest[0] != value)
    ensures Runs(Same(value, count) + rest) == [Repeat(count, value)] + Runs(rest)
  {
    var masks := Same(value, count) + rest;
    var n := RunLength(masks);
    assert forall k | 0 <= k < count :: masks[k] == value;
    assert rest != [] ==> masks[count] == rest[0];
    assert n == count;
    assert masks[count..] == rest;
  }

  function Same(value: nat, count: nat): seq<nat> {
    seq(count, _ => value)
  }

  /** The invariant of a pass: done is written, the current run and the columns from x on are not. */
  ghost predicate PassInvariant(masks: seq<nat>, done: seq<Token>, value: int, count: int, x: nat)
    requires x <= |masks|
  {
    && 0 <= count <= x && (count == 0 ==> x == 0) && (count > 0 ==> 0 <= value < 64)
    && AllWritable(done)
    && Runs(masks) == done + Runs((if count > 0 then Same(value, count) else []) + masks[x..])
  }

  lemma PassStarts(masks: seq<nat>)
    ensures PassInvariant(masks, [], -1, 0, 0)
  {
    assert [] + masks[0..] == masks;
  }

  /** Another column with the same mask. */
  lemma RunGrows(masks: seq<nat>, done: seq<Token>, value: int, count: int, x: nat)
    requires x < |masks| && PassInvariant(masks, done, value, count, x) && masks[x] == value
    requires masks[x] < 64
    ensures PassInvariant(masks, done, value, count + 1, x + 1)
  {
    hide Runs;
    var before := if count > 0 then Same(value, count) else [];
    assert before + masks[x..] == Same(value, count + 1) + masks[x + 1..];
  }

  /** A column with another mask ends the run. */
  lemma RunEnds(masks: seq<nat>, done: seq<Token>, value: int, count: int, x: nat) returns (more: seq<Token>)
    requires x <= |masks| && PassInvariant(masks, done, value, count, x)
    requires x < |masks| ==> masks[x] != value && masks[x] < 64
    ensures more == done + if count > 0 then [Repeat(count, value)] else []
    ensures AllWritable(more) && Runs(masks) == more + Runs(masks[x..])
    ensures x < |masks| ==> PassInvariant(masks, more, masks[x], 1, x + 1)
  {
    hide Runs;
    more := done + if count > 0 then [Repeat(count, value)] else [];
    if count > 0 {
      RunStarts(value, count, masks[x..]);
      assert done + ([Repeat(count, value)] + Runs(masks[x..])) == more + Runs(masks[x..]);
    } else {
      assert [] + masks[x..] == masks[x..];
    }
    if x < |masks| {
      assert masks[x..] == Same(masks[x], 1) + masks[x + 1..];
    }
  }

  lemma SerializeMore(out: seq<byte>, done: seq<Token>, t: Token)
    requires AllWritable(done) && Writable(t)
    ensures out + Serialize(done) + Encode(t) == out + Serialize(done + [t])
  {
    hide Encode, Serialize;
    SerializeConcat(done, [t]);
    OneSerialized(t);
    assert out + Serialize(done) + Encode(t) == out + (Serialize(done) + Encode(t));
  }

  lemma OneSerialized(t: Token)
    requires Writable(t)
    ensures Serialize([t]) == Encode(t)
  {
    assert [t][1..] == [];
  }

  method EndRun(out: seq<byte>, ghost start: seq<byte>, ghost masks: seq<nat>, ghost done: seq<Token>,
                value: int, count: int, x: nat)
    returns (r: seq<byte>, ghost more: seq<Token>)
    requires x <= |masks| < 0x8000_0000 && PassInvariant(masks, done, value, count, x)
    requires x < |masks| ==> masks[x] != value && masks[x] < 64
    requires AllWritable(done) && out == start + Serialize(done)
    ensures AllWritable(more) && r == start + Serialize(more) && Runs(masks) == more + Runs(masks[x..])
    ensures x < |masks| ==> PassInvariant(masks, more, masks[x], 1, x + 1)
  {
    hide Encode, Serialize, Runs;
    r := AppendSixelRun(out, value, count);
    more := RunEnds(masks, done, value, count, x);
    if count > 0 {
      SerializeMore(start, done, Repeat(count, value));
    } else {
      assert done + [] == done;
    }
  }

  lemma FixedTokens()
    ensures Encode(Return) == [36] && Encode(NextBand) == [45]
    ensures AllWritable([NextBand]) && AllWritable([]) && Serialize([]) == []
  {
  }

  lemma PassIsWritten(out: seq<byte>, p: Picture, band: nat, color: nat, done: seq<Token>)
    requires SixelBands.Valid(p) && 6 * band < p.height && AllWritable(done) && done == Runs(Columns(p, band, color))
    ensures AllWritable(Pass(p, band, color))
    ensures out + Encode(Select(color)) + Serialize(done) + [36] == out + Serialize(Pass(p, band, color))
  {
    hide Encode, Serialize, Runs;
    FixedTokens();
    var select := [Select(color)];
    SerializeConcat(select + done, [Return]);
    SerializeConcat(select, done);
    OneSerialized(Select(color));
    OneSerialized(Return);
    assert out + Encode(Select(color)) + Serialize(done) + [36] ==
      out + (Encode(Select(color)) + Serialize(done) + [36]);
  }

  lemma NothingWritten(out: seq<byte>, masks: seq<nat>)
    ensures PassInvariant(masks, [], -1, 0, 0) && AllWritable([]) && out == out + Serialize([])
  {
    PassStarts(masks);
  }

  lemma AllWritten(masks: seq<nat>, done: seq<Token>)
    requires Runs(masks) == done + Runs(masks[|masks|..])
    ensures done == Runs(masks)
  {
    assert masks[|masks|..] == [] && Runs([]) == [];
  }

  /** One more column: it belongs to the current run, or ends it and starts the next. */
  method NextColumn(out: seq<byte>, ghost start: seq<byte>, ghost masks: seq<nat>, ghost done: seq<Token>,
                    mask: nat, value: int, count: int, x: nat)
    returns (r: seq<byte>, nextValue: int, nextCount: int, ghost more: seq<Token>)
    requires x < |masks| < 0x8000_0000 && PassInvariant(masks, done, value, count, x) && mask == masks[x] < 64
    requires AllWritable(done) && out == start + Serialize(done)
    ensures PassInvariant(masks, more, nextValue, nextCount, x + 1)
    ensures AllWritable(more) && r == start + Serialize(more)
  {
    hide PassInvariant, AllWritable, Serialize, Runs;
    if mask == value {
      RunGrows(masks, done, value, count, x);
      return out, value, count + 1, done;
    }
    r, more := EndRun(out, start, masks, done, value, count, x);
    nextValue, nextCount := mask, 1;
  }

  /** The run-length encoded masks of a colour. */
  method AppendRuns(out: seq<byte>, p: Picture, indices: array<int>, band: nat, color: nat)
    returns (r: seq<byte>, ghost done: seq<Token>)
    requires SixelBands.Valid(p) && 6 * band < p.height && p.width < 0x8000_0000 && color < 256
    requires indices[..] == p.indices
    ensures AllWritable(done) && done == Runs(Columns(p, band, color)) && r == out + Serialize(done)
  {
    hide *;
    ghost var masks := Columns(p, band, color);
    r := out;
    var runValue: int, runCount: int := -1, 0;
    done := [];
    NothingWritten(out, masks);
    var x := 0;
    while x < p.width
      invariant 0 <= x <= p.width && PassInvariant(masks, done, runValue, runCount, x)
      invariant AllWritable(done) && r == out + Serialize(done)
    {
      var mask := ColumnMask(p, indices, band, x, color);
      r, runValue, runCount, done := NextColumn(r, out, masks, done, mask, runValue, runCount, x);
      x := x + 1;
    }
    r, done := EndRun(r, out, masks, done, runValue, runCount, x);
    AllWritten(masks, done);
  }

  method AppendPass(out: seq<byte>, p: Picture, indices: array<int>, band: nat, color: nat) returns (r: seq<byte>)
    requires SixelBands.Valid(p) && 6 * band < p.height && p.width < 0x8000_0000 && color < 256
    requires indices[..] == p.indices
    ensures AllWritable(Pass(p, band, color)) && r == out + Serialize(Pass(p, band, color))
  {
    assert Encode(Select(color)) == [35] + Dec(color);
    hide Encode, Serialize, Runs, Columns, AllWritable, Pass, Dec;
    r := out + [35];
    r := AppendNumber(r, color);
    assert r == out + Encode(Select(color));
    ghost var done;
    r, done := AppendRuns(r, p, indices, band, color);
    r := r + [36];
    PassIsWritten(out, p, band, color, done);
  }

  lemma {:induction false} PassesWritable(p: Picture, band: nat, color: nat)
    requires SixelBands.Valid(p) && 6 * band < p.height && color <= 256
    ensures AllWritable(Passes(p, band, color))
  {
    PassesPaint(p, band, color, Pen(0, band, 0, -1), 0, 0);
  }

  /** One step of the colour loop. */
  lemma PassIsNext(out: seq<byte>, p: Picture, band: nat, color: nat)
    requires SixelBands.Valid(p) && 6 * band < p.height && color < 256
    ensures AllWritable(Passes(p, band, color)) && AllWritable(Passes(p, band, color + 1)) &&
      AllWritable(Pass(p, band, color))
    ensures out + Serialize(Passes(p, band, color)) ==
      (if Used(p, band, color) then out + Serialize(Pass(p, band, color)) else out) +
        Serialize(Passes(p, band, color + 1))
  {
    hide Pass, Serialize, Used, AllWritable;
    var pass, rest := Pass(p, band, color), Passes(p, band, color + 1);
    PassesWritable(p, band, color);
    PassesWritable(p, band, color + 1);
    PassPaints(p, band, color, Pen(0, band, 0, -1), 0, 0);
    if Used(p, band, color) {
      SerializeConcat(pass, rest);
      assert out + (Serialize(pass) + Serialize(rest)) == out + Serialize(pass) + Serialize(rest);
    } else {
      assert [] + rest == rest;
    }
  }

  method AppendPasses(out: seq<byte>, p: Picture, indices: array<int>, band: nat) returns (r: seq<byte>)
    requires SixelBands.Valid(p) && 6 * band < p.height && p.width < 0x8000_0000
    requires indices[..] == p.indices
    ensures AllWritable(Passes(p, band, 0)) && r == out + Serialize(Passes(p, band, 0))
  {
    assert Passes(p, band, 256) == [] && AllWritable([]) && Serialize([]) == [];
    hide Pass, Passes, Serialize, Used, AllWritable;
    r := out;
    PassesWritable(p, band, 0);
    var used := MarkUsed(p, indices, band);
    var color := 0;
    while color < 256
      invariant 0 <= color <= 256 && AllWritable(Passes(p, band, color))
      invariant forall c | 0 <= c < 256 :: used[c] == Used(p, band, c)
      invariant r + Serialize(Passes(p, band, color)) == out + Serialize(Passes(p, band, 0))
    {
      PassIsNext(r, p, band, color);
      if used[color] {
        r := AppendPass(r, p, indices, band, color);
      }
      color := color + 1;
    }
  }

  lemma FromWritable(p: Picture, band: nat)
    requires SixelBands.Valid(p) && band <= Bands(p)
    ensures AllWritable(From(p, band))
  {
    FromPaints(p, band, Pen(0, band, 0, -1), 0, 0);
  }

  /** One step of the band loop. */
  lemma BandIsWritten(out: seq<byte>, p: Picture, band: nat)
    requires SixelBands.Valid(p) && band < Bands(p)
    ensures AllWritable(Passes(p, band, 0)) && AllWritable(From(p, band)) && AllWritable(From(p, band + 1))
    ensures out + Serialize(From(p, band)) ==
      out + Serialize(Passes(p, band, 0)) + (if band + 1 < Bands(p) then [45] else []) + Serialize(From(p, band + 1))
  {
    hide Passes, Serialize, AllWritable, Encode;
    FixedTokens();
    var next := if band + 1 < Bands(p) then [NextBand] else [];
    var passes := Passes(p, band, 0);
    var rest := From(p, band + 1);
    PassesWritable(p, band, 0);
    FromWritable(p, band);
    FromWritable(p, band + 1);
    SerializeConcat(passes, next);
    SerializeConcat(passes + next, rest);
    OneSerialized(NextBand);
    var a, b, c := Serialize(passes), Serialize(next), Serialize(rest);
    assert out + (a + b + c) == out + a + b + c;
  }

  method AppendBands(out: seq<byte>, p: Picture, indices: array<int>) returns (r: seq<byte>)
    requires SixelBands.Valid(p) && p.width < 0x8000_0000 && indices[..] == p.indices
    ensures AllWritable(From(p, 0)) && r == out + Serialize(From(p, 0))
  {
    assert From(p, Bands(p)) == [] && Serialize([]) == [];
    hide Passes, Serialize, From;
    r := out;
    FromWritable(p, 0);
    var bands := (p.height - 1) / 6 + 1;
    var band := 0;
    while band < bands
      invariant 0 <= band <= bands && AllWritable(From(p, band))
      invariant r + Serialize(From(p, band)) == out + Serialize(From(p, 0))
    {
      BandIsWritten(r, p, band);
      r := AppendPasses(r, p, indices, band);
      if band + 1 < bands {
        r := r + [45];
      }
      band := band + 1;
    }
  }

  /**
    What a terminal must do for the image: take the number of the nearest palette colour, nothing where
    transparent.
   */
  predicate Shows(image: Image, ts: seq<Token>, x: nat, y: nat)
    requires Images.Valid(image)
  {
    if x < image.width && y < image.height then
      && 0 <= y * image.width + x && 4 * (y * image.width + x) + 3 < |image.rgba|
      && IsIndex(image.rgba, y * image.width + x, Painted(ts, x, y))
    else Painted(ts, x, y) == -1
  }

  /** A terminal draws each pixel of the data as wide and as tall as the raster attributes say. */
  function DrawnAt(d: Data, x: nat, y: nat): int
    requires d.Data? && d.vertical > 0 && d.horizontal > 0
  {
    Painted(d.tokens, x / d.horizontal, y / d.vertical)
  }

  /** What the terminal draws at (x, y) is what the image has there: nothing is stretched or left out. */
  predicate Draws(image: Image, d: Data, x: nat, y: nat)
    requires Images.Valid(image)
  {
    && d.Data? && d.vertical > 0 && d.horizontal > 0
    && if x < image.width && y < image.height then
         && 0 <= y * image.width + x && 4 * (y * image.width + x) + 3 < |image.rgba|
         && IsIndex(image.rgba, y * image.width + x, DrawnAt(d, x, y))
       else DrawnAt(d, x, y) == -1
  }

  lemma SquarePixelsDraw(image: Image, d: Data, x: nat, y: nat)
    requires Images.Valid(image) && d.Data? && d.vertical == d.horizontal == 1 && Shows(image, d.tokens, x, y)
    ensures Draws(image, d, x, y)
  {
    hide IsIndex, Painted;
  }

  // ---- Colour registers ----------------------------------------------------------------

  /** What the colour registers of a terminal hold; no token of the output defines one. */
  type Registers = nat -> Color

  /** What is seen of a pixel. */
  datatype Seen = Untouched | Coloured(c: Color)

  function SeenAt(ts: seq<Token>, registers: Registers, x: nat, y: nat): Seen {
    var i := Painted(ts, x, y);
    if i < 0 then Untouched else Coloured(registers(i))
  }

  /** What should be seen of pixel k: its nearest palette colour, or nothing where it is transparent. */
  ghost predicate IsWanted(rgba: seq<byte>, k: nat, seen: Seen)
    requires 4 * k + 3 < |rgba|
  {
    exists i: int {:trigger IsIndex(rgba, k, i)} ::
      IsIndex(rgba, k, i) && seen == if 0 <= i < 256 then Coloured(PaletteColor(i)) else Untouched
  }

  /** The whole image is seen in the colours of the palette. */
  ghost predicate SeenRight(image: Image, ts: seq<Token>, registers: Registers)
    requires Images.Valid(image)
  {
    forall x: nat, y: nat | x < image.width && y < image.height ::
      && 0 <= y * image.width + x && 4 * (y * image.width + x) + 3 < |image.rgba|
      && IsWanted(image.rgba, y * image.width + x, SeenAt(ts, registers, x, y))
  }

  /** Every register that pixels of the image refer to holds the palette colour of its number. */
  ghost predicate Loaded(image: Image, registers: Registers) {
    forall k: nat, i: nat {:trigger IsIndex(image.rgba, k, i)} |
      4 * k + 3 < |image.rgba| && i < 256 && IsIndex(image.rgba, k, i) :: registers(i) == PaletteColor(i)
  }

  lemma NearestIsUnique(palette: seq<Color>, c: Color, a: int, b: int)
    requires IsNearest(palette, c, a) && IsNearest(palette, c, b)
    ensures a == b
  {
    hide Distance;
    assert Distance(palette[a], c) <= Distance(palette[b], c) && Distance(palette[b], c) <= Distance(palette[a], c);
  }

  lemma IndexIsUnique(rgba: seq<byte>, k: nat, a: int, b: int)
    requires 4 * k + 3 < |rgba| && IsIndex(rgba, k, a) && IsIndex(rgba, k, b)
    ensures a == b && -1 <= a < 256
  {
    hide IsNearest;
    if rgba[4 * k + 3] != 0 {
      NearestIsUnique(Palette(), ColorOf(rgba, k), a, b);
      assert 0 <= a < 256 by { NearestInRange(Palette(), ColorOf(rgba, k), a); }
    }
  }

  lemma NearestInRange(palette: seq<Color>, c: Color, a: int)
    requires IsNearest(palette, c, a)
    ensures 0 <= a < |palette|
  {
  }

  /** One pixel is seen right if and only if its register holds its colour. */
  lemma PixelSeen(image: Image, ts: seq<Token>, registers: Registers, x: nat, y: nat)
    requires Images.Valid(image) && Shows(image, ts, x, y) && x < image.width && y < image.height
    ensures
      var k := y * image.width + x;
      var i := Painted(ts, x, y);
      && -1 <= i < 256 && IsIndex(image.rgba, k, i)
      && (IsWanted(image.rgba, k, SeenAt(ts, registers, x, y)) <==> i == -1 || registers(i) == PaletteColor(i))
  {
    hide IsIndex, Painted, PaletteColor;
    var k := y * image.width + x;
    var i := Painted(ts, x, y);
    IndexIsUnique(image.rgba, k, i, i);
    if IsWanted(image.rgba, k, SeenAt(ts, registers, x, y)) {
      var j: int :| IsIndex(image.rgba, k, j) &&
        SeenAt(ts, registers, x, y) == if 0 <= j < 256 then Coloured(PaletteColor(j)) else Untouched;
      IndexIsUnique(image.rgba, k, i, j);
    }
  }

  /** The column and the row of pixel k. */
  lemma Coordinates(k: nat, w: int, h: int) returns (x: nat, y: nat)
    requires w > 0 && h > 0 && k < w * h
    ensures x < w && y < h && y * w + x == k
  {
    x, y := k % w, k / w;
    assert k == y * w + x;
    assert h <= y ==> h * w <= y * w;
  }

  /** An image is seen right if and only if the registers it uses hold the palette. */
  lemma SeenRightIff(image: Image, ts: seq<Token>, registers: Registers)
    requires Images.Valid(image) && forall x: nat, y: nat :: Shows(image, ts, x, y)
    ensures SeenRight(image, ts, registers) <==> Loaded(image, registers)
  {
    hide IsIndex, Painted, PaletteColor, SeenAt, IsWanted;
    PixelCount(image);
    forall x: nat, y: nat | x < image.width && y < image.height
      ensures
        var k := y * image.width + x;
        var i := Painted(ts, x, y);
        && 0 <= k && 4 * k + 3 < |image.rgba| && -1 <= i < 256 && IsIndex(image.rgba, k, i)
        && (IsWanted(image.rgba, k, SeenAt(ts, registers, x, y)) <==> i == -1 || registers(i) == PaletteColor(i))
    {
      assert Shows(image, ts, x, y);
      PixelSeen(image, ts, registers, x, y);
    }
    if SeenRight(image, ts, registers) {
      forall k: nat, i: nat | 4 * k + 3 < |image.rgba| && i < 256 && IsIndex(image.rgba, k, i)
        ensures registers(i) == PaletteColor(i)
      {
        var x, y := Coordinates(k, image.width, image.height);
        assert IsWanted(image.rgba, y * image.width + x, SeenAt(ts, registers, x, y));
        IndexIsUnique(image.rgba, k, i, Painted(ts, x, y));
      }
    }
  }

  /** The palette holds no equal colour before this one; black, say, is in the cube and again among the greys. */
  predicate IsOwn(i: nat)
    requires i < 256
  {
    forall k | 0 <= k < i :: Palette()[k] != Palette()[i]
  }

  lemma OwnIsNearest(i: nat)
    requires i < 256
    ensures IsNearest(Palette(), Palette()[i], i) <==> IsOwn(i)
  {
    hide PaletteColor, Square;
    forall k | 0 <= k < 256
      ensures Distance(Palette()[k], Palette()[i]) >= 0
      ensures Distance(Palette()[k], Palette()[i]) == 0 <==> Palette()[k] == Palette()[i]
    {
      PaletteIsBytes(k);
      PaletteIsBytes(i);
      DistanceRange(Palette()[k], Palette()[i]);
      SameDistance(Palette()[i]);
    }
  }

  lemma SameDistance(c: Color)
    ensures Distance(c, c) == 0
  {
  }

  lemma NearestIsOwn(c: Color, i: nat)
    requires IsNearest(Palette(), c, i)
    ensures i < 256 && IsOwn(i)
  {
    hide PaletteColor, Distance;
  }

  /** A single opaque pixel of a palette colour. */
  function OnePixel(i: nat): Image
    requires i < 256
  {
    PaletteIsBytes(i);
    var c := Palette()[i];
    Image(1, 1, [c.red, c.green, c.blue, 255])
  }

  /** Registers show every image right if and only if they hold every colour of the palette under its first number. */
  lemma RegistersForAll(registers: Registers)
    ensures
      (forall image: Image {:trigger Loaded(image, registers)} | Images.Valid(image) :: Loaded(image, registers)) <==>
      (forall i: nat {:trigger IsOwn(i)} | i < 256 && IsOwn(i) :: registers(i) == PaletteColor(i))
  {
    hide PaletteColor, IsNearest, IsOwn;
    if forall image: Image {:trigger Loaded(image, registers)} | Images.Valid(image) :: Loaded(image, registers) {
      forall i: nat | i < 256 && IsOwn(i) ensures registers(i) == PaletteColor(i) {
        OwnIsNearest(i);
        var image := OnePixel(i);
        assert Images.Valid(image) && Loaded(image, registers);
        assert ColorOf(image.rgba, 0) == Palette()[i] && IsIndex(image.rgba, 0, i);
      }
    }
    if forall i: nat {:trigger IsOwn(i)} | i < 256 && IsOwn(i) :: registers(i) == PaletteColor(i) {
      forall image: Image | Images.Valid(image) ensures Loaded(image, registers) {
        forall k: nat, i: nat | 4 * k + 3 < |image.rgba| && i < 256 && IsIndex(image.rgba, k, i)
          ensures registers(i) == PaletteColor(i)
        {
          NearestIsOwn(ColorOf(image.rgba, k), i);
        }
      }
    }
  }

  /** Register 1 of a VT340 as it comes: 20% red, 20% green, 80% blue. */
  const VT340_BLUE := Color(51, 51, 204)

  /** On such a terminal a pixel of the darkest blue of the palette is not seen right. */
  lemma DefaultRegistersFail(registers: Registers)
    requires registers(1) == VT340_BLUE
    ensures Images.Valid(OnePixel(1)) && OnePixel(1).rgba == [0, 0, 51, 255] && !Loaded(OnePixel(1), registers)
  {
    hide IsNearest;
    assert IsOwn(1);
    OwnIsNearest(1);
    var image := OnePixel(1);
    assert ColorOf(image.rgba, 0) == Palette()[1] && IsIndex(image.rgba, 0, 1);
  }

  // ---- Transparent pixels ----------------------------------------------------------------

  /**
    What the picture is drawn over: the colours that are there, the background colour, and whether
    the terminal leaves pixels without a bit alone when P2 is omitted.  A VT340 does not.
   */
  datatype Canvas = Canvas(under: (nat, nat) -> Color, background: Color, keeps: bool)

  /** P2 of 1 leaves them alone; any other sets them to the background colour. */
  predicate LeavesAlone(select: ZeroPixels, canvas: Canvas) {
    match select
    case Omitted => canvas.keeps
    case Given(n) => n == 1
  }

  /** The colour of a pixel inside the picture afterwards. */
  function Appears(select: ZeroPixels, ts: seq<Token>, registers: Registers, canvas: Canvas, x: nat, y: nat): Color {
    match SeenAt(ts, registers, x, y)
    case Coloured(c) => c
    case Untouched => if LeavesAlone(select, canvas) then canvas.under(x, y) else canvas.background
  }

  predicate IsTransparent(image: Image, x: nat, y: nat)
    requires Images.Valid(image) && x < image.width && y < image.height
  {
    PixelIsInside(image, x, y);
    image.rgba[4 * (y * image.width + x) + 3] == 0
  }

  lemma PixelIsInside(image: Image, x: nat, y: nat)
    requires Images.Valid(image) && x < image.width && y < image.height
    ensures 0 <= y * image.width + x && 4 * (y * image.width + x) + 3 < |image.rgba|
  {
    PixelCount(image);
    InRow(x, y, image.width, image.height);
  }

  /** What is under every transparent pixel is still there. */
  ghost predicate Survives(image: Image, select: ZeroPixels, ts: seq<Token>, registers: Registers, canvas: Canvas)
    requires Images.Valid(image)
  {
    forall x: nat, y: nat | x < image.width && y < image.height && IsTransparent(image, x, y) ::
      Appears(select, ts, registers, canvas, x, y) == canvas.under(x, y)
  }

  /** There is nothing to lose: the background colour is under every transparent pixel already. */
  ghost predicate OnBackground(image: Image, canvas: Canvas)
    requires Images.Valid(image)
  {
    forall x: nat, y: nat | x < image.width && y < image.height && IsTransparent(image, x, y) ::
      canvas.under(x, y) == canvas.background
  }

  lemma TransparentIsUntouched(image: Image, ts: seq<Token>, registers: Registers, x: nat, y: nat)
    requires Images.Valid(image) && x < image.width && y < image.height && Shows(image, ts, x, y)
    requires IsTransparent(image, x, y)
    ensures SeenAt(ts, registers, x, y) == Untouched
  {
    hide Painted;
  }

  lemma SurvivesIff(image: Image, select: ZeroPixels, ts: seq<Token>, registers: Registers, canvas: Canvas)
    requires Images.Valid(image) && forall x: nat, y: nat :: Shows(image, ts, x, y)
    ensures
      Survives(image, select, ts, registers, canvas) <==> LeavesAlone(select, canvas) || OnBackground(image, canvas)
  {
    hide SeenAt, LeavesAlone, IsTransparent, Shows;
    forall x: nat, y: nat | x < image.width && y < image.height && IsTransparent(image, x, y)
      ensures SeenAt(ts, registers, x, y) == Untouched
    {
      assert Shows(image, ts, x, y);
      TransparentIsUntouched(image, ts, registers, x, y);
    }
  }

  /** Over white, on a terminal like the VT340 whose background is black, a transparent pixel is lost. */
  lemma TransparencyLost(image: Image)
    requires image == Image(1, 1, [0, 0, 0, 0])
    ensures
      var canvas := Canvas((x, y) => Color(255, 255, 255), Color(0, 0, 0), false);
      Images.Valid(image) && !LeavesAlone(Omitted, canvas) && !OnBackground(image, canvas)
  {
    assert IsTransparent(image, 0, 0);
  }

  /**
    An invalid image gives nothing; otherwise a terminal that reads the output draws square pixels and
    selects the register of the nearest palette colour for every pixel, and shows the colours of the palette if and only
    if the registers it uses hold them.  What is under transparent pixels stays if and only if the
    terminal leaves them alone without being told to, or there is nothing but background.
   */
  method EncodeSixel(image: Image) returns (result: seq<byte>)
    ensures !Images.Valid(image) ==> result == []
    ensures Images.Valid(image) ==>
      && Decode(result).Data? && Decode(result).width == image.width && Decode(result).height == image.height
      && Decode(result).vertical == Decode(result).horizontal > 0
      && (forall x: nat, y: nat :: Draws(image, Decode(result), x, y))
      && (forall registers: Registers ::
            SeenRight(image, Decode(result).tokens, registers) <==> Loaded(image, registers))
      && forall registers: Registers, canvas: Canvas ::
           Survives(image, P2(result), Decode(result).tokens, registers, canvas) <==>
           canvas.keeps || OnBackground(image, canvas)
  {
    hide P2, Survives, OnBackground, Decode, Shows, Draws, SeenRight, Loaded, Serialize, From, Dec;
    result := [];
    if !Images.Valid(image) {
      return;
    }
    var palette := MakePalette();
    var indices := IndexPixels(image, palette);
    var w, h := image.width, image.height;
    var p := Picture(w, h, indices[..]);
    PictureIsValid(image, p);
    result := result + [ESC, 80, 113, 34];
    result := AppendNumber(result, 1);
    result := result + [59];
    result := AppendNumber(result, 1);
    result := result + [59];
    result := AppendNumber(result, w);
    result := result + [59];
    result := AppendNumber(result, h);
    result := AppendBands(result, p, indices);
    result := result + [ESC, 92];
    ghost var ts := From(p, 0);
    assert result == INTRODUCER + Body(w, h, ts) + TERMINATOR;
    Decodes(w, h, ts);
    forall x: nat, y: nat ensures Shows(image, ts, x, y) && Draws(image, Data(1, 1, w, h, ts), x, y) {
      PictureShows(image, p, x, y);
      SquarePixelsDraw(image, Data(1, 1, w, h, ts), x, y);
    }
    forall registers: Registers ensures SeenRight(image, ts, registers) <==> Loaded(image, registers) {
      SeenRightIff(image, ts, registers);
    }
    NoParameters(Body(w, h, ts) + TERMINATOR);
    assert result == INTRODUCER + (Body(w, h, ts) + TERMINATOR);
    forall registers: Registers, canvas: Canvas
      ensures Survives(image, Omitted, ts, registers, canvas) <==> canvas.keeps || OnBackground(image, canvas)
    {
      SurvivesIff(image, Omitted, ts, registers, canvas);
    }
  }

  lemma PictureIsValid(image: Image, p: Picture)
    requires Images.Valid(image) && p == Picture(image.width, image.height, p.indices) && Indexes(image, p.indices)
    ensures SixelBands.Valid(p)
  {
    PixelCount(image);
    forall k | 0 <= k < |p.indices| ensures -1 <= p.indices[k] < 256 {
      assert IsIndex(image.rgba, k, p.indices[k]);
    }
  }

  lemma PictureShows(image: Image, p: Picture, x: nat, y: nat)
    requires Images.Valid(image) && p == Picture(image.width, image.height, p.indices) && Indexes(image, p.indices)
    requires SixelBands.Valid(p)
    ensures Shows(image, From(p, 0), x, y)
  {
    hide IsIndex, From, Painted;
    PaintsExactly(p, x, y);
    PixelCount(image);
    if Inside(p, x, y) {
      InPicture(p, x, y);
    }
  }
}
