/** The band loop of encode_sixel: which tokens it emits, and that they paint exactly the image. */
module SixelBands {
  import Images
  import opened Sixel

  /** Palette indices row by row, -1 for a transparent pixel. */
  datatype Picture = Picture(width: nat, height: nat, indices: seq<int>)

  predicate Valid(p: Picture) {
    && p.width > 0 && p.height > 0 && |p.indices| == p.width * p.height
    && forall k | 0 <= k < |p.indices| :: -1 <= p.indices[k] < 256
  }

  predicate Inside(p: Picture, x: nat, y: nat) {
    x < p.width && y < p.height
  }

  function At(p: Picture, x: nat, y: nat): int
    requires Valid(p) && Inside(p, x, y)
  {
    InPicture(p, x, y);
    p.indices[y * p.width + x]
  }

  lemma InPicture(p: Picture, x: nat, y: nat)
    requires Inside(p, x, y)
    ensures y * p.width + x < p.width * p.height
  {
    Images.InRow(x, y, p.width, p.height);
  }

  // ---- Masks -----------------------------------------------------------------

  /** bits[0] is the least significant. */
  function MaskOf(bits: seq<bool>): nat {
    if bits == [] then 0 else (if bits[0] then 1 else 0) + 2 * MaskOf(bits[1..])
  }

  function Pow2(k: nat): nat {
    if k == 0 then 1 else 2 * Pow2(k - 1)
  }

  lemma {:induction false} MaskBit(bits: seq<bool>, k: nat)
    ensures Bit(MaskOf(bits), k) <==> k < |bits| && bits[k]
    decreases |bits|, k
  {
    if bits == [] {
      NoBits(k);
    } else {
      var rest := MaskOf(bits[1..]);
      Halved(rest, bits[0]);
      if k > 0 {
        MaskBit(bits[1..], k - 1);
      }
    }
  }

  lemma Halved(rest: nat, b: bool)
    ensures ((if b then 1 else 0) + 2 * rest) / 2 == rest
    ensures ((if b then 1 else 0) + 2 * rest) % 2 == 1 <==> b
  {
  }

  lemma {:induction false} NoBits(k: nat)
    ensures !Bit(0, k)
  {
    if k > 0 {
      NoBits(k - 1);
    }
  }

  /** mask |= 1 << k, when bit k is the next one. */
  lemma {:induction false} MaskAppend(bits: seq<bool>, b: bool)
    ensures MaskOf(bits + [b]) == MaskOf(bits) + if b then Pow2(|bits|) else 0
  {
    if bits == [] {
      assert (bits + [b])[1..] == [];
    } else {
      assert (bits + [b])[1..] == bits[1..] + [b];
      MaskAppend(bits[1..], b);
    }
  }

  lemma {:induction false} MaskRange(bits: seq<bool>)
    ensures MaskOf(bits) < Pow2(|bits|)
  {
    if bits != [] {
      MaskRange(bits[1..]);
    }
  }

  function RowsOf(p: Picture, band: nat): nat
    requires 6 * band < p.height
  {
    if p.height - 6 * band < 6 then p.height - 6 * band else 6
  }

  function ColumnBits(p: Picture, band: nat, x: nat, color: nat): (bits: seq<bool>)
    requires Valid(p) && 6 * band < p.height && x < p.width
    ensures |bits| == RowsOf(p, band)
    ensures forall k | 0 <= k < |bits| :: bits[k] == (At(p, x, 6 * band + k) == color)
  {
    seq(RowsOf(p, band), k requires 0 <= k < RowsOf(p, band) => At(p, x, 6 * band + k) == color)
  }

  function Column(p: Picture, band: nat, x: nat, color: nat): (mask: nat)
    requires Valid(p) && 6 * band < p.height && x < p.width
    ensures mask < 64
  {
    var bits := ColumnBits(p, band, x, color);
    MaskRange(bits);
    PowersOfTwo();
    MaskOf(bits)
  }

  lemma PowersOfTwo()
    ensures forall k: nat | k <= 6 :: Pow2(k) <= 64
  {
    assert Pow2(2) == 4 && Pow2(4) == 16 && Pow2(6) == 64;
    assert Pow2(3) == 8 && Pow2(5) == 32;
  }

  function Columns(p: Picture, band: nat, color: nat): (masks: seq<nat>)
    requires Valid(p) && 6 * band < p.height
    ensures |masks| == p.width
    ensures forall x | 0 <= x < p.width :: masks[x] == Column(p, band, x, color)
  {
    seq(p.width, x requires 0 <= x < p.width => Column(p, band, x, color))
  }

  /** A set bit is a pixel of that colour. */
  lemma ColumnShows(p: Picture, band: nat, x: nat, color: nat, k: nat)
    requires Valid(p) && 6 * band < p.height && x < p.width && k < 6
    ensures Bit(Column(p, band, x, color), k) <==> 6 * band + k < p.height && At(p, x, 6 * band + k) == color
  {
    MaskBit(ColumnBits(p, band, x, color), k);
  }

  // ---- Runs -------------------------------------------------------------------

  /** How many masks at the front are equal. */
  function RunLength(masks: seq<nat>): (n: nat)
    requires masks != []
    ensures 1 <= n <= |masks| && (forall k | 0 <= k < n :: masks[k] == masks[0])
    ensures n < |masks| ==> masks[n] != masks[0]
  {
    if |masks| == 1 || masks[1] != masks[0] then 1
    else
      var n := RunLength(masks[1..]);
      assert forall k | 1 <= k < n + 1 :: masks[k] == masks[1..][k - 1];
      1 + n
  }

  function Runs(masks: seq<nat>): seq<Token> {
    if masks == [] then []
    else
      var n := RunLength(masks);
      [Repeat(n, masks[0])] + Runs(masks[n..])
  }

  lemma {:induction false} RunsWritable(masks: seq<nat>)
    requires forall k | 0 <= k < |masks| :: masks[k] < 64
    ensures AllWritable(Runs(masks))
  {
    if masks != [] {
      RunsWritable(masks[RunLength(masks)..]);
    }
  }

  /** The pen has drawn the masks from its column on. */
  function Drawn(masks: seq<nat>, pen: Pen, x: nat, y: nat): Pen {
    var hit := pen.x <= x < pen.x + |masks| && y / 6 == pen.band && Bit(masks[x - pen.x], y % 6);
    pen.(x := pen.x + |masks|, seen := if hit then pen.color else pen.seen)
  }

  lemma RunThenRest(masks: seq<nat>, n: nat, pen: Pen, x: nat, y: nat)
    requires 1 <= n <= |masks| && forall k | 0 <= k < n :: masks[k] == masks[0]
    ensures Drawn(masks[n..], Draw(Repeat(n, masks[0]), pen, x, y), x, y) == Drawn(masks, pen, x, y)
  {
    hide Bit;
    if pen.x <= x < pen.x + n {
      assert masks[x - pen.x] == masks[0];
    } else if pen.x + n <= x < pen.x + |masks| {
      assert masks[n..][x - pen.x - n] == masks[x - pen.x];
    }
  }

  /** The runs paint what the masks say, column by column. */
  lemma {:induction false} RunsPaint(masks: seq<nat>, pen: Pen, x: nat, y: nat)
    ensures DrawAll(Runs(masks), pen, x, y) == Drawn(masks, pen, x, y)
  {
    if masks != [] {
      hide Drawn, Draw;
      var n := RunLength(masks);
      var run := Repeat(n, masks[0]);
      RunsPaint(masks[n..], Draw(run, pen, x, y), x, y);
      RunThenRest(masks, n, pen, x, y);
      assert Runs(masks)[0] == run && Runs(masks)[1..] == Runs(masks[n..]);
    }
  }

  // ---- Colours, bands, image ----------------------------------------------------

  function Pass(p: Picture, band: nat, color: nat): seq<Token>
    requires Valid(p) && 6 * band < p.height
  {
    [Select(color)] + Runs(Columns(p, band, color)) + [Return]
  }

  predicate Used(p: Picture, band: nat, color: nat)
    requires Valid(p) && 6 * band < p.height
  {
    exists x, y :: 0 <= x < p.width && 6 * band <= y < 6 * band + RowsOf(p, band) && At(p, x, y) == color
  }

  /** One pass for every colour the band uses, in increasing order, from the given one on. */
  function Passes(p: Picture, band: nat, color: nat): seq<Token>
    requires Valid(p) && 6 * band < p.height && color <= 256
    decreases 256 - color
  {
    if color == 256 then []
    else (if Used(p, band, color) then Pass(p, band, color) else []) + Passes(p, band, color + 1)
  }

  function Bands(p: Picture): nat
    requires p.height > 0
  {
    (p.height - 1) / 6 + 1
  }

  function From(p: Picture, band: nat): seq<Token>
    requires Valid(p) && band <= Bands(p)
    decreases Bands(p) - band
  {
    if band == Bands(p) then []
    else Passes(p, band, 0) + (if band + 1 < Bands(p) then [NextBand] else []) + From(p, band + 1)
  }

  /** The colour a pixel ends up with when the passes from color on have gone over its band. */
  function Shade(p: Picture, color: nat, x: nat, y: nat, before: int): int
    requires Valid(p)
  {
    if Inside(p, x, y) && At(p, x, y) >= color then At(p, x, y) else before
  }

  lemma PassPaints(p: Picture, band: nat, color: nat, pen: Pen, x: nat, y: nat)
    requires Valid(p) && 6 * band < p.height && pen.x == 0 && pen.band == band
    ensures AllWritable(Pass(p, band, color))
    ensures
      var hit := Inside(p, x, y) && y / 6 == band && At(p, x, y) == color;
      DrawAll(Pass(p, band, color), pen, x, y) == pen.(color := color, seen := if hit then color else pen.seen)
  {
    hide Bit, At, Runs, Column;
    var masks := Columns(p, band, color);
    RunsWritable(masks);
    DrawConcat([Select(color)] + Runs(masks), [Return], pen, x, y);
    DrawConcat([Select(color)], Runs(masks), pen, x, y);
    OneDrawn(Select(color), pen, x, y);
    RunsPaint(masks, pen.(color := color), x, y);
    OneDrawn(Return, DrawAll(Runs(masks), pen.(color := color), x, y), x, y);
    if x < p.width && y / 6 == band {
      ColumnShows(p, band, x, color, y % 6);
    }
  }

  lemma OneDrawn(t: Token, pen: Pen, x: nat, y: nat)
    ensures DrawAll([t], pen, x, y) == Draw(t, pen, x, y)
  {
    hide Draw;
    assert [t][1..] == [];
  }

  lemma UnusedShade(p: Picture, band: nat, color: nat, x: nat, y: nat)
    requires Valid(p) && 6 * band < p.height && !Used(p, band, color) && Inside(p, x, y) && y / 6 == band
    ensures At(p, x, y) != color
  {
  }

  lemma {:induction false} PassesPaint(p: Picture, band: nat, color: nat, pen: Pen, x: nat, y: nat)
    requires Valid(p) && 6 * band < p.height && color <= 256 && pen.x == 0 && pen.band == band
    ensures AllWritable(Passes(p, band, color))
    ensures
      var after := DrawAll(Passes(p, band, color), pen, x, y);
      && after.x == 0 && after.band == band
      && after.seen == if y / 6 == band then Shade(p, color, x, y, pen.seen) else pen.seen
    decreases 256 - color
  {
    hide Pass, At, Used;
    if color == 256 {
      BelowEveryColor(p, x, y);
    } else {
      var rest := Passes(p, band, color + 1);
      if Used(p, band, color) {
        PassPaints(p, band, color, pen, x, y);
        DrawConcat(Pass(p, band, color), rest, pen, x, y);
        PassesPaint(p, band, color + 1, DrawAll(Pass(p, band, color), pen, x, y), x, y);
      } else {
        assert Passes(p, band, color) == rest;
        PassesPaint(p, band, color + 1, pen, x, y);
        if Inside(p, x, y) && y / 6 == band {
          UnusedShade(p, band, color, x, y);
        }
      }
    }
  }

  lemma BelowEveryColor(p: Picture, x: nat, y: nat)
    requires Valid(p)
    ensures Inside(p, x, y) ==> -1 <= At(p, x, y) < 256
  {
    if Inside(p, x, y) {
      InPicture(p, x, y);
    }
  }

  lemma {:induction false} FromPaints(p: Picture, band: nat, pen: Pen, x: nat, y: nat)
    requires Valid(p) && band <= Bands(p) && pen.x == 0 && pen.band == band
    ensures AllWritable(From(p, band))
    ensures DrawAll(From(p, band), pen, x, y).seen == if y / 6 >= band then Shade(p, 0, x, y, pen.seen) else pen.seen
    decreases Bands(p) - band
  {
    hide Passes, At;
    if band < Bands(p) {
      var passes := Passes(p, band, 0);
      var next := if band + 1 < Bands(p) then [NextBand] else [];
      var rest := From(p, band + 1);
      var painted := DrawAll(passes, pen, x, y);
      PassesPaint(p, band, 0, pen, x, y);
      DrawConcat(passes + next, rest, pen, x, y);
      DrawConcat(passes, next, pen, x, y);
      if band + 1 < Bands(p) {
        OneDrawn(NextBand, painted, x, y);
        FromPaints(p, band + 1, Draw(NextBand, painted, x, y), x, y);
      }
    }
  }

  /**
    Every pixel of the image gets exactly its palette index; transparent pixels and everything outside
    are left alone.
   */
  lemma PaintsExactly(p: Picture, x: nat, y: nat)
    requires Valid(p)
    ensures AllWritable(From(p, 0))
    ensures Painted(From(p, 0), x, y) == if Inside(p, x, y) then At(p, x, y) else -1
  {
    hide At, From;
    FromPaints(p, 0, Pen(0, 0, 0, -1), x, y);
    BelowEveryColor(p, x, y);
  }
}
