/**
  The frame buffer: cells, colours and frames (include/NeForce/tui/screen.hpp,
  include/NeForce/core/utility/color.hpp), their appearance on a terminal, and
  the 44-byte memory image the row comparison looks at.
 */
module Cells {
  import opened Bytes
  import opened Terminal

  // ---- Colours -------------------------------------------------------------

  datatype Color = Color(r: byte, g: byte, b: byte, a: byte)

  /** The default-constructed colour: opaque black, not "the terminal's default". */
  const BLACK := Color(0, 0, 0, 255)
  const CLEAR := Color(0, 0, 0, 0)

  datatype Depth = Ansi16 | Ansi256 | TrueColor

  /** to_ansi_basic without its base of 30 or 40; its last return cannot be reached. */
  function AnsiBasic(c: Color): (k: nat)
    ensures k < 8
  {
    if c.r > c.g && c.r > c.b then (if c.g > 128 && c.b > 128 then 7 else 1)
    else if c.g > c.r && c.g > c.b then (if c.r > 128 && c.b > 128 then 7 else 2)
    else if c.b > c.r && c.b > c.g then (if c.r > 128 && c.g > 128 then 7 else 4)
    else if c.r == c.g && c.g == c.b then (if c.r < 64 then 0 else 7)
    else if c.r == c.g && c.r > c.b then 3
    else if c.r == c.b && c.r > c.g then 5
    else 6
  }

  /** Index of the nearest of 0, 95, 135, 175, 215, 255; the lower one wins a tie. */
  function Level6(v: byte): (k: nat)
    ensures k < 6
  {
    if v <= 47 then 0 else if v <= 115 then 1 else if v <= 155 then 2
    else if v <= 195 then 3 else if v <= 235 then 4 else 5
  }

  function Ansi256Index(c: Color): (k: nat)
    ensures 16 <= k < 256
  {
    if c.r == c.g == c.b then
      if c.r < 8 then 16 else if c.r > 248 then 231
      else 232 + (if (c.r - 8) / 10 > 23 then 23 else (c.r - 8) / 10)
    else 16 + 36 * Level6(c.r) + 6 * Level6(c.g) + Level6(c.b)
  }

  /** The colour a cell asks the terminal for. */
  function Want(c: Color, depth: Depth): Colour {
    if c.a == 0 then Default
    else match depth
      case Ansi16 => Basic(AnsiBasic(c))
      case Ansi256 => Indexed(Ansi256Index(c))
      case TrueColor => Rgb(c.r, c.g, c.b)
  }

  // ---- Cells ---------------------------------------------------------------

  datatype Style = Style(
    bold: bool, dim: bool, italic: bool, inverted: bool, underlined: bool, underlinedDouble: bool,
    blink: bool, strikethrough: bool, fg: Color, bg: Color, link: byte)

  const RESET := Style(false, false, false, false, false, false, false, false, BLACK, CLEAR, 0)

  type int8 = x: int | -128 <= x < 128

  type CellText = g: Glyph | |g| <= 4

  datatype Cell = Cell(text: CellText, width: int8, style: Style, automerge: bool)

  const BLANK := Cell([32], 1, RESET, false)

  /** same_text && same_style: the automerge flag and the cached width take no part. */
  predicate Same(a: Cell, b: Cell) {
    a.text == b.text && a.style == b.style
  }

  // ---- Memory image --------------------------------------------------------

  const CELL_SIZE := 44

  function FlagByte(b: bool): byte { if b then 1 else 0 }

  function Pad(g: CellText): (s: seq<byte>)
    ensures |s| == 4 && s[..|g|] == g
  {
    g + seq(4 - |g|, _ => 0)
  }

  function ColorImage(c: Color): (s: seq<byte>)
    ensures |s| == 16
  {
    [c.r, 0, 0, 0, c.g, 0, 0, 0, c.b, 0, 0, 0, c.a, 0, 0, 0]
  }

  /** Glyph bytes, length, width, two reserved bytes, both colours, the bit field, the link, padding. */
  function Image(c: Cell): (s: seq<byte>)
    ensures |s| == CELL_SIZE
  {
    var st := c.style;
    Pad(c.text) + [|c.text|, c.width % 256, 0, 0] + ColorImage(st.fg) + ColorImage(st.bg) +
    [Flags(st), FlagByte(c.automerge), st.link, 0]
  }

  /** A bit field of whole nibbles, lowest bit first. */
  function Pack(bits: seq<bool>): (n: nat)
    requires |bits| % 4 == 0
    ensures |bits| <= 4 ==> n < 16
    ensures |bits| <= 8 ==> n < 256
  {
    if bits == [] then 0
    else
      FlagByte(bits[0]) + 2 * FlagByte(bits[1]) + 4 * FlagByte(bits[2]) + 8 * FlagByte(bits[3]) + 16 * Pack(bits[4..])
  }

  function FlagBits(st: Style): seq<bool> {
    [st.bold, st.dim, st.italic, st.inverted,
     st.underlined, st.underlinedDouble, st.blink, st.strikethrough]
  }

  function Flags(st: Style): byte {
    Pack(FlagBits(st))
  }

  lemma {:induction false} PackInjective(a: seq<bool>, b: seq<bool>)
    requires |a| == |b| && |a| % 4 == 0 && Pack(a) == Pack(b)
    ensures a == b
  {
    if a != [] {
      PackInjective(a[4..], b[4..]);
      assert a == [a[0], a[1], a[2], a[3]] + a[4..];
      assert b == [b[0], b[1], b[2], b[3]] + b[4..];
    }
  }

  lemma FlagsInjective(a: Style, b: Style)
    requires Flags(a) == Flags(b)
    ensures a.bold == b.bold && a.dim == b.dim && a.italic == b.italic && a.inverted == b.inverted
    ensures a.underlined == b.underlined && a.underlinedDouble == b.underlinedDouble
    ensures a.blink == b.blink && a.strikethrough == b.strikethrough
  {
    PackInjective(FlagBits(a), FlagBits(b));
    assert FlagBits(a)[0] == FlagBits(b)[0] && FlagBits(a)[1] == FlagBits(b)[1];
    assert FlagBits(a)[2] == FlagBits(b)[2] && FlagBits(a)[3] == FlagBits(b)[3];
    assert FlagBits(a)[4] == FlagBits(b)[4] && FlagBits(a)[5] == FlagBits(b)[5];
    assert FlagBits(a)[6] == FlagBits(b)[6] && FlagBits(a)[7] == FlagBits(b)[7];
  }

  lemma ColorAt(c: Cell)
    ensures Image(c)[8] == c.style.fg.r && Image(c)[12] == c.style.fg.g
    ensures Image(c)[16] == c.style.fg.b && Image(c)[20] == c.style.fg.a
    ensures Image(c)[24] == c.style.bg.r && Image(c)[28] == c.style.bg.g
    ensures Image(c)[32] == c.style.bg.b && Image(c)[36] == c.style.bg.a
  {
  }

  /** Equal memory means equal cells, so a byte comparison misses no change. */
  lemma ImageInjective(a: Cell, b: Cell)
    requires Image(a) == Image(b)
    ensures a == b
  {
    assert |a.text| == Image(a)[4] == Image(b)[4] == |b.text|;
    assert Pad(a.text) == Image(a)[..4] == Image(b)[..4] == Pad(b.text);
    assert a.text == Pad(a.text)[..|a.text|];
    assert b.text == Pad(b.text)[..|b.text|];
    assert a.width % 256 == Image(a)[5] == Image(b)[5] == b.width % 256;
    ColorAt(a);
    ColorAt(b);
    assert Flags(a.style) == Image(a)[40] == Image(b)[40] == Flags(b.style);
    FlagsInjective(a.style, b.style);
    assert FlagByte(a.automerge) == Image(a)[41] == Image(b)[41] == FlagByte(b.automerge);
    assert a.style.link == Image(a)[42] == Image(b)[42] == b.style.link;
  }

  function RowImage(row: seq<Cell>): (s: seq<byte>)
    ensures |s| == CELL_SIZE * |row|
  {
    if row == [] then [] else RowImage(row[..|row| - 1]) + Image(row[|row| - 1])
  }

  lemma {:induction false} RowImageAt(row: seq<Cell>, i: nat)
    requires i < |row|
    ensures RowImage(row)[CELL_SIZE * i..CELL_SIZE * (i + 1)] == Image(row[i])
  {
    if i < |row| - 1 {
      RowImageAt(row[..|row| - 1], i);
      assert RowImage(row)[CELL_SIZE * i..CELL_SIZE * (i + 1)]
          == RowImage(row[..|row| - 1])[CELL_SIZE * i..CELL_SIZE * (i + 1)];
    }
  }

  // ---- Frames --------------------------------------------------------------

  datatype CursorShape = Hidden | BlockBlinking | Block | UnderlineBlinking | UnderlineSteady | BarBlinking | Bar

  datatype Cursor = Cursor(x: int, y: int, shape: CursorShape)

  const NO_CURSOR := Cursor(0, 0, Hidden)

  /** A screen: cells in row-major order. */
  datatype Frame = Frame(
    w: nat, h: nat, cells: seq<Cell>, cursor: Cursor, depth: Depth, links: seq<seq<byte>>, blank: bool)

  /** A screen after clear(): nothing is left but its size and its depth. */
  function Cleared(w: nat, h: nat, depth: Depth): Frame {
    Frame(w, h, seq(w * h, _ => BLANK), NO_CURSOR, depth, [], true)
  }

  predicate Sized(f: Frame) {
    f.w > 0 && f.h > 0 && |f.cells| == f.w * f.h
  }

  lemma RowFits(w: nat, h: nat, y: nat)
    requires y < h
    ensures y * w + w <= w * h
  {
    calc {
      y * w + w;
      (y + 1) * w;
      <= h * w;
    }
  }

  function Row(f: Frame, y: nat): (row: seq<Cell>)
    requires Sized(f) && y < f.h
    ensures |row| == f.w
  {
    RowFits(f.w, f.h, y);
    f.cells[y * f.w..y * f.w + f.w]
  }

  /**
    A row the renderer produces: every wide glyph is followed by one automerge cell, which
    renderer.cpp resets so that it has no text, and the cached width is the terminal's.
   */
  ghost predicate RowOk(row: seq<Cell>, wide: Glyph -> bool) {
    forall i | 0 <= i < |row| :: CellOk(row, i, wide)
  }

  predicate CellOk(row: seq<Cell>, i: nat, wide: Glyph -> bool)
    requires i < |row|
  {
    if row[i].automerge then
      row[i].text == [] && i > 0 && !row[i - 1].automerge && wide(row[i - 1].text)
    else
      && IsGlyph(row[i].text)
      && row[i].width == (if wide(row[i].text) then 2 else 1)
      && (wide(row[i].text) ==> i + 1 < |row| && row[i + 1].automerge)
  }

  ghost predicate NoLinks(row: seq<Cell>) {
    forall i | 0 <= i < |row| :: row[i].style.link == 0
  }

  ghost predicate WellFormed(f: Frame, wide: Glyph -> bool) {
    && Sized(f)
    && (forall y | 0 <= y < f.h :: RowOk(Row(f, y), wide) && NoLinks(Row(f, y)))
  }

  // ---- Appearance ----------------------------------------------------------

  /** The rendition a style asks for, except that a washed foreground is the terminal's default. */
  function AttrOf(s: Style, washed: bool, depth: Depth): Attr {
    Attr(s.bold, s.dim, s.italic,
         if s.underlinedDouble then TwoLines else if s.underlined then OneLine else NoLine,
         s.blink, s.inverted, s.strikethrough,
         if washed then Default else Want(s.fg, depth),
         Want(s.bg, depth))
  }

  function Draw(c: Cell, washed: bool, depth: Depth, wide: Glyph -> bool): Square {
    if wide(c.text) then Left(c.text, AttrOf(c.style, washed, depth))
    else Narrow(c.text, AttrOf(c.style, washed, depth))
  }

  /** Whether any of the cell's foreground colour can be seen. */
  predicate Inked(c: Cell) {
    c.text != SPACE || c.style.inverted || c.style.underlined || c.style.underlinedDouble || c.style.strikethrough
  }

  /**
    Exact: every visible colour is the one asked for.  Otherwise opaque black ink may also
    appear in the terminal's default foreground.
   */
  predicate Matches(q: Square, c: Cell, exact: bool, depth: Depth, wide: Glyph -> bool) {
    if c.automerge then q == Right
    else
      && (if wide(c.text) then q.Left? else q.Narrow?)
      && q.glyph == c.text
      && q.attr.(fg := Default) == AttrOf(c.style, true, depth)
      && (q.attr.fg == Want(c.style.fg, depth) || !Inked(c)
          || (!exact && c.style.fg == BLACK && q.attr.fg == Default))
  }

  ghost predicate RowShows(squares: seq<Square>, row: seq<Cell>, exact: bool, depth: Depth, wide: Glyph -> bool) {
    && |squares| == |row|
    && (forall i | 0 <= i < |row| :: Matches(squares[i], row[i], exact, depth, wide))
  }

  /** The terminal displays every cell of the frame. */
  ghost predicate Shows(t: Term, f: Frame, exact: bool) {
    && Valid(t) && Sized(f) && t.w == f.w && t.h == f.h
    && (forall y | 0 <= y < f.h :: RowShows(t.grid[y], Row(f, y), exact, f.depth, t.wide))
  }

  function ClampTo(v: int, limit: nat): (r: nat)
    requires limit > 0
    ensures r < limit
  {
    if v < 0 then 0 else if v >= limit then limit - 1 else v
  }

  /** The place on the screen that is nearest. */
  lemma ClampIsNearest(v: int, limit: nat, p: nat)
    requires p < limit
    ensures
      var r := ClampTo(v, limit);
      (if v < r then r - v else v - r) <= if v < p then p - v else v - p
  {
  }

  function ShapeCode(s: CursorShape): nat {
    match s
    case Hidden => 0
    case BlockBlinking => 1
    case Block => 2
    case UnderlineBlinking => 3
    case UnderlineSteady => 4
    case BarBlinking => 5
    case Bar => 6
  }

  ghost predicate CursorShows(t: Term, f: Frame) {
    && t.w == f.w > 0 && t.h == f.h > 0
    && t.visible == !f.cursor.shape.Hidden?
    && (t.visible ==>
          t.cx == ClampTo(f.cursor.x, f.w) && t.cy == ClampTo(f.cursor.y, f.h) && t.shape == ShapeCode(f.cursor.shape))
  }

  // ---- Cursor shapes ---------------------------------------------------------

  datatype CursorForm = BlockForm | UnderlineForm | BarForm

  /** DECSCUSR: two numbers for each form, the odd ones blinking; 0 is a blinking block as well. */
  function FormOf(n: nat): (CursorForm, bool) {
    (if n <= 2 then BlockForm else if n <= 4 then UnderlineForm else BarForm, n == 0 || n % 2 == 1)
  }

  /** A shape is what its name says. */
  lemma ShapeIsDrawn(s: CursorShape)
    ensures s == BlockBlinking || s == UnderlineBlinking || s == BarBlinking ==> FormOf(ShapeCode(s)).1
    ensures s == Block || s == UnderlineSteady || s == Bar ==> !FormOf(ShapeCode(s)).1
    ensures s == BlockBlinking || s == Block ==> FormOf(ShapeCode(s)).0 == BlockForm
    ensures s == UnderlineBlinking || s == UnderlineSteady ==> FormOf(ShapeCode(s)).0 == UnderlineForm
    ensures s == BarBlinking || s == Bar ==> FormOf(ShapeCode(s)).0 == BarForm
  {
  }
}
