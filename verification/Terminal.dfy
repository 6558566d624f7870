/**
  The terminal the renderer writes to: a grid of character cells, a cursor with
  a pending wrap, and a current rendition.  Byte strings are split into glyphs
  and control sequences first (Lex) and then interpreted one by one (Run).
  CUP is section 8.3.21 of ECMA-48, SGR is section 8.3.117.
 */
module Terminal {
  import opened Bytes

  type Glyph = seq<byte>

  // ---- Control sequences ---------------------------------------------------

  /** One glyph, CSI [?] p1;p2;... [space] final, or an operating system command. */
  datatype Op =
    | Print(glyph: Glyph)
    | Csi(priv: bool, params: seq<nat>, space: bool, final: byte)
    | Osc(payload: seq<byte>)

  /** A single code point in UTF-8 whose first byte is not a C0 control or DEL. */
  predicate IsGlyph(g: Glyph) {
    |g| > 0 && |g| == GlyphLength(g[0]) && g[0] >= 32 && g[0] != 127
  }

  function GlyphLength(lead: byte): (n: nat)
    ensures 1 <= n <= 4
  {
    if lead < 0xC0 then 1 else if lead < 0xE0 then 2 else if lead < 0xF0 then 3 else 4
  }

  predicate IsFinal(b: byte) {
    64 <= b <= 126
  }

  /** The operations Lex recognizes; an operating system command is not one of them. */
  predicate Writable(op: Op) {
    match op
    case Print(g) => IsGlyph(g)
    case Csi(_, _, _, f) => IsFinal(f)
    case Osc(_) => false
  }

  function Join(ps: seq<nat>): seq<byte> {
    if ps == [] then [] else if |ps| == 1 then Dec(ps[0]) else Dec(ps[0]) + [59] + Join(ps[1..])
  }

  function Encode(op: Op): seq<byte> {
    match op
    case Print(g) => g
    case Csi(priv, ps, space, f) =>
      [ESC, 91] + (if priv then [63] else []) + Join(ps) + (if space then [32] else []) + [f]
    case Osc(payload) => [ESC, 93] + payload + [ESC, 92]
  }

  function Serialize(ops: seq<Op>): seq<byte> {
    if ops == [] then [] else Encode(ops[0]) + Serialize(ops[1..])
  }

  /** Reads p1;p2;... ; a separator after a number always announces another one. */
  function ReadParams(s: seq<byte>): (r: (seq<nat>, nat))
    ensures r.1 <= |s|
  {
    var d := DigitRun(s);
    if d == 0 then ([], 0)
    else
      var n := Value(s[..d]);
      if d < |s| && s[d] == 59 then
        var rest := ReadParams(s[d + 1..]);
        ([n] + rest.0, d + 1 + rest.1)
      else ([n], d)
  }

  /** The first operation of a byte string and the bytes it takes; malformed input takes one byte. */
  function LexOne(s: seq<byte>): (r: (Op, nat))
    requires s != []
    ensures 1 <= r.1 <= |s|
  {
    if |s| >= 3 && s[0] == ESC && s[1] == 91 then
      var priv := s[2] == 63;
      var start := if priv then 3 else 2;
      var (ps, k) := ReadParams(s[start..]);
      var afterParams := start + k;
      var space := afterParams < |s| && s[afterParams] == 32;
      var fin := if space then afterParams + 1 else afterParams;
      if fin < |s| && IsFinal(s[fin]) then (Csi(priv, ps, space, s[fin]), fin + 1)
      else (Print([s[0]]), 1)
    else
      var n := GlyphLength(s[0]);
      if n <= |s| then (Print(s[..n]), n) else (Print([s[0]]), 1)
  }

  function Lex(s: seq<byte>): seq<Op> {
    if s == [] then [] else
    var (op, n) := LexOne(s);
    [op] + Lex(s[n..])
  }

  lemma {:induction false} ReadNone(s: seq<byte>)
    requires s != [] && !IsDigit(s[0])
    ensures ReadParams(s) == ([], 0)
  {
  }

  lemma {:induction false} ReadLast(s: seq<byte>, n: nat, d: nat)
    requires 0 < d == DigitRun(s) < |s| && Value(s[..d]) == n && s[d] != 59
    ensures ReadParams(s) == ([n], d)
  {
  }

  lemma {:induction false} ReadNext(s: seq<byte>, n: nat, d: nat, more: (seq<nat>, nat))
    requires 0 < d == DigitRun(s) < |s| && Value(s[..d]) == n && s[d] == 59
    requires ReadParams(s[d + 1..]) == more
    ensures ReadParams(s) == ([n] + more.0, d + 1 + more.1)
  {
  }

  lemma {:induction false} NumeralFirst(n: nat, b: byte, more: seq<byte>) returns (d: nat, s: seq<byte>)
    requires !IsDigit(b)
    ensures d == |Dec(n)| && s == Dec(n) + [b] + more
    ensures 0 < d == DigitRun(s) < |s| && Value(s[..d]) == n && s[d] == b && s[d + 1..] == more
  {
    d, s := |Dec(n)|, Dec(n) + [b] + more;
    DecRoundTrip(n, [b] + more);
    assert s == Dec(n) + ([b] + more);
  }

  lemma {:induction false} ReadBefore(n: nat, tail: seq<byte>, rest: seq<byte>, ps: seq<nat>)
    requires ReadParams(tail + rest) == (ps, |tail|)
    ensures ReadParams(Dec(n) + [59] + tail + rest) == ([n] + ps, |Dec(n)| + 1 + |tail|)
  {
    hide ReadParams, Value, DigitRun, Dec;
    var d, s := NumeralFirst(n, 59, tail + rest);
    ReadNext(s, n, d, (ps, |tail|));
    assert s == Dec(n) + [59] + tail + rest;
  }

  lemma {:induction false} ReadParamsJoin(ps: seq<nat>, rest: seq<byte>)
    requires rest != [] && !IsDigit(rest[0]) && rest[0] != 59
    ensures ReadParams(Join(ps) + rest) == (ps, |Join(ps)|)
  {
    hide ReadParams, Value, DigitRun, Dec;
    if ps == [] {
      assert Join(ps) + rest == rest;
      ReadNone(rest);
    } else if |ps| == 1 {
      var d, s := NumeralFirst(ps[0], rest[0], rest[1..]);
      ReadLast(s, ps[0], d);
      assert s == Join(ps) + rest;
      assert ps == [ps[0]];
    } else {
      ReadParamsJoin(ps[1..], rest);
      ReadBefore(ps[0], Join(ps[1..]), rest, ps[1..]);
      assert ps == [ps[0]] + ps[1..];
    }
  }

  lemma JoinStart(ps: seq<nat>)
    ensures Join(ps) != [] ==> IsDigit(Join(ps)[0])
  {
  }

  /** Where the parameters, the intermediate and the final byte of a control sequence sit. */
  lemma CsiLayout(priv: bool, ps: seq<nat>, space: bool, f: byte, rest: seq<byte>)
    requires IsFinal(f)
    ensures
      var s := Encode(Csi(priv, ps, space, f)) + rest;
      var start := if priv then 3 else 2;
      var tail := (if space then [32] else []) + [f] + rest;
      && |s| >= 3 && s[0] == ESC && s[1] == 91 && (s[2] == 63 <==> priv)
      && s[start..] == Join(ps) + tail
      && start + |Join(ps)| < |s|
      && s[start + |Join(ps)|] == tail[0]
      && (space ==> start + |Join(ps)| + 1 < |s| && s[start + |Join(ps)| + 1] == f)
      && |Encode(Csi(priv, ps, space, f))| == start + |Join(ps)| + (if space then 2 else 1)
  {
    hide Dec, Join, Encode;
    JoinStart(ps);
    CsiSplits(priv, ps, space, f, rest);
    Layout([ESC, 91] + if priv then [63] else [], Join(ps), (if space then [32] else []) + [f] + rest);
  }

  lemma CsiSplits(priv: bool, ps: seq<nat>, space: bool, f: byte, rest: seq<byte>)
    requires IsFinal(f)
    ensures
      var head := [ESC, 91] + if priv then [63] else [];
      var tail := (if space then [32] else []) + [f];
      && Encode(Csi(priv, ps, space, f)) + rest == head + (Join(ps) + (tail + rest))
      && |Encode(Csi(priv, ps, space, f))| == |head| + |Join(ps)| + |tail|
  {
    hide Join;
  }

  lemma Layout(head: seq<byte>, middle: seq<byte>, tail: seq<byte>)
    requires tail != []
    ensures
      var s := head + (middle + tail);
      && s[|head|..] == middle + tail && s[|head| + |middle|] == tail[0]
      && (|tail| > 1 ==> s[|head| + |middle| + 1] == tail[1])
  {
  }

  lemma LexOneEncode(op: Op, rest: seq<byte>)
    requires Writable(op)
    ensures LexOne(Encode(op) + rest) == (op, |Encode(op)|)
  {
    var s := Encode(op) + rest;
    match op
    case Print(g) =>
      assert s[..|g|] == g;
    case Csi(priv, ps, space, f) =>
      CsiLayout(priv, ps, space, f, rest);
      ReadParamsJoin(ps, (if space then [32] else []) + [f] + rest);
  }

  /** The written bytes split back into exactly the operations that were written. */
  lemma {:induction false} LexSerialize(ops: seq<Op>)
    requires forall i | 0 <= i < |ops| :: Writable(ops[i])
    ensures Lex(Serialize(ops)) == ops
  {
    if ops != [] {
      var rest := Serialize(ops[1..]);
      LexOneEncode(ops[0], rest);
      assert (Encode(ops[0]) + rest)[|Encode(ops[0])|..] == rest;
      LexSerialize(ops[1..]);
    }
  }

  lemma {:induction false} SerializeConcat(a: seq<Op>, b: seq<Op>)
    ensures Serialize(a + b) == Serialize(a) + Serialize(b)
  {
    if a == [] {
      assert a + b == b;
    } else {
      assert (a + b)[1..] == a[1..] + b;
      SerializeConcat(a[1..], b);
    }
  }

  // ---- Rendition -----------------------------------------------------------

  datatype Colour = Default | Basic(n: int) | Indexed(i: int) | Rgb(r: int, g: int, b: int)

  datatype Underline = NoLine | OneLine | TwoLines

  datatype Attr = Attr(
    bold: bool, dim: bool, italic: bool, underline: Underline, blink: bool,
    inverse: bool, strike: bool, fg: Colour, bg: Colour)

  const PLAIN := Attr(false, false, false, NoLine, false, false, false, Default, Default)

  /** SGR.  22 ends bold and faint together, 24 ends both kinds of underline, 21 is the double one. */
  function Sgr(a: Attr, ps: seq<nat>): Attr {
    if |ps| == 1 then
      var p := ps[0];
      if p == 0 then PLAIN
      else if p == 1 then a.(bold := true)
      else if p == 2 then a.(dim := true)
      else if p == 3 then a.(italic := true)
      else if p == 4 then a.(underline := OneLine)
      else if p == 5 then a.(blink := true)
      else if p == 7 then a.(inverse := true)
      else if p == 9 then a.(strike := true)
      else if p == 21 then a.(underline := TwoLines)
      else if p == 22 then a.(bold := false, dim := false)
      else if p == 23 then a.(italic := false)
      else if p == 24 then a.(underline := NoLine)
      else if p == 25 then a.(blink := false)
      else if p == 27 then a.(inverse := false)
      else if p == 29 then a.(strike := false)
      else if 30 <= p <= 37 then a.(fg := Basic(p - 30))
      else if p == 39 then a.(fg := Default)
      else if 40 <= p <= 47 then a.(bg := Basic(p - 40))
      else if p == 49 then a.(bg := Default)
      else a
    else if |ps| == 3 && ps[1] == 5 && ps[0] == 38 then a.(fg := Indexed(ps[2]))
    else if |ps| == 3 && ps[1] == 5 && ps[0] == 48 then a.(bg := Indexed(ps[2]))
    else if |ps| == 5 && ps[1] == 2 && ps[0] == 38 then a.(fg := Rgb(ps[2], ps[3], ps[4]))
    else if |ps| == 5 && ps[1] == 2 && ps[0] == 48 then a.(bg := Rgb(ps[2], ps[3], ps[4]))
    else a
  }

  // ---- Grid ----------------------------------------------------------------

  /** A column holds a narrow glyph, or the left or right half of a wide one. */
  datatype Square = Narrow(glyph: Glyph, attr: Attr) | Left(glyph: Glyph, attr: Attr) | Right

  datatype Term = Term(
    w: nat, h: nat,
    grid: seq<seq<Square>>,
    cx: nat, cy: nat, pending: bool,
    sgr: Attr,
    visible: bool, shape: nat,
    wide: Glyph -> bool,          // which glyphs take two columns
    orphan: (Glyph, Attr))        // what is left of a wide glyph that lost its other half

  ghost predicate Valid(t: Term) {
    && t.w > 0 && t.h > 0
    && |t.grid| == t.h && (forall y | 0 <= y < t.h :: |t.grid[y]| == t.w)
    && t.cx < t.w && t.cy < t.h
  }

  /** Writing on column x destroys the wide glyph that covers it: the other half is orphaned. */
  function Sever(row: seq<Square>, x: nat, orphan: Square): (r: seq<Square>)
    requires x < |row|
    ensures |r| == |row|
  {
    if row[x].Right? && x > 0 then row[x - 1 := orphan]
    else if row[x].Left? && x + 1 < |row| then row[x + 1 := orphan]
    else row
  }

  function Put(row: seq<Square>, x: nat, g: Glyph, a: Attr, wide: bool, orphan: Square): (r: seq<Square>)
    requires x + (if wide then 2 else 1) <= |row|
    ensures |r| == |row|
  {
    if wide then Sever(Sever(row, x, orphan), x + 1, orphan)[x := Left(g, a)][x + 1 := Right]
    else Sever(row, x, orphan)[x := Narrow(g, a)]
  }

  const SPACE: Glyph := [32]

  function BlankRow(w: nat, a: Attr): (row: seq<Square>)
    ensures |row| == w
  {
    seq(w, _ => Narrow(SPACE, PLAIN.(bg := a.bg)))
  }

  /** Starts the next line; at the bottom the grid scrolls. */
  function WrapLine(t: Term): (r: Term)
    requires Valid(t)
    ensures Valid(r)
  {
    if t.cy + 1 < t.h then t.(cx := 0, cy := t.cy + 1, pending := false)
    else t.(cx := 0, pending := false, grid := t.grid[1..] + [BlankRow(t.w, t.sgr)])
  }

  function PrintGlyph(t: Term, g: Glyph): (r: Term)
    requires Valid(t)
    ensures Valid(r)
  {
    var n := if t.wide(g) then 2 else 1;
    if n > t.w then t
    else
      var u := if t.pending || t.cx + n > t.w then WrapLine(t) else t;
      var row := Put(u.grid[u.cy], u.cx, g, u.sgr, t.wide(g), Narrow(t.orphan.0, t.orphan.1));
      var v := u.(grid := u.grid[u.cy := row]);
      if u.cx + n < t.w then v.(cx := u.cx + n) else v.(cx := t.w - 1, pending := true)
  }

  function Arg(ps: seq<nat>, i: nat): nat {
    if i < |ps| && ps[i] > 0 then ps[i] else 1
  }

  function Clip(v: nat, limit: nat): (r: nat)
    requires limit > 0
    ensures r < limit && (v < limit ==> r == v)
  {
    if v < limit then v else limit - 1
  }

  function Apply(t: Term, op: Op): (r: Term)
    requires Valid(t)
    ensures Valid(r) && r.w == t.w && r.h == t.h && r.wide == t.wide && r.orphan == t.orphan
  {
    match op
    case Print(g) => PrintGlyph(t, g)
    case Osc(_) => t
    case Csi(priv, ps, space, f) =>
      if priv then
        if ps == [25] && f == 104 && !space then t.(visible := true)
        else if ps == [25] && f == 108 && !space then t.(visible := false)
        else t
      else if space then
        if f == 113 then t.(shape := if |ps| == 1 then ps[0] else 0) else t
      else if f == 72 then
        t.(cy := Clip(Arg(ps, 0) - 1, t.h), cx := Clip(Arg(ps, 1) - 1, t.w), pending := false)
      else if f == 66 then t.(cy := Clip(t.cy + Arg(ps, 0), t.h), pending := false)
      else if f == 67 then t.(cx := Clip(t.cx + Arg(ps, 0), t.w), pending := false)
      else if f == 74 && ps == [2] then t.(grid := seq(t.h, _ => BlankRow(t.w, t.sgr)))
      else if f == 109 then t.(sgr := Sgr(t.sgr, ps))
      else t
  }

  function Run(t: Term, ops: seq<Op>): (r: Term)
    requires Valid(t)
    ensures Valid(r) && r.w == t.w && r.h == t.h && r.wide == t.wide && r.orphan == t.orphan
    decreases |ops|
  {
    if ops == [] then t else Run(Apply(t, ops[0]), ops[1..])
  }

  /** What the terminal does with a byte string. */
  function Feed(t: Term, s: seq<byte>): (r: Term)
    requires Valid(t)
    ensures Valid(r) && r.w == t.w && r.h == t.h && r.wide == t.wide && r.orphan == t.orphan
  {
    Run(t, Lex(s))
  }

  lemma {:induction false} RunConcat(t: Term, a: seq<Op>, b: seq<Op>)
    requires Valid(t)
    ensures Run(t, a + b) == Run(Run(t, a), b)
    decreases |a|
  {
    if a == [] {
      assert a + b == b;
    } else {
      assert (a + b)[1..] == a[1..] + b;
      RunConcat(Apply(t, a[0]), a[1..], b);
    }
  }

  // ---- Synchronized output -------------------------------------------------

  /** DEC private mode 2026. */
  predicate SetsSync(op: Op) {
    op.Csi? && op.priv && op.params == [2026] && !op.space
  }

  /** A terminal together with what is on its screen, which stays as it is while output is held back. */
  datatype Display = Display(t: Term, held: bool, shown: Term)

  /** h holds the screen as it is, l lets it catch up. */
  function Present(d: Display, op: Op): (r: Display)
    requires Valid(d.t)
    ensures r.t == Apply(d.t, op)
  {
    var t := Apply(d.t, op);
    if SetsSync(op) && op.final == 104 then Display(t, true, d.shown)
    else if SetsSync(op) && op.final == 108 then Display(t, false, t)
    else Display(t, d.held, if d.held then d.shown else t)
  }

  function PresentAll(d: Display, ops: seq<Op>): (r: Display)
    requires Valid(d.t)
    ensures r.t == Run(d.t, ops)
    decreases |ops|
  {
    if ops == [] then d else PresentAll(Present(d, ops[0]), ops[1..])
  }

  /** What a byte string does to the screen. */
  function Presented(d: Display, s: seq<byte>): (r: Display)
    requires Valid(d.t)
    ensures r.t == Feed(d.t, s)
  {
    PresentAll(d, Lex(s))
  }

  lemma {:induction false} PresentConcat(d: Display, a: seq<Op>, b: seq<Op>)
    requires Valid(d.t)
    ensures PresentAll(d, a + b) == PresentAll(PresentAll(d, a), b)
    decreases |a|
  {
    hide Present, Run;
    if a == [] {
      assert a + b == b;
    } else {
      assert (a + b)[1..] == a[1..] + b;
      PresentConcat(Present(d, a[0]), a[1..], b);
    }
  }

  /** Output that does not touch the mode. */
  lemma {:induction false} PresentQuiet(d: Display, ops: seq<Op>)
    requires Valid(d.t) && forall i | 0 <= i < |ops| :: !SetsSync(ops[i])
    requires !d.held ==> d.shown == d.t
    ensures
      var r := PresentAll(d, ops);
      r.held == d.held && r.shown == if d.held then d.shown else r.t
    decreases |ops|
  {
    hide Apply, SetsSync, Run;
    if ops != [] {
      PresentQuiet(Present(d, ops[0]), ops[1..]);
    }
  }
}
