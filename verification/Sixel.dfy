/** Sixel data: tokens, their byte form, and what a terminal paints when it reads them. */
module Sixel {
  import opened Bytes

  datatype Token = Select(color: nat) | Repeat(n: nat, mask: nat) | Return | NextBand

  /** The six pixels of a column are the bits of a mask, least significant bit on top. */
  function Bit(mask: nat, k: nat): bool {
    if k == 0 then mask % 2 == 1 else Bit(mask / 2, k - 1)
  }

  predicate Writable(t: Token) {
    t.Repeat? ==> t.n >= 1 && t.mask < 64
  }

  predicate AllWritable(ts: seq<Token>) {
    forall i | 0 <= i < |ts| :: Writable(ts[i])
  }

  /** append_sixel_run leaves the count out when it is 1. */
  function Encode(t: Token): seq<byte>
    requires Writable(t)
  {
    match t
    case Select(color) => [35] + Dec(color)
    case Repeat(n, mask) => (if n > 1 then [33] + Dec(n) else []) + [63 + mask]
    case Return => [36]
    case NextBand => [45]
  }

  function Serialize(ts: seq<Token>): seq<byte>
    requires AllWritable(ts)
  {
    if ts == [] then [] else Encode(ts[0]) + Serialize(ts[1..])
  }

  // ---- Reading --------------------------------------------------------------

  predicate IsSixel(b: byte) {
    63 <= b < 127
  }

  /** The first token and the bytes it takes; a byte that starts none is skipped. */
  function LexOne(s: seq<byte>): (r: (seq<Token>, nat))
    requires s != []
    ensures 1 <= r.1 <= |s|
  {
    if s[0] == 35 then
      var d := DigitRun(s[1..]);
      ([Select(Value(s[1..][..d]))], 1 + d)
    else if s[0] == 33 then
      var d := DigitRun(s[1..]);
      if 1 + d < |s| && IsSixel(s[1 + d]) then ([Repeat(Value(s[1..][..d]), s[1 + d] - 63)], 2 + d) else ([], 1 + d)
    else if s[0] == 36 then ([Return], 1)
    else if s[0] == 45 then ([NextBand], 1)
    else if IsSixel(s[0]) then ([Repeat(1, s[0] - 63)], 1)
    else ([], 1)
  }

  function Lex(s: seq<byte>): seq<Token> {
    if s == [] then []
    else
      var (ts, n) := LexOne(s);
      ts + Lex(s[n..])
  }

  /** No digit follows, so that a number ends where the token does. */
  predicate Closed(s: seq<byte>) {
    s == [] || !IsDigit(s[0])
  }

  lemma LexSelect(color: nat, rest: seq<byte>)
    requires Closed(rest)
    ensures LexOne([35] + Dec(color) + rest) == ([Select(color)], 1 + |Dec(color)|)
  {
    hide Dec, Value, DigitRun;
    var s := [35] + Dec(color) + rest;
    assert s[1..] == Dec(color) + rest;
    DecRoundTrip(color, rest);
  }

  lemma LexRepeat(n: nat, mask: nat, rest: seq<byte>)
    requires mask < 64
    ensures LexOne([33] + Dec(n) + [63 + mask] + rest) == ([Repeat(n, mask)], 2 + |Dec(n)|)
  {
    hide Dec, Value, DigitRun;
    var s := [33] + Dec(n) + [63 + mask] + rest;
    var tail := [63 + mask] + rest;
    assert s[1..] == Dec(n) + tail;
    DecRoundTrip(n, tail);
    assert s[1 + |Dec(n)|] == 63 + mask;
  }

  lemma LexEncode(t: Token, rest: seq<byte>)
    requires Writable(t) && Closed(rest)
    ensures LexOne(Encode(t) + rest) == ([t], |Encode(t)|)
  {
    match t
    case Select(color) =>
      hide LexOne;
      LexSelect(color, rest);
    case Repeat(n, mask) =>
      if n > 1 {
        hide LexOne;
        LexRepeat(n, mask, rest);
      }
    case Return =>
    case NextBand =>
  }

  lemma EncodeIsClosed(t: Token, rest: seq<byte>)
    requires Writable(t)
    ensures Closed(Encode(t) + rest)
  {
  }

  lemma {:induction false} LexSerialize(ts: seq<Token>)
    requires AllWritable(ts)
    ensures Lex(Serialize(ts)) == ts && Closed(Serialize(ts))
  {
    assert Closed([]);
    hide Encode, LexOne, Closed;
    if ts != [] {
      var rest := Serialize(ts[1..]);
      LexSerialize(ts[1..]);
      LexEncode(ts[0], rest);
      EncodeIsClosed(ts[0], rest);
      assert (Encode(ts[0]) + rest)[|Encode(ts[0])|..] == rest;
    }
  }

  lemma {:induction false} SerializeConcat(a: seq<Token>, b: seq<Token>)
    requires AllWritable(a) && AllWritable(b)
    ensures AllWritable(a + b) && Serialize(a + b) == Serialize(a) + Serialize(b)
  {
    hide Encode;
    if a == [] {
      assert a + b == b;
    } else {
      assert (a + b)[1..] == a[1..] + b;
      SerializeConcat(a[1..], b);
      assert Encode(a[0]) + Serialize(a[1..]) + Serialize(b) == Encode(a[0]) + (Serialize(a[1..]) + Serialize(b));
    }
  }

  // ---- Painting --------------------------------------------------------------

  /** Where the terminal draws next, in which colour, and the colour of one watched pixel, -1 as long as it has none. */
  datatype Pen = Pen(x: nat, band: nat, color: nat, seen: int)

  /** A token as the pixel in column x of row y sees it. */
  function Draw(t: Token, pen: Pen, x: nat, y: nat): Pen {
    match t
    case Select(color) => pen.(color := color)
    case Return => pen.(x := 0)
    case NextBand => pen.(x := 0, band := pen.band + 1)
    case Repeat(n, mask) =>
      var hit := pen.x <= x < pen.x + n && y / 6 == pen.band && Bit(mask, y % 6);
      pen.(x := pen.x + n, seen := if hit then pen.color else pen.seen)
  }

  function DrawAll(ts: seq<Token>, pen: Pen, x: nat, y: nat): Pen {
    if ts == [] then pen else DrawAll(ts[1..], Draw(ts[0], pen, x, y), x, y)
  }

  /** The colour a terminal gives to pixel (x, y), or -1 if it leaves it alone. */
  function Painted(ts: seq<Token>, x: nat, y: nat): int {
    DrawAll(ts, Pen(0, 0, 0, -1), x, y).seen
  }

  lemma {:induction false} DrawConcat(a: seq<Token>, b: seq<Token>, pen: Pen, x: nat, y: nat)
    ensures DrawAll(a + b, pen, x, y) == DrawAll(b, DrawAll(a, pen, x, y), x, y)
  {
    hide Draw;
    if a == [] {
      assert a + b == b;
    } else {
      assert (a + b)[1..] == a[1..] + b;
      DrawConcat(a[1..], b, Draw(a[0], pen, x, y), x, y);
    }
  }

  // ---- The whole sequence -----------------------------------------------------

  /** What a sixel sequence says: aspect ratio, size and tokens. */
  datatype Data = Data(vertical: nat, horizontal: nat, width: nat, height: nat, tokens: seq<Token>) | NotSixel

  const INTRODUCER: seq<byte> := [ESC, 80, 113, 34]
  const TERMINATOR: seq<byte> := [ESC, 92]
  const SEMICOLON: seq<byte> := [59]

  /** The second parameter between ESC P and q: what becomes of pixels of which no bit is set. */
  datatype ZeroPixels = Omitted | Given(n: nat)

  function P2(s: seq<byte>): ZeroPixels {
    if |s| < 2 || s[..2] != INTRODUCER[..2] then Omitted
    else
      var fields := s[2..][..Find(s[2..], 113)];
      var k := Find(fields, 59);
      if k == |fields| || DigitRun(fields[k + 1..]) == 0 then Omitted
      else
        var second := fields[k + 1..];
        Given(Value(second[..DigitRun(second)]))
  }

  lemma NoParameters(rest: seq<byte>)
    ensures P2(INTRODUCER + rest) == Omitted
  {
    var s := INTRODUCER + rest;
    assert s[2..][0] == 113;
    assert s[2..][..Find(s[2..], 113)] == [];
  }

  function ReadNumber(s: seq<byte>): (nat, seq<byte>) {
    var d := DigitRun(s);
    (Value(s[..d]), s[d..])
  }

  /** A number that must be followed by a semicolon; the rest comes after it. */
  function ReadField(s: seq<byte>): (r: (bool, nat, seq<byte>)) {
    var (n, rest) := ReadNumber(s);
    if rest != [] && rest[0] == 59 then (true, n, rest[1..]) else (false, n, [])
  }

  function ReadBody(s: seq<byte>): Data {
    var (ok1, a, s1) := ReadField(s);
    var (ok2, b, s2) := ReadField(s1);
    var (ok3, w, s3) := ReadField(s2);
    var (h, s4) := ReadNumber(s3);
    if ok1 && ok2 && ok3 then Data(a, b, w, h, Lex(s4)) else NotSixel
  }

  function Decode(s: seq<byte>): Data {
    if |s| >= 6 && s[..4] == INTRODUCER && s[|s| - 2..] == TERMINATOR then ReadBody(s[4..|s| - 2]) else NotSixel
  }

  function Body(w: nat, h: nat, ts: seq<Token>): seq<byte>
    requires AllWritable(ts)
  {
    Dec(1) + SEMICOLON + Dec(1) + SEMICOLON + Dec(w) + SEMICOLON + Dec(h) + Serialize(ts)
  }

  lemma FieldReads(n: nat, rest: seq<byte>)
    ensures ReadField(Dec(n) + SEMICOLON + rest) == (true, n, rest)
  {
    var tail := SEMICOLON + rest;
    assert Dec(n) + SEMICOLON + rest == Dec(n) + tail;
    DecRoundTrip(n, tail);
  }

  lemma NumberReads(n: nat, rest: seq<byte>)
    requires Closed(rest)
    ensures ReadNumber(Dec(n) + rest) == (n, rest)
  {
    DecRoundTrip(n, rest);
  }

  lemma BodyReads(w: nat, h: nat, ts: seq<Token>)
    requires AllWritable(ts)
    ensures ReadBody(Body(w, h, ts)) == Data(1, 1, w, h, ts)
  {
    hide ReadField, ReadNumber, Dec, Lex, Serialize, Closed;
    LexSerialize(ts);
    var s3 := Dec(h) + Serialize(ts);
    var s2 := Dec(w) + SEMICOLON + s3;
    var s1 := Dec(1) + SEMICOLON + s2;
    NumberReads(h, Serialize(ts));
    FieldReads(w, s3);
    FieldReads(1, s2);
    FieldReads(1, s1);
    assert Body(w, h, ts) == Dec(1) + SEMICOLON + s1;
  }

  lemma Decodes(w: nat, h: nat, ts: seq<Token>)
    requires AllWritable(ts)
    ensures Decode(INTRODUCER + Body(w, h, ts) + TERMINATOR) == Data(1, 1, w, h, ts)
  {
    hide Body, ReadBody;
    var body := Body(w, h, ts);
    var s := INTRODUCER + body + TERMINATOR;
    assert s[..4] == INTRODUCER && s[|s| - 2..] == TERMINATOR && s[4..|s| - 2] == body;
    BodyReads(w, h, ts);
  }
}
