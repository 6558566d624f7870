/** SGR mouse reports: the event a terminal reports is the event the parser delivers. */
module InputMouse {
  import opened Bytes
  import opened InputEvents
  import opened InputFeed
  import opened InputInvariant
  import opened InputText

  // ---- Numbers ------------------------------------------------------------------------

  /** Reading digits from the left. */
  lemma {:induction false} DigitsRead(d: seq<byte>, rest: seq<byte>, current: int)
    requires AllDigits(d)
    ensures ParamsFrom(d + rest, current, true) == ParamsFrom(rest, ValueFrom(d, current), true)
    decreases |d|
  {
    if d == [] {
      assert d + rest == rest;
    } else {
      assert (d + rest)[1..] == d[1..] + rest;
      DigitsRead(d[1..], rest, current * 10 + (d[0] as int - 48));
    }
  }

  function ValueFrom(d: seq<byte>, current: int): int
    requires AllDigits(d)
    decreases |d|
  {
    if d == [] then current else ValueFrom(d[1..], current * 10 + (d[0] as int - 48))
  }

  lemma {:induction false} ValueFromAppend(d: seq<byte>, last: byte, current: int)
    requires AllDigits(d) && IsDigit(last)
    ensures AllDigits(d + [last])
    ensures ValueFrom(d + [last], current) == ValueFrom(d, current) * 10 + (last as int - 48)
    decreases |d|
  {
    if d == [] {
      assert [] + [last] == [last] && [last][1..] == [];
    } else {
      assert (d + [last])[1..] == d[1..] + [last];
      ValueFromAppend(d[1..], last, current * 10 + (d[0] as int - 48));
    }
  }

  lemma {:induction false} ValueFromDec(n: nat)
    ensures ValueFrom(Dec(n), 0) == n
  {
    if n >= 10 {
      ValueFromDec(n / 10);
      ValueFromAppend(Dec(n / 10), 48 + n % 10, 0);
    } else {
      assert [48 + n][1..] == [];
    }
  }

  lemma NumeralEnds(n: nat, rest: seq<byte>)
    requires rest == [] || rest[0] == 59
    ensures ParamsFrom(rest, n, true) == [n] + if rest == [] then [] else Params(rest[1..])
  {
  }

  lemma NumeralStarts(d: seq<byte>, rest: seq<byte>)
    requires AllDigits(d) && d != []
    ensures Params(d + rest) == ParamsFrom(rest, ValueFrom(d, 0), true)
  {
    assert (d + rest)[1..] == d[1..] + rest;
    assert Params(d + rest) == ParamsFrom(d[1..] + rest, d[0] as int - 48, true);
    hide ParamsFrom;
    DigitsRead(d[1..], rest, d[0] as int - 48);
  }

  lemma NumeralRead(n: nat, rest: seq<byte>)
    requires rest == [] || rest[0] == 59
    ensures Params(Dec(n) + rest) == [n] + if rest == [] then [] else Params(rest[1..])
  {
    hide Dec, Params, ParamsFrom, ValueFrom;
    NumeralStarts(Dec(n), rest);
    ValueFromDec(n);
    NumeralEnds(n, rest);
  }

  function Triple(a: nat, b: nat, c: nat): (s: seq<byte>)
    ensures |s| > 2
  {
    Dec(a) + [59] + Dec(b) + [59] + Dec(c)
  }

  lemma TripleRead(a: nat, b: nat, c: nat)
    ensures Params(Triple(a, b, c)) == [a, b, c]
  {
    hide Params, Dec;
    var r1 := [59] + Dec(b) + [59] + Dec(c);
    var r2 := [59] + Dec(c);
    assert Triple(a, b, c) == Dec(a) + r1;
    assert r1[1..] == Dec(b) + r2 && r2[1..] == Dec(c) + [];
    NumeralRead(a, r1);
    NumeralRead(b, r2);
    NumeralRead(c, []);
  }

  // ---- Reports ---------------------------------------------------------------------------

  /** Button events; a wheel has its own buttons, and a release has no motion bit. */
  predicate Reportable(m: MouseEvent) {
    && m.x >= 0 && m.y >= 0
    && (m.action == MouseWheel <==> m.button == WheelUp || m.button == WheelDown)
  }

  function Weight(b: bool, w: nat): nat { if b then w else 0 }

  function ButtonCode(b: MouseButton): nat {
    match b
    case LeftButton => 0
    case MiddleButton => 1
    case RightButton => 2
    case NoButton => 3
    case WheelUp => 0
    case WheelDown => 1
  }

  function Code(m: MouseEvent): nat {
    ButtonCode(m.button) + Weight(m.mods.shift, 4) + Weight(m.mods.alt, 8) + Weight(m.mods.ctrl, 16) +
    Weight(m.action == MouseMove, 32) + Weight(m.action == MouseWheel, 64)
  }

  /** CSI < code ; column ; row M, or m for a release. */
  function Report(m: MouseEvent): seq<byte>
    requires Reportable(m)
  {
    [ESC, 91] + ([60] + Triple(Code(m), m.x + 1, m.y + 1)) + [if m.action == MouseRelease then 109 else 77]
  }

  /** The bits of a code do not get into each other's way. */
  lemma BitsOf(low: nat, b4: bool, b8: bool, b16: bool, b32: bool, b64: bool, v: nat)
    requires low < 4
    requires v == low + Weight(b4, 4) + Weight(b8, 8) + Weight(b16, 16) + Weight(b32, 32) + Weight(b64, 64)
    ensures v % 4 == low && HasFlag(v, 4) == b4 && HasFlag(v, 8) == b8 && HasFlag(v, 16) == b16 &&
      HasFlag(v, 32) == b32 && HasFlag(v, 64) == b64
  {
    var q2 := v / 4;
    assert q2 == Weight(b4, 1) + Weight(b8, 2) + Weight(b16, 4) + Weight(b32, 8) + Weight(b64, 16);
    assert v / 8 == Weight(b8, 1) + Weight(b16, 2) + Weight(b32, 4) + Weight(b64, 8);
    assert v / 16 == Weight(b16, 1) + Weight(b32, 2) + Weight(b64, 4);
    assert v / 32 == Weight(b32, 1) + Weight(b64, 2);
    assert v / 64 == Weight(b64, 1);
  }

  lemma CodeReads(m: MouseEvent)
    requires Reportable(m)
    ensures MouseOf([Code(m), m.x + 1, m.y + 1], m.action == MouseRelease) == m
  {
    BitsOf(ButtonCode(m.button), m.mods.shift, m.mods.alt, m.mods.ctrl,
           m.action == MouseMove, m.action == MouseWheel, Code(m));
    hide HasFlag;
  }

  lemma BodyIsParameters(a: nat, b: nat, c: nat)
    ensures forall k | 0 <= k < |[60] + Triple(a, b, c)| :: IsParameter(([60] + Triple(a, b, c))[k])
  {
    hide Dec;
  }

  /** Every button event on screens whose coordinates fit the sequence buffer survives the round trip. */
  lemma MouseRoundTrip(m: MouseEvent, clip: Clip)
    requires Reportable(m) && 1 + |Triple(Code(m), m.x + 1, m.y + 1)| <= MAX_SEQUENCE
    ensures Run(START, Typed(Report(m)), clip) == (START, [MouseInput(m)])
  {
    hide Run, Typed, Triple, Code, MouseOf, Params;
    var triple := Triple(Code(m), m.x + 1, m.y + 1);
    var body := [60] + triple;
    var final: byte := if m.action == MouseRelease then 109 else 77;
    var esc := START.(mode := Esc);
    BodyIsParameters(Code(m), m.x + 1, m.y + 1);
    assert Report(m) == [ESC] + ([91] + (body + [final]));
    Quiet(START, ESC, esc, [91] + (body + [final]), clip);
    Quiet(esc, 91, InCsi([]), body + [final], clip);
    assert [] + body == body;
    ParametersCollect([], body, [final], clip);
    RunLast(InCsi(body), final, clip);
    ReportEnds(m, body, triple, final);
  }

  lemma ReportEnds(m: MouseEvent, body: seq<byte>, triple: seq<byte>, final: byte)
    requires Reportable(m) && triple == Triple(Code(m), m.x + 1, m.y + 1) && body == [60] + triple
    requires final == if m.action == MouseRelease then 109 else 77
    ensures FinishCsi(START, body, final) == (START, MouseInput(m))
  {
    hide Triple, Code, MouseOf, Params;
    TripleRead(Code(m), m.x + 1, m.y + 1);
    assert body[1..] == triple;
    CodeReads(m);
  }
}
