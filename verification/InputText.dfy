/** Text that is typed or pasted comes out as it was. */
module InputText {
  import opened Bytes
  import opened InputEvents
  import opened InputFeed
  import opened InputInvariant

  // ---- UTF-8 -------------------------------------------------------------------------

  /** Section 3 of RFC 3629. */
  function Utf8Of(v: int): (u: seq<byte>)
    requires IsScalar(v)
    ensures u != []
  {
    if v < 0x80 then [v]
    else if v < 0x800 then [0xC0 + v / 64, 0x80 + v % 64]
    else if v < 0x1_0000 then [0xE0 + v / 4096, 0x80 + v / 64 % 64, 0x80 + v % 64]
    else [0xF0 + v / 0x4_0000, 0x80 + v / 4096 % 64, 0x80 + v / 64 % 64, 0x80 + v % 64]
  }

  /** What the parser takes for text. */
  predicate IsText(v: int) {
    IsScalar(v) && v >= 32 && v != 127
  }

  lemma AssembleTwo(v: int)
    requires 0x80 <= v < 0x800
    ensures var u := Utf8Of(v); |u| == 2 == Expected(u[0]) && Assemble(u) == v && IsContinuation(u[1]) && u[0] >= 0x80
  {
    assert v == v / 64 * 64 + v % 64;
    assert (0xC0 + v / 64) % 32 == v / 64;
    assert (0x80 + v % 64) % 64 == v % 64;
  }

  lemma AssembleThree(v: int)
    requires 0x800 <= v < 0x1_0000 && IsScalar(v)
    ensures
      var u := Utf8Of(v);
      |u| == 3 == Expected(u[0]) && Assemble(u) == v && IsContinuation(u[1]) && IsContinuation(u[2]) && u[0] >= 0x80
  {
    var a := v / 64;
    assert v == a * 64 + v % 64 && a == a / 64 * 64 + a % 64 && v / 4096 == a / 64;
    assert (0xE0 + v / 4096) % 16 == v / 4096;
    assert (0x80 + a % 64) % 64 == a % 64 && (0x80 + v % 64) % 64 == v % 64;
  }

  lemma AssembleFour(v: int)
    requires 0x1_0000 <= v <= 0x10FFFF
    ensures
      var u := Utf8Of(v);
      |u| == 4 == Expected(u[0]) && Assemble(u) == v && u[0] >= 0x80 &&
      IsContinuation(u[1]) && IsContinuation(u[2]) && IsContinuation(u[3])
  {
    var a := v / 64;
    var b := a / 64;
    assert v == a * 64 + v % 64 && a == b * 64 + a % 64 && b == b / 64 * 64 + b % 64;
    assert v / 4096 == b && v / 0x4_0000 == b / 64;
    assert (0xF0 + b / 64) % 8 == b / 64;
    assert (0x80 + b % 64) % 64 == b % 64 && (0x80 + a % 64) % 64 == a % 64 && (0x80 + v % 64) % 64 == v % 64;
  }

  lemma RunByte(s: State, b: byte, rest: seq<byte>, clip: Clip)
    ensures
      var (t, e) := Feed(s, b, clip);
      Run(s, Typed([b] + rest), clip) == (Run(t, Typed(rest), clip).0, One(e) + Run(t, Typed(rest), clip).1)
  {
    hide Feed;
    var inputs := Typed([b] + rest);
    assert inputs[0] == Byte(b) && inputs[1..] == Typed(rest);
  }

  lemma RunLast(s: State, b: byte, clip: Clip)
    ensures Run(s, Typed([b]), clip) == (Feed(s, b, clip).0, One(Feed(s, b, clip).1))
  {
    hide Feed;
    assert [b] == [b] + [] && Typed([]) == [];
    RunByte(s, b, [], clip);
    var e := Feed(s, b, clip).1;
    assert One(e) + [] == One(e);
  }

  /** A byte without an event. */
  lemma Quiet(s: State, b: byte, t: State, rest: seq<byte>, clip: Clip)
    requires Feed(s, b, clip) == (t, NoEvent)
    ensures Run(s, Typed([b] + rest), clip) == Run(t, Typed(rest), clip)
  {
    hide Feed, Run;
    RunByte(s, b, rest, clip);
    assert [] + Run(t, Typed(rest), clip).1 == Run(t, Typed(rest), clip).1;
  }

  /** Inside a CSI sequence, with the bytes so far. */
  function InCsi(sequence: seq<byte>): State {
    START.(mode := Csi, sequence := sequence)
  }

  predicate IsParameter(b: byte) {
    b != ESC && !(0x40 <= b <= 0x7E)
  }

  /** Parameter bytes pile up in the sequence buffer. */
  lemma {:induction false} ParametersCollect(done: seq<byte>, more: seq<byte>, rest: seq<byte>, clip: Clip)
    requires |done + more| <= MAX_SEQUENCE && forall k | 0 <= k < |more| :: IsParameter(more[k])
    ensures Run(InCsi(done), Typed(more + rest), clip) == Run(InCsi(done + more), Typed(rest), clip)
    decreases |more|
  {
    hide Run, Typed;
    if more == [] {
      assert more + rest == rest && done + more == done;
    } else {
      var s, b := InCsi(done), more[0];
      assert Feed(s, b, clip) == (InCsi(done + [b]), NoEvent);
      assert more + rest == [b] + (more[1..] + rest);
      RunByte(s, b, more[1..] + rest, clip);
      ParametersCollect(done + [b], more[1..], rest, clip);
      assert done + [b] + more[1..] == done + more;
      var r := Run(InCsi(done + [b]), Typed(more[1..] + rest), clip);
      assert [] + r.1 == r.1;
    }
  }

  /** Between the bytes of a character. */
  function Midway(u: seq<byte>, mods: Mods): State {
    State(Utf8, [], u, [], [], mods)
  }

  /** The bytes of a character after the first k. */
  lemma {:induction false} CharacterEnds(u: seq<byte>, k: nat, mods: Mods, clip: Clip)
    requires 1 <= k < |u| == Expected(u[0]) && forall j | 1 <= j < |u| :: IsContinuation(u[j])
    ensures Run(Midway(u[..k], mods), Typed(u[k..]), clip) ==
      (START, [KeyInput(PrintableKey(Assemble(u)).(mods := mods))])
    decreases |u| - k
  {
    hide Assemble, PrintableKey, Typed;
    var s := Midway(u[..k], mods);
    assert u[k..] == [u[k]] + u[k + 1..] && u[..k] + [u[k]] == u[..k + 1];
    RunByte(s, u[k], u[k + 1..], clip);
    if k + 1 == |u| {
      assert u[..k + 1] == u && u[k..] == [u[k]];
      RunLast(s, u[k], clip);
      assert Feed(s, u[k], clip) == (START, KeyInput(PrintableKey(Assemble(u)).(mods := mods)));
    } else {
      assert Feed(s, u[k], clip) == (Midway(u[..k + 1], mods), NoEvent);
      CharacterEnds(u, k + 1, mods, clip);
      assert [] + [KeyInput(PrintableKey(Assemble(u)).(mods := mods))] ==
        [KeyInput(PrintableKey(Assemble(u)).(mods := mods))];
    }
  }

  /** A multi-byte character from the first byte on; after an escape it carries the alt modifier. */
  lemma MultiByte(s: State, u: seq<byte>, clip: Clip)
    requires 2 <= |u| == Expected(u[0]) && forall j | 1 <= j < |u| :: IsContinuation(u[j])
    requires s == START || s == START.(mode := Esc)
    ensures
      var mods := if s.mode == Esc then ALT else PLAIN;
      Run(s, Typed(u), clip) == (START, [KeyInput(PrintableKey(Assemble(u)).(mods := mods))])
  {
    hide Assemble, PrintableKey, Typed;
    var mods := if s.mode == Esc then ALT else PLAIN;
    assert u == [u[0]] + u[1..] && u[..1] == [u[0]];
    RunByte(s, u[0], u[1..], clip);
    assert Feed(s, u[0], clip) == (Midway(u[..1], mods), NoEvent);
    CharacterEnds(u, 1, mods, clip);
    var key := KeyInput(PrintableKey(Assemble(u)).(mods := mods));
    assert [] + [key] == [key];
  }

  lemma IsMultiByte(v: int)
    requires IsScalar(v) && v >= 0x80
    ensures
      var u := Utf8Of(v);
      2 <= |u| == Expected(u[0]) && Assemble(u) == v && forall j | 1 <= j < |u| :: IsContinuation(u[j])
  {
    if v < 0x800 {
      AssembleTwo(v);
    } else if v < 0x1_0000 {
      AssembleThree(v);
    } else {
      AssembleFour(v);
    }
  }

  lemma OneCharacter(v: int, clip: Clip)
    requires IsText(v)
    ensures Run(START, Typed(Utf8Of(v)), clip) == (START, [KeyInput(PrintableKey(v))])
  {
    hide Typed;
    if v >= 0x80 {
      IsMultiByte(v);
      MultiByte(START, Utf8Of(v), clip);
    } else {
      RunLast(START, v, clip);
    }
  }

  /** Escape and a character is the character with alt, except for the three that start a longer sequence. */
  lemma EscapedCharacter(v: int, clip: Clip)
    requires IsText(v)
    ensures Run(START, Typed([ESC] + Utf8Of(v)), clip) == (START, [KeyInput(PrintableKey(v).(mods := ALT))]) <==>
      v != 91 && v != 93 && v != 79
  {
    hide Typed;
    var s := START.(mode := Esc);
    RunByte(START, ESC, Utf8Of(v), clip);
    assert Feed(START, ESC, clip) == (s, NoEvent);
    var rest := Run(s, Typed(Utf8Of(v)), clip);
    assert [] + rest.1 == rest.1;
    if v >= 0x80 {
      IsMultiByte(v);
      MultiByte(s, Utf8Of(v), clip);
    } else {
      RunLast(s, v, clip);
    }
  }

  predicate AllText(vs: seq<int>) {
    forall k | 0 <= k < |vs| :: IsText(vs[k])
  }

  function Utf8All(vs: seq<int>): seq<byte>
    requires AllText(vs)
  {
    if vs == [] then []
    else
      assert IsText(vs[0]);
      Utf8Of(vs[0]) + Utf8All(vs[1..])
  }

  function Keys(vs: seq<int>): (r: seq<Event>)
    ensures |r| == |vs| && forall k | 0 <= k < |vs| :: r[k] == KeyInput(PrintableKey(vs[k]))
  {
    seq(|vs|, k requires 0 <= k < |vs| => KeyInput(PrintableKey(vs[k])))
  }

  /** Typed text comes out character by character, and the parser is ready for more. */
  lemma {:induction false} TextRoundTrip(vs: seq<int>, clip: Clip)
    requires AllText(vs)
    ensures Run(START, Typed(Utf8All(vs)), clip) == (START, Keys(vs))
  {
    hide PrintableKey, Utf8Of, Apply;
    if vs != [] {
      var u, rest := Utf8Of(vs[0]), Utf8All(vs[1..]);
      TypedConcat(u, rest);
      OneCharacter(vs[0], clip);
      TextRoundTrip(vs[1..], clip);
      RunConcat(START, Typed(u), Typed(rest), clip);
      assert [KeyInput(PrintableKey(vs[0]))] + Keys(vs[1..]) == Keys(vs);
    }
  }

  /** After any input that leaves the parser in ground mode, nothing of it is left to disturb the text. */
  lemma TextAfterAnything(inputs: seq<Input>, vs: seq<int>, clip: Clip)
    requires Run(START, inputs, clip).0.mode == Ground && AllText(vs)
    ensures
      var before := Run(START, inputs, clip);
      before.0 == START && Run(START, inputs + Typed(Utf8All(vs)), clip) == (START, before.1 + Keys(vs))
  {
    hide Run;
    AlwaysSound(inputs, clip);
    GroundIsStart(Run(START, inputs, clip).0);
    TextRoundTrip(vs, clip);
    RunConcat(START, inputs, Typed(Utf8All(vs)), clip);
  }

  // ---- Which byte sequences are read as RFC 3629 has it --------------------------------

  /** A first byte and as many continuation bytes as it announces: all that the parser looks at. */
  predicate IsSequence(u: seq<byte>) {
    u != [] && |u| == Expected(u[0]) && forall j | 1 <= j < |u| :: IsContinuation(u[j])
  }

  /** The multi-byte rows of the table in section 4 of RFC 3629. */
  predicate InTable(u: seq<byte>)
    requires IsSequence(u)
  {
    && 0xC2 <= u[0] <= 0xF4
    && (u[0] == 0xE0 ==> u[1] >= 0xA0) && (u[0] == 0xED ==> u[1] < 0xA0)
    && (u[0] == 0xF0 ==> u[1] >= 0x90) && (u[0] == 0xF4 ==> u[1] < 0x90)
  }

  /** Longer than the value needs. */
  predicate Overlong(u: seq<byte>)
    requires IsSequence(u)
  {
    u[0] < 0xC2 || (u[0] == 0xE0 && u[1] < 0xA0) || (u[0] == 0xF0 && u[1] < 0x90)
  }

  /** Four bytes for what would be a surrogate in three. */
  predicate SurrogateInFour(u: seq<byte>)
    requires IsSequence(u)
  {
    u[0] == 0xF0 && u[1] == 0x8D && u[2] >= 0xA0
  }

  lemma TwoBytes(u: seq<byte>)
    requires IsSequence(u) && |u| == 2
    ensures
      var v := Assemble(u);
      IsScalar(v) && v < 0x800 && (Utf8Of(v) == u <==> u[0] >= 0xC2) && (v < 0x80 <==> u[0] < 0xC2)
  {
    var a: int, b: int := u[0] - 0xC0, u[1] - 0x80;
    assert u[0] as int % 32 == a && u[1] as int % 64 == b;
    assert (a * 64 + b) / 64 == a && (a * 64 + b) % 64 == b;
  }

  lemma ThreeBytes(u: seq<byte>)
    requires IsSequence(u) && |u| == 3
    ensures
      var v := Assemble(u);
      && 0 <= v < 0x1_0000 && (v < 0x800 <==> u[0] == 0xE0 && u[1] < 0xA0)
      && (IsScalar(v) <==> !(u[0] == 0xED && u[1] >= 0xA0))
      && (v >= 0x800 && IsScalar(v) ==> Utf8Of(v) == u)
  {
    var a: int, b: int, c: int := u[0] - 0xE0, u[1] - 0x80, u[2] - 0x80;
    assert u[0] as int % 16 == a && u[1] as int % 64 == b && u[2] as int % 64 == c;
    var v, m := (a * 64 + b) * 64 + c, a * 64 + b;
    assert v / 64 == m && v % 64 == c && m / 64 == a && m % 64 == b && v / 4096 == m / 64;
  }

  /** The value of four six-bit digits. */
  function Joined(a: int, b: int, c: int, d: int): int { ((a * 64 + b) * 64 + c) * 64 + d }

  lemma JoinedDigits(a: int, b: int, c: int, d: int)
    requires 0 <= a && 0 <= b < 64 && 0 <= c < 64 && 0 <= d < 64
    ensures
      var v := Joined(a, b, c, d);
      v / 0x4_0000 == a && v / 4096 % 64 == b && v / 64 % 64 == c && v % 64 == d
  {
    var k := a * 64 + b;
    var m := k * 64 + c;
    var v := m * 64 + d;
    assert v / 64 == m && v % 64 == d;
    assert m / 64 == k && m % 64 == c;
    assert k / 64 == a && k % 64 == b;
    assert v / 4096 == m / 64 && v / 0x4_0000 == k / 64;
  }

  lemma AssembleIsJoined(u: seq<byte>)
    requires IsSequence(u) && |u| == 4
    ensures Assemble(u) == Joined(u[0] - 0xF0, u[1] - 0x80, u[2] - 0x80, u[3] - 0x80)
  {
    assert u[0] as int % 8 == u[0] - 0xF0;
    assert u[1] as int % 64 == u[1] - 0x80 && u[2] as int % 64 == u[2] - 0x80 && u[3] as int % 64 == u[3] - 0x80;
  }

  lemma FourBytes(u: seq<byte>)
    requires IsSequence(u) && |u| == 4
    ensures
      var v := Assemble(u);
      && 0 <= v && (v < 0x1_0000 <==> u[0] == 0xF0 && u[1] < 0x90)
      && (v <= 0x10FFFF <==> u[0] < 0xF4 || (u[0] == 0xF4 && u[1] < 0x90))
      && (v < 0x1_0000 ==> (IsScalar(v) <==> !SurrogateInFour(u)))
  {
    hide Assemble;
    AssembleIsJoined(u);
  }

  lemma FourBytesBack(u: seq<byte>)
    requires IsSequence(u) && |u| == 4 && 0x1_0000 <= Assemble(u) <= 0x10FFFF
    ensures Utf8Of(Assemble(u)) == u
  {
    hide Assemble, Joined;
    AssembleIsJoined(u);
    JoinedDigits(u[0] - 0xF0, u[1] - 0x80, u[2] - 0x80, u[3] - 0x80);
  }

  /**
    Whatever a first byte and its continuation bytes are, they are one key.  It is the character
    they encode if and only if they are in the table; an overlong sequence types the character that
    is encoded in fewer bytes, surrogates in any form and values past U+10FFFF type U+FFFD.
   */
  lemma SequenceIsOneKey(u: seq<byte>, clip: Clip)
    requires IsSequence(u)
    ensures
      var key := PrintableKey(Assemble(u));
      && Run(START, Typed(u), clip) == (START, [KeyInput(key)])
      && (Utf8Of(key.cp) == u <==> InTable(u))
      && (!InTable(u) ==>
            if Overlong(u) && !SurrogateInFour(u) then key.cp == Assemble(u) && |Utf8Of(key.cp)| < |u|
            else key.cp == 0xFFFD)
  {
    hide Run, Typed, Assemble;
    MultiByte(START, u, clip);
    if |u| == 2 {
      TwoBytes(u);
    } else if |u| == 3 {
      ThreeBytes(u);
    } else {
      FourBytes(u);
      if 0x1_0000 <= Assemble(u) <= 0x10FFFF {
        FourBytesBack(u);
      }
    }
  }

  /** A byte from 0x80 that announces nothing types U+FFFD at once. */
  lemma StrayByte(b: byte, clip: Clip)
    requires b >= 0x80 && Expected(b) == 0
    ensures Run(START, Typed([b]), clip) == (START, [KeyInput(PrintableKey(0xFFFD))])
  {
    RunLast(START, b, clip);
  }

  /** A sequence that is cut short by any other byte leaves no trace, not even U+FFFD. */
  lemma {:induction false} CutShort(u: seq<byte>, b: byte, rest: seq<byte>, clip: Clip)
    requires Partial(u) && !IsContinuation(b)
    ensures Run(START, Typed(u + [b] + rest), clip) == Run(START, Typed([b] + rest), clip)
  {
    hide Run, Typed, Feed;
    Waits(u, [b] + rest, clip);
    assert u + [b] + rest == u + ([b] + rest);
    RunByte(Midway(u, PLAIN), b, rest, clip);
    RunByte(START, b, rest, clip);
    assert Feed(Midway(u, PLAIN), b, clip) == Feed(START, b, clip) by { CutFeeds(u, b, clip); }
  }

  lemma CutFeeds(u: seq<byte>, b: byte, clip: Clip)
    requires !IsContinuation(b)
    ensures Feed(Midway(u, PLAIN), b, clip) == Feed(START, b, clip)
  {
  }

  /** The bytes of an unfinished character are kept without an event. */
  lemma {:induction false} Waits(u: seq<byte>, rest: seq<byte>, clip: Clip)
    requires Partial(u)
    ensures Run(START, Typed(u + rest), clip) == Run(Midway(u, PLAIN), Typed(rest), clip)
    decreases |u|
  {
    hide Run, Typed;
    var n := |u| - 1;
    var before := if n == 0 then START else Midway(u[..n], PLAIN);
    assert u + rest == u[..n] + ([u[n]] + rest) && u == u[..n] + [u[n]];
    if n > 0 {
      Waits(u[..n], [u[n]] + rest, clip);
    } else {
      assert u[..0] + ([u[0]] + rest) == [u[0]] + rest;
    }
    assert Feed(before, u[n], clip) == (Midway(u, PLAIN), NoEvent);
    Quiet(before, u[n], Midway(u, PLAIN), rest, clip);
  }

  /** The shortest witness: C0 AF, which RFC 3629 forbids, is a slash as well. */
  lemma OverlongIsAccepted(clip: Clip)
    ensures Run(START, Typed([0xC0, 0xAF]), clip) == Run(START, Typed(Utf8Of(47)), clip)
  {
    hide Typed;
    MultiByte(START, [0xC0, 0xAF], clip);
    OneCharacter(47, clip);
  }
}
