/**
  What a keyboard sends, key by key, without looking at the parser: control bytes, escapes, the letter
  and number forms of the function keys, and the answers of the terminal that are no keys.
 */
module InputStrokes {
  import opened Bytes
  import opened InputEvents
  import opened InputFeed
  import opened InputInvariant
  import opened InputText
  import opened InputBatches
  import opened InputMouse
  import opened InputKeys

  // ---- Control bytes -------------------------------------------------------------------

  /** Enter, tab and backspace, or Ctrl with a small letter or one of the signs @ [ \ ] ^ _. */
  datatype Stroke = EnterStroke | TabStroke | BackspaceStroke | CtrlStroke(sign: byte)

  predicate IsStroke(k: Stroke) {
    k.CtrlStroke? ==> 97 <= k.sign <= 122 || k.sign == 64 || 91 <= k.sign <= 95
  }

  /** CR, HT and DEL; Ctrl takes 96 from a small letter and 64 from a sign. */
  function Sent(k: Stroke): byte
    requires IsStroke(k)
  {
    match k
    case EnterStroke => 13
    case TabStroke => 9
    case BackspaceStroke => 127
    case CtrlStroke(c) => if c >= 97 then c - 96 else c - 64
  }

  function Meant(k: Stroke): KeyEvent {
    match k
    case EnterStroke => KeyEvent(Enter, 0, Mods(false, false, false), Press, 0)
    case TabStroke => KeyEvent(Tab, 0, Mods(false, false, false), Press, 0)
    case BackspaceStroke => KeyEvent(Backspace, 0, Mods(false, false, false), Press, 0)
    case CtrlStroke(c) => KeyEvent(Printable, c, Mods(true, false, false), Press, 0)
  }

  /** What the parser makes of it: Ctrl with h, i, j or m cannot be told from the keys that send the same. */
  function Understood(k: Stroke): KeyEvent {
    if k == CtrlStroke(104) then Meant(BackspaceStroke)
    else if k == CtrlStroke(105) then Meant(TabStroke)
    else if k == CtrlStroke(106) || k == CtrlStroke(109) then Meant(EnterStroke)
    else Meant(k)
  }

  function WithAlt(k: KeyEvent): KeyEvent { k.(mods := Mods(k.mods.ctrl, true, k.mods.shift)) }

  /** The strokes that are misread, Ctrl [ being the escape. */
  predicate Ambiguous(k: Stroke) {
    k.CtrlStroke? && k.sign in [104, 105, 106, 109, 91]
  }

  /** Every control byte is the byte of some stroke. */
  lemma ControlBytesAreStrokes(b: byte)
    requires b < 32 || b == 127
    ensures exists k: Stroke :: IsStroke(k) && Sent(k) == b
  {
    var k :=
      if b == 127 then BackspaceStroke else if 1 <= b <= 26 then CtrlStroke(b + 96) else CtrlStroke(b + 64);
    assert IsStroke(k) && Sent(k) == b;
  }

  /** A stroke from ground, and after an escape with alt besides. */
  lemma StrokeRoundTrip(k: Stroke, clip: Clip)
    requires IsStroke(k)
    ensures
      var plain, escaped := Run(START, Typed([Sent(k)]), clip), Run(START, Typed([ESC, Sent(k)]), clip);
      && (k != CtrlStroke(91) ==>
            plain == (START, [KeyInput(Understood(k))]) && escaped == (START, [KeyInput(WithAlt(Understood(k)))]))
      && (k == CtrlStroke(91) ==>
            plain == (START.(mode := Esc), []) && escaped == (START.(mode := Esc), [KeyInput(Special(Escape))]))
      && (plain == (START, [KeyInput(Meant(k))]) <==> !Ambiguous(k))
      && (escaped == (START, [KeyInput(WithAlt(Meant(k)))]) <==> !Ambiguous(k))
  {
    hide Run, Typed;
    var esc := START.(mode := Esc);
    RunLast(START, Sent(k), clip);
    RunLast(esc, Sent(k), clip);
    assert [ESC, Sent(k)] == [ESC] + [Sent(k)];
    Quiet(START, ESC, esc, [Sent(k)], clip);
  }

  function Escapes(n: nat): (r: seq<byte>)
    ensures |r| == n && forall k | 0 <= k < n :: r[k] == ESC
  {
    seq(n, _ => ESC)
  }

  function EscapeKeys(n: nat): (r: seq<Event>)
    ensures |r| == n && forall k | 0 <= k < n :: r[k] == KeyInput(Special(Escape))
  {
    seq(n, _ => KeyInput(Special(Escape)))
  }

  /** The escape key alone is delivered when the batch ends, and held down it is delivered as often as pressed. */
  lemma {:induction false} EscapesRoundTrip(n: nat, clip: Clip)
    requires n >= 1
    ensures Run(START, Typed(Escapes(n)), clip) == (START.(mode := Esc), EscapeKeys(n - 1))
    ensures Run(START, Typed(Escapes(n)) + [EndOfBatch], clip) == (START, EscapeKeys(n))
  {
    hide Run, Typed;
    var esc := START.(mode := Esc);
    if n == 1 {
      assert Escapes(1) == [ESC] && EscapeKeys(0) == [];
      RunLast(START, ESC, clip);
    } else {
      EscapesRoundTrip(n - 1, clip);
      assert Escapes(n) == Escapes(n - 1) + [ESC];
      TypedConcat(Escapes(n - 1), [ESC]);
      RunConcat(START, Typed(Escapes(n - 1)), Typed([ESC]), clip);
      RunLast(esc, ESC, clip);
      assert EscapeKeys(n - 1) == EscapeKeys(n - 2) + [KeyInput(Special(Escape))];
    }
    RunConcat(START, Typed(Escapes(n)), [EndOfBatch], clip);
    RunInput(esc, EndOfBatch, [], clip);
    NothingRuns(clip);
    assert [EndOfBatch] + [] == [EndOfBatch];
    assert [KeyInput(Special(Escape))] + [] == [KeyInput(Special(Escape))];
    assert EscapeKeys(n) == EscapeKeys(n - 1) + [KeyInput(Special(Escape))];
  }

  // ---- Function keys -------------------------------------------------------------------

  /** ESC O and the letter of a key; any other byte there is taken for an escape. */
  lemma Ss3RoundTrip(b: byte, clip: Clip)
    ensures
      var out := Run(START, Typed([ESC, 79, b]), clip);
      && (forall key | b != 0 && KeyLetter(key) == b :: out == (START, [KeyInput(Special(key))]))
      && (b == 0 || (forall key :: KeyLetter(key) != b) ==> out == (START, [KeyInput(Special(Escape))]))
  {
    hide Run, Typed;
    var esc, ss3 := START.(mode := Esc), START.(mode := Ss3);
    assert [ESC, 79, b] == [ESC] + ([79] + [b]);
    Quiet(START, ESC, esc, [79] + [b], clip);
    Quiet(esc, 79, ss3, [b], clip);
    RunLast(ss3, b, clip);
    LetterOfKey(b);
  }

  lemma LetterOfKey(b: byte)
    ensures forall key | b != 0 && KeyLetter(key) == b :: LetterKey(b) == key && key != Unknown
    ensures b == 0 || (forall key :: KeyLetter(key) != b) ==> LetterKey(b) == Unknown
  {
    assert LetterKey(b) != Unknown ==> b != 0 && KeyLetter(LetterKey(b)) == b;
  }

  /** The numbers that end in a tilde: 1 to 8, then F1 to F12 with the gaps of the VT220. */
  const EDITING: seq<Key> := [Home, Insert, Delete, End, PageUp, PageDown, Home, End]
  const FUNCTIONS: seq<nat> := [11, 12, 13, 14, 15, 17, 18, 19, 20, 21, 23, 24]

  predicate Numbered(n: nat, key: Key) {
    (1 <= n <= 8 && key == EDITING[n - 1]) || (key.F? && 1 <= key.n <= 12 && FUNCTIONS[key.n - 1] == n)
  }

  lemma NumberedKeys(n: nat)
    ensures forall key | Numbered(n, key) :: TildeKey(n) == key && key != Unknown && n != 27 && n != 200
    ensures (forall key :: !Numbered(n, key)) ==> TildeKey(n) == Unknown
  {
    var key := TildeKey(n);
    assert key != Unknown ==> Numbered(n, key) by {
      if key.F? {
        assert FUNCTIONS[0..] == FUNCTIONS;
      }
    }
  }

  /** CSI number ~ or CSI number ; modifiers ~ */
  function NumberBody(n: nat, m: Mods): seq<byte> {
    Dec(n) + if m == PLAIN then [] else [59] + Dec(ModifierParam(m))
  }

  lemma NumberBodyReads(n: nat, m: Mods)
    ensures
      var values := Params(NumberBody(n, m));
      values[0] == n && |values| <= 2 && ModifierOf(if |values| > 1 then values[1] else 1) == m
    ensures NumberBody(n, m) != [] && IsDigit(NumberBody(n, m)[0])
  {
    hide Params, Dec;
    ModifierReads(m);
    FirstDigit(n);
    if m == PLAIN {
      assert Dec(n) + [] == Dec(n);
      NumeralRead(n, []);
    } else {
      PairRead(n, ModifierParam(m));
      assert Dec(n) + ([59] + Dec(ModifierParam(m))) == Dec(n) + [59] + Dec(ModifierParam(m));
    }
  }

  lemma NumberBodyFits(n: nat, m: Mods)
    requires n < 10000000
    ensures |NumberBody(n, m)| <= MAX_SEQUENCE
    ensures forall k | 0 <= k < |NumberBody(n, m)| :: IsParameter(NumberBody(n, m)[k])
  {
    hide Dec;
    ModifierReads(m);
    DigitsAreParameters(n);
    DigitsAreParameters(ModifierParam(m));
  }

  lemma NumberFinishes(n: nat, m: Mods)
    requires n != 200
    ensures FinishCsi(START, NumberBody(n, m), 126) == EmitKnown(START, Special(TildeKey(n)).(mods := m))
  {
    hide Params, NumberBody, TildeKey, ModifierOf, KittyKey;
    NumberBodyReads(n, m);
  }

  /** Every number with every combination of modifiers: the key that has the number, or nothing. */
  lemma NumberedRoundTrip(n: nat, m: Mods, clip: Clip)
    requires n < 10000000 && n != 200
    ensures
      var out := Run(START, Typed(Sequence(NumberBody(n, m), 126)), clip);
      && (forall key | Numbered(n, key) :: out == (START, [KeyInput(Special(key).(mods := m))]))
      && ((forall key :: !Numbered(n, key)) ==> out == (START, []))
  {
    hide Run, Typed, FinishCsi, Sequence, NumberBody, TildeKey, Numbered;
    NumberedKeys(n);
    NumberFinishes(n, m);
    NumberBodyFits(n, m);
    SequenceRuns(NumberBody(n, m), 126, EmitKnown(START, Special(TildeKey(n)).(mods := m)).1, clip);
  }

  // ---- Without parameters --------------------------------------------------------------

  lemma BareRuns(final: byte, e: Event, clip: Clip)
    requires 0x40 <= final <= 0x7E && FinishCsi(START, [], final) == (START, e)
    ensures Run(START, Typed([ESC, 91, final]), clip) == (START, One(e))
  {
    hide Run, Typed, FinishCsi;
    SequenceRuns([], final, e, clip);
    assert Sequence([], final) == [ESC, 91, final];
  }

  /** The terminal gains and loses the focus; the arrows, Home, End and F1 to F4 without modifiers. */
  lemma BareRoundTrip(key: Key, clip: Clip)
    ensures Run(START, Typed([ESC, 91, 73]), clip) == (START, [Focus(true)])
    ensures Run(START, Typed([ESC, 91, 79]), clip) == (START, [Focus(false)])
    ensures KeyLetter(key) != 0 ==>
      Run(START, Typed([ESC, 91, KeyLetter(key)]), clip) == (START, [KeyInput(Special(key))])
  {
    hide Run, Typed;
    BareRuns(73, Focus(true), clip);
    BareRuns(79, Focus(false), clip);
    if KeyLetter(key) != 0 {
      BareLetter(key);
      BareRuns(KeyLetter(key), KeyInput(Special(key)), clip);
    }
  }

  lemma BareLetter(key: Key)
    requires KeyLetter(key) != 0
    ensures FinishCsi(START, [], KeyLetter(key)) == (START, KeyInput(Special(key)))
  {
    assert Params([]) == [0];
  }

  /** Shift and tab is a key of its own, with shift whatever else is held. */
  lemma BackTabRoundTrip(m: Mods, clip: Clip)
    ensures Run(START, Typed([ESC, 91, 90]), clip) ==
      (START, [KeyInput(KeyEvent(TabReverse, 0, Mods(false, false, true), Press, 0))])
    ensures Run(START, Typed(Sequence(NumberBody(1, m), 90)), clip) ==
      (START, [KeyInput(KeyEvent(TabReverse, 0, Mods(m.ctrl, m.alt, true), Press, 0))])
  {
    hide Run, Typed, Sequence, NumberBody;
    BackTabFinishes(m);
    BareRuns(90, KeyInput(KeyEvent(TabReverse, 0, Mods(false, false, true), Press, 0)), clip);
    NumberBodyFits(1, m);
    SequenceRuns(NumberBody(1, m), 90, KeyInput(KeyEvent(TabReverse, 0, Mods(m.ctrl, m.alt, true), Press, 0)), clip);
  }

  lemma BackTabFinishes(m: Mods)
    ensures FinishCsi(START, [], 90) == (START, KeyInput(KeyEvent(TabReverse, 0, Mods(false, false, true), Press, 0)))
    ensures FinishCsi(START, NumberBody(1, m), 90) ==
      (START, KeyInput(KeyEvent(TabReverse, 0, Mods(m.ctrl, m.alt, true), Press, 0)))
  {
    hide NumberBody;
    NumberBodyReads(1, m);
    assert Params([]) == [0];
  }

  // ---- Codes ---------------------------------------------------------------------------

  /** The private codes from 57344 on; F1 to F24 follow from 57364. */
  const PRIVATE: seq<Key> :=
    [Escape, Enter, Tab, Backspace, Insert, Delete, Left, Right, Up, Down, PageUp, PageDown, Home, End]

  /** The code of a key in the Kitty keyboard protocol, and in ASCII for the four that have one there. */
  predicate Coded(code: nat, key: Key) {
    || (57344 <= code < 57344 + |PRIVATE| && key == PRIVATE[code - 57344])
    || (key.F? && 1 <= key.n <= 24 && code == 57363 + key.n)
    || (code, key) in [(27, Escape), (13, Enter), (9, Tab), (127, Backspace)]
  }

  lemma CodedKey(code: nat, key: Key)
    requires Coded(code, key)
    ensures KittyKey(code) == KeyEvent(key, 0, Mods(false, false, false), Press, 0)
  {
  }

  lemma FunctionalIsCoded(code: nat)
    ensures FunctionalKey(code) != Unknown ==> Coded(code, FunctionalKey(code))
  {
  }

  /** A key has the code, or the code is a character's own, or there is none. */
  lemma CodesAreKeys(code: nat)
    ensures forall key | Coded(code, key) :: KittyKey(code) == KeyEvent(key, 0, Mods(false, false, false), Press, 0)
    ensures (forall key :: !Coded(code, key)) ==>
      if 32 <= code <= 0x10FFFF then
        KittyKey(code) ==
          KeyEvent(Printable, if 0xD800 <= code < 0xE000 then 0xFFFD else code, Mods(false, false, false), Press, 0)
      else KittyKey(code).key == Unknown
  {
    forall key | Coded(code, key)
      ensures KittyKey(code) == KeyEvent(key, 0, Mods(false, false, false), Press, 0)
    {
      CodedKey(code, key);
    }
    FunctionalIsCoded(code);
    assert code == 27 ==> Coded(code, Escape);
    assert code == 13 ==> Coded(code, Enter);
    assert code == 9 ==> Coded(code, Tab);
    assert code == 127 ==> Coded(code, Backspace);
    hide Coded, FunctionalKey;
  }
}
