/**
  Keys with modifiers: the reports of a terminal, in legacy and in Kitty form, are delivered as the keys
  they stand for.
 */
module InputKeys {
  import opened Bytes
  import opened InputEvents
  import opened InputFeed
  import opened InputInvariant
  import opened InputText
  import opened InputMouse

  // ---- Modifiers -----------------------------------------------------------------------

  /** One more than the sum of shift 1, alt 2 and ctrl 4. */
  function ModifierParam(m: Mods): nat {
    1 + Weight(m.shift, 1) + Weight(m.alt, 2) + Weight(m.ctrl, 4)
  }

  lemma ModifierReads(m: Mods)
    ensures 1 <= ModifierParam(m) <= 8 && ModifierOf(ModifierParam(m)) == m
  {
  }

  // ---- Sequences -------------------------------------------------------------------------

  /** CSI body final */
  function Sequence(body: seq<byte>, final: byte): seq<byte> {
    [ESC, 91] + body + [final]
  }

  /** From ground, a sequence does what its final byte does. */
  lemma SequenceRuns(body: seq<byte>, final: byte, e: Event, clip: Clip)
    requires |body| <= MAX_SEQUENCE && (forall k | 0 <= k < |body| :: IsParameter(body[k])) && 0x40 <= final <= 0x7E
    requires FinishCsi(START, body, final) == (START, e)
    ensures Run(START, Typed(Sequence(body, final)), clip) == (START, One(e))
  {
    hide Run, Typed, FinishCsi;
    var esc := START.(mode := Esc);
    assert Sequence(body, final) == [ESC] + ([91] + (body + [final]));
    Quiet(START, ESC, esc, [91] + (body + [final]), clip);
    Quiet(esc, 91, InCsi([]), body + [final], clip);
    assert [] + body == body;
    ParametersCollect([], body, [final], clip);
    RunLast(InCsi(body), final, clip);
  }

  lemma DigitsAreParameters(n: nat)
    requires n < 10000000
    ensures |Dec(n)| <= 7 && forall k | 0 <= k < |Dec(n)| :: IsParameter(Dec(n)[k])
  {
    assert Pow10(3) == 10 * Pow10(2) == 100 * Pow10(1) == 1000;
    assert Pow10(7) == 10 * Pow10(6) == 100 * Pow10(5) == 1000 * Pow10(4) == 10000 * Pow10(3);
    DecLength(n, 7);
  }

  // ---- Legacy keys -------------------------------------------------------------------------

  /** The final byte of a key that has its own, 0 for the others. */
  function KeyLetter(key: Key): byte {
    match key
    case Up => 65
    case Down => 66
    case Right => 67
    case Left => 68
    case End => 70
    case Home => 72
    case F(n) => if 1 <= n <= 4 then 79 + n else 0
    case _ => 0
  }

  /** The number of a key that ends in a tilde, 0 for the others. */
  function KeyNumber(key: Key): nat {
    match key
    case Insert => 2
    case Delete => 3
    case PageUp => 5
    case PageDown => 6
    case F(n) => if n == 5 then 15 else if 6 <= n <= 10 then 11 + n else if 11 <= n <= 12 then 12 + n else 0
    case _ => 0
  }

  predicate IsLegacy(key: Key) {
    KeyLetter(key) != 0 || KeyNumber(key) != 0
  }

  function LegacyBody(key: Key, m: Mods): seq<byte> {
    (if KeyLetter(key) != 0 then Dec(1) else Dec(KeyNumber(key))) + [59] + Dec(ModifierParam(m))
  }

  function LegacyFinal(key: Key): byte {
    if KeyLetter(key) != 0 then KeyLetter(key) else 126
  }

  lemma PairRead(a: nat, b: nat)
    ensures Params(Dec(a) + [59] + Dec(b)) == [a, b]
  {
    hide Params, Dec;
    var rest := [59] + Dec(b);
    assert Dec(a) + [59] + Dec(b) == Dec(a) + rest && rest[1..] == Dec(b) + [];
    NumeralRead(a, rest);
    NumeralRead(b, []);
  }

  lemma LegacyFinishes(key: Key, m: Mods)
    requires IsLegacy(key)
    ensures FinishCsi(START, LegacyBody(key, m), LegacyFinal(key)) == (START, KeyInput(Special(key).(mods := m)))
  {
    hide Params, Dec, ModifierOf, ModifierParam;
    var first := if KeyLetter(key) != 0 then 1 else KeyNumber(key);
    PairRead(first, ModifierParam(m));
    ModifierReads(m);
    FirstDigit(first);
  }

  lemma FirstDigit(n: nat)
    ensures Dec(n) != [] && IsDigit(Dec(n)[0])
  {
  }

  /** Every cursor and function key with every combination of modifiers. */
  lemma LegacyRoundTrip(key: Key, m: Mods, clip: Clip)
    requires IsLegacy(key)
    ensures Run(START, Typed(Sequence(LegacyBody(key, m), LegacyFinal(key))), clip) ==
      (START, [KeyInput(Special(key).(mods := m))])
  {
    hide Run, Typed, FinishCsi, Dec, Sequence;
    LegacyFinishes(key, m);
    ModifierReads(m);
    DigitsAreParameters(1);
    DigitsAreParameters(KeyNumber(key));
    DigitsAreParameters(ModifierParam(m));
    SequenceRuns(LegacyBody(key, m), LegacyFinal(key), KeyInput(Special(key).(mods := m)), clip);
  }

  // ---- Kitty keys ------------------------------------------------------------------------------

  lemma {:induction false} ValueFromGrows(d: seq<byte>, current: int)
    requires AllDigits(d) && current >= 0
    ensures ValueFrom(d, current) >= current
    decreases |d|
  {
    if d != [] {
      ValueFromGrows(d[1..], current * 10 + (d[0] as int - 48));
    }
  }

  lemma {:induction false} DigitsAreNumber(d: seq<byte>, value: int, fallback: int)
    requires AllDigits(d) && value >= 0 && ValueFrom(d, value) <= 10000000
    ensures NumberFrom(d, value, fallback) == ValueFrom(d, value)
    decreases |d|
  {
    if d != [] {
      var v := value * 10 + (d[0] as int - 48);
      ValueFromGrows(d[1..], v);
      DigitsAreNumber(d[1..], v, fallback);
    }
  }

  lemma NumberReads(n: nat, fallback: int)
    requires n <= 10000000
    ensures Number(Dec(n), fallback) == n
  {
    ValueFromDec(n);
    DigitsAreNumber(Dec(n), 0, fallback);
  }

  lemma {:induction false} FindNone(s: seq<byte>, b: byte)
    requires forall k | 0 <= k < |s| :: s[k] != b
    ensures Find(s, b) == |s| && Parts(s, b) == [s]
  {
  }

  lemma PartsFirst(a: seq<byte>, sep: byte, rest: seq<byte>)
    requires forall k | 0 <= k < |a| :: a[k] != sep
    ensures Parts(a + [sep] + rest, sep) == [a] + Parts(rest, sep)
  {
    hide Find;
    var s := a + [sep] + rest;
    assert s[|a|] == sep;
    assert forall k | 0 <= k < |a| :: s[k] == a[k];
    FindFrom(s, sep, 0, |a|);
    assert s[0..] == s && s[..|a|] == a && s[|a| + 1..] == rest;
  }

  function ActionCode(a: KeyAction): nat {
    match a
    case Press => 1
    case Repeat => 2
    case Release => 3
  }

  /** code ; modifiers : event */
  function KittyBody(code: nat, m: Mods, a: KeyAction): seq<byte> {
    Dec(code) + [59] + (Dec(ModifierParam(m)) + [58] + Dec(ActionCode(a)))
  }

  lemma NoSeparator(n: nat, sep: byte)
    requires sep == 58 || sep == 59
    ensures forall k | 0 <= k < |Dec(n)| :: Dec(n)[k] != sep
  {
  }

  lemma KittyParts(code: nat, m: Mods, a: KeyAction)
    ensures Parts(KittyBody(code, m, a), 59) == [Dec(code), Dec(ModifierParam(m)) + [58] + Dec(ActionCode(a))]
    ensures Parts(Dec(code), 58) == [Dec(code)]
    ensures Parts(Dec(ModifierParam(m)) + [58] + Dec(ActionCode(a)), 58) == [Dec(ModifierParam(m)), Dec(ActionCode(a))]
  {
    hide Dec, Parts, Find;
    var mod := Dec(ModifierParam(m)) + [58] + Dec(ActionCode(a));
    NoSeparator(code, 58);
    NoSeparator(code, 59);
    NoSeparator(ModifierParam(m), 58);
    NoSeparator(ModifierParam(m), 59);
    NoSeparator(ActionCode(a), 58);
    NoSeparator(ActionCode(a), 59);
    PartsFirst(Dec(code), 59, mod);
    FindNone(mod, 59);
    FindNone(Dec(code), 58);
    PartsFirst(Dec(ModifierParam(m)), 58, Dec(ActionCode(a)));
    FindNone(Dec(ActionCode(a)), 58);
  }

  /** The key a code stands for; tab with shift is a key of its own. */
  function KittyKeyWith(code: nat, m: Mods, a: KeyAction): KeyEvent {
    var key := KittyKey(code);
    key.(key := if key.key == Tab && m.shift then TabReverse else key.key, mods := m, action := a)
  }

  lemma KittyReads(code: nat, m: Mods, a: KeyAction)
    requires code <= 0x10FFFF && KittyKey(code).key != Unknown
    ensures KittyEvent(KittyBody(code, m, a)) == KittyKeyWith(code, m, a)
  {
    hide Parts, Number, Dec, ModifierOf, ModifierParam, KittyBody;
    KittyParts(code, m, a);
    ModifierReads(m);
    NumberReads(code, -1);
    NumberReads(ModifierParam(m), 1);
    NumberReads(ActionCode(a), 1);
    BaseIsZero(code);
  }

  lemma BaseIsZero(code: int)
    ensures KittyKey(code).base == 0
  {
  }

  /** Every key with a code, every combination of modifiers, and press, repeat and release. */
  lemma KittyRoundTrip(code: nat, m: Mods, a: KeyAction, clip: Clip)
    requires code <= 0x10FFFF && KittyKey(code).key != Unknown
    ensures Run(START, Typed(Sequence(KittyBody(code, m, a), 117)), clip) ==
      (START, [KeyInput(KittyKeyWith(code, m, a))])
  {
    hide Run, Typed, FinishCsi, Dec, Sequence, KittyKey, KittyKeyWith;
    KittyReads(code, m, a);
    ModifierReads(m);
    DigitsAreParameters(code);
    DigitsAreParameters(ModifierParam(m));
    DigitsAreParameters(ActionCode(a));
    KittyFinishes(code, m, a);
    SequenceRuns(KittyBody(code, m, a), 117, KeyInput(KittyKeyWith(code, m, a)), clip);
  }

  lemma KittyFinishes(code: nat, m: Mods, a: KeyAction)
    requires code <= 0x10FFFF && KittyKey(code).key != Unknown
    ensures FinishCsi(START, KittyBody(code, m, a), 117) == (START, KeyInput(KittyKeyWith(code, m, a)))
  {
    hide KittyEvent, Dec, KittyKey;
    KittyReads(code, m, a);
    FirstDigit(code);
    KeyStaysKnown(code, m, a);
  }

  lemma KeyStaysKnown(code: nat, m: Mods, a: KeyAction)
    requires KittyKey(code).key != Unknown
    ensures KittyKeyWith(code, m, a).key != Unknown && KittyBody(code, m, a) != [] &&
      KittyBody(code, m, a)[0] == Dec(code)[0]
  {
    hide KittyKey, Dec;
    FirstDigit(code);
  }

  /** A code point above the control characters is the key that types it, the private codes of functional keys aside. */
  lemma KittyText(code: nat)
    requires IsScalar(code) && code >= 32
    ensures KittyKey(code) == PrintableKey(code) && KittyKey(code).cp == code <==>
      code != 127 && !(57344 <= code <= 57357) && !(57364 <= code <= 57387)
  {
  }
}
