/** Input events (include/NeForce/tui/events.hpp) and the state of the parser. */
module InputEvents {
  import opened Bytes

  /** Key modifiers. */
  datatype Mods = Mods(ctrl: bool, alt: bool, shift: bool)

  const PLAIN := Mods(false, false, false)
  const ALT := Mods(false, true, false)

  function Both(a: Mods, b: Mods): Mods {
    Mods(a.ctrl || b.ctrl, a.alt || b.alt, a.shift || b.shift)
  }

  datatype Key =
    | Unknown | Up | Down | Left | Right | Home | End | PageUp | PageDown | Insert | Delete
    | Enter | Tab | TabReverse | Escape | Backspace | F(n: int) | Printable

  datatype KeyAction = Press | Repeat | Release

  datatype KeyEvent = KeyEvent(key: Key, cp: nat, mods: Mods, action: KeyAction, base: nat)

  datatype MouseButton = LeftButton | MiddleButton | RightButton | WheelUp | WheelDown | NoButton

  datatype MouseAction = MousePress | MouseRelease | MouseMove | MouseWheel

  datatype MouseEvent = MouseEvent(x: int, y: int, button: MouseButton, action: MouseAction, mods: Mods)

  datatype Event =
    | NoEvent
    | KeyInput(key: KeyEvent)
    | MouseInput(mouse: MouseEvent)
    | Paste(text: seq<byte>)
    | Clipboard(text: seq<byte>)
    | Focus(focused: bool)

  datatype Mode = Ground | Esc | Csi | Ss3 | Utf8 | Pasting | Osc

  datatype State = State(mode: Mode, sequence: seq<byte>, utf8: seq<byte>, paste: seq<byte>, osc: seq<byte>, mods: Mods)

  const START := State(Ground, [], [], [], [], PLAIN)

  const MAX_SEQUENCE := 32
  const MAX_PASTE := 1024 * 1024
  const PASTE_END: seq<byte> := [ESC, 91, 50, 48, 49, 126]

  predicate IsScalar(v: int) {
    0 <= v < 0xD800 || 0xE000 <= v <= 0x10FFFF
  }

  /** A code point; anything that is not a scalar value becomes U+FFFD. */
  function Codepoint(v: int): nat {
    if IsScalar(v) then v else 0xFFFD
  }

  function Special(key: Key): KeyEvent { KeyEvent(key, 0, PLAIN, Press, 0) }

  function PrintableKey(v: int): KeyEvent { KeyEvent(Printable, Codepoint(v), PLAIN, Press, 0) }

  /** Enter, tab and backspace; the other control characters are Ctrl and a letter or sign. */
  function ControlKey(b: byte): KeyEvent
    requires b < 32 || b == 127
  {
    if b == 13 || b == 10 then Special(Enter)
    else if b == 9 then Special(Tab)
    else if b == 127 || b == 8 then Special(Backspace)
    else
      var cp: int := if b == 0 then 0x40 else if b <= 26 then b as int + 0x60 else b as int + 0x40;
      PrintableKey(cp).(mods := Mods(true, false, false))
  }

  function HasFlag(v: int, weight: int): bool
    requires v >= 0 && weight > 0
  {
    v / weight % 2 == 1
  }

  /** The modifier parameter of a CSI sequence is one more than its bits. */
  function ModifierOf(param: int): Mods {
    if param < 1 then PLAIN else Mods(HasFlag(param - 1, 4), HasFlag(param - 1, 2), HasFlag(param - 1, 1))
  }

  function FunctionalKey(code: int): Key {
    if code == 57344 then Escape else if code == 57345 then Enter else if code == 57346 then Tab
    else if code == 57347 then Backspace else if code == 57348 then Insert else if code == 57349 then Delete
    else if code == 57350 then Left else if code == 57351 then Right else if code == 57352 then Up
    else if code == 57353 then Down else if code == 57354 then PageUp else if code == 57355 then PageDown
    else if code == 57356 then Home else if code == 57357 then End
    else if 57364 <= code <= 57387 then F(code - 57363)
    else Unknown
  }

  /** A key code of the Kitty keyboard protocol. */
  function KittyKey(code: int): KeyEvent {
    if FunctionalKey(code) != Unknown then Special(FunctionalKey(code))
    else if code == 27 then Special(Escape) else if code == 13 then Special(Enter)
    else if code == 9 then Special(Tab) else if code == 127 then Special(Backspace)
    else if 32 <= code <= 0x10FFFF then PrintableKey(code)
    else Special(Unknown)
  }

  // ---- Parameters ------------------------------------------------------------------

  /** Numbers separated by semicolons; a missing one is 0, other characters are skipped. */
  function ParamsFrom(s: seq<byte>, current: int, hasDigit: bool): (r: seq<int>)
    ensures r != []
    decreases |s|
  {
    if s == [] then [if hasDigit then current else 0]
    else if s[0] == 59 then [if hasDigit then current else 0] + ParamsFrom(s[1..], 0, false)
    else if IsDigit(s[0]) then ParamsFrom(s[1..], current * 10 + (s[0] as int - 48), true)
    else ParamsFrom(s[1..], current, hasDigit)
  }

  function Params(s: seq<byte>): (r: seq<int>)
    ensures r != []
  {
    ParamsFrom(s, 0, false)
  }

  method SplitParams(s: seq<byte>) returns (values: seq<int>)
    ensures values == Params(s)
  {
    values := [];
    var current := 0;
    var hasDigit := false;
    var i := 0;
    assert s[0..] == s;
    while i < |s|
      invariant 0 <= i <= |s| && values + ParamsFrom(s[i..], current, hasDigit) == Params(s)
    {
      var c := s[i];
      assert s[i..][1..] == s[i + 1..];
      if c == 59 {
        ghost var rest := ParamsFrom(s[i + 1..], 0, false);
        ghost var value := [if hasDigit then current else 0];
        assert values + (value + rest) == values + value + rest;
        values := values + [if hasDigit then current else 0];
        current := 0;
        hasDigit := false;
      } else if IsDigit(c) {
        current := current * 10 + (c as int - 48);
        hasDigit := true;
      }
      i := i + 1;
    }
    values := values + [if hasDigit then current else 0];
  }

  /** The parts of s between separators. */
  function Parts(s: seq<byte>, sep: byte): (r: seq<seq<byte>>)
    ensures r != []
    decreases |s|
  {
    var k := Find(s, sep);
    if k == |s| then [s] else [s[..k]] + Parts(s[k + 1..], sep)
  }

  lemma FindFrom(s: seq<byte>, sep: byte, start: nat, i: nat)
    requires start <= i <= |s| && (forall k | start <= k < i :: s[k] != sep) && (i < |s| ==> s[i] == sep)
    ensures Find(s[start..], sep) == i - start
  {
    if i < |s| {
      assert s[start..][i - start] == sep;
    }
    assert forall k | 0 <= k < i - start :: s[start..][k] == s[start + k];
  }

  /** The part from start up to a separator or the end. */
  lemma PartIsNext(s: seq<byte>, sep: byte, start: nat, i: nat, parts: seq<seq<byte>>)
    requires start <= i <= |s| && (forall k | start <= k < i :: s[k] != sep) && (i < |s| ==> s[i] == sep)
    ensures parts + Parts(s[start..], sep) ==
      parts + [s[start..i]] + if i < |s| then Parts(s[i + 1..], sep) else []
  {
    hide Find, Parts;
    var part := s[start..i];
    FirstPart(s, sep, start, i);
    if i < |s| {
      assert parts + ([part] + Parts(s[i + 1..], sep)) == parts + [part] + Parts(s[i + 1..], sep);
    }
  }

  lemma FirstPart(s: seq<byte>, sep: byte, start: nat, i: nat)
    requires start <= i <= |s| && (forall k | start <= k < i :: s[k] != sep) && (i < |s| ==> s[i] == sep)
    ensures Parts(s[start..], sep) == [s[start..i]] + if i < |s| then Parts(s[i + 1..], sep) else []
  {
    hide Find;
    FindFrom(s, sep, start, i);
    assert s[start..][..i - start] == s[start..i];
    if i < |s| {
      assert s[start..][i - start + 1..] == s[i + 1..];
    } else {
      assert s[start..] == s[start..i];
    }
  }

  method SplitView(s: seq<byte>, sep: byte) returns (parts: seq<seq<byte>>)
    ensures parts == Parts(s, sep)
  {
    hide Parts;
    parts := [];
    var start := 0;
    var i := 0;
    assert s[0..] == s;
    while i <= |s|
      invariant 0 <= i <= |s| + 1 && 0 <= start <= i
      invariant if i <= |s| then parts + Parts(s[start..], sep) == Parts(s, sep) else parts == Parts(s, sep)
      invariant i <= |s| ==> forall k | start <= k < i :: s[k] != sep
    {
      if i == |s| || s[i] == sep {
        PartIsNext(s, sep, start, i, parts);
        parts := parts + [s[start..i]];
        start := i + 1;
      }
      i := i + 1;
    }
  }

  /** A number of at most 10000000 in digits only, otherwise the fallback. */
  function NumberFrom(s: seq<byte>, value: int, fallback: int): int
    decreases |s|
  {
    if s == [] then value
    else if !IsDigit(s[0]) then fallback
    else
      var v := value * 10 + (s[0] as int - 48);
      if v > 10000000 then fallback else NumberFrom(s[1..], v, fallback)
  }

  function Number(s: seq<byte>, fallback: int): int {
    if s == [] then fallback else NumberFrom(s, 0, fallback)
  }

  method ParseInt(s: seq<byte>, fallback: int) returns (value: int)
    ensures value == Number(s, fallback)
  {
    if s == [] {
      return fallback;
    }
    value := 0;
    var i := 0;
    assert s[0..] == s;
    while i < |s|
      invariant 0 <= i <= |s| && NumberFrom(s[i..], value, fallback) == NumberFrom(s, 0, fallback)
    {
      assert s[i..][1..] == s[i + 1..];
      if !IsDigit(s[i]) {
        return fallback;
      }
      value := value * 10 + (s[i] as int - 48);
      if value > 10000000 {
        return fallback;
      }
      i := i + 1;
    }
  }
}
