/** What one byte does to the input parser (src/tui/input_parser.cpp), as a function of its state. */
module InputFeed {
  import opened Bytes
  import opened InputEvents

  /** sys_console::parse_clipboard_response: the decoded text, empty when there is none. */
  type Clip = seq<byte> -> seq<byte>

  type Result = (State, Event)

  function Reset(s: State): State { START }

  /** emit_key */
  function Emit(s: State, key: KeyEvent): Result {
    (s.(mode := Ground, sequence := [], utf8 := [], mods := PLAIN), KeyInput(key))
  }

  /** How many bytes a UTF-8 lead byte announces, 0 if it is none. */
  function Expected(first: byte): nat {
    if 0xC0 <= first < 0xE0 then 2 else if 0xE0 <= first < 0xF0 then 3 else if 0xF0 <= first < 0xF8 then 4 else 0
  }

  predicate IsContinuation(b: byte) { 0x80 <= b < 0xC0 }

  /** The value of a complete UTF-8 sequence. */
  function Assemble(u: seq<byte>): int
    requires u != [] && |u| == Expected(u[0])
  {
    if |u| == 2 then u[0] as int % 32 * 64 + u[1] as int % 64
    else if |u| == 3 then (u[0] as int % 16 * 64 + u[1] as int % 64) * 64 + u[2] as int % 64
    else ((u[0] as int % 8 * 64 + u[1] as int % 64) * 64 + u[2] as int % 64) * 64 + u[3] as int % 64
  }

  function CompleteUtf8(s: State): Result {
    if s.utf8 == [] then (Reset(s), NoEvent)
    else
      var expected := Expected(s.utf8[0]);
      if expected == 0 then Emit(s, PrintableKey(0xFFFD).(mods := s.mods))
      else if |s.utf8| < expected then (s, NoEvent)
      else if |s.utf8| > expected then (Reset(s), NoEvent)
      else Emit(s, PrintableKey(Assemble(s.utf8)).(mods := s.mods))
  }

  function FeedGround(s: State, b: byte): Result {
    if b == ESC then (s.(mode := Esc, sequence := []), NoEvent)
    else if b >= 0x80 then CompleteUtf8(s.(mode := Utf8, utf8 := [b]))
    else if b < 32 || b == 127 then Emit(s, ControlKey(b))
    else Emit(s, PrintableKey(b))
  }

  function FeedEscape(s: State, b: byte): Result {
    if b == 91 then (s.(mode := Csi, sequence := []), NoEvent)
    else if b == 93 then (s.(mode := Osc, osc := [ESC, 93]), NoEvent)
    else if b == 79 then (s.(mode := Ss3, sequence := []), NoEvent)
    else if b == ESC then (s.(sequence := [], mods := PLAIN), KeyInput(Special(Escape)))
    else if b >= 0x80 then CompleteUtf8(s.(mode := Utf8, mods := ALT, utf8 := [b]))
    else if b < 32 || b == 127 then
      var key := ControlKey(b);
      Emit(s, key.(mods := Both(key.mods, ALT)))
    else Emit(s, PrintableKey(b).(mods := ALT))
  }

  function FeedUtf8(s: State, b: byte): Result {
    if !IsContinuation(b) then FeedGround(Reset(s), b) else CompleteUtf8(s.(utf8 := s.utf8 + [b]))
  }

  /** The keys that CSI and SS3 share: arrows, Home, End and F1 to F4. */
  function LetterKey(final: byte): Key {
    if final == 65 then Up else if final == 66 then Down else if final == 67 then Right else if final == 68 then Left
    else if final == 72 then Home else if final == 70 then End
    else if final == 80 then F(1) else if final == 81 then F(2)
    else if final == 82 then F(3) else if final == 83 then F(4)
    else Unknown
  }

  function FeedSs3(s: State, b: byte): Result {
    Emit(s, Special(if LetterKey(b) == Unknown then Escape else LetterKey(b)))
  }

  /** The keys of CSI number ~ */
  function TildeKey(code: int): Key {
    if code == 1 || code == 7 then Home else if code == 2 then Insert else if code == 3 then Delete
    else if code == 4 || code == 8 then End else if code == 5 then PageUp else if code == 6 then PageDown
    else if 11 <= code <= 15 then F(code - 10) else if 17 <= code <= 21 then F(code - 11)
    else if 23 <= code <= 24 then F(code - 12) else Unknown
  }

  /** Button, modifiers and action of a mouse report. */
  function MouseOf(values: seq<int>, release: bool): MouseEvent
    requires |values| >= 3 && values[0] >= 0
  {
    var v := values[0];
    var plain :=
      if v % 4 == 0 then LeftButton else if v % 4 == 1 then MiddleButton
      else if v % 4 == 2 then RightButton else NoButton;
    var wheel := if v % 4 == 0 then WheelUp else if v % 4 == 1 then WheelDown else NoButton;
    var action :=
      if HasFlag(v, 64) then MouseWheel else if release then MouseRelease
      else if HasFlag(v, 32) then MouseMove else MousePress;
    MouseEvent(values[1] - 1, values[2] - 1, if HasFlag(v, 64) then wheel else plain, action,
               Mods(HasFlag(v, 16), HasFlag(v, 8), HasFlag(v, 4)))
  }

  lemma {:induction false} ParamsAreNatural(s: seq<byte>, current: int, hasDigit: bool)
    requires current >= 0
    ensures forall k | 0 <= k < |ParamsFrom(s, current, hasDigit)| :: ParamsFrom(s, current, hasDigit)[k] >= 0
    decreases |s|
  {
    if s != [] {
      if s[0] == 59 {
        ParamsAreNatural(s[1..], 0, false);
      } else if IsDigit(s[0]) {
        ParamsAreNatural(s[1..], current * 10 + (s[0] as int - 48), true);
      } else {
        ParamsAreNatural(s[1..], current, hasDigit);
      }
    }
  }

  function SgrMouse(s: State, body: seq<byte>, release: bool): Result {
    if |body| < 2 || |Params(body[1..])| < 3 then (s, NoEvent)
    else
      ParamsAreNatural(body[1..], 0, false);
      (s, MouseInput(MouseOf(Params(body[1..]), release)))
  }

  /** CSI code[:alternates][;mods[:event]][;text] u, none for other reports and unknown codes. */
  function KittyEvent(body: seq<byte>): KeyEvent {
    var parts := Parts(body, 59);
    var codes := Parts(parts[0], 58);
    var code := Number(codes[0], -1);
    var mod := if |parts| > 1 then Parts(parts[1], 58) else [[]];
    var modifiers := Number(mod[0], 1);
    var eventType := if |mod| > 1 then Number(mod[1], 1) else 1;
    var base := if |codes| > 1 then Number(codes[1], 0) else 0;
    var key := KittyKey(code);
    var mods := ModifierOf(modifiers);
    if code < 0 || key.key == Unknown then Special(Unknown)
    else key.(key := if key.key == Tab && mods.shift then TabReverse else key.key,
              mods := mods,
              action := if eventType == 2 then Repeat else if eventType == 3 then Release else Press,
              base := if 0 < base <= 0x10FFFF then Codepoint(base) else 0)
  }

  function EmitKnown(s: State, key: KeyEvent): Result {
    if key.key == Unknown then (s, NoEvent) else Emit(s, key)
  }

  /** The final byte of a CSI sequence; s is already back in ground mode with an empty sequence. */
  function FinishCsi(s: State, body: seq<byte>, final: byte): Result {
    if body == [] && final == 73 then (s, Focus(true))
    else if body == [] && final == 79 then (s, Focus(false))
    else if final == 117 then
      if body != [] && body[0] in [60, 62, 63] then (s, NoEvent) else EmitKnown(s, KittyEvent(body))
    else if body != [] && body[0] == 60 && (final == 77 || final == 109) then SgrMouse(s, body, final == 109)
    else
      var values := Params(body);
      var mods := ModifierOf(if |values| > 1 then values[1] else 1);
      if final == 90 then Emit(s, Special(TabReverse).(mods := Both(Mods(false, false, true), mods)))
      else if final != 126 then EmitKnown(s, Special(LetterKey(final)).(mods := mods))
      else if values[0] == 27 && |values| >= 3 then EmitKnown(s, KittyKey(values[2]).(mods := ModifierOf(values[1])))
      else if values[0] == 200 then (s.(mode := Pasting, paste := []), NoEvent)
      else EmitKnown(s, Special(TildeKey(values[0])).(mods := mods))
  }

  function FeedCsi(s: State, b: byte): Result {
    if b == ESC then (s.(mode := Esc, sequence := []), NoEvent)
    else if 0x40 <= b <= 0x7E then FinishCsi(s.(mode := Ground, sequence := []), s.sequence, b)
    else if |s.sequence| + 1 > MAX_SEQUENCE then (Reset(s), NoEvent)
    else (s.(sequence := s.sequence + [b]), NoEvent)
  }

  function FeedOsc(s: State, b: byte, clip: Clip): Result {
    var osc := s.osc + [b];
    if b != 7 && !(|osc| >= 2 && osc[|osc| - 2] == ESC && b == 92) then
      (if |osc| > MAX_PASTE then Reset(s) else s.(osc := osc), NoEvent)
    else (Reset(s), if clip(osc) == [] then NoEvent else Clipboard(clip(osc)))
  }

  predicate EndsWith(s: seq<byte>, end: seq<byte>) {
    |s| >= |end| && s[|s| - |end|..] == end
  }

  /** CR LF and CR become LF. */
  function Normalized(text: seq<byte>): seq<byte>
    decreases |text|
  {
    if text == [] then []
    else if text[0] != 13 then [text[0]] + Normalized(text[1..])
    else [10] + Normalized(text[if |text| > 1 && text[1] == 10 then 2 else 1..])
  }

  function FeedPaste(s: State, b: byte): Result {
    var paste := s.paste + [b];
    if !EndsWith(paste, PASTE_END) then
      if |paste| > MAX_PASTE then (s.(mode := Ground, paste := []), NoEvent) else (s.(paste := paste), NoEvent)
    else (s.(mode := Ground, paste := []), Paste(Normalized(paste[..|paste| - |PASTE_END|])))
  }

  function Feed(s: State, b: byte, clip: Clip): Result {
    match s.mode
    case Pasting => FeedPaste(s, b)
    case Osc => FeedOsc(s, b, clip)
    case Utf8 => FeedUtf8(s, b)
    case Csi => FeedCsi(s, b)
    case Ss3 => FeedSs3(s, b)
    case Esc => FeedEscape(s, b)
    case Ground => FeedGround(s, b)
  }

  function Flush(s: State): Result {
    if s.mode == Esc then Emit(s, Special(Escape))
    else if s.mode in [Utf8, Csi, Ss3, Osc] then (Reset(s), NoEvent)
    else (s, NoEvent)
  }
}
