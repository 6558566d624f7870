/** The class input_parser of src/tui/input_parser.cpp, byte by byte against InputFeed. */
module InputParsers {
  import opened Bytes
  import opened InputEvents
  import opened InputFeed

  class InputParser {
    var mode: Mode
    var sequence: seq<byte>
    var utf8: seq<byte>
    var paste: seq<byte>
    var osc: seq<byte>
    var mods: Mods

    constructor ()
      ensures Abstract() == START
    {
      mode, sequence, utf8, paste, osc, mods := Ground, [], [], [], [], PLAIN;
    }

    function Abstract(): State
      reads this
    {
      State(mode, sequence, utf8, paste, osc, mods)
    }

    method ResetParser()
      modifies this
      ensures Abstract() == START
    {
      mode, sequence, utf8, paste, osc, mods := Ground, [], [], [], [], PLAIN;
    }

    method EmitKey(key: KeyEvent) returns (out: Event)
      modifies this
      ensures (Abstract(), out) == Emit(old(Abstract()), key)
    {
      out := KeyInput(key);
      mode, sequence, utf8, mods := Ground, [], [], PLAIN;
    }

    /** True exactly when there is an event. */
    method FeedByte(b: byte, clip: Clip) returns (ok: bool, out: Event)
      modifies this
      ensures (Abstract(), out) == Feed(old(Abstract()), b, clip) && ok == (out != NoEvent)
    {
      hide FeedPaste, FeedOsc, FeedUtf8, FeedCsi, FeedSs3, FeedEscape, FeedGround;
      match mode
      case Pasting => ok, out := FeedPasteByte(b);
      case Osc => ok, out := FeedOscByte(b, clip);
      case Utf8 => ok, out := FeedUtf8Byte(b);
      case Csi => ok, out := FeedCsiByte(b);
      case Ss3 => ok, out := FeedSs3Byte(b);
      case Esc => ok, out := FeedEscapeByte(b);
      case Ground => ok, out := FeedGroundByte(b);
    }

    method FlushBatch() returns (ok: bool, out: Event)
      modifies this
      ensures (Abstract(), out) == Flush(old(Abstract())) && ok == (out != NoEvent)
    {
      if mode == Esc {
        out := EmitKey(Special(Escape));
        return true, out;
      }
      if mode == Utf8 || mode == Csi || mode == Ss3 || mode == Osc {
        ResetParser();
      }
      return false, NoEvent;
    }

    method FeedGroundByte(b: byte) returns (ok: bool, out: Event)
      modifies this
      ensures (Abstract(), out) == FeedGround(old(Abstract()), b) && ok == (out != NoEvent)
    {
      if b == ESC {
        mode := Esc;
        sequence := [];
        return false, NoEvent;
      }
      if b >= 0x80 {
        mode := Utf8;
        utf8 := [];
        utf8 := utf8 + [b];
        assert utf8 == [b];
        ok, out := Complete();
        return;
      }
      if b < 32 || b == 127 {
        out := EmitKey(ControlKey(b));
        return true, out;
      }
      out := EmitKey(PrintableKey(b));
      ok := true;
    }

    method FeedEscapeByte(b: byte) returns (ok: bool, out: Event)
      modifies this
      ensures (Abstract(), out) == FeedEscape(old(Abstract()), b) && ok == (out != NoEvent)
    {
      hide CompleteUtf8;
      if b == 91 {
        mode := Csi;
        sequence := [];
        return false, NoEvent;
      }
      if b == 93 {
        mode := Osc;
        osc := [];
        osc := osc + [ESC];
        osc := osc + [93];
        assert osc == [ESC, 93];
        return false, NoEvent;
      }
      if b == 79 {
        mode := Ss3;
        sequence := [];
        return false, NoEvent;
      }
      if b == ESC {
        out := KeyInput(Special(Escape));
        sequence := [];
        mods := PLAIN;
        return true, out;
      }
      if b >= 0x80 {
        mode := Utf8;
        mods := ALT;
        utf8 := [];
        utf8 := utf8 + [b];
        assert utf8 == [b];
        ok, out := Complete();
        return;
      }
      if b < 32 || b == 127 {
        var key := ControlKey(b);
        key := key.(mods := Both(key.mods, ALT));
        out := EmitKey(key);
        return true, out;
      }
      var key := PrintableKey(b);
      key := key.(mods := ALT);
      out := EmitKey(key);
      ok := true;
    }

    method FeedUtf8Byte(b: byte) returns (ok: bool, out: Event)
      modifies this
      ensures (Abstract(), out) == FeedUtf8(old(Abstract()), b) && ok == (out != NoEvent)
    {
      hide FeedGround, CompleteUtf8;
      if !IsContinuation(b) {
        ResetParser();
        ok, out := FeedGroundByte(b);
        return;
      }
      utf8 := utf8 + [b];
      ok, out := Complete();
    }

    method Complete() returns (ok: bool, out: Event)
      modifies this
      ensures (Abstract(), out) == CompleteUtf8(old(Abstract())) && ok == (out != NoEvent)
    {
      hide Assemble;
      if utf8 == [] {
        ResetParser();
        return false, NoEvent;
      }
      var expected := Expected(utf8[0]);
      if expected == 0 {
        var key := PrintableKey(0xFFFD);
        key := key.(mods := mods);
        out := EmitKey(key);
        return true, out;
      }
      if |utf8| < expected {
        return false, NoEvent;
      }
      if |utf8| > expected {
        ResetParser();
        return false, NoEvent;
      }
      var key := PrintableKey(Assemble(utf8));
      key := key.(mods := mods);
      out := EmitKey(key);
      ok := true;
    }

    method FeedSs3Byte(b: byte) returns (ok: bool, out: Event)
      modifies this
      ensures (Abstract(), out) == FeedSs3(old(Abstract()), b) && ok == (out != NoEvent)
    {
      hide LetterKey;
      mode := Ground;
      var key := LetterKey(b);
      if key == Unknown {
        key := Escape;
      }
      out := EmitKey(Special(key));
      ok := true;
    }

    method FeedCsiByte(b: byte) returns (ok: bool, out: Event)
      modifies this
      ensures (Abstract(), out) == FeedCsi(old(Abstract()), b) && ok == (out != NoEvent)
    {
      hide FinishCsi;
      if b == ESC {
        mode := Esc;
        sequence := [];
        return false, NoEvent;
      }
      if 0x40 <= b <= 0x7E {
        sequence := sequence + [b];
        mode := Ground;
        ok, out := FinishCsiSequence();
        return;
      }
      sequence := sequence + [b];
      if |sequence| > MAX_SEQUENCE {
        ResetParser();
      }
      return false, NoEvent;
    }

    /** An unknown key is no event. */
    method EmitKnownKey(key: KeyEvent) returns (ok: bool, out: Event)
      modifies this
      ensures (Abstract(), out) == EmitKnown(old(Abstract()), key) && ok == (out != NoEvent)
    {
      if key.key == Unknown {
        return false, NoEvent;
      }
      out := EmitKey(key);
      ok := true;
    }

    method FinishCsiSequence() returns (ok: bool, out: Event)
      requires sequence != []
      modifies this
      ensures
        var s := old(Abstract());
        var last := |s.sequence| - 1;
        (Abstract(), out) == FinishCsi(s.(sequence := []), s.sequence[..last], s.sequence[last])
      ensures ok == (out != NoEvent)
    {
      hide KittyEvent, SgrMouse, LetterKey, TildeKey, KittyKey, ModifierOf, Params, EmitKnown;
      var final := sequence[|sequence| - 1];
      var body := sequence[..|sequence| - 1];
      sequence := [];
      if body == [] && final == 73 {
        return true, Focus(true);
      }
      if body == [] && final == 79 {
        return true, Focus(false);
      }
      if final == 117 {
        if body != [] && (body[0] == 63 || body[0] == 62 || body[0] == 60) {
          return false, NoEvent;
        }
        var key := ParseKitty(body);
        ok, out := EmitKnownKey(key);
        return;
      }
      if body != [] && body[0] == 60 {
        if final == 77 || final == 109 {
          ok, out := ParseSgrMouse(body, final == 109);
          return;
        }
      }
      var values := SplitParams(body);
      var mods := ModifierOf(if |values| > 1 then values[1] else 1);
      if final == 90 {
        out := EmitKey(Special(TabReverse).(mods := Both(Mods(false, false, true), mods)));
        return true, out;
      }
      if final != 126 {
        ok, out := EmitKnownKey(Special(LetterKey(final)).(mods := mods));
        return;
      }
      if values[0] == 27 && |values| >= 3 {
        ok, out := EmitKnownKey(KittyKey(values[2]).(mods := ModifierOf(values[1])));
        return;
      }
      if values[0] == 200 {
        mode := Pasting;
        paste := [];
        return false, NoEvent;
      }
      ok, out := EmitKnownKey(Special(TildeKey(values[0])).(mods := mods));
    }

    method ParseKitty(body: seq<byte>) returns (key: KeyEvent)
      ensures key == KittyEvent(body)
    {
      assert Number([], 1) == 1;
      hide Parts, Number, KittyKey, ModifierOf;
      var parts := SplitView(body, 59);
      var codes := SplitView(parts[0], 58);
      var code := ParseInt(codes[0], -1);
      if code < 0 {
        return Special(Unknown);
      }
      var modifiers := 1;
      var eventType := 1;
      if |parts| > 1 {
        var mod := SplitView(parts[1], 58);
        modifiers := ParseInt(mod[0], 1);
        if |mod| > 1 {
          eventType := ParseInt(mod[1], 1);
        }
      }
      key := KittyKey(code);
      if key.key == Unknown {
        return Special(Unknown);
      }
      KittyKeyIsPlain(code);
      key := key.(mods := ModifierOf(modifiers));
      if key.key == Tab && key.mods.shift {
        key := key.(key := TabReverse);
      }
      if eventType == 2 {
        key := key.(action := Repeat);
      } else if eventType == 3 {
        key := key.(action := Release);
      }
      if |codes| > 1 {
        var base := ParseInt(codes[1], 0);
        if base > 0 && base <= 0x10FFFF {
          key := key.(base := Codepoint(base));
        }
      }
    }

    method ParseSgrMouse(body: seq<byte>, release: bool) returns (ok: bool, out: Event)
      modifies this
      ensures (Abstract(), out) == SgrMouse(old(Abstract()).(sequence := []), body, release) && ok == (out != NoEvent)
    {
      hide MouseOf, ParamsFrom;
      sequence := [];
      if |body| < 2 {
        return false, NoEvent;
      }
      var values := SplitParams(body[1..]);
      if |values| < 3 {
        return false, NoEvent;
      }
      ParamsAreNatural(body[1..], 0, false);
      return true, MouseInput(MouseOf(values, release));
    }

    method FeedOscByte(b: byte, clip: Clip) returns (ok: bool, out: Event)
      modifies this
      ensures (Abstract(), out) == FeedOsc(old(Abstract()), b, clip) && ok == (out != NoEvent)
    {
      osc := osc + [b];
      var terminatedByBel := b == 7;
      var terminatedBySt := |osc| >= 2 && osc[|osc| - 2] == ESC && b == 92;
      if !terminatedByBel && !terminatedBySt {
        if |osc| > MAX_PASTE {
          ResetParser();
        }
        return false, NoEvent;
      }
      var sequence := osc;
      ResetParser();
      var decoded := clip(sequence);
      if decoded == [] {
        return false, NoEvent;
      }
      return true, Clipboard(decoded);
    }

    method FeedPasteByte(b: byte) returns (ok: bool, out: Event)
      modifies this
      ensures (Abstract(), out) == FeedPaste(old(Abstract()), b) && ok == (out != NoEvent)
    {
      hide Normalized;
      paste := paste + [b];
      if !EndsWith(paste, PASTE_END) {
        if |paste| > MAX_PASTE {
          paste := [];
          mode := Ground;
        }
        return false, NoEvent;
      }
      var text := paste[..|paste| - |PASTE_END|];
      paste := [];
      mode := Ground;
      var normalized := Normalize(text);
      return true, Paste(normalized);
    }
  }

  lemma KittyKeyIsPlain(code: int)
    ensures KittyKey(code).action == Press && KittyKey(code).base == 0
  {
  }

  /** The text from i on starts with a line end of one or two bytes, or with another byte. */
  lemma NormalizedNext(text: seq<byte>, i: nat)
    requires i < |text|
    ensures
      var next := if text[i] == 13 && i + 1 < |text| && text[i + 1] == 10 then i + 2 else i + 1;
      Normalized(text[i..]) == [if text[i] == 13 then 10 else text[i]] + Normalized(text[next..])
  {
    var left := text[i..];
    assert left[1..] == text[i + 1..];
    if i + 1 < |text| {
      assert left[2..] == text[i + 2..];
    }
  }

  method Normalize(text: seq<byte>) returns (normalized: seq<byte>)
    ensures normalized == Normalized(text)
  {
    hide Normalized;
    normalized := [];
    var i := 0;
    assert text[0..] == text;
    while i < |text|
      invariant 0 <= i <= |text| && normalized + Normalized(text[i..]) == Normalized(text)
    {
      var c := text[i];
      NormalizedNext(text, i);
      if c == 13 {
        normalized := normalized + [10];
        if i + 1 < |text| && text[i + 1] == 10 {
          i := i + 1;
        }
      } else {
        normalized := normalized + [c];
      }
      i := i + 1;
    }
    NothingNormalized(text[i..]);
  }

  lemma NothingNormalized(text: seq<byte>)
    requires |text| == 0
    ensures Normalized(text) == []
  {
  }
}
