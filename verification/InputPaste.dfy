/** Bracketed paste: whatever is pasted arrives as one event, however it is cut into batches. */
module InputPaste {
  import opened Bytes
  import opened InputEvents
  import opened InputFeed
  import opened InputInvariant
  import opened InputText

  predicate Contains(s: seq<byte>, m: seq<byte>) {
    exists i :: 0 <= i <= |s| && IsAt(s, m, i)
  }

  /** The bytes among the inputs. */
  function BytesOf(inputs: seq<Input>): seq<byte> {
    if inputs == [] then []
    else (if inputs[0].Byte? then [inputs[0].b] else []) + BytesOf(inputs[1..])
  }

  predicate Uninterrupted(inputs: seq<Input>) {
    forall k | 0 <= k < |inputs| :: inputs[k] != ResetNow
  }

  function Collecting(paste: seq<byte>): State {
    START.(mode := Pasting, paste := paste)
  }

  /** The end marker cannot overlap itself, so it first ends the stream at its very end. */
  lemma NoEarlyEnd(text: seq<byte>, k: nat)
    requires !Contains(text, PASTE_END) && k < |text| + 6
    ensures !EndsWith((text + PASTE_END)[..k], PASTE_END)
  {
    var all := text + PASTE_END;
    var p := all[..k];
    if k > |text| && k >= 6 {
      var d := 6 - (k - |text|);
      assert p[k - 6..][d] == all[|text|] == ESC;
      assert PASTE_END[d] != ESC;
    } else if EndsWith(p, PASTE_END) {
      assert p[k - 6..] == text[k - 6..k - 6 + 6];
      assert IsAt(text, PASTE_END, k - 6);
    }
  }

  lemma {:induction false} NothingLeft(inputs: seq<Input>, clip: Clip)
    requires Uninterrupted(inputs) && BytesOf(inputs) == []
    ensures Run(START, inputs, clip) == (START, [])
    decreases |inputs|
  {
    if inputs != [] {
      NothingLeft(inputs[1..], clip);
    }
  }

  lemma RunFirst(s: State, inputs: seq<Input>, t: State, e: Event, u: State, es: seq<Event>, clip: Clip)
    requires inputs != [] && Apply(s, inputs[0], clip) == (t, e) && Run(t, inputs[1..], clip) == (u, es)
    ensures Run(s, inputs, clip) == (u, One(e) + es)
  {
    hide Apply;
  }

  lemma PasteMiddle(paste: seq<byte>, b: byte, clip: Clip)
    requires !EndsWith(paste + [b], PASTE_END) && |paste| < MAX_PASTE
    ensures Feed(Collecting(paste), b, clip) == (Collecting(paste + [b]), NoEvent)
  {
    hide EndsWith;
  }

  lemma PasteLast(paste: seq<byte>, b: byte, text: seq<byte>, clip: Clip)
    requires paste + [b] == text + PASTE_END
    ensures Feed(Collecting(paste), b, clip) == (START, Paste(Normalized(text)))
  {
    hide Normalized;
    var all := text + PASTE_END;
    assert all[|all| - 6..] == PASTE_END && all[..|all| - 6] == text;
  }

  lemma PasteByte(paste: seq<byte>, b: byte, text: seq<byte>, clip: Clip)
    requires paste + [b] <= text + PASTE_END && !Contains(text, PASTE_END) && |text| + 5 <= MAX_PASTE
    ensures Feed(Collecting(paste), b, clip) ==
      if |paste| + 1 < |text| + 6 then (Collecting(paste + [b]), NoEvent) else (START, Paste(Normalized(text)))
  {
    hide EndsWith, Normalized, Contains, Feed;
    var all := text + PASTE_END;
    var next := paste + [b];
    assert next == all[..|next|];
    if |next| < |all| {
      NoEarlyEnd(text, |next|);
      PasteMiddle(paste, b, clip);
    } else {
      assert next == all;
      PasteLast(paste, b, text, clip);
    }
  }

  /** From the middle of a paste on. */
  lemma {:induction false} PasteGoesOn(paste: seq<byte>, inputs: seq<Input>, text: seq<byte>, clip: Clip)
    requires Uninterrupted(inputs) && paste + BytesOf(inputs) == text + PASTE_END && BytesOf(inputs) != []
    requires !Contains(text, PASTE_END) && |text| + 5 <= MAX_PASTE
    ensures Run(Collecting(paste), inputs, clip) == (START, [Paste(Normalized(text))])
    decreases |inputs|
  {
    hide Run, Contains, Normalized, Feed;
    var s := Collecting(paste);
    var event := Paste(Normalized(text));
    var rest := inputs[1..];
    match inputs[0]
    case EndOfBatch =>
      assert BytesOf(inputs) == [] + BytesOf(rest) == BytesOf(rest);
      PasteGoesOn(paste, rest, text, clip);
      assert Flush(s) == (s, NoEvent);
      RunFirst(s, inputs, s, NoEvent, START, [event], clip);
      assert [] + [event] == [event];
    case Byte(b) =>
      assert BytesOf(inputs) == [b] + BytesOf(rest);
      assert paste + BytesOf(inputs) == paste + [b] + BytesOf(rest);
      PasteByte(paste, b, text, clip);
      if BytesOf(rest) == [] {
        NothingLeft(rest, clip);
        RunFirst(s, inputs, START, event, START, [], clip);
        assert [event] + [] == [event];
      } else {
        PasteGoesOn(paste + [b], rest, text, clip);
        RunFirst(s, inputs, Collecting(paste + [b]), NoEvent, START, [event], clip);
        assert [] + [event] == [event];
      }
  }

  const PASTE_BEGIN: seq<byte> := [ESC, 91, 50, 48, 48, 126]

  lemma BeginIsRecognized()
    ensures Params([50, 48, 48]) == [200]
  {
    assert [50, 48, 48][1..] == [48, 48] && [48, 48][1..] == [48] && [48][1..] == [];
    assert ParamsFrom([48], 20, true) == ParamsFrom([], 200, true) == [200];
    assert ParamsFrom([48, 48], 2, true) == ParamsFrom([48], 20, true);
  }

  lemma EscapeStarts(clip: Clip)
    ensures Feed(START, ESC, clip) == (START.(mode := Esc), NoEvent)
    ensures Feed(START.(mode := Esc), 91, clip) == (InCsi([]), NoEvent)
  {
  }

  lemma TildeStartsPaste(clip: Clip)
    ensures Feed(InCsi([50, 48, 48]), 126, clip) == (Collecting([]), NoEvent)
  {
    BeginIsRecognized();
    hide Params, KittyEvent, SgrMouse, LetterKey, TildeKey, KittyKey, ModifierOf;
  }

  lemma PasteBegins(clip: Clip)
    ensures Run(START, Typed(PASTE_BEGIN), clip) == (Collecting([]), [])
  {
    hide Typed, Run, Feed, Collecting;
    var digits: seq<byte> := [50, 48, 48];
    EscapeStarts(clip);
    Quiet(START, ESC, START.(mode := Esc), [91] + (digits + [126]), clip);
    Quiet(START.(mode := Esc), 91, InCsi([]), digits + [126], clip);
    ParametersCollect([], digits, [126], clip);
    TildeStartsPaste(clip);
    RunLast(InCsi(digits), 126, clip);
    assert PASTE_BEGIN == [ESC] + ([91] + (digits + [126])) && [] + digits == digits;
  }

  /**
    Between the markers any text without the end marker, within the size limit, cut anywhere into
    batches, is exactly one paste event, with the text as it was but for its line ends.
   */
  lemma PasteRoundTrip(inputs: seq<Input>, text: seq<byte>, clip: Clip)
    requires Uninterrupted(inputs) && BytesOf(inputs) == text + [ESC, 91, 50, 48, 49, 126]
    requires !Contains(text, [ESC, 91, 50, 48, 49, 126]) && |text| + 5 <= 1048576
    ensures Run(START, Typed(PASTE_BEGIN) + inputs, clip) == (START, [Paste(Normalized(text))])
  {
    hide Run, Contains, Normalized, Typed;
    PasteBegins(clip);
    assert [] + BytesOf(inputs) == text + PASTE_END;
    PasteGoesOn([], inputs, text, clip);
    RunConcat(START, Typed(PASTE_BEGIN), inputs, clip);
    assert [] + [Paste(Normalized(text))] == [Paste(Normalized(text))];
  }

  lemma NothingTyped(clip: Clip)
    ensures Run(Collecting([]), Typed([]), clip) == (Collecting([]), [])
  {
  }

  /** Without the marker, the bytes are collected up to the limit. */
  lemma {:induction false} Collects(text: seq<byte>, k: nat, clip: Clip)
    requires !Contains(text, PASTE_END) && k < |text| + 6 && k <= MAX_PASTE
    ensures Run(Collecting([]), Typed((text + PASTE_END)[..k]), clip) == (Collecting((text + PASTE_END)[..k]), [])
    decreases k
  {
    hide Contains, EndsWith, Typed, Run;
    var all := text + PASTE_END;
    if k == 0 {
      assert all[..0] == [];
      NothingTyped(clip);
    } else {
      Collects(text, k - 1, clip);
      var front, b := all[..k - 1], all[k - 1];
      assert all[..k] == front + [b];
      NoEarlyEnd(text, k);
      PasteMiddle(front, b, clip);
      RunLast(Collecting(front), b, clip);
      AfterQuiet(Collecting([]), front, Collecting(front), [b], clip);
    }
  }

  /** A longer text is given up as soon as the limit is passed: nothing is delivered, and the rest is read as keys. */
  lemma PasteOverflows(text: seq<byte>, clip: Clip)
    requires !Contains(text, PASTE_END) && |text| + 5 > 1048576
    ensures |(text + PASTE_END)| > 1048577
    ensures Run(START, Typed(PASTE_BEGIN + (text + PASTE_END)[..1048577]), clip) == (START, [])
  {
    hide Contains, EndsWith, Typed, Run;
    var all := text + PASTE_END;
    var front, b := all[..MAX_PASTE], all[MAX_PASTE];
    Collects(text, MAX_PASTE, clip);
    NoEarlyEnd(text, MAX_PASTE + 1);
    assert all[..MAX_PASTE + 1] == front + [b];
    RunLast(Collecting(front), b, clip);
    AfterQuiet(Collecting([]), front, Collecting(front), [b], clip);
    PasteBegins(clip);
    AfterQuiet(START, PASTE_BEGIN, Collecting([]), front + [b], clip);
  }

  /** Bytes without any event. */
  lemma AfterQuiet(s: State, a: seq<byte>, t: State, b: seq<byte>, clip: Clip)
    requires Run(s, Typed(a), clip) == (t, [])
    ensures Run(s, Typed(a + b), clip) == Run(t, Typed(b), clip)
  {
    hide Run, Typed;
    TypedConcat(a, b);
    RunConcat(s, Typed(a), Typed(b), clip);
    assert [] + Run(t, Typed(b), clip).1 == Run(t, Typed(b), clip).1;
  }

  // ---- Line ends -------------------------------------------------------------------------

  /** No carriage return is left, and a text without any is delivered as it is. */
  lemma {:induction false} NormalizedHasNoReturns(text: seq<byte>)
    ensures forall k | 0 <= k < |Normalized(text)| :: Normalized(text)[k] != 13
    ensures (forall k | 0 <= k < |text| :: text[k] != 13) ==> Normalized(text) == text
    decreases |text|
  {
    if text != [] {
      NormalizedHasNoReturns(text[1..]);
      if |text| > 1 {
        NormalizedHasNoReturns(text[2..]);
      }
      assert text == [text[0]] + text[1..];
    }
  }

  /** Line by line: a line feed, a carriage return or both together end a line. */
  lemma {:induction false} NormalizedLine(line: seq<byte>, end: seq<byte>, rest: seq<byte>)
    requires forall k | 0 <= k < |line| :: line[k] != 13
    requires end == [10] || end == [13, 10] || (end == [13] && (rest == [] || rest[0] != 10))
    ensures Normalized(line + end + rest) == line + [10] + Normalized(rest)
    decreases |line|
  {
    var text := line + end + rest;
    if line == [] {
      assert text[1..] == end[1..] + rest;
      if end == [13, 10] {
        assert text[2..] == rest;
      } else {
        assert text[1..] == rest;
      }
    } else {
      assert text[1..] == line[1..] + end + rest;
      NormalizedLine(line[1..], end, rest);
      assert [line[0]] + (line[1..] + [10] + Normalized(rest)) == line + [10] + Normalized(rest);
    }
  }
}
