/** What holds in every state the input parser can reach. */
module InputInvariant {
  import opened Bytes
  import opened InputEvents
  import opened InputFeed

  datatype Input = Byte(b: byte) | EndOfBatch | ResetNow

  function Apply(s: State, i: Input, clip: Clip): Result {
    match i
    case Byte(b) => Feed(s, b, clip)
    case EndOfBatch => Flush(s)
    case ResetNow => (Reset(s), NoEvent)
  }

  function One(e: Event): seq<Event> {
    if e == NoEvent then [] else [e]
  }

  /** The state after the inputs and the events they produced. */
  function Run(s: State, inputs: seq<Input>, clip: Clip): (State, seq<Event>)
    decreases |inputs|
  {
    if inputs == [] then (s, [])
    else
      var (t, e) := Apply(s, inputs[0], clip);
      var (u, es) := Run(t, inputs[1..], clip);
      (u, One(e) + es)
  }

  /** A UTF-8 sequence that still lacks bytes. */
  predicate Partial(u: seq<byte>) {
    u != [] && |u| < Expected(u[0]) && forall k | 1 <= k < |u| :: IsContinuation(u[k])
  }

  /** Each buffer is used in its own mode only, and none outgrows its limit. */
  predicate Sound(s: State) {
    && |s.sequence| <= MAX_SEQUENCE && (s.mode == Csi || s.sequence == [])
    && (if s.mode == Utf8 then Partial(s.utf8) else s.utf8 == [])
    && |s.paste| <= MAX_PASTE && (s.mode == Pasting || s.paste == [])
    && |s.osc| <= MAX_PASTE && (if s.mode == Osc then |s.osc| >= 2 else s.osc == [])
    && (s.mods == PLAIN || (s.mods == ALT && s.mode == Utf8))
  }

  lemma SoundAfterUtf8(s: State)
    requires Sound(s.(mode := Utf8, utf8 := [0xF0])) && s.utf8 != [] && |s.utf8| <= 4
    requires |s.utf8| <= Expected(s.utf8[0]) || |s.utf8| == 1
    requires s.mode == Utf8 && forall k | 1 <= k < |s.utf8| :: IsContinuation(s.utf8[k])
    ensures Sound(CompleteUtf8(s).0)
  {
  }

  lemma SoundAfterCsi(s: State, body: seq<byte>, final: byte)
    requires s == START
    ensures Sound(FinishCsi(s, body, final).0)
  {
    assert forall body, release :: SgrMouse(s, body, release).0 == s;
    hide KittyEvent, SgrMouse, LetterKey, TildeKey, KittyKey, ModifierOf, Params;
  }

  lemma GroundIsStart(s: State)
    requires Sound(s) && s.mode == Ground
    ensures s == START
  {
  }

  lemma FeedKeepsSound(s: State, b: byte, clip: Clip)
    requires Sound(s)
    ensures Sound(Feed(s, b, clip).0)
  {
    hide FinishCsi, CompleteUtf8, ControlKey, EndsWith, Normalized;
    match s.mode
    case Csi => SoundAfterCsi(s.(mode := Ground, sequence := []), s.sequence, b);
    case Utf8 =>
      if IsContinuation(b) {
        SoundAfterUtf8(s.(utf8 := s.utf8 + [b]));
      } else if b >= 0x80 {
        SoundAfterUtf8(START.(mode := Utf8, utf8 := [b]));
      }
    case Esc =>
      if b >= 0x80 {
        SoundAfterUtf8(s.(mode := Utf8, mods := ALT, utf8 := [b]));
      }
    case Ground =>
      if b >= 0x80 {
        SoundAfterUtf8(s.(mode := Utf8, utf8 := [b]));
      }
    case _ =>
  }

  /** The parser never has more bytes of a character than its first byte announces, so that branch is dead. */
  lemma NeverTooLong(s: State, b: byte)
    requires Sound(s) && s.mode == Utf8 && IsContinuation(b)
    ensures |s.utf8 + [b]| <= Expected((s.utf8 + [b])[0])
  {
  }

  lemma ApartFromBytes(s: State, i: Input, clip: Clip)
    requires Sound(s) && !i.Byte?
    ensures Sound(Apply(s, i, clip).0)
  {
  }

  lemma {:induction false} RunKeepsSound(s: State, inputs: seq<Input>, clip: Clip)
    requires Sound(s)
    ensures Sound(Run(s, inputs, clip).0)
    decreases |inputs|
  {
    hide Sound, Feed;
    if inputs != [] {
      match inputs[0] {
        case Byte(b) => FeedKeepsSound(s, b, clip);
        case _ => ApartFromBytes(s, inputs[0], clip);
      }
      RunKeepsSound(Apply(s, inputs[0], clip).0, inputs[1..], clip);
    }
  }

  /** Whatever bytes arrive, however they are cut into batches. */
  lemma AlwaysSound(inputs: seq<Input>, clip: Clip)
    ensures Sound(Run(START, inputs, clip).0)
  {
    RunKeepsSound(START, inputs, clip);
  }

  lemma {:induction false} RunConcat(s: State, a: seq<Input>, b: seq<Input>, clip: Clip)
    ensures
      var (t, es) := Run(s, a, clip);
      Run(s, a + b, clip) == (Run(t, b, clip).0, es + Run(t, b, clip).1)
    decreases |a|
  {
    hide Apply;
    if a == [] {
      assert a + b == b && [] + Run(s, b, clip).1 == Run(s, b, clip).1;
    } else {
      assert (a + b)[1..] == a[1..] + b;
      var (t, e) := Apply(s, a[0], clip);
      RunConcat(t, a[1..], b, clip);
      var (u, es) := Run(t, a[1..], clip);
      assert One(e) + (es + Run(u, b, clip).1) == One(e) + es + Run(u, b, clip).1;
    }
  }

  /** The bytes alone. */
  function Typed(bytes: seq<byte>): (r: seq<Input>)
    ensures |r| == |bytes| && forall k | 0 <= k < |bytes| :: r[k] == Byte(bytes[k])
  {
    seq(|bytes|, k requires 0 <= k < |bytes| => Byte(bytes[k]))
  }

  lemma TypedConcat(a: seq<byte>, b: seq<byte>)
    ensures Typed(a + b) == Typed(a) + Typed(b)
  {
  }
}
