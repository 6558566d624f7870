/**
  Longer reports of the terminal: Kitty keys with alternates, events and text, keys by code, operating
  system commands, and sequences that are cut, too long or abandoned.
 */
module InputReports {
  import opened Bytes
  import opened InputEvents
  import opened InputFeed
  import opened InputInvariant
  import opened InputText
  import opened InputBatches
  import opened InputMouse
  import opened InputKeys

  // ---- Fields --------------------------------------------------------------------------

  function Join(parts: seq<seq<byte>>, sep: byte): seq<byte>
    requires parts != []
  {
    if |parts| == 1 then parts[0] else parts[0] + [sep] + Join(parts[1..], sep)
  }

  /** Splitting undoes joining. */
  lemma {:induction false} PartsOfJoin(parts: seq<seq<byte>>, sep: byte)
    requires parts != [] && forall k | 0 <= k < |parts| :: sep !in parts[k]
    ensures Parts(Join(parts, sep), sep) == parts
    decreases |parts|
  {
    if |parts| == 1 {
      FindNone(parts[0], sep);
    } else {
      PartsFirst(parts[0], sep, Join(parts[1..], sep));
      PartsOfJoin(parts[1..], sep);
    }
  }

  function Decs(ns: seq<nat>): (r: seq<seq<byte>>)
    ensures |r| == |ns| && forall k | 0 <= k < |ns| :: r[k] == Dec(ns[k])
  {
    seq(|ns|, k requires 0 <= k < |ns| => Dec(ns[k]))
  }

  lemma {:induction false} JoinAvoids(parts: seq<seq<byte>>, sep: byte, other: byte)
    requires parts != [] && other != sep && forall k | 0 <= k < |parts| :: other !in parts[k]
    ensures other !in Join(parts, sep)
    decreases |parts|
  {
    if |parts| > 1 {
      JoinAvoids(parts[1..], sep, other);
    }
  }

  lemma NumeralsJoin(ns: seq<nat>)
    requires ns != []
    ensures Parts(Join(Decs(ns), 58), 58) == Decs(ns) && 59 !in Join(Decs(ns), 58)
  {
    hide Dec, Parts, Join;
    forall k | 0 <= k < |ns| ensures 58 !in Decs(ns)[k] && 59 !in Decs(ns)[k] {
      NoSeparator(ns[k], 58);
      NoSeparator(ns[k], 59);
    }
    PartsOfJoin(Decs(ns), 58);
    JoinAvoids(Decs(ns), 58, 59);
  }

  /** A parameter that may be left out. */
  datatype Param = Missing | Given(n: nat)

  function ParamText(p: Param): seq<byte> { if p.Missing? then [] else Dec(p.n) }

  function ParamTexts(ps: seq<Param>): (r: seq<seq<byte>>)
    ensures |r| == |ps| && forall k | 0 <= k < |ps| :: r[k] == ParamText(ps[k])
  {
    seq(|ps|, k requires 0 <= k < |ps| => ParamText(ps[k]))
  }

  function ParamValues(ps: seq<Param>): (r: seq<nat>)
    ensures |r| == |ps| && forall k | 0 <= k < |ps| :: r[k] == if ps[k].Missing? then 0 else ps[k].n
  {
    seq(|ps|, k requires 0 <= k < |ps| => if ps[k].Missing? then 0 else ps[k].n)
  }

  lemma ParamReads(p: Param, rest: seq<byte>)
    requires rest == [] || rest[0] == 59
    ensures Params(ParamText(p) + rest) ==
      [if p.Missing? then 0 else p.n] + if rest == [] then [] else Params(rest[1..])
  {
    hide Dec;
    if p.Missing? {
      assert ParamText(p) + rest == rest;
    } else {
      hide Params;
      NumeralRead(p.n, rest);
    }
  }

  /** Parameters separated by semicolons are read back, those left out as 0. */
  lemma {:induction false} ParamsRead(ps: seq<Param>)
    requires ps != []
    ensures Params(Join(ParamTexts(ps), 59)) == ParamValues(ps)
    decreases |ps|
  {
    hide Params, ParamText;
    var texts := ParamTexts(ps);
    if |ps| == 1 {
      ParamReads(ps[0], []);
      assert Join(texts, 59) == texts[0] + [];
    } else {
      var rest := [59] + Join(texts[1..], 59);
      assert texts[1..] == ParamTexts(ps[1..]) && rest[1..] == Join(texts[1..], 59);
      assert Join(texts, 59) == texts[0] + rest;
      ParamReads(ps[0], rest);
      ParamsRead(ps[1..]);
      assert ParamValues(ps) == ParamValues(ps[..1]) + ParamValues(ps[1..]);
    }
  }

  /** Only digits and semicolons count. */
  function Relevant(s: seq<byte>): seq<byte> {
    if s == [] then [] else (if IsDigit(s[0]) || s[0] == 59 then [s[0]] else []) + Relevant(s[1..])
  }

  lemma {:induction false} OthersAreSkipped(s: seq<byte>, current: int, hasDigit: bool)
    ensures ParamsFrom(s, current, hasDigit) == ParamsFrom(Relevant(s), current, hasDigit)
    decreases |s|
  {
    if s != [] {
      if s[0] == 59 {
        OthersAreSkipped(s[1..], 0, false);
        assert Relevant(s)[1..] == Relevant(s[1..]);
      } else if IsDigit(s[0]) {
        OthersAreSkipped(s[1..], current * 10 + (s[0] as int - 48), true);
        assert Relevant(s)[1..] == Relevant(s[1..]);
      } else {
        OthersAreSkipped(s[1..], current, hasDigit);
        assert Relevant(s) == Relevant(s[1..]);
      }
    }
  }

  // ---- Kitty reports -------------------------------------------------------------------

  /** How much of the modifier field is written: nothing, the modifiers, or the kind of event as well. */
  datatype Form = Bare | Modified | Full

  /** The other modifiers are super, hyper, meta and the two locks, which the parser does not know. */
  datatype KeyReport = KeyReport(
    code: nat, alternates: seq<nat>, form: Form, mods: Mods, others: nat, action: KeyAction, text: seq<nat>)

  /** What is not written has its default. */
  predicate Expressible(r: KeyReport) {
    (r.form != Full ==> r.action == Press) && (r.form == Bare ==> r.mods == PLAIN && r.others == 0) && r.others < 32
  }

  function ModNumber(r: KeyReport): nat { ModifierParam(r.mods) + 8 * r.others }

  lemma ModNumberReads(r: KeyReport)
    ensures ModifierOf(ModNumber(r)) == r.mods && ModifierParam(r.mods) <= 8
  {
  }

  function ModField(r: KeyReport): seq<byte> {
    match r.form
    case Bare => []
    case Modified => Join(Decs([ModNumber(r)]), 58)
    case Full => Join(Decs([ModNumber(r), ActionCode(r.action)]), 58)
  }

  function CodeField(r: KeyReport): seq<byte> { Join(Decs([r.code] + r.alternates), 58) }

  /** code : alternates ; modifiers : event ; text */
  function Fields(r: KeyReport): (f: seq<seq<byte>>)
    ensures f != []
  {
    [CodeField(r)] +
    (if r.form == Bare && r.text == [] then [] else [ModField(r)]) +
    (if r.text == [] then [] else [Join(Decs(r.text), 58)])
  }

  function ReportBody(r: KeyReport): seq<byte> { Join(Fields(r), 59) }

  /** Its code's key, tab with shift being another, and the first alternate as base key. */
  function Reported(r: KeyReport): KeyEvent {
    KittyKeyWith(r.code, r.mods, r.action).(
      base :=
        if r.alternates == [] || r.alternates[0] > 0x10FFFF then 0
        else if IsScalar(r.alternates[0]) then r.alternates[0] else 0xFFFD)
  }

  lemma FieldsRead(r: KeyReport)
    ensures Parts(ReportBody(r), 59) == Fields(r)
    ensures Parts(CodeField(r), 58) == Decs([r.code] + r.alternates)
  {
    hide Parts, Join, Dec;
    NumeralsJoin([r.code] + r.alternates);
    NumeralsJoin([ModNumber(r)]);
    NumeralsJoin([ModNumber(r), ActionCode(r.action)]);
    if r.text != [] {
      NumeralsJoin(r.text);
    }
    PartsOfJoin(Fields(r), 59);
  }

  lemma ModFieldReads(r: KeyReport)
    requires Expressible(r)
    ensures
      var mod := Parts(ModField(r), 58);
      && ModifierOf(Number(mod[0], 1)) == r.mods
      && (if |mod| > 1 then Number(mod[1], 1) else 1) == ActionCode(r.action)
  {
    hide Parts, Join, Dec;
    ModNumberReads(r);
    NumberReads(ModNumber(r), 1);
    NumberReads(ActionCode(r.action), 1);
    if r.form == Bare {
      FindNone([], 58);
    } else {
      NumeralsJoin([ModNumber(r)]);
      NumeralsJoin([ModNumber(r), ActionCode(r.action)]);
    }
  }

  lemma {:induction false} TooLarge(d: seq<byte>, value: int, fallback: int)
    requires AllDigits(d) && 0 <= value <= 10000000 && ValueFrom(d, value) > 10000000
    ensures NumberFrom(d, value, fallback) == fallback
    decreases |d|
  {
    if d != [] && value * 10 + (d[0] as int - 48) <= 10000000 {
      TooLarge(d[1..], value * 10 + (d[0] as int - 48), fallback);
    }
  }

  /** A numeral past ten million is not read. */
  lemma NumeralReads(n: nat, fallback: int)
    ensures Number(Dec(n), fallback) == if n <= 10000000 then n else fallback
  {
    ValueFromDec(n);
    if n <= 10000000 {
      NumberReads(n, fallback);
    } else {
      TooLarge(Dec(n), 0, fallback);
    }
  }

  lemma KittyReportReads(r: KeyReport)
    requires Expressible(r) && r.code <= 0x10FFFF && KittyKey(r.code).key != Unknown
    ensures KittyEvent(ReportBody(r)) == Reported(r)
  {
    hide Parts, Number, Dec, ModifierOf, ModifierParam, ReportBody, KittyKey, Join, ModField, CodeField;
    FieldsRead(r);
    ModFieldReads(r);
    NumeralReads(r.code, -1);
    BaseIsZero(r.code);
    var parts, all := Parts(ReportBody(r), 59), [r.code] + r.alternates;
    assert parts[0] == CodeField(r) && Decs(all)[0] == Dec(r.code);
    if r.alternates != [] {
      NumeralReads(r.alternates[0], 0);
      assert Decs(all)[1] == Dec(r.alternates[0]);
    }
    if |parts| > 1 {
      assert parts[1] == ModField(r);
    } else {
      BareField(r);
    }
  }

  lemma BareField(r: KeyReport)
    requires r.form == Bare
    ensures Parts(ModField(r), 58) == [[]]
  {
    FindNone([], 58);
  }

  lemma {:induction false} JoinStarts(parts: seq<seq<byte>>, sep: byte)
    requires parts != [] && parts[0] != []
    ensures Join(parts, sep) != [] && Join(parts, sep)[0] == parts[0][0]
  {
  }

  lemma {:induction false} JoinIsParameters(parts: seq<seq<byte>>, sep: byte)
    requires parts != [] && IsParameter(sep)
    requires forall k, i | 0 <= k < |parts| && 0 <= i < |parts[k]| :: IsParameter(parts[k][i])
    ensures forall i | 0 <= i < |Join(parts, sep)| :: IsParameter(Join(parts, sep)[i])
    decreases |parts|
  {
    if |parts| > 1 {
      JoinIsParameters(parts[1..], sep);
    }
  }

  lemma DecsAreParameters(ns: seq<nat>)
    requires ns != []
    ensures forall i | 0 <= i < |Join(Decs(ns), 58)| :: IsParameter(Join(Decs(ns), 58)[i])
  {
    JoinIsParameters(Decs(ns), 58);
  }

  lemma BodyIsParameters(r: KeyReport)
    ensures forall i | 0 <= i < |ReportBody(r)| :: IsParameter(ReportBody(r)[i])
    ensures ReportBody(r) != [] && IsDigit(ReportBody(r)[0])
  {
    hide Join, Dec;
    DecsAreParameters([r.code] + r.alternates);
    DecsAreParameters([ModNumber(r)]);
    DecsAreParameters([ModNumber(r), ActionCode(r.action)]);
    if r.text != [] {
      DecsAreParameters(r.text);
    }
    JoinIsParameters(Fields(r), 59);
    JoinStarts(Decs([r.code] + r.alternates), 58);
    JoinStarts(Fields(r), 59);
    FirstDigit(r.code);
  }

  /** Every report of the Kitty keyboard protocol that fits the sequence buffer; unknown codes are ignored. */
  lemma KittyReportRoundTrip(r: KeyReport, clip: Clip)
    requires Expressible(r) && |ReportBody(r)| <= 32
    ensures Run(START, Typed(Sequence(ReportBody(r), 117)), clip) ==
      (START, if r.code <= 0x10FFFF && KittyKey(r.code).key != Unknown then [KeyInput(Reported(r))] else [])
  {
    hide Run, Typed, FinishCsi, Sequence, KittyKey, Reported, ReportBody;
    BodyIsParameters(r);
    KittyReportFinishes(r);
    var known := r.code <= 0x10FFFF && KittyKey(r.code).key != Unknown;
    SequenceRuns(ReportBody(r), 117, if known then KeyInput(Reported(r)) else NoEvent, clip);
  }

  lemma UnknownCode(r: KeyReport)
    requires !(r.code <= 0x10FFFF && KittyKey(r.code).key != Unknown)
    ensures KittyEvent(ReportBody(r)).key == Unknown
  {
    hide Parts, Number, Dec, ModifierOf, ModifierParam, ReportBody, Join, ModField, CodeField;
    FieldsRead(r);
    NumeralReads(r.code, -1);
  }

  lemma ReportedIsKnown(r: KeyReport)
    requires KittyKey(r.code).key != Unknown
    ensures Reported(r).key != Unknown
  {
    hide KittyKey;
  }

  lemma KittyReportFinishes(r: KeyReport)
    requires Expressible(r)
    ensures FinishCsi(START, ReportBody(r), 117) ==
      (START,
       if r.code <= 0x10FFFF && KittyKey(r.code).key != Unknown then KeyInput(Reported(r)) else NoEvent)
  {
    hide KittyEvent, KittyKey, ReportBody, Reported;
    BodyIsParameters(r);
    if r.code <= 0x10FFFF && KittyKey(r.code).key != Unknown {
      KittyReportReads(r);
      ReportedIsKnown(r);
    } else {
      UnknownCode(r);
    }
  }

  // ---- CSI 27 ; modifiers ; code ~ -------------------------------------------------------

  lemma CodeFinishes(m: Mods, code: nat)
    ensures FinishCsi(START, Triple(27, ModifierParam(m), code), 126) ==
      EmitKnown(START, KittyKey(code).(mods := m))
  {
    hide Params, Triple, ModifierOf, KittyKey, TildeKey, ModifierParam;
    TripleRead(27, ModifierParam(m), code);
    ModifierReads(m);
    assert Triple(27, ModifierParam(m), code)[0] == 50 by { TripleStarts(ModifierParam(m), code); }
  }

  lemma TripleStarts(b: nat, c: nat)
    ensures Triple(27, b, c)[0] == 50
  {
    assert Dec(27)[0] == Dec(2)[0];
  }

  /** The other way to report a key by its code: shift and tab stays a tab here, and unknown codes are ignored. */
  lemma CodeRoundTrip(m: Mods, code: nat, clip: Clip)
    requires code < 10000000
    ensures Run(START, Typed(Sequence(Triple(27, ModifierParam(m), code), 126)), clip) ==
      (START, if KittyKey(code).key == Unknown then [] else [KeyInput(KittyKey(code).(mods := m))])
  {
    hide Run, Typed, FinishCsi, Sequence, KittyKey, Dec;
    CodeFinishes(m, code);
    ModifierReads(m);
    DigitsAreParameters(27);
    DigitsAreParameters(ModifierParam(m));
    DigitsAreParameters(code);
    SequenceRuns(Triple(27, ModifierParam(m), code), 126, EmitKnown(START, KittyKey(code).(mods := m)).1, clip);
  }

  // ---- Operating system commands ---------------------------------------------------------

  /** ESC \ or BEL would end it. */
  predicate Unterminated(s: seq<byte>) {
    forall k | 0 <= k < |s| :: s[k] != 7 && !(k > 0 && s[k - 1] == ESC && s[k] == 92)
  }

  function InOsc(osc: seq<byte>): State { START.(mode := Osc, osc := osc) }

  lemma {:induction false} OscCollects(done: seq<byte>, more: seq<byte>, rest: seq<byte>, clip: Clip)
    requires done != [] && Unterminated(done + more) && |done + more| <= 1048576
    ensures Run(InOsc(done), Typed(more + rest), clip) == Run(InOsc(done + more), Typed(rest), clip)
    decreases |more|
  {
    hide Run, Typed;
    if more == [] {
      assert more + rest == rest && done + more == done;
    } else {
      var b := more[0];
      assert (done + more)[|done|] == b && (done + more)[|done| - 1] == done[|done| - 1];
      assert Feed(InOsc(done), b, clip) == (InOsc(done + [b]), NoEvent);
      assert more + rest == [b] + (more[1..] + rest);
      Quiet(InOsc(done), b, InOsc(done + [b]), more[1..] + rest, clip);
      assert done + [b] + more[1..] == done + more;
      OscCollects(done + [b], more[1..], rest, clip);
    }
  }

  lemma OscStarts(p: seq<byte>, rest: seq<byte>, clip: Clip)
    requires Unterminated(p) && |p| + 2 <= 1048576
    ensures Run(START, Typed([ESC, 93] + p + rest), clip) == Run(InOsc([ESC, 93] + p), Typed(rest), clip)
  {
    hide Run, Typed;
    var esc := START.(mode := Esc);
    var osc: seq<byte> := [ESC, 93] + p;
    assert Unterminated(osc) by {
      forall k | 0 <= k < |osc| ensures osc[k] != 7 && !(k > 0 && osc[k - 1] == ESC && osc[k] == 92) {
        if k >= 2 {
          assert osc[k] == p[k - 2];
        }
      }
    }
    assert [ESC, 93] + p + rest == [ESC] + ([93] + (p + rest));
    Quiet(START, ESC, esc, [93] + (p + rest), clip);
    Quiet(esc, 93, InOsc([ESC, 93]), p + rest, clip);
    OscCollects([ESC, 93], p, rest, clip);
  }

  /** What is delivered, if anything, is what the whole command says. */
  function Answer(osc: seq<byte>, clip: Clip): seq<Event> {
    if clip(osc) == [] then [] else [Clipboard(clip(osc))]
  }

  lemma EndOfOsc(osc: seq<byte>, clip: Clip)
    requires |osc| + 1 <= 1048576 && osc != []
    ensures Run(InOsc(osc), Typed([7]), clip) == (START, Answer(osc + [7], clip))
    ensures Run(InOsc(osc), Typed([ESC, 92]), clip) == (START, Answer(osc + [ESC, 92], clip))
  {
    hide Run, Typed;
    RunLast(InOsc(osc), 7, clip);
    assert [ESC, 92] == [ESC] + [92];
    Quiet(InOsc(osc), ESC, InOsc(osc + [ESC]), [92], clip);
    RunLast(InOsc(osc + [ESC]), 92, clip);
    assert osc + [ESC] + [92] == osc + [ESC, 92];
  }

  /** A command up to its terminator goes to the clipboard reader as a whole, and is then forgotten. */
  lemma OscRoundTrip(p: seq<byte>, end: seq<byte>, clip: Clip)
    requires Unterminated(p) && (end == [7] || end == [ESC, 92]) && |p| + 3 <= 1048576
    ensures Run(START, Typed([ESC, 93] + p + end), clip) == (START, Answer([ESC, 93] + p + end, clip))
  {
    hide Run, Typed, Answer;
    OscStarts(p, end, clip);
    EndOfOsc([ESC, 93] + p, clip);
  }

  /** Past the limit it is given up, and so it is when its batch ends. */
  lemma OscAbandoned(p: seq<byte>, b: byte, clip: Clip)
    requires Unterminated(p) && |p| + 2 <= 1048576
    ensures Run(START, Typed([ESC, 93] + p) + [EndOfBatch], clip) == (START, [])
    ensures |p| + 2 == 1048576 && Unterminated(p + [b]) ==> Run(START, Typed([ESC, 93] + p + [b]), clip) == (START, [])
  {
    hide Run, Typed;
    var osc: seq<byte> := [ESC, 93] + p;
    OscStarts(p, [], clip);
    assert [ESC, 93] + p + [] == osc;
    BatchEnds(osc, InOsc(osc), clip);
    if |p| + 2 == 1048576 && Unterminated(p + [b]) {
      OscStarts(p, [b], clip);
      RunLast(InOsc(osc), b, clip);
      assert (p + [b])[|p|] == b && (p + [b])[|p| - 1] == p[|p| - 1] == osc[|osc| - 1];
    }
  }

  lemma BatchEnds(bytes: seq<byte>, s: State, clip: Clip)
    requires Run(START, Typed(bytes), clip) == Run(s, Typed([]), clip)
    requires s.mode == Csi || s.mode == Osc
    ensures Run(START, Typed(bytes) + [EndOfBatch], clip) == (START, [])
  {
    assert Apply(s, EndOfBatch, clip) == (START, NoEvent);
    assert Typed([]) == [];
    hide Run, Typed, Apply;
    NothingRunsFrom(s, clip);
    RunConcat(START, Typed(bytes), [EndOfBatch], clip);
    RunInput(s, EndOfBatch, [], clip);
    NothingRuns(clip);
    assert [EndOfBatch] + [] == [EndOfBatch];
  }

  lemma NothingRunsFrom(s: State, clip: Clip)
    ensures Run(s, [], clip) == (s, [])
  {
  }

  // ---- Abandoned sequences ---------------------------------------------------------------

  predicate AllParameters(body: seq<byte>) { forall k | 0 <= k < |body| :: IsParameter(body[k]) }

  lemma CsiStarts(body: seq<byte>, rest: seq<byte>, clip: Clip)
    requires AllParameters(body) && |body| <= 32
    ensures Run(START, Typed([ESC, 91] + body + rest), clip) == Run(InCsi(body), Typed(rest), clip)
  {
    hide Run, Typed;
    var esc := START.(mode := Esc);
    assert [ESC, 91] + body + rest == [ESC] + ([91] + (body + rest));
    Quiet(START, ESC, esc, [91] + (body + rest), clip);
    Quiet(esc, 91, InCsi([]), body + rest, clip);
    assert [] + body == body;
    ParametersCollect([], body, rest, clip);
  }

  /** A sequence is dropped when its batch ends, at its 33rd parameter byte, and for an escape, which starts anew. */
  lemma CsiAbandoned(body: seq<byte>, rest: seq<byte>, clip: Clip)
    requires AllParameters(body) && |body| <= 32
    ensures Run(START, Typed([ESC, 91] + body) + [EndOfBatch], clip) == (START, [])
    ensures Run(START, Typed([ESC, 91] + body + [ESC] + rest), clip) == Run(START, Typed([ESC] + rest), clip)
    ensures |body| == 32 && rest != [] && IsParameter(rest[0]) ==>
      Run(START, Typed([ESC, 91] + body + rest), clip) == Run(START, Typed(rest[1..]), clip)
  {
    hide Run, Typed;
    CsiStarts(body, [], clip);
    assert [ESC, 91] + body + [] == [ESC, 91] + body;
    BatchEnds([ESC, 91] + body, InCsi(body), clip);
    assert [ESC, 91] + body + [ESC] + rest == [ESC, 91] + body + ([ESC] + rest);
    CsiStarts(body, [ESC] + rest, clip);
    Quiet(InCsi(body), ESC, START.(mode := Esc), rest, clip);
    Quiet(START, ESC, START.(mode := Esc), rest, clip);
    if |body| == 32 && rest != [] && IsParameter(rest[0]) {
      CsiStarts(body, rest, clip);
      assert rest == [rest[0]] + rest[1..];
      Quiet(InCsi(body), rest[0], START, rest[1..], clip);
    }
  }
}
