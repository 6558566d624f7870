/**
  Text that arrives in batches, with a flush after each (process_accumulated_bytes in
  src/tui/input.cpp): which cuts go unnoticed, and what comes out of the others.
 */
module InputBatches {
  import opened Bytes
  import opened InputEvents
  import opened InputFeed
  import opened InputInvariant
  import opened InputText

  /** A batch that ended before the byte at this place. */
  function Cut(cuts: set<nat>, at: nat): seq<Input> {
    if at in cuts then [EndOfBatch] else []
  }

  /** The bytes, the first of which is at the given place, with the ends of batches in between. */
  function Fed(u: seq<byte>, at: nat, cuts: set<nat>): seq<Input> {
    if u == [] then [] else Cut(cuts, at) + ([Byte(u[0])] + Fed(u[1..], at + 1, cuts))
  }

  const LOST := KeyInput(PrintableKey(0xFFFD))

  function Losts(n: nat): (r: seq<Event>)
    ensures |r| == n && forall k | 0 <= k < n :: r[k] == LOST
  {
    seq(n, _ => LOST)
  }

  /** The first cut strictly inside a character of n bytes, n if there is none. */
  function FirstCut(cuts: set<nat>, at: nat, n: nat, k: nat): (c: nat)
    requires 1 <= k <= n
    ensures k <= c <= n && (c < n ==> at + c in cuts) && forall p | at + k <= p < at + c :: p !in cuts
    decreases n - k
  {
    if k == n || at + k in cuts then k else FirstCut(cuts, at, n, k + 1)
  }

  /** A character that is cut loses its first part, and each of its other bytes types U+FFFD. */
  function CharacterOut(v: int, at: nat, cuts: set<nat>): (r: seq<Event>)
    requires IsText(v)
    ensures r != []
  {
    var n := |Utf8Of(v)|;
    var c := FirstCut(cuts, at, n, 1);
    if c == n then [KeyInput(PrintableKey(v))] else Losts(n - c)
  }

  function TextOut(vs: seq<int>, at: nat, cuts: set<nat>): (r: seq<Event>)
    requires AllText(vs)
    ensures |r| >= |vs|
  {
    if vs == [] then []
    else
      assert IsText(vs[0]);
      CharacterOut(vs[0], at, cuts) + TextOut(vs[1..], at + |Utf8Of(vs[0])|, cuts)
  }

  // ---- Bytes and cuts ------------------------------------------------------

  lemma FedOne(b: byte, u: seq<byte>, at: nat, cuts: set<nat>)
    ensures Fed([b] + u, at, cuts) == Cut(cuts, at) + ([Byte(b)] + Fed(u, at + 1, cuts))
  {
    assert ([b] + u)[1..] == u;
  }

  lemma Regroup(x: seq<Input>, y: seq<Input>, p: seq<Input>, z: seq<Input>)
    ensures x + (y + (p + z)) == x + (y + p) + z
  {
  }

  lemma {:induction false} FedConcat(a: seq<byte>, b: seq<byte>, at: nat, cuts: set<nat>)
    ensures Fed(a + b, at, cuts) == Fed(a, at, cuts) + Fed(b, at + |a|, cuts)
    decreases |a|
  {
    if a == [] {
      assert a + b == b;
    } else {
      hide Fed, Cut;
      assert a == [a[0]] + a[1..] && a + b == [a[0]] + (a[1..] + b);
      FedOne(a[0], a[1..], at, cuts);
      FedOne(a[0], a[1..] + b, at, cuts);
      FedConcat(a[1..], b, at + 1, cuts);
      Regroup(Cut(cuts, at), [Byte(a[0])], Fed(a[1..], at + 1, cuts), Fed(b, at + |a|, cuts));
    }
  }

  /** One input and the rest. */
  lemma RunInput(s: State, i: Input, rest: seq<Input>, clip: Clip)
    ensures
      var (t, e) := Apply(s, i, clip);
      Run(s, [i] + rest, clip) == (Run(t, rest, clip).0, One(e) + Run(t, rest, clip).1)
  {
    hide Apply;
    assert ([i] + rest)[1..] == rest;
  }

  /** In ground mode the end of a batch is nothing. */
  lemma CutAtRest(at: nat, cuts: set<nat>, rest: seq<Input>, clip: Clip)
    ensures Run(START, Cut(cuts, at) + rest, clip) == Run(START, rest, clip)
  {
    hide Run;
    if at in cuts {
      RunInput(START, EndOfBatch, rest, clip);
      var r := Run(START, rest, clip);
      assert [] + r.1 == r.1;
    } else {
      assert Cut(cuts, at) + rest == rest;
    }
  }

  /** Continuation bytes without a first byte. */
  lemma {:induction false} Leftover(u: seq<byte>, at: nat, cuts: set<nat>, clip: Clip)
    requires forall k | 0 <= k < |u| :: IsContinuation(u[k])
    ensures Run(START, Fed(u, at, cuts), clip) == (START, Losts(|u|))
    decreases |u|
  {
    hide Run;
    if u == [] {
      assert Run(START, [], clip) == (START, []) by { NothingRuns(clip); }
      assert Losts(0) == [];
    } else {
      var rest := Fed(u[1..], at + 1, cuts);
      CutAtRest(at, cuts, [Byte(u[0])] + rest, clip);
      RunInput(START, Byte(u[0]), rest, clip);
      Stray(u[0], clip);
      Leftover(u[1..], at + 1, cuts, clip);
      assert [LOST] + Losts(|u| - 1) == Losts(|u|);
    }
  }

  lemma NothingRuns(clip: Clip)
    ensures Run(START, [], clip) == (START, [])
  {
  }

  lemma Stray(b: byte, clip: Clip)
    requires IsContinuation(b)
    ensures Apply(START, Byte(b), clip) == (START, LOST)
  {
  }

  /** What the rest of a character does after its first k bytes, given where it is cut first. */
  function RestOut(u: seq<byte>, c: nat): seq<Event>
    requires c <= |u| && u != [] && |u| == Expected(u[0])
  {
    if c == |u| then [KeyInput(PrintableKey(Assemble(u)))] else Losts(|u| - c)
  }

  lemma {:induction false} Inside(u: seq<byte>, k: nat, at: nat, cuts: set<nat>, clip: Clip)
    requires 1 <= k < |u| && IsSequence(u)
    ensures
      Run(Midway(u[..k], PLAIN), Fed(u[k..], at + k, cuts), clip) == (START, RestOut(u, FirstCut(cuts, at, |u|, k)))
    decreases |u| - k
  {
    hide Run, Assemble, PrintableKey, Fed, Midway, Cut, FirstCut, Apply;
    FirstCutIs(cuts, at, |u|, k);
    if at + k in cuts {
      CutHere(u, k, at, cuts, clip);
    } else {
      var rest := Fed(u[k + 1..], at + k + 1, cuts);
      NoCutHere(u, k, at, cuts);
      RunInput(Midway(u[..k], PLAIN), Byte(u[k]), rest, clip);
      var out := RestOut(u, FirstCut(cuts, at, |u|, k + 1));
      assert [] + out == out;
      if k + 1 == |u| {
        LastByte(u, clip);
        NothingFed(at + |u|, cuts);
        assert u[k + 1..] == [];
        NothingRuns(clip);
        assert out + [] == out;
      } else {
        Waiting(u, k, clip);
        Inside(u, k + 1, at, cuts, clip);
      }
    }
  }

  lemma FirstCutIs(cuts: set<nat>, at: nat, n: nat, k: nat)
    requires 1 <= k < n
    ensures FirstCut(cuts, at, n, k) == if at + k in cuts then k else FirstCut(cuts, at, n, k + 1)
    ensures FirstCut(cuts, at, n, n) == n
  {
  }

  lemma NoCutHere(u: seq<byte>, k: nat, at: nat, cuts: set<nat>)
    requires k < |u| && at + k !in cuts
    ensures Fed(u[k..], at + k, cuts) == [Byte(u[k])] + Fed(u[k + 1..], at + k + 1, cuts)
  {
    hide Fed;
    assert u[k..] == [u[k]] + u[k + 1..];
    FedOne(u[k], u[k + 1..], at + k, cuts);
    var rest := [Byte(u[k])] + Fed(u[k + 1..], at + k + 1, cuts);
    assert [] + rest == rest;
  }

  /** The batch ends here, and the rest of the character is left over. */
  lemma CutHere(u: seq<byte>, k: nat, at: nat, cuts: set<nat>, clip: Clip)
    requires 1 <= k < |u| && IsSequence(u) && at + k in cuts
    ensures Run(Midway(u[..k], PLAIN), Fed(u[k..], at + k, cuts), clip) == (START, Losts(|u| - k))
  {
    hide Run, Fed;
    var rest := [Byte(u[k])] + Fed(u[k + 1..], at + k + 1, cuts);
    assert u[k..] == [u[k]] + u[k + 1..];
    FedOne(u[k], u[k + 1..], at + k, cuts);
    RunInput(Midway(u[..k], PLAIN), EndOfBatch, rest, clip);
    Leftover(u[k..], at + k, cuts, clip);
    CutAtRest(at + k, cuts, rest, clip);
    assert [] + Losts(|u| - k) == Losts(|u| - k);
  }

  lemma LastByte(u: seq<byte>, clip: Clip)
    requires IsSequence(u) && |u| >= 2
    ensures Apply(Midway(u[..|u| - 1], PLAIN), Byte(u[|u| - 1]), clip) == (START, KeyInput(PrintableKey(Assemble(u))))
  {
    hide Assemble;
    var s, b := Midway(u[..|u| - 1], PLAIN), u[|u| - 1];
    assert s.utf8 + [b] == u;
    assert Feed(s, b, clip) == CompleteUtf8(s.(utf8 := u));
  }

  lemma Waiting(u: seq<byte>, k: nat, clip: Clip)
    requires IsSequence(u) && 1 <= k < |u| - 1
    ensures Apply(Midway(u[..k], PLAIN), Byte(u[k]), clip) == (Midway(u[..k + 1], PLAIN), NoEvent)
  {
    assert u[..k] + [u[k]] == u[..k + 1];
  }

  lemma FirstByte(u: seq<byte>, clip: Clip)
    requires IsSequence(u)
    ensures Apply(START, Byte(u[0]), clip) == (Midway(u[..1], PLAIN), NoEvent)
  {
    assert u[..1] == [u[0]];
  }

  /** One character, wherever it is cut. */
  lemma OneCut(v: int, at: nat, cuts: set<nat>, clip: Clip)
    requires IsText(v)
    ensures Run(START, Fed(Utf8Of(v), at, cuts), clip) == (START, CharacterOut(v, at, cuts))
  {
    hide Run, Apply, PrintableKey;
    var u := Utf8Of(v);
    var rest := Fed(u[1..], at + 1, cuts);
    CutAtRest(at, cuts, [Byte(u[0])] + rest, clip);
    RunInput(START, Byte(u[0]), rest, clip);
    if v < 0x80 {
      assert Apply(START, Byte(v), clip) == (START, KeyInput(PrintableKey(v))) by { Ascii(v, clip); }
      assert rest == [];
      NothingRuns(clip);
      var key := KeyInput(PrintableKey(v));
      assert [key] + [] == [key];
    } else {
      IsMultiByte(v);
      FirstByte(u, clip);
      Inside(u, 1, at, cuts, clip);
      var out := RestOut(u, FirstCut(cuts, at, |u|, 1));
      assert [] + out == out;
    }
  }

  lemma Ascii(v: byte, clip: Clip)
    requires 32 <= v < 127
    ensures Apply(START, Byte(v), clip) == (START, KeyInput(PrintableKey(v)))
  {
  }

  // ---- The whole text ------------------------------------------------------

  /** Any text, cut into any batches. */
  lemma {:induction false} BatchedText(vs: seq<int>, at: nat, cuts: set<nat>, clip: Clip)
    requires AllText(vs)
    ensures Run(START, Fed(Utf8All(vs), at, cuts), clip) == (START, TextOut(vs, at, cuts))
    decreases |vs|
  {
    hide Run, Utf8Of, CharacterOut, Fed;
    if vs == [] {
      assert Fed([], at, cuts) == [] by { NothingFed(at, cuts); }
      NothingRuns(clip);
    } else {
      var u := Utf8Of(vs[0]);
      FedConcat(u, Utf8All(vs[1..]), at, cuts);
      OneCut(vs[0], at, cuts, clip);
      BatchedText(vs[1..], at + |u|, cuts, clip);
      RunConcat(START, Fed(u, at, cuts), Fed(Utf8All(vs[1..]), at + |u|, cuts), clip);
    }
  }

  lemma NothingFed(at: nat, cuts: set<nat>)
    ensures Fed([], at, cuts) == []
  {
  }

  /** No batch ends inside a character, except before the last byte of a U+FFFD, which then types itself after all. */
  predicate Unnoticed(vs: seq<int>, at: nat, cuts: set<nat>)
    requires AllText(vs)
  {
    vs == [] ||
    (assert IsText(vs[0]);
     var n := |Utf8Of(vs[0])|;
     var c := FirstCut(cuts, at, n, 1);
     (c == n || (vs[0] == 0xFFFD && c == n - 1)) && Unnoticed(vs[1..], at + n, cuts))
  }

  lemma {:induction false} OutIff(vs: seq<int>, at: nat, cuts: set<nat>)
    requires AllText(vs)
    ensures TextOut(vs, at, cuts) == Keys(vs) <==> Unnoticed(vs, at, cuts)
    decreases |vs|
  {
    hide Utf8Of, FirstCut, CharacterOut, PrintableKey, Keys;
    if vs == [] {
      assert Keys([]) == [] by { NoKeys(); }
    } else {
      var n := |Utf8Of(vs[0])|;
      var first, rest := CharacterOut(vs[0], at, cuts), TextOut(vs[1..], at + n, cuts);
      var key := KeyInput(PrintableKey(vs[0]));
      OutIff(vs[1..], at + n, cuts);
      KeysNext(vs);
      TwoParts(first, rest, key, Keys(vs[1..]));
      assert IsText(vs[0]);
      FirstIff(vs[0], at, cuts);
    }
  }

  lemma NoKeys()
    ensures Keys([]) == []
  {
  }

  lemma KeysNext(vs: seq<int>)
    requires vs != []
    ensures Keys(vs) == [KeyInput(PrintableKey(vs[0]))] + Keys(vs[1..])
  {
    hide PrintableKey;
  }

  lemma TwoParts(first: seq<Event>, rest: seq<Event>, key: Event, keys: seq<Event>)
    requires first != [] && |rest| >= |keys|
    ensures first + rest == [key] + keys <==> first == [key] && rest == keys
  {
    if first + rest == [key] + keys {
      assert |first| == 1 && first[0] == (first + rest)[0] && rest == (first + rest)[1..];
    }
  }

  lemma FirstIff(v: int, at: nat, cuts: set<nat>)
    requires IsText(v)
    ensures
      var n := |Utf8Of(v)|;
      var c := FirstCut(cuts, at, n, 1);
      CharacterOut(v, at, cuts) == [KeyInput(PrintableKey(v))] <==> c == n || (v == 0xFFFD && c == n - 1)
  {
    hide Utf8Of;
    var n := |Utf8Of(v)|;
    var c := FirstCut(cuts, at, n, 1);
    if c < n {
      assert Losts(n - c)[0] == LOST;
      assert Losts(1) == [LOST];
    }
  }

  /**
    Text cut into batches comes out as typed if and only if no batch ends inside a character; the
    one exception is U+FFFD cut before its last byte.  The parser is ready for more either way.
   */
  lemma BatchedRoundTrip(vs: seq<int>, cuts: set<nat>, clip: Clip)
    requires AllText(vs)
    ensures
      var r := Run(START, Fed(Utf8All(vs), 0, cuts) + [EndOfBatch], clip);
      && r == (START, TextOut(vs, 0, cuts))
      && (r.1 == Keys(vs) <==> Unnoticed(vs, 0, cuts))
  {
    hide Run, Fed, TextOut, Unnoticed, Utf8All;
    BatchedText(vs, 0, cuts, clip);
    OutIff(vs, 0, cuts);
    RunConcat(START, Fed(Utf8All(vs), 0, cuts), [EndOfBatch], clip);
    RunInput(START, EndOfBatch, [], clip);
    NothingRuns(clip);
    assert [EndOfBatch] + [] == [EndOfBatch];
    assert TextOut(vs, 0, cuts) + [] == TextOut(vs, 0, cuts);
  }

  /** A euro sign whose first byte ends a batch: two U+FFFD. */
  lemma EuroCut(clip: Clip)
    ensures Run(START, [Byte(0xE2), EndOfBatch, Byte(0x82), Byte(0xAC), EndOfBatch], clip) == (START, [LOST, LOST])
  {
    hide Run;
    assert Utf8Of(0x20AC) == [0xE2, 0x82, 0xAC];
    var u: seq<byte> := [0xE2, 0x82, 0xAC];
    assert AllText([0x20AC]) && [0x20AC][1..] == [];
    assert Utf8All([0x20AC]) == u + [] == u;
    assert Fed(u[3..], 3, {1}) == [];
    assert Fed(u[2..], 2, {1}) == [Byte(0xAC)];
    assert Fed(u[1..], 1, {1}) == [EndOfBatch, Byte(0x82), Byte(0xAC)];
    assert Fed(u, 0, {1}) == [Byte(0xE2), EndOfBatch, Byte(0x82), Byte(0xAC)];
    BatchedRoundTrip([0x20AC], {1}, clip);
    assert FirstCut({1}, 0, 3, 1) == 1;
    assert TextOut([0x20AC], 0, {1}) == Losts(2) + [] == [LOST, LOST];
    assert Fed(u, 0, {1}) + [EndOfBatch] == [Byte(0xE2), EndOfBatch, Byte(0x82), Byte(0xAC), EndOfBatch];
  }
}
