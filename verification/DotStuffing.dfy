/** The body of an SMTP message on the wire: src/network/smtp_socket.cpp and section 4.5.2 of RFC 5321. */
module DotStuffing {
  import opened Bytes

  const CR: byte := 13
  const LF: byte := 10
  const DOT: byte := 46
  const END: seq<byte> := [CR, LF, DOT, CR, LF]

  /** A dot at the start of a line is doubled; prev is the byte before s, a line feed at the very start. */
  function Stuff(s: seq<byte>, prev: byte): seq<byte> {
    if s == [] then []
    else (if prev == LF && s[0] == DOT then [DOT, DOT] else [s[0]]) + Stuff(s[1..], s[0])
  }

  method Escape(content: seq<byte>) returns (escaped: seq<byte>)
    ensures escaped == Stuff(content, 10) + [13, 10, 46, 13, 10]
  {
    escaped := [];
    var i := 0;
    assert content[0..] == content;
    while i < |content|
      invariant 0 <= i <= |content|
      invariant escaped + Stuff(content[i..], if i == 0 then LF else content[i - 1]) == Stuff(content, LF)
    {
      ghost var before, prev := escaped, if i == 0 then LF else content[i - 1];
      if (i == 0 || content[i - 1] == LF) && content[i] == DOT {
        escaped := escaped + [DOT];
      }
      escaped := escaped + [content[i]];
      ByteIsNext(content, i, prev, before, escaped);
      i := i + 1;
    }
    escaped := escaped + [CR, LF, DOT, CR, LF];
  }

  lemma ByteIsNext(content: seq<byte>, i: nat, prev: byte, before: seq<byte>, after: seq<byte>)
    requires i < |content|
    requires after == if prev == LF && content[i] == DOT then before + [DOT] + [content[i]] else before + [content[i]]
    ensures before + Stuff(content[i..], prev) == after + Stuff(content[i + 1..], content[i])
  {
    assert content[i..][1..] == content[i + 1..];
    var rest := Stuff(content[i + 1..], content[i]);
    var piece := if prev == LF && content[i] == DOT then [DOT, DOT] else [content[i]];
    assert before + (piece + rest) == before + piece + rest;
    assert before + piece == after;
  }

  // ---- The end of the message ------------------------------------------------------------------

  /** After a line feed a dot never stands alone. */
  lemma {:induction false} DotsAreDoubled(s: seq<byte>, prev: byte, i: nat)
    requires i < |Stuff(s, prev)| && Stuff(s, prev)[i] == DOT
    requires (if i == 0 then prev else Stuff(s, prev)[i - 1]) == LF
    ensures i + 1 < |Stuff(s, prev)| && Stuff(s, prev)[i + 1] == DOT
  {
    var piece := if prev == LF && s[0] == DOT then [DOT, DOT] else [s[0]];
    var rest := Stuff(s[1..], s[0]);
    assert Stuff(s, prev) == piece + rest;
    if i >= |piece| {
      DotsAreDoubled(s[1..], s[0], i - |piece|);
    }
  }

  /**
    Behind the line end of the DATA command, the first CR LF . CR LF is the terminator, whatever
    the content is.
   */
  lemma EndsAtTheEnd(content: seq<byte>, i: int)
    ensures
      var stream := [13, 10] + (Stuff(content, 10) + [13, 10, 46, 13, 10]);
      IsAt(stream, [13, 10, 46, 13, 10], i) <==> i == |stream| - 5
  {
    hide Stuff;
    var x := Stuff(content, LF);
    var stream := [CR, LF] + (x + END);
    assert stream[|stream| - 5..] == END;
    if IsAt(stream, END, i) {
      var w := stream[i..i + 5];
      assert w[1] == stream[i + 1] && w[2] == stream[i + 2] && w[3] == stream[i + 3];
      if i < |x| {
        assert stream[i + 2] == x[i] == DOT;
        assert i > 0 ==> stream[i + 1] == x[i - 1];
        DotsAreDoubled(content, LF, i);
      }
    }
  }

  // ---- The receiver --------------------------------------------------------------------------------

  /** A receiver for which a line feed alone ends a line. */
  function Lenient(s: seq<byte>, prev: byte): seq<byte> {
    if s == [] then []
    else (if prev == LF && s[0] == DOT then [] else [s[0]]) + Lenient(s[1..], s[0])
  }

  /** A receiver for which only CR LF ends a line, as RFC 5321 has it; prev2 and prev are the two bytes before s. */
  function Strict(s: seq<byte>, prev2: byte, prev: byte): seq<byte> {
    if s == [] then []
    else (if prev2 == CR && prev == LF && s[0] == DOT then [] else [s[0]]) + Strict(s[1..], prev, s[0])
  }

  lemma {:induction false} LenientRecovers(s: seq<byte>, prev: byte)
    ensures Lenient(Stuff(s, prev), prev) == s
  {
    if s != [] {
      var rest := Stuff(s[1..], s[0]);
      LenientRecovers(s[1..], s[0]);
      if prev == LF && s[0] == DOT {
        assert Stuff(s, prev)[1..] == [DOT] + rest && ([DOT] + rest)[1..] == rest;
      } else {
        assert Stuff(s, prev)[1..] == rest;
      }
      assert s == [s[0]] + s[1..];
    }
  }

  /** The dots that start a line after a line feed without a carriage return. */
  function BareDots(s: seq<byte>, prev2: byte, prev: byte): nat {
    if s == [] then 0
    else (if prev2 != CR && prev == LF && s[0] == DOT then 1 else 0) + BareDots(s[1..], prev, s[0])
  }

  /** Each of them is delivered twice; if there are none the content is delivered as it was. */
  lemma {:induction false} StrictCounts(s: seq<byte>, wire2: byte, prev2: byte, prev: byte)
    requires prev == LF ==> wire2 == prev2
    ensures |Strict(Stuff(s, prev), wire2, prev)| == |s| + BareDots(s, prev2, prev)
    ensures BareDots(s, prev2, prev) == 0 ==> Strict(Stuff(s, prev), wire2, prev) == s
  {
    if s != [] {
      var rest := Stuff(s[1..], s[0]);
      assert s == [s[0]] + s[1..];
      if prev == LF && s[0] == DOT {
        StrictCounts(s[1..], DOT, prev, s[0]);
        assert Stuff(s, prev)[1..] == [DOT] + rest && ([DOT] + rest)[1..] == rest;
        assert Strict([DOT] + rest, LF, DOT) == [DOT] + Strict(rest, DOT, DOT);
      } else {
        StrictCounts(s[1..], prev, prev, s[0]);
        assert Stuff(s, prev)[1..] == rest;
      }
    }
  }

  /**
    A receiver by the letter of the standard recovers the content exactly when no line starts with a dot
    after a bare line feed.
   */
  lemma StrictRecovers(content: seq<byte>)
    ensures Strict(Stuff(content, LF), CR, LF) == content <==> BareDots(content, CR, LF) == 0
  {
    StrictCounts(content, CR, CR, LF);
  }

  /** The byte k positions before index i, where prev2 and prev precede s. */
  function Before(s: seq<byte>, i: nat, prev2: byte, prev: byte, k: nat): byte
    requires i < |s| && 1 <= k <= 2
  {
    if i >= k then s[i - k] else if k - i == 1 then prev else prev2
  }

  predicate IsBareDot(s: seq<byte>, i: nat, prev2: byte, prev: byte)
    requires i < |s|
  {
    s[i] == DOT && Before(s, i, prev2, prev, 1) == LF && Before(s, i, prev2, prev, 2) != CR
  }

  lemma {:induction false} BareDotsAre(s: seq<byte>, prev2: byte, prev: byte)
    ensures BareDots(s, prev2, prev) == 0 <==> forall i | 0 <= i < |s| :: !IsBareDot(s, i, prev2, prev)
  {
    if s != [] {
      BareDotsAre(s[1..], prev, s[0]);
      assert IsBareDot(s, 0, prev2, prev) <==> prev2 != CR && prev == LF && s[0] == DOT;
      if BareDots(s[1..], prev, s[0]) == 0 {
        forall i | 1 <= i < |s| ensures !IsBareDot(s, i, prev2, prev) {
          Shifted(s, i, prev2, prev);
        }
      } else {
        var i :| 0 <= i < |s[1..]| && IsBareDot(s[1..], i, prev, s[0]);
        Shifted(s, i + 1, prev2, prev);
      }
    }
  }

  lemma Shifted(s: seq<byte>, i: nat, prev2: byte, prev: byte)
    requires 1 <= i < |s|
    ensures IsBareDot(s, i, prev2, prev) == IsBareDot(s[1..], i - 1, prev, s[0])
  {
  }

  /** In terms of the content alone. */
  lemma StrictRecoversUnless(content: seq<byte>)
    ensures Strict(Stuff(content, LF), CR, LF) == content <==>
      !exists i :: 1 <= i < |content| && content[i] == DOT && content[i - 1] == LF && (i == 1 || content[i - 2] != CR)
  {
    StrictRecovers(content);
    BareDotsAre(content, CR, LF);
    forall i | 0 <= i < |content|
      ensures IsBareDot(content, i, CR, LF) <==>
        i >= 1 && content[i] == DOT && content[i - 1] == LF && (i == 1 || content[i - 2] != CR)
    {
    }
  }

  // ---- What is delivered -----------------------------------------------------------------------

  const CRLF: seq<byte> := [CR, LF]

  /** The first place of m in s from i on, or |s|. */
  function Place(s: seq<byte>, m: seq<byte>, i: nat): (k: nat)
    requires i <= |s|
    ensures i <= k <= |s| && (k < |s| ==> IsAt(s, m, k)) && forall j | i <= j < k :: !IsAt(s, m, j)
    decreases |s| - i
  {
    if i == |s| || IsAt(s, m, i) then i else Place(s, m, i + 1)
  }

  /**
    The mail data of a stream, by section 4.1.1.4 of RFC 5321: the first CR LF of the terminator
    ends the last line, so it belongs to them.  Without a terminator nothing is delivered.
   */
  function Delivered(stream: seq<byte>): seq<byte> {
    var k := Place(CRLF + stream, END, 0);
    if k > |stream| then [] else Strict(stream[..k], CR, LF)
  }

  lemma StrictOne(b: byte, s: seq<byte>, prev2: byte, prev: byte)
    ensures Strict([b] + s, prev2, prev) ==
      (if prev2 == CR && prev == LF && b == DOT then [] else [b]) + Strict(s, prev, b)
  {
    assert ([b] + s)[1..] == s;
  }

  lemma StrictEnd(prev2: byte, prev: byte)
    ensures Strict(CRLF, prev2, prev) == CRLF && Strict([], prev2, prev) == []
  {
    StrictOne(CR, [LF], prev2, prev);
    StrictOne(LF, [], prev, CR);
    assert CRLF == [CR] + [LF] && [LF] == [LF] + [];
  }

  lemma {:induction false} StrictAppend(s: seq<byte>, prev2: byte, prev: byte)
    ensures Strict(s + CRLF, prev2, prev) == Strict(s, prev2, prev) + CRLF
    decreases |s|
  {
    hide Strict;
    if s == [] {
      StrictEnd(prev2, prev);
      assert [] + CRLF == CRLF;
    } else {
      StrictAppend(s[1..], prev, s[0]);
      StrictOne(s[0], s[1..], prev2, prev);
      StrictOne(s[0], s[1..] + CRLF, prev2, prev);
      assert s == [s[0]] + s[1..] && s + CRLF == [s[0]] + (s[1..] + CRLF);
    }
  }

  /** The content with the dots that were not taken away, and one more line end. */
  lemma DeliveredIs(content: seq<byte>)
    ensures Delivered(Stuff(content, LF) + END) == Strict(Stuff(content, LF), CR, LF) + CRLF
  {
    hide Stuff, Strict;
    var x := Stuff(content, LF);
    var stream := x + END;
    EndsAtTheEnd(content, |x| + 2);
    var k := Place(CRLF + stream, END, 0);
    EndsAtTheEnd(content, k);
    assert k == |x| + 2;
    assert stream[..k] == x + CRLF;
    StrictAppend(x, CR, LF);
  }

  // ---- Line by line ----------------------------------------------------------------------------

  /** The lines of a text; what follows the last CR LF counts unless it is empty. */
  function Lines(s: seq<byte>): seq<seq<byte>>
    decreases |s|
  {
    if s == [] then []
    else
      var k := Place(s, CRLF, 0);
      if k == |s| then [s] else [s[..k]] + Lines(s[k + 2..])
  }

  /** Empty, or at the start of a line. */
  predicate Closed(s: seq<byte>) {
    s == [] || (|s| >= 2 && s[|s| - 2..] == CRLF)
  }

  /** Every line with its end. */
  function Ended(lines: seq<seq<byte>>): seq<byte> {
    if lines == [] then [] else lines[0] + CRLF + Ended(lines[1..])
  }

  /** Where the rest of a text that starts after a line end is closed. */
  lemma ClosedRest(s: seq<byte>, k: nat)
    requires k + 2 <= |s| && s[k..k + 2] == CRLF
    ensures Closed(s[k + 2..]) <==> Closed(s)
  {
    var rest := s[k + 2..];
    if |rest| >= 2 {
      assert rest[|rest| - 2..] == s[|s| - 2..];
    } else if |rest| == 1 {
      assert s[|s| - 2..][0] == s[k..k + 2][1] == LF;
    } else {
      assert s[|s| - 2..] == s[k..k + 2];
    }
  }

  lemma NotClosed(s: seq<byte>)
    requires s != [] && Place(s, CRLF, 0) == |s|
    ensures !Closed(s)
  {
    assert |s| >= 2 ==> !IsAt(s, CRLF, |s| - 2);
  }

  lemma EndedOne(line: seq<byte>, rest: seq<seq<byte>>)
    ensures Ended([line] + rest) == line + CRLF + Ended(rest)
  {
    assert ([line] + rest)[1..] == rest;
  }

  lemma SplitAt(s: seq<byte>, k: nat)
    requires IsAt(s, CRLF, k)
    ensures s == s[..k] + CRLF + s[k + 2..]
  {
    assert s == s[..k] + s[k..k + 2] + s[k + 2..];
  }

  lemma LinesOne(s: seq<byte>)
    requires s != []
    ensures
      var k := Place(s, CRLF, 0);
      if k == |s| then Lines(s) == [s]
      else Lines(s) == [s[..k]] + Lines(s[k + 2..]) && s == s[..k] + CRLF + s[k + 2..]
  {
    var k := Place(s, CRLF, 0);
    if k < |s| {
      SplitAt(s, k);
    }
    hide Place;
  }

  lemma {:induction false} EndedLines(s: seq<byte>)
    ensures Ended(Lines(s)) == if Closed(s) then s else s + CRLF
    decreases |s|
  {
    hide Place, Closed, Ended, Lines;
    if s == [] {
      NoLines();
    } else {
      LinesOne(s);
      var k := Place(s, CRLF, 0);
      if k == |s| {
        NotClosed(s);
        NoLines();
        EndedOne(s, []);
        assert [s] + [] == [s] && s + CRLF + [] == s + CRLF;
      } else {
        var rest := s[k + 2..];
        EndedLines(rest);
        ClosedRest(s, k);
        EndedOne(s[..k], Lines(rest));
        assert s[..k] + CRLF + (rest + CRLF) == s[..k] + CRLF + rest + CRLF;
      }
    }
  }

  lemma NoLines()
    ensures Lines([]) == [] && Ended([]) == [] && Closed([])
  {
  }

  /** The next line end does not move when one is appended. */
  lemma PlaceStays(s: seq<byte>)
    ensures Place(s + CRLF, CRLF, 0) == Place(s, CRLF, 0)
  {
    hide Place;
    var t := s + CRLF;
    var k, m := Place(s, CRLF, 0), Place(t, CRLF, 0);
    assert t[|s|..|s| + 2] == CRLF;
    assert IsAt(t, CRLF, |s|);
    assert |s| >= 1 ==> t[|s| - 1..|s| + 1][1] == t[|s|] == CR;
    assert |s| >= 1 ==> !IsAt(t, CRLF, |s| - 1);
    if k < |s| {
      assert t[k..k + 2] == s[k..k + 2];
      assert IsAt(t, CRLF, k);
    }
    if m + 2 <= |s| {
      assert s[m..m + 2] == t[m..m + 2];
      assert IsAt(s, CRLF, m);
    }
  }

  /** Ending a text that is closed already adds an empty line. */
  lemma {:induction false} OneMoreEnd(s: seq<byte>)
    ensures Lines(s + CRLF) == if Closed(s) then Lines(s) + [[]] else Lines(s)
    decreases |s|
  {
    hide Place;
    var t := s + CRLF;
    var k := Place(s, CRLF, 0);
    PlaceStays(s);
    if k == |s| {
      assert t[..k] == s && t[k + 2..] == [];
      assert Lines(t) == [s] + Lines([]) == [s];
      if s != [] {
        NotClosed(s);
      }
    } else {
      var rest := s[k + 2..];
      assert t[..k] == s[..k] && t[k + 2..] == rest + CRLF;
      OneMoreEnd(rest);
      ClosedRest(s, k);
      assert [s[..k]] + (Lines(rest) + [[]]) == [s[..k]] + Lines(rest) + [[]];
    }
  }

  predicate DotAfterBareLf(content: seq<byte>) {
    exists i :: 1 <= i < |content| && content[i] == DOT && content[i - 1] == LF && (i == 1 || content[i - 2] != CR)
  }

  /**
    The receiver gets the content and a line end if and only if no dot follows a bare LF.  It gets
    the content line by line if and only if, besides, the content is not closed already; otherwise
    an empty line is added.
   */
  lemma DeliveredLines(content: seq<byte>)
    ensures
      var delivered := Delivered(Stuff(content, LF) + END);
      && (delivered == content + CRLF <==> !DotAfterBareLf(content))
      && (Lines(delivered) == Lines(content) <==> !DotAfterBareLf(content) && !Closed(content))
      && (!DotAfterBareLf(content) && Closed(content) ==> Lines(delivered) == Lines(content) + [[]])
  {
    hide Stuff, Strict, Lines, Closed, DotAfterBareLf, Delivered;
    var d := Strict(Stuff(content, LF), CR, LF);
    DeliveredIs(content);
    RecoversIff(content);
    StrictCounts(content, CR, CR, LF);
    OneMoreEnd(content);
    EndedLines(content);
    EndedLines(d + CRLF);
    ClosedByEnd(d);
    assert d + CRLF == content + CRLF ==> d == content by { SameFront(d, content); }
  }

  lemma RecoversIff(content: seq<byte>)
    ensures Strict(Stuff(content, LF), CR, LF) == content <==> !DotAfterBareLf(content)
  {
    StrictRecoversUnless(content);
  }

  lemma ClosedByEnd(s: seq<byte>)
    ensures Closed(s + CRLF)
  {
    assert (s + CRLF)[|s|..] == CRLF;
  }

  lemma SameFront(a: seq<byte>, b: seq<byte>)
    ensures a + CRLF == b + CRLF ==> a == b
  {
    if a + CRLF == b + CRLF {
      assert a == (a + CRLF)[..|a|] && b == (b + CRLF)[..|b|] && |a + CRLF| == |b + CRLF|;
    }
  }
}
