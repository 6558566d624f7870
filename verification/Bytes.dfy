/**
  Bytes and decimal numerals, shared by every module that writes or reads a
  text protocol (terminal sequences, sixel data, Kitty graphics commands).
 */
module Bytes {

  type byte = x: int | 0 <= x < 256

  const ESC: byte := 27
  const ZERO: byte := 48

  predicate IsDigit(b: byte) {
    48 <= b <= 57
  }

  predicate AllDigits(s: seq<byte>) {
    forall i | 0 <= i < |s| :: IsDigit(s[i])
  }

  /** The shortest decimal numeral of n, most significant digit first. */
  function Dec(n: nat): (s: seq<byte>)
    ensures |s| > 0 && AllDigits(s)
  {
    if n < 10 then [ZERO + n] else Dec(n / 10) + [ZERO + n % 10]
  }

  /** The number a run of digits denotes. */
  function Value(s: seq<byte>): (n: nat)
    requires AllDigits(s)
  {
    if s == [] then 0 else Value(s[..|s| - 1]) * 10 + (s[|s| - 1] - ZERO)
  }

  /** How many digits s starts with. */
  function DigitRun(s: seq<byte>): (k: nat)
    ensures k <= |s| && AllDigits(s[..k])
    ensures k < |s| ==> !IsDigit(s[k])
  {
    if s == [] || !IsDigit(s[0]) then 0
    else
      var k := DigitRun(s[1..]) + 1;
      assert s[..k] == [s[0]] + s[1..][..k - 1];
      k
  }

  lemma {:induction false} ValueDec(n: nat)
    ensures Value(Dec(n)) == n
  {
    if n >= 10 {
      ValueDec(n / 10);
      assert Dec(n)[..|Dec(n)| - 1] == Dec(n / 10);
    }
  }

  lemma {:induction false} DigitRunConcat(d: seq<byte>, rest: seq<byte>)
    requires AllDigits(d)
    requires rest == [] || !IsDigit(rest[0])
    ensures DigitRun(d + rest) == |d|
  {
    if d == [] {
      assert d + rest == rest;
    } else {
      assert (d + rest)[1..] == d[1..] + rest;
      DigitRunConcat(d[1..], rest);
    }
  }

  /** Reading back a numeral that is followed by something other than a digit. */
  lemma DecRoundTrip(n: nat, rest: seq<byte>)
    requires rest == [] || !IsDigit(rest[0])
    ensures DigitRun(Dec(n) + rest) == |Dec(n)|
    ensures Value((Dec(n) + rest)[..|Dec(n)|]) == n
    ensures (Dec(n) + rest)[|Dec(n)|..] == rest
  {
    DigitRunConcat(Dec(n), rest);
    assert (Dec(n) + rest)[..|Dec(n)|] == Dec(n);
    ValueDec(n);
  }

  function Pow10(k: nat): (p: nat)
    ensures p >= 1
  {
    if k == 0 then 1 else 10 * Pow10(k - 1)
  }

  lemma {:induction false} DecLength(n: nat, k: nat)
    requires k >= 1 && n < Pow10(k)
    ensures |Dec(n)| <= k
  {
    if n >= 10 {
      DecLength(n / 10, k - 1);
    }
  }

  lemma TwentyDigits(n: nat)
    requires n < 0x1_0000_0000_0000_0000
    ensures |Dec(n)| <= 20
  {
    assert Pow10(5) == 10 * Pow10(4) == 100 * Pow10(3) == 100000;
    assert Pow10(10) == 10 * Pow10(9) == 100 * Pow10(8) == 1000 * Pow10(7) == 10000 * Pow10(6) == 10000000000;
    assert Pow10(15) == 10 * Pow10(14) == 100 * Pow10(13) == 1000 * Pow10(12) == 10000 * Pow10(11);
    assert Pow10(20) == 10 * Pow10(19) == 100 * Pow10(18) == 1000 * Pow10(17) == 10000 * Pow10(16);
    DecLength(n, 20);
  }

  /** append_number fills a 20-byte buffer from the back; 20 digits hold any 64-bit value. */
  method AppendNumber(out: seq<byte>, value: nat) returns (r: seq<byte>)
    requires value < 0x1_0000_0000_0000_0000
    ensures r == out + Dec(value)
  {
    TwentyDigits(value);
    var buffer := new byte[20](_ => 0);
    var position := 20;
    var v: nat := value;
    var more := true;
    while more
      invariant 0 <= position <= 20
      invariant more == (v != 0 || position == 20)
      invariant Dec(value) == (if more then Dec(v) else []) + buffer[position..]
      decreases v, more
    {
      ghost var tail := buffer[position..];
      position := position - 1;
      buffer[position] := ZERO + v % 10;
      assert buffer[position..] == [ZERO + v % 10] + tail;
      v := v / 10;
      more := v != 0;
    }
    r := out + buffer[position..];
  }

  // ---- Searching -----------------------------------------------------------

  /** The index of the first b in s, or |s|. */
  function Find(s: seq<byte>, b: byte): (k: nat)
    ensures k <= |s|
    ensures forall i | 0 <= i < k :: s[i] != b
    ensures k < |s| ==> s[k] == b
  {
    if s == [] || s[0] == b then 0 else Find(s[1..], b) + 1
  }

  lemma {:induction false} FindConcat(a: seq<byte>, b: byte, rest: seq<byte>)
    requires forall i | 0 <= i < |a| :: a[i] != b
    ensures Find(a + [b] + rest, b) == |a|
  {
    var s := a + [b] + rest;
    assert s[|a|] == b;
    assert forall i | 0 <= i < |a| :: s[i] == a[i];
  }

  /** m occurs in s at index i. */
  predicate IsAt(s: seq<byte>, m: seq<byte>, i: int) {
    0 <= i <= |s| - |m| && s[i..i + |m|] == m
  }
}
