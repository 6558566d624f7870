/** encode_base64 in src/tui/image.cpp and the decoder of section 4 of RFC 4648. */
module Base64 {
  import opened Arithmetic
  import opened Bytes

  type sextet = x: int | 0 <= x < 64

  const PAD: byte := 61

  /** The alphabet of Table 1. */
  function Letter(v: sextet): byte {
    if v < 26 then 65 + v
    else if v < 52 then 97 + (v - 26)
    else if v < 62 then 48 + (v - 52)
    else if v == 62 then 43 else 47
  }

  /** The sextet a letter stands for, or -1. */
  function Sextet(b: byte): (v: int)
    ensures -1 <= v < 64
  {
    if 65 <= b <= 90 then b - 65
    else if 97 <= b <= 122 then b - 97 + 26
    else if 48 <= b <= 57 then b - 48 + 52
    else if b == 43 then 62 else if b == 47 then 63 else -1
  }

  lemma LetterRoundTrip(v: sextet)
    ensures Sextet(Letter(v)) == v && Letter(v) != PAD && Letter(v) != ESC
  {
  }

  /** Three bytes as one 24-bit value. */
  function Triple(x: int, y: int, z: int): int {
    x * 0x1_0000 + y * 0x100 + z
  }

  /** Bits 18-23, 12-17, 6-11 and 0-5 of a 24-bit value. */
  function Group(value: int): (g: seq<byte>)
    requires 0 <= value < 0x100_0000
    ensures |g| == 4
  {
    [Letter(value / 0x4_0000), Letter(value / 0x1000 % 64), Letter(value / 64 % 64), Letter(value % 64)]
  }

  function Encode(d: seq<byte>): seq<byte> {
    if d == [] then []
    else if |d| == 1 then Group(Triple(d[0], 0, 0))[..2] + [PAD, PAD]
    else if |d| == 2 then Group(Triple(d[0], d[1], 0))[..3] + [PAD]
    else Group(Triple(d[0], d[1], d[2])) + Encode(d[3..])
  }

  method EncodeBase64(data: seq<byte>) returns (result: seq<byte>)
    ensures result == Encode(data)
  {
    hide Encode, Group;
    result := [];
    if |data| == 0 {
      NothingEncodes(data);
      return;
    }
    var index := 0;
    assert data[0..] == data;
    while index + 2 < |data|
      invariant 0 <= index <= |data| && result + Encode(data[index..]) == Encode(data)
      decreases |data| - index
    {
      var value: int := Triple(data[index], data[index + 1], data[index + 2]);
      GroupIsNext(data, index);
      assert result + (Group(value) + Encode(data[index + 3..])) == result + Group(value) + Encode(data[index + 3..]);
      result := result + Group(value);
      index := index + 3;
    }
    if index < |data| {
      var value: int := Triple(data[index], 0, 0);
      if index + 1 < |data| {
        value := value + Triple(0, data[index + 1], 0);
      }
      TailIsNext(data, index);
      result := result + Group(value)[..2];
      result := result + [if index + 1 < |data| then Group(value)[2] else PAD];
      result := result + [PAD];
    } else {
      NothingEncodes(data[index..]);
    }
  }

  lemma NothingEncodes(d: seq<byte>)
    requires |d| == 0
    ensures Encode(d) == []
  {
  }

  lemma GroupIsNext(data: seq<byte>, index: nat)
    requires index + 2 < |data|
    ensures Encode(data[index..]) ==
      Group(Triple(data[index], data[index + 1], data[index + 2])) + Encode(data[index + 3..])
  {
    hide Group, Triple;
    assert data[index..][3..] == data[index + 3..];
  }

  lemma TailIsNext(data: seq<byte>, index: nat)
    requires index < |data| <= index + 2
    ensures Encode(data[index..]) ==
      if index + 1 < |data| then Group(Triple(data[index], data[index + 1], 0))[..3] + [PAD]
      else Group(Triple(data[index], 0, 0))[..2] + [PAD, PAD]
  {
    hide Group, Triple;
  }

  // ---- Decoding ---------------------------------------------------------------

  datatype Result = Ok(data: seq<byte>) | Malformed

  /** Groups of four letters, the last one possibly padded; padded-out bits must be zero. */
  function Decode(s: seq<byte>): Result {
    if s == [] then Ok([])
    else if |s| < 4 then Malformed
    else
      var a, b, c, d := Sextet(s[0]), Sextet(s[1]), Sextet(s[2]), Sextet(s[3]);
      if a < 0 || b < 0 then Malformed
      else if s[2] == 61 && s[3] == 61 then if |s| == 4 && b % 16 == 0 then Ok([a * 4 + b / 16]) else Malformed
      else if c < 0 then Malformed
      else if s[3] == 61 then
        if |s| == 4 && c % 4 == 0 then Ok([a * 4 + b / 16, b % 16 * 16 + c / 4]) else Malformed
      else if d < 0 then Malformed
      else
        match Decode(s[4..])
        case Ok(rest) => Ok([a * 4 + b / 16, b % 16 * 16 + c / 4, c % 4 * 64 + d] + rest)
        case Malformed => Malformed
  }

  /** The bits of three bytes: 6 + 2, 4 + 4, 2 + 6. */
  lemma Sextets(p: int, q: int, r: int, t: int, u: int, v: int)
    requires 0 <= p < 64 && 0 <= q < 4 && 0 <= r < 16 && 0 <= t < 16 && 0 <= u < 4 && 0 <= v < 64
    ensures
      var value := Triple(p * 4 + q, r * 16 + t, u * 64 + v);
      && value / 0x4_0000 == p && value / 0x1000 % 64 == q * 16 + r
      && value / 64 % 64 == t * 4 + u && value % 64 == v && 0 <= value < 0x100_0000
  {
    var value := Triple(p * 4 + q, r * 16 + t, u * 64 + v);
    DivMod(value, 0x4_0000, p, (q * 16 + r) * 0x1000 + (t * 4 + u) * 64 + v);
    DivMod(value, 0x1000, p * 64 + q * 16 + r, (t * 4 + u) * 64 + v);
    DivMod(value / 0x1000, 64, p, q * 16 + r);
    DivMod(value, 64, (p * 64 + q * 16 + r) * 64 + t * 4 + u, v);
    DivMod(value / 64, 64, p * 64 + q * 16 + r, t * 4 + u);
  }

  /** The four letters of three bytes. */
  lemma GroupIs(x: byte, y: byte, z: byte)
    ensures 0 <= Triple(x, y, z) < 0x100_0000
    ensures x / 4 < 64 && x % 4 * 16 + y / 16 < 64 && y % 16 * 4 + z / 64 < 64
    ensures Group(Triple(x, y, z)) ==
      [Letter(x / 4), Letter(x % 4 * 16 + y / 16), Letter(y % 16 * 4 + z / 64), Letter(z % 64)]
  {
    hide Letter, Triple;
    Sextets(x / 4, x % 4, y / 16, y % 16, z / 64, z % 64);
  }

  /** The sextets give the bytes back. */
  lemma Join24(x: int, y: int, z: int)
    requires 0 <= x < 256 && 0 <= y < 256 && 0 <= z < 256
    ensures x / 4 * 4 + (x % 4 * 16 + y / 16) / 16 == x
    ensures (x % 4 * 16 + y / 16) % 16 * 16 + (y % 16 * 4 + z / 64) / 4 == y
    ensures (y % 16 * 4 + z / 64) % 4 * 64 + z % 64 == z
  {
    DivMod(x % 4 * 16 + y / 16, 16, x % 4, y / 16);
    DivMod(y % 16 * 4 + z / 64, 4, y % 16, z / 64);
  }

  lemma LettersDecode(a: sextet, b: sextet, c: sextet, d: sextet, code: seq<byte>, rest: seq<byte>)
    requires Decode(code) == Ok(rest)
    ensures a * 4 + b / 16 < 256 && b % 16 * 16 + c / 4 < 256 && c % 4 * 64 + d < 256
    ensures Decode([Letter(a), Letter(b), Letter(c), Letter(d)] + code) ==
      Ok([a * 4 + b / 16, b % 16 * 16 + c / 4, c % 4 * 64 + d] + rest)
  {
    hide Letter, Sextet;
    LetterRoundTrip(a);
    LetterRoundTrip(b);
    LetterRoundTrip(c);
    LetterRoundTrip(d);
    assert ([Letter(a), Letter(b), Letter(c), Letter(d)] + code)[4..] == code;
  }

  lemma GroupDecodes(x: byte, y: byte, z: byte, code: seq<byte>, rest: seq<byte>)
    requires Decode(code) == Ok(rest)
    ensures Decode(Group(Triple(x, y, z)) + code) == Ok([x, y, z] + rest)
  {
    hide Letter, Group, Triple, Decode;
    GroupIs(x, y, z);
    Join24(x, y, z);
    LettersDecode(x / 4, x % 4 * 16 + y / 16, y % 16 * 4 + z / 64, z % 64, code, rest);
  }

  lemma TwoDecode(x: byte, y: byte)
    ensures Decode(Group(Triple(x, y, 0))[..3] + [PAD]) == Ok([x, y])
  {
    hide Letter, Sextet, Group, Triple;
    GroupIs(x, y, 0);
    Join24(x, y, 0);
    LetterRoundTrip(x / 4);
    LetterRoundTrip(x % 4 * 16 + y / 16);
    LetterRoundTrip(y % 16 * 4);
    assert y % 16 * 4 % 4 == 0;
  }

  lemma OneDecodes(x: byte)
    ensures Decode(Group(Triple(x, 0, 0))[..2] + [PAD, PAD]) == Ok([x])
  {
    hide Letter, Sextet, Group, Triple;
    GroupIs(x, 0, 0);
    Join24(x, 0, 0);
    LetterRoundTrip(x / 4);
    LetterRoundTrip(x % 4 * 16);
    assert x % 4 * 16 % 16 == 0;
  }

  lemma LongEncodes(d: seq<byte>)
    requires |d| >= 3
    ensures 0 <= Triple(d[0], d[1], d[2]) < 0x100_0000
    ensures Encode(d) == Group(Triple(d[0], d[1], d[2])) + Encode(d[3..])
  {
    hide Group;
  }

  lemma LongDecodes(d: seq<byte>)
    requires |d| >= 3 && Decode(Encode(d[3..])) == Ok(d[3..])
    ensures Decode(Encode(d)) == Ok(d)
  {
    hide Group, Triple, Decode, Encode;
    LongEncodes(d);
    GroupDecodes(d[0], d[1], d[2], Encode(d[3..]), d[3..]);
    assert [d[0], d[1], d[2]] + d[3..] == d;
  }

  lemma ShortDecodes(d: seq<byte>)
    requires |d| <= 2
    ensures Decode(Encode(d)) == Ok(d)
  {
    hide Group, Triple;
    if |d| == 2 {
      TwoDecode(d[0], d[1]);
    } else if |d| == 1 {
      OneDecodes(d[0]);
    }
  }

  lemma {:induction false} RoundTrip(d: seq<byte>)
    ensures Decode(Encode(d)) == Ok(d)
  {
    hide Encode, Decode;
    if |d| >= 3 {
      RoundTrip(d[3..]);
      LongDecodes(d);
    } else {
      ShortDecodes(d);
    }
  }

  /** Four letters for every three bytes begun. */
  lemma {:induction false} EncodedLength(d: seq<byte>)
    ensures |Encode(d)| == (|d| + 2) / 3 * 4
  {
    hide Group, Triple;
    if |d| >= 3 {
      EncodedLength(d[3..]);
    }
  }

  /** Whole groups of letters encode whole triples of bytes. */
  lemma {:induction false} PrefixEncodes(d: seq<byte>, k: nat)
    requires 3 * k <= |d|
    ensures 4 * k <= |Encode(d)| && Encode(d)[..4 * k] == Encode(d[..3 * k])
    decreases k
  {
    hide Encode, Group;
    EncodedLength(d);
    if k == 0 {
      NothingEncodes(d[..0]);
    } else {
      var g := Group(Triple(d[0], d[1], d[2]));
      LongEncodes(d);
      LongEncodes(d[..3 * k]);
      PrefixEncodes(d[3..], k - 1);
      assert d[..3 * k][3..] == d[3..][..3 * (k - 1)];
      assert (g + Encode(d[3..]))[..4 * k] == g + Encode(d[3..])[..4 * (k - 1)];
    }
  }

  /** Nothing in the encoding can be taken for the start of a control sequence. */
  lemma {:induction false} EncodedIsText(d: seq<byte>)
    ensures forall i | 0 <= i < |Encode(d)| :: 32 < Encode(d)[i] < 127
  {
    if |d| >= 3 {
      EncodedIsText(d[3..]);
    }
  }
}
