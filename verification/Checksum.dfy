/** The Internet checksum of src/network/icmp_socket.cpp against RFC 1071, on either byte order. */
module Checksum {
  import opened Bytes

  const WRAP := 0x1_0000_0000

  /** Two bytes read as a host word. */
  function Word(a: byte, b: byte, little: bool): nat {
    if little then a as int + 256 * b as int else 256 * a as int + b as int
  }

  /** What the first loop adds up: host words, and an odd last byte as it is. */
  function HostSum(data: seq<byte>, little: bool): nat {
    if data == [] then 0
    else if |data| == 1 then data[0]
    else Word(data[0], data[1], little) + HostSum(data[2..], little)
  }

  /** The carries of a sum, folded back into 16 bits. */
  function Fold(sum: nat): (r: nat)
    ensures r < 0x1_0000
  {
    if sum < 0x1_0000 then sum else Fold(sum % 0x1_0000 + sum / 0x1_0000)
  }

  function ChecksumOf(data: seq<byte>, little: bool): (c: nat)
    ensures c < 0x1_0000
  {
    0xFFFF - Fold(HostSum(data, little) % WRAP)
  }

  method CalculateChecksum(data: seq<byte>, little: bool) returns (c: nat)
    ensures c == ChecksumOf(data, little)
  {
    hide HostSum, Word;
    var sum: nat := 0;
    ghost var total: nat := 0;
    var i := 0;
    var len := |data|;
    assert data[0..] == data;
    while len > 1
      invariant 0 <= i <= |data| && len == |data| - i
      invariant total + HostSum(data[i..], little) == HostSum(data, little) && sum == total % WRAP
      decreases len
    {
      NextWord(data, i, little);
      AddWrapped(total, Word(data[i], data[i + 1], little));
      sum := (sum + Word(data[i], data[i + 1], little)) % WRAP;
      total := total + Word(data[i], data[i + 1], little);
      i := i + 2;
      len := len - 2;
    }
    LastByte(data, i, little);
    if len != 0 {
      AddWrapped(total, data[i]);
      sum := (sum + data[i]) % WRAP;
      total := total + data[i];
    }
    sum := FoldSum(sum);
    c := 0xFFFF - sum;
  }

  method FoldSum(s: nat) returns (sum: nat)
    ensures sum == Fold(s)
  {
    sum := s;
    while sum / 0x1_0000 != 0
      invariant sum >= 0 && Fold(sum) == Fold(s)
      decreases sum
    {
      sum := sum % 0x1_0000 + sum / 0x1_0000;
    }
  }

  lemma NextWord(data: seq<byte>, i: nat, little: bool)
    requires i + 1 < |data|
    ensures HostSum(data[i..], little) == Word(data[i], data[i + 1], little) + HostSum(data[i + 2..], little)
  {
    assert data[i..][2..] == data[i + 2..];
  }

  lemma LastByte(data: seq<byte>, i: nat, little: bool)
    requires i <= |data| <= i + 1
    ensures HostSum(data[i..], little) == if i < |data| then data[i] else 0
  {
  }

  lemma AddWrapped(total: nat, w: nat)
    ensures (total % WRAP + w) % WRAP == (total + w) % WRAP
  {
  }

  // ---- No overflow ----------------------------------------------------------------------

  lemma {:induction false} SumBound(data: seq<byte>, little: bool)
    ensures HostSum(data, little) <= (|data| + 1) / 2 * 0xFFFF
    ensures |data| <= 131074 ==> HostSum(data, little) < 0x1_0000_0000
  {
    if |data| >= 2 {
      SumBound(data[2..], little);
    }
  }

  function Ones(n: nat): (r: seq<byte>)
    ensures |r| == n && forall i | 0 <= i < n :: r[i] == 255
  {
    seq(n, _ => 255)
  }

  lemma {:induction false} OnesSum(n: nat, little: bool)
    ensures HostSum(Ones(n), little) == n / 2 * 0xFFFF + n % 2 * 255
  {
    if n >= 2 {
      OnesSum(n - 2, little);
      assert Ones(n)[2..] == Ones(n - 2);
      assert n / 2 == (n - 2) / 2 + 1;
    } else if n == 1 {
      assert Ones(1)[0] == 255;
    }
  }

  /** No data of a length overflow the 32 bits if and only if the length is at most 131074. */
  lemma NeverWrapsIff(n: nat, little: bool)
    ensures (forall data: seq<byte> | |data| == n :: HostSum(data, little) < 0x1_0000_0000) <==> n <= 131074
  {
    if n <= 131074 {
      forall data: seq<byte> | |data| == n ensures HostSum(data, little) < 0x1_0000_0000 {
        SumBound(data, little);
      }
    } else {
      OnesSum(n, little);
      assert |Ones(n)| == n;
    }
  }

  lemma NoWrap(data: seq<byte>, little: bool)
    requires |data| <= 131074
    ensures ChecksumOf(data, little) == 0xFFFF - Fold(HostSum(data, little))
  {
    hide HostSum, Fold;
    SumBound(data, little);
  }

  // ---- Folding ----------------------------------------------------------------------------

  /** Folding is reduction modulo 65535, with 65535 in place of 0 unless the sum is 0. */
  lemma {:induction false} FoldIs(sum: nat)
    ensures Fold(sum) == if sum == 0 then 0 else (sum - 1) % 0xFFFF + 1
  {
    if sum >= 0x1_0000 {
      var q, r := sum / 0x1_0000, sum % 0x1_0000;
      FoldIs(r + q);
      FewerMultiples(sum - 1, r + q - 1, q);
    }
  }

  lemma FewerMultiples(a: nat, b: nat, q: nat)
    requires a == b + 0xFFFF * q
    ensures a % 0xFFFF == b % 0xFFFF
  {
  }

  /** The folded sum is the only value from 1 to 65535 that differs from the sum by a multiple of 65535. */
  lemma FoldUnique(sum: nat, f: nat, k: int)
    requires 1 <= f <= 0xFFFF && sum == f + 0xFFFF * k && sum > 0
    ensures Fold(sum) == f
  {
    FoldIs(sum);
    assert k >= 0;
    FewerMultiples(sum - 1, f - 1, k);
  }

  lemma FoldMultiple(sum: nat) returns (k: nat)
    ensures sum == Fold(sum) + 0xFFFF * k && (sum > 0 ==> 1 <= Fold(sum))
  {
    FoldIs(sum);
    k := if sum == 0 then 0 else (sum - 1) / 0xFFFF;
  }

  // ---- The packet -------------------------------------------------------------------------------

  /** A 16-bit store in host order. */
  function Store(v: nat, little: bool): (s: seq<byte>)
    requires v < 0x1_0000
    ensures |s| == 2
  {
    if little then [v % 256, v / 256] else [v / 256, v % 256]
  }

  /** Echo request: type, code, checksum, identifier, sequence number, data. */
  function Packet(checksum: seq<byte>, id: nat, number: nat, payload: seq<byte>): (p: seq<byte>)
    requires |checksum| == 2 && id < 0x1_0000 && number < 0x1_0000
    ensures |p| == 8 + |payload|
  {
    [8, 0] + checksum + [id / 256, id % 256, number / 256, number % 256] + payload
  }

  /** What RFC 792 has where: type 8, code 0, and in network order the identifier and the sequence number. */
  predicate IsEcho(p: seq<byte>, id: nat, number: nat, payload: seq<byte>) {
    && |p| == 8 + |payload| && p[0] == 8 && p[1] == 0
    && Word(p[4], p[5], false) == id && Word(p[6], p[7], false) == number && p[8..] == payload
  }

  lemma PacketIsEcho(checksum: seq<byte>, id: nat, number: nat, payload: seq<byte>)
    requires |checksum| == 2 && id < 0x1_0000 && number < 0x1_0000
    ensures
      var p := Packet(checksum, id, number, payload);
      && IsEcho(p, id, number, payload) && p[2..4] == checksum
      && p[..2] + [0, 0] + p[4..] == Packet([0, 0], id, number, payload)
  {
    assert id == 256 * (id / 256) + id % 256 && number == 256 * (number / 256) + number % 256;
  }

  /** Header and data, the checksum still zero. */
  method FillEcho(id: nat, number: nat, payload: seq<byte>) returns (buffer: array<byte>)
    requires id < 0x1_0000 && number < 0x1_0000
    ensures fresh(buffer) && buffer[..] == Packet([0, 0], id, number, payload)
  {
    buffer := new byte[8 + |payload|](_ => 0);
    buffer[0], buffer[1] := 8, 0;
    buffer[4], buffer[5] := id / 256, id % 256;
    buffer[6], buffer[7] := number / 256, number % 256;
    var i := 0;
    assert buffer[..8] == Packet([0, 0], id, number, []);
    while i < |payload|
      invariant 0 <= i <= |payload| && buffer[..8 + i] == Packet([0, 0], id, number, payload[..i])
    {
      CopyOne(id, number, payload, i);
      buffer[8 + i] := payload[i];
      i := i + 1;
    }
    assert payload[..i] == payload && buffer[..8 + i] == buffer[..];
    buffer[2], buffer[3] := 0, 0;
    assert buffer[..] == Packet([0, 0], id, number, payload);
  }

  method BuildEchoRequest(id: nat, number: nat, payload: seq<byte>, little: bool) returns (packet: seq<byte>)
    requires id < 0x1_0000 && number < 0x1_0000
    ensures packet ==
      Packet(Store(ChecksumOf(Packet([0, 0], id, number, payload), little), little), id, number, payload)
    ensures IsEcho(packet, id, number, payload) && |packet| >= 4
    ensures packet[2..4] == Store(ChecksumOf(packet[..2] + [0, 0] + packet[4..], little), little)
  {
    hide ChecksumOf, Store, IsEcho, Packet;
    var buffer := FillEcho(id, number, payload);
    var c := CalculateChecksum(buffer[..], little);
    var stored := Store(c, little);
    PutField(id, number, payload, stored);
    buffer[2], buffer[3] := stored[0], stored[1];
    packet := buffer[..];
    PacketIsEcho(stored, id, number, payload);
  }

  lemma PutField(id: nat, number: nat, payload: seq<byte>, field: seq<byte>)
    requires id < 0x1_0000 && number < 0x1_0000 && |field| == 2
    ensures Packet([0, 0], id, number, payload)[2 := field[0]][3 := field[1]] == Packet(field, id, number, payload)
  {
  }

  lemma CopyOne(id: nat, number: nat, payload: seq<byte>, i: nat)
    requires id < 0x1_0000 && number < 0x1_0000 && i < |payload|
    ensures Packet([0, 0], id, number, payload[..i + 1]) == Packet([0, 0], id, number, payload[..i]) + [payload[i]]
  {
    assert payload[..i + 1] == payload[..i] + [payload[i]];
  }

  lemma StoreReads(v: nat, little: bool)
    requires v < 0x1_0000
    ensures Word(Store(v, little)[0], Store(v, little)[1], little) == v
  {
  }

  /** The checksum field is one of the words that are added up. */
  lemma FieldAdds(v: nat, id: nat, number: nat, payload: seq<byte>, little: bool)
    requires v < 0x1_0000 && id < 0x1_0000 && number < 0x1_0000
    ensures HostSum(Packet(Store(v, little), id, number, payload), little) ==
      HostSum(Packet([0, 0], id, number, payload), little) + v
    ensures HostSum(Packet([0, 0], id, number, payload), little) > 0
  {
    assert Word(0, 0, little) == 0 && Word(8, 0, little) >= 8;
    hide Word;
    var p, z := Packet(Store(v, little), id, number, payload), Packet([0, 0], id, number, payload);
    assert p[4..] == z[4..] && p[2..][2..] == p[4..] && z[2..][2..] == z[4..];
    assert HostSum(p[2..], little) == Word(p[2], p[3], little) + HostSum(p[4..], little);
    assert HostSum(z[2..], little) == Word(0, 0, little) + HostSum(z[4..], little);
    StoreReads(v, little);
  }

  /** The receiver's check: summed again with the checksum in place, every packet gives 0. */
  lemma ReceiverSeesZero(id: nat, number: nat, payload: seq<byte>, little: bool)
    requires id < 0x1_0000 && number < 0x1_0000 && 8 + |payload| <= 131074
    ensures
      var c := ChecksumOf(Packet([0, 0], id, number, payload), little);
      ChecksumOf(Packet(Store(c, little), id, number, payload), little) == 0
  {
    hide HostSum, Packet, Store, ChecksumOf, Fold;
    var z := Packet([0, 0], id, number, payload);
    var sum := HostSum(z, little);
    var c := ChecksumOf(z, little);
    var p := Packet(Store(c, little), id, number, payload);
    FieldAdds(c, id, number, payload, little);
    NoWrap(z, little);
    NoWrap(p, little);
    var k := FoldMultiple(sum);
    FoldUnique(sum + c, 0xFFFF, k);
  }

  // ---- RFC 1071 ---------------------------------------------------------------------------------------

  /** Words in network order, an odd last byte padded with zero on the right. */
  function NetSum(data: seq<byte>): nat {
    if data == [] then 0
    else if |data| == 1 then 256 * data[0] as int
    else Word(data[0], data[1], false) + NetSum(data[2..])
  }

  function RfcChecksum(data: seq<byte>): (c: nat)
    ensures c < 0x1_0000
  {
    0xFFFF - Fold(NetSum(data))
  }

  function Swap(v: nat): nat
    requires v < 0x1_0000
  {
    v % 256 * 256 + v / 256
  }

  /** A little-endian host adds up 256 times as much, modulo 65535. */
  lemma {:induction false} LittleSum(data: seq<byte>) returns (k: nat)
    ensures 256 * NetSum(data) == HostSum(data, true) + 0xFFFF * k
  {
    if |data| >= 2 {
      var rest := LittleSum(data[2..]);
      k := rest + data[0];
      assert 256 * Word(data[0], data[1], false) == Word(data[0], data[1], true) + 0xFFFF * data[0] as int;
    } else if |data| == 1 {
      k := data[0];
    } else {
      k := 0;
    }
  }

  /** A big-endian host adds an odd last byte at the wrong end of its word. */
  lemma {:induction false} BigSum(data: seq<byte>)
    ensures NetSum(data) == HostSum(data, false) + if |data| % 2 == 1 then 255 * data[|data| - 1] as int else 0
  {
    if |data| >= 2 {
      BigSum(data[2..]);
    }
  }

  lemma SwapIs(f: nat)
    requires f < 0x1_0000
    ensures Swap(f) < 0x1_0000 && 256 * f == Swap(f) + 0xFFFF * (f / 256) && Swap(0xFFFF - f) == 0xFFFF - Swap(f)
    ensures f > 0 ==> Swap(f) > 0
  {
    assert f == f / 256 * 256 + f % 256;
    assert (0xFFFF - f) / 256 == 255 - f / 256;
    assert (0xFFFF - f) % 256 == 255 - f % 256;
  }

  lemma ScaledFold(net: nat, host: nat, k: nat)
    requires 256 * net == host + 0xFFFF * k && (host == 0 <==> net == 0)
    ensures Fold(host) == Swap(Fold(net))
  {
    var f := Fold(net);
    var j := FoldMultiple(net);
    SwapIs(f);
    if net > 0 {
      FoldUnique(host, Swap(f), 256 * j + f / 256 - k);
    }
  }

  lemma {:induction false} ZeroTogether(data: seq<byte>, little: bool)
    ensures HostSum(data, little) == 0 <==> NetSum(data) == 0
  {
    if |data| >= 2 {
      ZeroTogether(data[2..], little);
    }
  }

  /**
    On a little-endian host the bytes stored are those RFC 1071 asks for, whatever the length.  On a
    big-endian host they are for even lengths, and for odd ones only if the last byte is zero.
   */
  lemma MeetsRfc(data: seq<byte>, little: bool)
    requires |data| <= 131074
    ensures Store(ChecksumOf(data, little), little) == [RfcChecksum(data) / 256, RfcChecksum(data) % 256] <==>
      little || |data| % 2 == 0 || data[|data| - 1] == 0
  {
    if little {
      MeetsRfcLittle(data);
    } else {
      MeetsRfcBig(data);
      SameBytes(ChecksumOf(data, false), RfcChecksum(data));
    }
  }

  lemma MeetsRfcLittle(data: seq<byte>)
    requires |data| <= 131074
    ensures Store(ChecksumOf(data, true), true) == [RfcChecksum(data) / 256, RfcChecksum(data) % 256]
  {
    hide HostSum, NetSum, Fold, ChecksumOf, Store, Swap;
    NoWrap(data, true);
    ZeroTogether(data, true);
    var k := LittleSum(data);
    ScaledFold(NetSum(data), HostSum(data, true), k);
    var f := Fold(NetSum(data));
    SwapIs(f);
    Swapped(0xFFFF - f);
  }

  lemma Swapped(v: nat)
    requires v < 0x1_0000
    ensures Swap(v) < 0x1_0000 && Store(Swap(v), true) == [v / 256, v % 256]
  {
    assert (v % 256 * 256 + v / 256) / 256 == v % 256;
  }

  lemma MeetsRfcBig(data: seq<byte>)
    requires |data| <= 131074
    ensures ChecksumOf(data, false) == RfcChecksum(data) <==> |data| % 2 == 0 || data[|data| - 1] == 0
  {
    hide HostSum, NetSum, Fold, ChecksumOf;
    NoWrap(data, false);
    ZeroTogether(data, false);
    BigSum(data);
    var host := HostSum(data, false);
    if |data| % 2 == 1 && data[|data| - 1] != 0 {
      OddSumIsPositive(data);
      OddByteShows(host, data[|data| - 1]);
    }
  }

  lemma {:induction false} OddSumIsPositive(data: seq<byte>)
    requires |data| % 2 == 1 && data[|data| - 1] != 0
    ensures HostSum(data, false) > 0
  {
    if |data| > 1 {
      OddSumIsPositive(data[2..]);
    }
  }

  lemma SameBytes(a: nat, b: nat)
    requires a < 0x1_0000 && b < 0x1_0000
    ensures [a / 256, a % 256] == [b / 256, b % 256] <==> a == b
  {
    assert a == a / 256 * 256 + a % 256 && b == b / 256 * 256 + b % 256;
    if a != b && a / 256 == b / 256 {
      assert a % 256 != b % 256;
      assert [a / 256, a % 256][1] != [b / 256, b % 256][1];
    } else if a != b {
      assert [a / 256, a % 256][0] != [b / 256, b % 256][0];
    }
  }

  lemma OddByteShows(host: nat, last: nat)
    requires 0 < last < 256 && host > 0
    ensures Fold(host) != Fold(host + 255 * last)
  {
    var a := FoldMultiple(host);
    var b := FoldMultiple(host + 255 * last);
    assert Fold(host + 255 * last) - Fold(host) == 255 * last - 0xFFFF * (b as int - a as int);
  }

  /** Two bytes too many, all of them 255: what is stored is 1 where RFC 1071 has 0. */
  lemma WrappedSumIsWrong() returns (data: seq<byte>)
    ensures |data| == 131076 && ChecksumOf(data, true) == ChecksumOf(data, false) == 1 && RfcChecksum(data) == 0
  {
    hide HostSum, NetSum, Fold;
    data := Ones(131076);
    OnesSum(131076, true);
    OnesSum(131076, false);
    BigSum(data);
    FoldIs(65534);
    FoldIs(65538 * 0xFFFF);
    assert 65538 * 0xFFFF % 0x1_0000_0000 == 65534;
  }
}
