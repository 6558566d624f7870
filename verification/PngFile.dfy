/** decode_png in src/tui/image.cpp: the chunks of a PNG file around the filtered rows. */
module PngFile {
  import opened Bytes
  import opened Images
  import opened PngFilter

  type Inflate = (seq<byte>, nat) -> Option<seq<byte>>

  const SIGNATURE: seq<byte> := [0x89, 0x50, 0x4E, 0x47, 0x0D, 0x0A, 0x1A, 0x0A]
  const IHDR: seq<byte> := [73, 72, 68, 82]
  const IDAT: seq<byte> := [73, 68, 65, 84]
  const IEND: seq<byte> := [73, 69, 78, 68]
  const MAX_DECODED := 512 * 1024 * 1024

  datatype Header = Header(width: nat, height: nat, bpp: nat)

  predicate ValidHeader(h: Header) {
    0 < h.width <= 0x7FFF_FFFF && 0 < h.height <= 0x7FFF_FFFF && 3 <= h.bpp <= 4
  }

  function Read32(s: seq<byte>): (r: nat)
    requires |s| >= 4
    ensures r < 0x1_0000_0000
  {
    s[0] as int * 0x100_0000 + s[1] as int * 0x1_0000 + s[2] as int * 0x100 + s[3] as int
  }

  /** Eight bits a channel, RGB or RGBA, no interlacing. */
  function ReadHeader(d: seq<byte>): (r: Option<Header>)
    requires |d| == 13
    ensures r.Some? ==> ValidHeader(r.value)
  {
    var width, height := Read32(d), Read32(d[4..]);
    if width == 0 || height == 0 || width > 0x7FFF_FFFF || height > 0x7FFF_FFFF then None
    else if d[8] != 8 || (d[9] != 2 && d[9] != 6) then None
    else if d[10] != 0 || d[11] != 0 || d[12] != 0 then None
    else Some(Header(width, height, if d[9] == 6 then 4 else 3))
  }

  /** The header and the concatenated IDAT data of the chunks in s, none if they are malformed or IEND is missing. */
  function Walk(s: seq<byte>, header: Option<Header>, compressed: seq<byte>): (r: Option<(Header, seq<byte>)>)
    requires header.Some? ==> ValidHeader(header.value)
    ensures r.Some? ==> ValidHeader(r.value.0)
    decreases |s|
  {
    if |s| < 12 then None
    else
      var length := Read32(s);
      if length > |s| - 12 then None
      else
        var kind, data, rest := s[4..8], s[8..8 + length], s[12 + length..];
        if header.None? then
          if kind != IHDR || length != 13 then None
          else
            match ReadHeader(data)
            case None => None
            case Some(h) => Walk(rest, Some(h), compressed)
        else if kind == IHDR then None
        else if kind == IDAT then Walk(rest, header, compressed + data)
        else if kind == IEND then if length == 0 then Some((header.value, compressed)) else None
        else Walk(rest, header, compressed)
  }

  /** The sizes the decoder is prepared to allocate. */
  predicate Fits(h: Header) {
    var stride := h.width * h.bpp;
    stride < MAX_DECODED && h.height * (stride + 1) <= MAX_DECODED && h.width * h.height <= MAX_DECODED / 4
  }

  function RawSize(h: Header): nat {
    h.height * (h.width * h.bpp + 1)
  }

  function DecodeRaw(h: Header, raw: seq<byte>): Option<Image>
    requires ValidHeader(h) && |raw| == RawSize(h)
  {
    match Rows(raw, h.height, Zeros(h.width * h.bpp), h.bpp)
    case Some(rows) => Some(Image(h.width, h.height, Rgba(rows, h.bpp, h.width)))
    case None => None
  }

  function DecodeWalked(h: Header, compressed: seq<byte>, inflate: Inflate): Option<Image>
    requires ValidHeader(h)
  {
    if compressed == [] || !Fits(h) then None
    else
      match inflate(compressed, RawSize(h))
      case Some(raw) => if |raw| == RawSize(h) then DecodeRaw(h, raw) else None
      case None => None
  }

  function Decode(bytes: seq<byte>, inflate: Inflate): Option<Image> {
    if |bytes| < 8 || bytes[..8] != SIGNATURE then None
    else
      match Walk(bytes[8..], None, [])
      case Some(walked) => DecodeWalked(walked.0, walked.1, inflate)
      case None => None
  }

  // ---- The loops ----------------------------------------------------------------------

  /** The chunk loop. */
  method WalkChunks(bytes: seq<byte>) returns (r: Option<(Header, seq<byte>)>)
    requires |bytes| >= 8
    ensures r == Walk(bytes[8..], None, [])
  {
    hide ReadHeader, Read32;
    var header: Option<Header> := None;
    var compressed: seq<byte> := [];
    var position := 8;
    while position < |bytes|
      invariant 8 <= position <= |bytes|
      invariant header.Some? ==> ValidHeader(header.value)
      invariant Walk(bytes[8..], None, []) == Walk(bytes[position..], header, compressed)
      decreases |bytes| - position
    {
      if |bytes| - position < 12 {
        return None;
      }
      ghost var s := bytes[position..];
      var length := Read32(bytes[position..]);
      var start := position + 8;
      if length > |bytes| - start - 4 {
        return None;
      }
      var kind := bytes[position + 4..position + 8];
      var data := bytes[start..start + length];
      assert kind == s[4..8] && data == s[8..8 + length] && bytes[start + length + 4..] == s[12 + length..];
      if header.None? {
        if kind != IHDR || length != 13 {
          return None;
        }
        header := ReadHeader(data);
        if header.None? {
          return None;
        }
      } else if kind == IHDR {
        return None;
      } else if kind == IDAT {
        compressed := compressed + data;
      } else if kind == IEND {
        if length != 0 {
          return None;
        }
        return Some((header.value, compressed));
      }
      position := start + length + 4;
    }
    r := None;
  }

  const SIZE_MAX := 0xFFFF_FFFF_FFFF_FFFF

  lemma QuotientBound(a: nat, b: nat, limit: nat)
    requires b > 0
    ensures a > limit / b <==> a * b > limit
  {
    assert limit == b * (limit / b) + limit % b;
    if a > limit / b {
      assert a * b >= (limit / b + 1) * b;
    } else {
      assert a * b <= limit / b * b;
    }
  }

  lemma NoOverflow(h: Header)
    requires ValidHeader(h)
    ensures h.width * h.bpp <= 4 * 0x7FFF_FFFF && h.width * h.height <= 0x7FFF_FFFF * 0x7FFF_FFFF
  {
    assert h.width * h.height <= 0x7FFF_FFFF * h.height;
    assert h.width * h.bpp <= h.width * 4;
  }

  /** Of the size checks, those against the range of size_t never fail. */
  method CheckSizes(h: Header) returns (ok: bool)
    requires ValidHeader(h)
    ensures ok == Fits(h)
  {
    NoOverflow(h);
    QuotientBound(h.width, h.bpp, SIZE_MAX);
    if h.width > SIZE_MAX / h.bpp {
      return false;
    }
    var stride := h.width * h.bpp;
    if stride >= MAX_DECODED {
      return false;
    }
    var rowSize := stride + 1;
    QuotientBound(h.height, rowSize, MAX_DECODED);
    if h.height > MAX_DECODED / rowSize {
      return false;
    }
    QuotientBound(h.height, h.width, SIZE_MAX);
    if h.height > SIZE_MAX / h.width {
      return false;
    }
    ok := h.width * h.height <= MAX_DECODED / 4;
  }

  method DecodePng(bytes: seq<byte>, inflate: Inflate) returns (r: Option<Image>)
    ensures r == Decode(bytes, inflate)
  {
    hide Walk, Rows, Rgba, Fits;
    if |bytes| < 8 || bytes[..8] != SIGNATURE {
      return None;
    }
    var walked := WalkChunks(bytes);
    if walked.None? {
      return None;
    }
    var (h, compressed) := walked.value;
    if |compressed| == 0 {
      return None;
    }
    var ok := CheckSizes(h);
    if !ok {
      return None;
    }
    var size := RawSize(h);
    var inflated := inflate(compressed, size);
    if inflated.None? || |inflated.value| != size {
      return None;
    }
    var rgba := DecodeRows(inflated.value, h.width, h.height, h.bpp);
    match rgba
    case Some(pixels) => r := Some(Image(h.width, h.height, pixels));
    case None => r := None;
  }

  // ---- Files as RFC 2083 describes them ----------------------------------------------------

  /** The checksum is whatever it is: the decoder does not look at it. */
  datatype Chunk = Chunk(kind: seq<byte>, data: seq<byte>, crc: seq<byte>)

  predicate WellFormed(c: Chunk) {
    |c.kind| == 4 && |c.crc| == 4 && |c.data| < 0x1_0000_0000
  }

  function Write32(n: nat): (s: seq<byte>)
    requires n < 0x1_0000_0000
    ensures |s| == 4
  {
    [n / 0x100_0000, n / 0x1_0000 % 256, n / 0x100 % 256, n % 256]
  }

  function WriteChunk(c: Chunk): seq<byte>
    requires WellFormed(c)
  {
    Write32(|c.data|) + c.kind + c.data + c.crc
  }

  predicate AllWellFormed(cs: seq<Chunk>) {
    forall i | 0 <= i < |cs| :: WellFormed(cs[i])
  }

  function WriteChunks(cs: seq<Chunk>): seq<byte>
    requires AllWellFormed(cs)
  {
    if cs == [] then [] else WriteChunk(cs[0]) + WriteChunks(cs[1..])
  }

  /** The IDAT data, however it is split up and whatever other chunks stand between. */
  function IdatData(cs: seq<Chunk>): seq<byte> {
    if cs == [] then [] else (if cs[0].kind == [73, 68, 65, 84] then cs[0].data else []) + IdatData(cs[1..])
  }

  function HeaderData(h: Header): seq<byte>
    requires ValidHeader(h)
  {
    Write32(h.width) + Write32(h.height) + [8, if h.bpp == 4 then 6 else 2, 0, 0, 0]
  }

  /** Signature, IHDR, the given chunks, IEND, and anything after it. */
  function File(h: Header, middle: seq<Chunk>, crc: seq<byte>, endCrc: seq<byte>, trailer: seq<byte>): seq<byte>
    requires ValidHeader(h) && |crc| == |endCrc| == 4 && AllWellFormed(middle)
  {
    [137, 80, 78, 71, 13, 10, 26, 10] + (WriteChunk(Chunk([73, 72, 68, 82], HeaderData(h), crc)) +
      (WriteChunks(middle) + (WriteChunk(Chunk([73, 69, 78, 68], [], endCrc)) + trailer)))
  }

  lemma Read32Write(n: nat, rest: seq<byte>)
    requires n < 0x1_0000_0000
    ensures Read32(Write32(n) + rest) == n
  {
    assert n / 0x1_0000 == n / 0x100_0000 * 256 + n / 0x1_0000 % 256;
    assert n / 0x100 == n / 0x1_0000 * 256 + n / 0x100 % 256;
    assert n == n / 0x100 * 256 + n % 256;
  }

  lemma HeaderReads(h: Header)
    requires ValidHeader(h)
    ensures |HeaderData(h)| == 13 && ReadHeader(HeaderData(h)) == Some(h)
  {
    hide Read32, Write32;
    var d := HeaderData(h);
    var tail := [8, if h.bpp == 4 then 6 else 2, 0, 0, 0];
    assert d == Write32(h.width) + (Write32(h.height) + tail);
    assert d[4..] == Write32(h.height) + tail;
    Read32Write(h.width, Write32(h.height) + tail);
    Read32Write(h.height, tail);
  }

  /** Where the parts of a chunk are. */
  lemma ChunkParts(c: Chunk, rest: seq<byte>)
    requires WellFormed(c)
    ensures
      var s := WriteChunk(c) + rest;
      && |s| >= 12 + |c.data| && Read32(s) == |c.data|
      && s[4..8] == c.kind && s[8..8 + |c.data|] == c.data && s[12 + |c.data|..] == rest
  {
    hide Read32, Write32;
    Read32Write(|c.data|, c.kind + c.data + c.crc + rest);
    assert WriteChunk(c) + rest == Write32(|c.data|) + (c.kind + c.data + c.crc + rest);
  }

  lemma {:induction false} WalkMiddle(h: Header, middle: seq<Chunk>, compressed: seq<byte>, rest: seq<byte>)
    requires ValidHeader(h) && AllWellFormed(middle)
    requires forall i | 0 <= i < |middle| :: middle[i].kind != IHDR && middle[i].kind != IEND
    ensures Walk(WriteChunks(middle) + rest, Some(h), compressed) == Walk(rest, Some(h), compressed + IdatData(middle))
    decreases |middle|
  {
    hide Walk, WriteChunk;
    if middle == [] {
      assert WriteChunks(middle) + rest == rest && compressed + [] == compressed;
    } else {
      var c, tail := middle[0], WriteChunks(middle[1..]) + rest;
      assert WriteChunks(middle) + rest == WriteChunk(c) + tail;
      WalkOther(h, c, compressed, tail);
      var data := if c.kind == IDAT then c.data else [];
      WalkMiddle(h, middle[1..], compressed + data, rest);
      assert compressed + data + IdatData(middle[1..]) == compressed + IdatData(middle);
    }
  }

  lemma WalkOther(h: Header, c: Chunk, compressed: seq<byte>, rest: seq<byte>)
    requires ValidHeader(h) && WellFormed(c) && c.kind != IHDR && c.kind != IEND
    ensures Walk(WriteChunk(c) + rest, Some(h), compressed) ==
      Walk(rest, Some(h), compressed + if c.kind == IDAT then c.data else [])
  {
    hide WriteChunk, Read32, ReadHeader;
    ChunkParts(c, rest);
    assert compressed + [] == compressed;
  }

  lemma WalkFirst(h: Header, crc: seq<byte>, rest: seq<byte>)
    requires ValidHeader(h) && |crc| == 4
    ensures |HeaderData(h)| == 13
    ensures Walk(WriteChunk(Chunk(IHDR, HeaderData(h), crc)) + rest, None, []) == Walk(rest, Some(h), [])
  {
    hide WriteChunk, Read32, ReadHeader, HeaderData;
    HeaderReads(h);
    ChunkParts(Chunk(IHDR, HeaderData(h), crc), rest);
  }

  lemma WalkLast(h: Header, crc: seq<byte>, compressed: seq<byte>, rest: seq<byte>)
    requires ValidHeader(h) && |crc| == 4
    ensures Walk(WriteChunk(Chunk(IEND, [], crc)) + rest, Some(h), compressed) == Some((h, compressed))
  {
    hide WriteChunk, Read32, ReadHeader;
    ChunkParts(Chunk(IEND, [], crc), rest);
  }

  /** The limits come to this: neither the filtered rows nor the pixels take more than 512 MiB. */
  lemma FitsIs(h: Header)
    requires ValidHeader(h)
    ensures Fits(h) <==> h.height * (h.width * h.bpp + 1) <= 536870912 && 4 * (h.width * h.height) <= 536870912
  {
    AtLeast(h.height, h.width * h.bpp + 1);
    var pixels, rows := h.width * h.height, h.height * (h.width * h.bpp + 1);
    assert pixels <= MAX_DECODED / 4 <==> 4 * pixels <= 536870912;
  }

  lemma AtLeast(n: nat, row: nat)
    requires n >= 1
    ensures row <= n * row
  {
    assert n * row == (n - 1) * row + row;
    assert (n - 1) * row >= 0;
  }

  /**
    Every RGB or RGBA image, filtered row by row with any choice of filters, compressed by
    anything inflate undoes, and written with any other chunks in between, is decoded to its
    pixels, provided it is within the size the decoder allocates; otherwise it is refused.
   */
  lemma FileRoundTrip(h: Header, rows: seq<seq<byte>>, filters: seq<filter>, middle: seq<Chunk>,
                      crc: seq<byte>, endCrc: seq<byte>, trailer: seq<byte>, inflate: Inflate)
    requires ValidHeader(h) && |rows| == |filters| == h.height && AllOf(rows, h.width * h.bpp)
    requires |crc| == |endCrc| == 4 && AllWellFormed(middle) && IdatData(middle) != []
    requires forall i | 0 <= i < |middle| :: middle[i].kind != IHDR && middle[i].kind != IEND
    requires inflate(IdatData(middle), RawSize(h)) == Some(Raw(rows, filters, Zeros(h.width * h.bpp), h.bpp))
    ensures Decode(File(h, middle, crc, endCrc, trailer), inflate) ==
      if Fits(h) then Some(Image(h.width, h.height, Rgba(rows, h.bpp, h.width))) else None
  {
    hide Walk, Rows, Raw, Rgba, Fits, WriteChunk, HeaderData;
    var stride := h.width * h.bpp;
    var last := WriteChunk(Chunk(IEND, [], endCrc)) + trailer;
    var body := WriteChunks(middle) + last;
    WalkFirst(h, crc, body);
    WalkMiddle(h, middle, [], last);
    assert [] + IdatData(middle) == IdatData(middle);
    WalkLast(h, endCrc, IdatData(middle), trailer);
    RowsOfRaw(rows, filters, Zeros(stride), h.bpp);
    var file := File(h, middle, crc, endCrc, trailer);
    assert file[..8] == SIGNATURE && file[8..] == WriteChunk(Chunk(IHDR, HeaderData(h), crc)) + body;
  }

  // ---- Nothing else is decoded -------------------------------------------------------------

  lemma Digits256(a: int, b: int, c: int, d: int)
    requires a >= 0 && 0 <= b < 256 && 0 <= c < 256 && 0 <= d < 256
    ensures
      var n := a * 0x100_0000 + b * 0x1_0000 + c * 0x100 + d;
      n / 0x100_0000 == a && n / 0x1_0000 % 256 == b && n / 0x100 % 256 == c && n % 256 == d
  {
    var n := a * 0x100_0000 + b * 0x1_0000 + c * 0x100 + d;
    var k := a * 256 + b;
    var m := k * 256 + c;
    assert n == m * 256 + d;
    assert n / 0x100 == m && n / 0x1_0000 == k && n / 0x100_0000 == a;
    assert m % 256 == c && k % 256 == b;
  }

  lemma Write32Read(s: seq<byte>)
    requires |s| >= 4
    ensures Write32(Read32(s)) == s[..4]
  {
    Digits256(s[0], s[1], s[2], s[3]);
  }

  /** A header that is read is one that would be written so. */
  lemma HeaderWrites(d: seq<byte>, h: Header)
    requires |d| == 13 && ReadHeader(d) == Some(h)
    ensures HeaderData(h) == d
  {
    hide Read32, Write32;
    Write32Read(d);
    Write32Read(d[4..]);
    assert d == d[..4] + d[4..][..4] + d[8..];
  }

  /** A chunk that is read is one that would be written so. */
  lemma ChunkWrites(s: seq<byte>) returns (c: Chunk)
    requires |s| >= 12 && Read32(s) <= |s| - 12
    ensures WellFormed(c) && c.kind == s[4..8] && c.data == s[8..8 + Read32(s)]
    ensures s == WriteChunk(c) + s[12 + Read32(s)..]
  {
    hide Read32, Write32;
    var n := Read32(s);
    c := Chunk(s[4..8], s[8..8 + n], s[8 + n..12 + n]);
    Write32Read(s);
    assert s == s[..4] + s[4..8] + s[8..8 + n] + s[8 + n..12 + n] + s[12 + n..];
  }

  predicate IsMiddle(cs: seq<Chunk>) {
    AllWellFormed(cs) &&
    forall i | 0 <= i < |cs| :: cs[i].kind != [73, 72, 68, 82] && cs[i].kind != [73, 69, 78, 68]
  }

  lemma MiddleNext(c: Chunk, cs: seq<Chunk>)
    requires IsMiddle(cs) && WellFormed(c) && c.kind != IHDR && c.kind != IEND
    ensures IsMiddle([c] + cs) && WriteChunks([c] + cs) == WriteChunk(c) + WriteChunks(cs)
    ensures IdatData([c] + cs) == (if c.kind == IDAT then c.data else []) + IdatData(cs)
  {
    hide WriteChunk;
    assert ([c] + cs)[1..] == cs;
  }

  /** What the walk does after the header. */
  lemma WalkStep(s: seq<byte>, h: Header, compressed: seq<byte>, c: Chunk)
    requires ValidHeader(h) && |s| >= 12 && Read32(s) <= |s| - 12
    requires c.kind == s[4..8] && c.data == s[8..8 + Read32(s)]
    ensures Walk(s, Some(h), compressed) ==
      if c.kind == IHDR then None
      else if c.kind == IEND then if c.data == [] then Some((h, compressed)) else None
      else Walk(s[12 + Read32(s)..], Some(h), compressed + if c.kind == IDAT then c.data else [])
  {
    hide Read32;
    assert compressed + [] == compressed;
  }

  lemma WalkNeeds(s: seq<byte>, header: Option<Header>, compressed: seq<byte>)
    requires header.Some? ==> ValidHeader(header.value)
    requires Walk(s, header, compressed).Some?
    ensures |s| >= 12 && Read32(s) <= |s| - 12
  {
  }

  lemma {:induction false} WalkedChunks(s: seq<byte>, h: Header, compressed: seq<byte>)
    returns (middle: seq<Chunk>, endCrc: seq<byte>, trailer: seq<byte>)
    requires ValidHeader(h) && Walk(s, Some(h), compressed).Some?
    ensures IsMiddle(middle) && |endCrc| == 4
    ensures s == WriteChunks(middle) + (WriteChunk(Chunk(IEND, [], endCrc)) + trailer)
    ensures Walk(s, Some(h), compressed) == Some((h, compressed + IdatData(middle)))
    decreases |s|
  {
    hide Read32, WriteChunk, Walk, IdatData, WriteChunks;
    WalkNeeds(s, Some(h), compressed);
    var c := ChunkWrites(s);
    var rest := s[12 + Read32(s)..];
    WalkStep(s, h, compressed, c);
    if c.kind == IEND {
      middle, endCrc, trailer := [], c.crc, rest;
      assert c == Chunk(IEND, [], endCrc);
      NoMiddle();
      assert [] + (WriteChunk(c) + trailer) == WriteChunk(c) + trailer;
      assert compressed + [] == compressed;
    } else {
      var data := if c.kind == IDAT then c.data else [];
      var more;
      more, endCrc, trailer := WalkedChunks(rest, h, compressed + data);
      middle := [c] + more;
      MiddleNext(c, more);
      Regroup(WriteChunk(c), WriteChunks(more), WriteChunk(Chunk(IEND, [], endCrc)) + trailer);
      Regroup(compressed, data, IdatData(more));
    }
  }

  lemma NoMiddle()
    ensures IsMiddle([]) && WriteChunks([]) == [] && IdatData([]) == []
  {
  }

  lemma Regroup(a: seq<byte>, b: seq<byte>, c: seq<byte>)
    ensures a + (b + c) == a + b + c
  {
  }

  /**
    Only such files are decoded: the signature, a header of eight bits a channel and no interlacing,
    other chunks, an empty IEND, and anything after it, with image data that inflate to filtered rows;
    and the image is those rows.
   */
  lemma DecodedFile(bytes: seq<byte>, inflate: Inflate)
    returns (h: Header, rows: seq<seq<byte>>, filters: seq<filter>, middle: seq<Chunk>,
             crc: seq<byte>, endCrc: seq<byte>, trailer: seq<byte>)
    requires Decode(bytes, inflate).Some?
    ensures ValidHeader(h) && Fits(h) && |rows| == |filters| == h.height && AllOf(rows, h.width * h.bpp)
    ensures IsMiddle(middle) && |crc| == |endCrc| == 4 && IdatData(middle) != []
    ensures bytes == File(h, middle, crc, endCrc, trailer)
    ensures inflate(IdatData(middle), RawSize(h)) == Some(Raw(rows, filters, Zeros(h.width * h.bpp), h.bpp))
    ensures Decode(bytes, inflate) == Some(Image(h.width, h.height, Rgba(rows, h.bpp, h.width)))
  {
    hide Read32, WriteChunk, Fits, DecodeRaw, HeaderData, Walk, DecodeWalked;
    var s := bytes[8..];
    WalkNeeds(s, None, []);
    var first := ChunkWrites(s);
    var rest := s[12 + Read32(s)..];
    h := WalkStart(s, first);
    crc := first.crc;
    HeaderWrites(first.data, h);
    middle, endCrc, trailer := WalkedChunks(rest, h, []);
    assert first == Chunk(IHDR, HeaderData(h), crc);
    assert [] + IdatData(middle) == IdatData(middle);
    assert bytes == bytes[..8] + s;
    rows, filters := DecodedRows(h, IdatData(middle), inflate);
  }

  lemma WalkStart(s: seq<byte>, c: Chunk) returns (h: Header)
    requires |s| >= 12 && Read32(s) <= |s| - 12 && c.kind == s[4..8] && c.data == s[8..8 + Read32(s)]
    requires Walk(s, None, []).Some?
    ensures c.kind == IHDR && |c.data| == 13 && ReadHeader(c.data) == Some(h)
    ensures Walk(s, None, []) == Walk(s[12 + Read32(s)..], Some(h), [])
  {
    hide Read32, ReadHeader;
    h := ReadHeader(c.data).value;
  }

  lemma DecodedRows(h: Header, compressed: seq<byte>, inflate: Inflate)
    returns (rows: seq<seq<byte>>, filters: seq<filter>)
    requires ValidHeader(h) && DecodeWalked(h, compressed, inflate).Some?
    ensures compressed != [] && Fits(h) && |rows| == |filters| == h.height && AllOf(rows, h.width * h.bpp)
    ensures inflate(compressed, RawSize(h)) == Some(Raw(rows, filters, Zeros(h.width * h.bpp), h.bpp))
    ensures DecodeWalked(h, compressed, inflate) == Some(Image(h.width, h.height, Rgba(rows, h.bpp, h.width)))
  {
    hide Rows, Raw, Rgba, Fits;
    var raw := inflate(compressed, RawSize(h)).value;
    rows := Rows(raw, h.height, Zeros(h.width * h.bpp), h.bpp).value;
    filters := RawOfRows(raw, h.height, Zeros(h.width * h.bpp), h.bpp);
  }
}
