/** encode_kitty in src/tui/image.cpp: graphics commands whose payloads are chunks of base64. */
module Kitty {
  import opened Bytes
  import opened Images
  import Base64

  const LIMIT := 4096

  /** ESC _ G control ; payload ESC \ */
  datatype Command = Command(control: seq<byte>, payload: seq<byte>)

  const COMMA: byte := 44
  const SEMICOLON: byte := 59

  /** Neither part may contain what ends it. */
  predicate Writable(c: Command) {
    && (forall i | 0 <= i < |c.control| :: c.control[i] != SEMICOLON && c.control[i] != ESC)
    && (forall i | 0 <= i < |c.payload| :: c.payload[i] != ESC)
  }

  function Encode(c: Command): seq<byte> {
    [ESC, 95, 71] + c.control + [SEMICOLON] + c.payload + [ESC, 92]
  }

  function Serialize(cs: seq<Command>): seq<byte> {
    if cs == [] then [] else Encode(cs[0]) + Serialize(cs[1..])
  }

  // ---- The terminal's side ------------------------------------------------------

  /** The commands of a stream; anything else ends it. */
  function Receive(s: seq<byte>): seq<Command>
    decreases |s|
  {
    if |s| < 3 || s[..3] != [ESC, 95, 71] then []
    else
      var body := s[3..];
      var k := Find(body, SEMICOLON);
      if k == |body| then []
      else
        var rest := body[k + 1..];
        var n := Find(rest, ESC);
        if n + 2 > |rest| then [] else [Command(body[..k], rest[..n])] + Receive(rest[n + 2..])
  }

  /** What Receive does with a stream that starts with a command. */
  lemma ReceiveParts(control: seq<byte>, payload: seq<byte>, rest: seq<byte>, s: seq<byte>, body: seq<byte>,
                     tail: seq<byte>)
    requires tail == payload + [ESC, 92] + rest && Find(tail, ESC) == |payload|
    requires body == control + [SEMICOLON] + tail && Find(body, SEMICOLON) == |control|
    requires s == [ESC, 95, 71] + body
    ensures Receive(s) == [Command(control, payload)] + Receive(rest)
  {
    hide Find;
    assert s[..3] == [ESC, 95, 71] && s[3..] == body;
    assert body[|control| + 1..] == tail && body[..|control|] == control;
    assert tail[..|payload|] == payload && tail[|payload| + 2..] == rest;
  }

  lemma ReceiveOne(c: Command, rest: seq<byte>)
    requires Writable(c)
    ensures Receive(Encode(c) + rest) == [c] + Receive(rest)
  {
    hide Find, Receive;
    var tail := c.payload + [ESC, 92] + rest;
    var body := c.control + [SEMICOLON] + tail;
    FindConcat(c.control, SEMICOLON, tail);
    FindConcat(c.payload, ESC, [92] + rest);
    assert tail == c.payload + [ESC] + ([92] + rest);
    ReceiveParts(c.control, c.payload, rest, Encode(c) + rest, body, tail) by { Regroup(c, rest, tail); }
  }

  lemma Regroup(c: Command, rest: seq<byte>, tail: seq<byte>)
    requires tail == c.payload + [ESC, 92] + rest
    ensures Encode(c) + rest == [ESC, 95, 71] + (c.control + [SEMICOLON] + tail)
  {
  }

  lemma ReceiveNothing()
    ensures Receive([]) == []
  {
  }

  lemma {:induction false} ReceiveSerialize(cs: seq<Command>)
    requires forall i | 0 <= i < |cs| :: Writable(cs[i])
    ensures Receive(Serialize(cs)) == cs
  {
    hide Writable, Encode, Receive;
    if cs == [] {
      ReceiveNothing();
    } else {
      ReceiveSerialize(cs[1..]);
      ReceiveOne(cs[0], Serialize(cs[1..]));
    }
  }

  /** The comma-separated fields of a control string. */
  function Fields(s: seq<byte>): seq<seq<byte>>
    decreases |s|
  {
    var k := Find(s, COMMA);
    if k == |s| then [s] else [s[..k]] + Fields(s[k + 1..])
  }

  function Join(fields: seq<seq<byte>>): seq<byte>
    requires fields != []
  {
    if |fields| == 1 then fields[0] else fields[0] + [COMMA] + Join(fields[1..])
  }

  predicate Plain(field: seq<byte>) {
    forall i | 0 <= i < |field| :: field[i] != COMMA && field[i] != SEMICOLON && field[i] != ESC
  }

  predicate AllPlain(fields: seq<seq<byte>>) {
    forall i | 0 <= i < |fields| :: Plain(fields[i])
  }

  lemma FieldsFirst(field: seq<byte>, rest: seq<byte>)
    requires Plain(field)
    ensures Fields(field + [COMMA] + rest) == [field] + Fields(rest)
  {
    hide Find;
    FindConcat(field, COMMA, rest);
    var s := field + [COMMA] + rest;
    assert s[..|field|] == field && s[|field| + 1..] == rest;
  }

  lemma FieldsLast(field: seq<byte>)
    requires Plain(field)
    ensures Fields(field) == [field]
  {
  }

  lemma {:induction false} FieldsJoin(fields: seq<seq<byte>>)
    requires fields != [] && AllPlain(fields)
    ensures Fields(Join(fields)) == fields
  {
    hide Fields, Plain;
    if |fields| == 1 {
      FieldsLast(fields[0]);
    } else {
      FieldsJoin(fields[1..]);
      FieldsFirst(fields[0], Join(fields[1..]));
      assert fields == [fields[0]] + fields[1..];
    }
  }

  lemma {:induction false} JoinIsWritable(fields: seq<seq<byte>>)
    requires fields != [] && AllPlain(fields)
    ensures forall i | 0 <= i < |Join(fields)| :: Join(fields)[i] != SEMICOLON && Join(fields)[i] != ESC
  {
    if |fields| > 1 {
      JoinIsWritable(fields[1..]);
    }
  }

  /** m=1 announces more chunks, m=0 the last one. */
  const MORE: seq<byte> := [109, 61, 49]
  const LAST: seq<byte> := [109, 61, 48]

  function Payloads(cs: seq<Command>): seq<byte> {
    if cs == [] then [] else cs[0].payload + Payloads(cs[1..])
  }

  // ---- Our side ---------------------------------------------------------------------

  /** f=32, s=width, v=height, a=T, i=id, p=1, m, q=2 */
  function FirstFields(w: nat, h: nat, id: nat, more: seq<byte>): seq<seq<byte>> {
    [[102, 61, 51, 50], [115, 61] + Dec(w), [118, 61] + Dec(h), [97, 61, 84], [105, 61] + Dec(id), [112, 61, 49], more,
     [113, 61, 50]]
  }

  /** The control string of a continuation starts with a comma. */
  function LaterFields(more: seq<byte>): seq<seq<byte>> {
    [[], more]
  }

  function Chunk(fields: seq<seq<byte>>, payload: seq<byte>): Command
    requires fields != []
  {
    Command(Join(fields), payload)
  }

  function Mark(last: bool): seq<byte> { if last then LAST else MORE }

  /** The chunks after the first. */
  function Later(encoded: seq<byte>): seq<Command>
    decreases |encoded|
  {
    if encoded == [] then []
    else if |encoded| <= LIMIT then [Chunk(LaterFields(LAST), encoded)]
    else [Chunk(LaterFields(MORE), encoded[..LIMIT])] + Later(encoded[LIMIT..])
  }

  function Transmission(w: nat, h: nat, id: nat, encoded: seq<byte>): seq<Command> {
    var first := if |encoded| < LIMIT then |encoded| else LIMIT;
    [Chunk(FirstFields(w, h, id, Mark(|encoded| <= LIMIT)), encoded[..first])] + Later(encoded[first..])
  }

  /** All chunks but the last are full and say m=1, that more follow; only the last one says m=0. */
  ghost predicate WellChunked(cs: seq<Command>) {
    && cs != []
    && (forall i | 0 <= i < |cs| - 1 ::
          |cs[i].payload| == 4096 && [109, 61, 49] in Fields(cs[i].control) && [109, 61, 48] !in Fields(cs[i].control))
    && 0 < |cs[|cs| - 1].payload| <= 4096
    && [109, 61, 48] in Fields(cs[|cs| - 1].control) && [109, 61, 49] !in Fields(cs[|cs| - 1].control)
  }

  predicate IsKeyed(field: seq<byte>, key: byte) {
    |field| >= 2 && field[0] == key && field[1] == 61
  }

  /** The control data gives the key this value, and no other. */
  ghost predicate Says(control: seq<byte>, key: byte, value: seq<byte>) {
    var f := Fields(control);
    exists k :: 0 <= k < |f| && f[k] == [key, 61] + value && forall j | 0 <= j < |f| && j != k :: !IsKeyed(f[j], key)
  }

  ghost predicate Omits(control: seq<byte>, key: byte) {
    forall k | 0 <= k < |Fields(control)| :: !IsKeyed(Fields(control)[k], key)
  }

  /** Transmit and display (a=T) 32-bit pixels (f) of this width (s) and height (v), silently (q=2). */
  ghost predicate Announces(control: seq<byte>, w: nat, h: nat, id: nat) {
    && Says(control, 97, [84]) && Says(control, 102, [51, 50])
    && Says(control, 115, Dec(w)) && Says(control, 118, Dec(h)) && Says(control, 105, Dec(id))
    && Says(control, 112, [49]) && Says(control, 113, [50])
  }

  lemma SaysAt(control: seq<byte>, f: seq<seq<byte>>, k: nat, key: byte, value: seq<byte>)
    requires Fields(control) == f && k < |f| && f[k] == [key, 61] + value
    requires forall j | 0 <= j < |f| && j != k :: !IsKeyed(f[j], key)
    ensures Says(control, key, value)
  {
  }

  lemma FirstAnnounces(w: nat, h: nat, id: nat, last: bool, control: seq<byte>)
    requires Fields(control) == FirstFields(w, h, id, Mark(last))
    ensures Announces(control, w, h, id)
  {
    hide Dec, Fields, Says;
    var f := FirstFields(w, h, id, Mark(last));
    assert f[1][0] == 115 && f[2][0] == 118 && f[4][0] == 105;
    SaysAt(control, f, 0, 102, [51, 50]);
    SaysAt(control, f, 1, 115, Dec(w));
    SaysAt(control, f, 2, 118, Dec(h));
    SaysAt(control, f, 3, 97, [84]);
    SaysAt(control, f, 4, 105, Dec(id));
    SaysAt(control, f, 5, 112, [49]);
    SaysAt(control, f, 7, 113, [50]);
  }

  predicate IsText(s: seq<byte>) {
    forall i | 0 <= i < |s| :: 32 < s[i] < 127
  }

  lemma ChunkReads(fields: seq<seq<byte>>, payload: seq<byte>)
    requires fields != [] && AllPlain(fields) && IsText(payload)
    ensures Chunk(fields, payload).payload == payload
    ensures Fields(Chunk(fields, payload).control) == fields && Writable(Chunk(fields, payload))
  {
    FieldsJoin(fields);
    JoinIsWritable(fields);
  }

  lemma FieldsArePlain(w: nat, h: nat, id: nat, last: bool)
    ensures AllPlain(FirstFields(w, h, id, Mark(last))) && AllPlain(LaterFields(Mark(last)))
    ensures Mark(last) in FirstFields(w, h, id, Mark(last)) && Mark(!last) !in FirstFields(w, h, id, Mark(last))
    ensures Mark(last) in LaterFields(Mark(last)) && Mark(!last) !in LaterFields(Mark(last))
  {
    hide Dec;
    var a, b, c := [115, 61] + Dec(w), [118, 61] + Dec(h), [105, 61] + Dec(id);
    assert a[0] == 115 && b[0] == 118 && c[0] == 105;
    assert Plain(a) && Plain(b) && Plain(c);
    var first := FirstFields(w, h, id, Mark(last));
    assert first[6] == Mark(last);
    assert LaterFields(Mark(last))[1] == Mark(last);
  }

  lemma {:induction false} LaterIsChunked(encoded: seq<byte>)
    requires IsText(encoded)
    ensures encoded != [] ==> WellChunked(Later(encoded))
    ensures encoded == [] ==> Later(encoded) == []
    ensures Payloads(Later(encoded)) == encoded
    ensures forall i | 0 <= i < |Later(encoded)| :: Writable(Later(encoded)[i])
    decreases |encoded|
  {
    hide Chunk, Fields, Writable, LaterFields, Plain, AllPlain;
    if 0 < |encoded| <= LIMIT {
      FieldsArePlain(0, 0, 0, true);
      ChunkReads(LaterFields(LAST), encoded);
      assert Later(encoded)[1..] == [];
    } else if encoded != [] {
      FieldsArePlain(0, 0, 0, false);
      ChunkReads(LaterFields(MORE), encoded[..LIMIT]);
      LaterIsChunked(encoded[LIMIT..]);
    }
  }

  /** The receiver puts the encoding together again and knows where it ends. */
  lemma TransmissionIsChunked(w: nat, h: nat, id: nat, encoded: seq<byte>)
    requires IsText(encoded) && encoded != []
    ensures
      var cs := Transmission(w, h, id, encoded);
      && cs != [] && Receive(Serialize(cs)) == cs && WellChunked(cs) && Payloads(cs) == encoded
      && (exists last :: Fields(cs[0].control) == FirstFields(w, h, id, Mark(last)))
  {
    hide Chunk, Fields, Writable, FirstFields, Plain, AllPlain, Later, Receive;
    var first := if |encoded| < LIMIT then |encoded| else LIMIT;
    var last := |encoded| <= LIMIT;
    var cs := Transmission(w, h, id, encoded);
    FieldsArePlain(w, h, id, last);
    ChunkReads(FirstFields(w, h, id, Mark(last)), encoded[..first]);
    LaterIsChunked(encoded[first..]);
    assert cs[1..] == Later(encoded[first..]);
    assert encoded[..first] + encoded[first..] == encoded;
    ReceiveSerialize(cs);
  }

  // ---- A strict terminal ----------------------------------------------------------------

  const EQUALS: byte := 61

  /** A key and a value, neither of them empty. */
  predicate IsPair(field: seq<byte>) {
    0 < Find(field, EQUALS) < |field| - 1
  }

  predicate AllPairs(fields: seq<seq<byte>>) {
    forall i | 0 <= i < |fields| :: IsPair(fields[i])
  }

  /** Control data by the letter of the protocol: comma-separated pairs. */
  predicate WellFormed(c: Command) {
    AllPairs(Fields(c.control))
  }

  predicate AllWellFormed(cs: seq<Command>) {
    forall i | 0 <= i < |cs| :: WellFormed(cs[i])
  }

  /** The well-formed commands. */
  function Kept(cs: seq<Command>): seq<Command> {
    if cs == [] then [] else (if WellFormed(cs[0]) then [cs[0]] else []) + Kept(cs[1..])
  }

  function ReceiveStrictly(s: seq<byte>): seq<Command> { Kept(Receive(s)) }

  lemma PairIs(key: seq<byte>, value: seq<byte>)
    requires key != [] && value != [] && forall i | 0 <= i < |key| :: key[i] != EQUALS
    ensures IsPair(key + [EQUALS] + value)
  {
    FindConcat(key, EQUALS, value);
  }

  lemma FirstIsWellFormed(w: nat, h: nat, id: nat, last: bool, payload: seq<byte>)
    requires IsText(payload)
    ensures WellFormed(Chunk(FirstFields(w, h, id, Mark(last)), payload))
  {
    hide Dec, IsPair, Fields, Chunk;
    var f := FirstFields(w, h, id, Mark(last));
    PairIs([102], [51, 50]);
    PairIs([115], Dec(w));
    PairIs([118], Dec(h));
    PairIs([97], [84]);
    PairIs([105], Dec(id));
    PairIs([112], [49]);
    PairIs([109], if last then [48] else [49]);
    PairIs([113], [50]);
    assert f[0] == [102] + [EQUALS] + [51, 50] && f[1] == [115] + [EQUALS] + Dec(w) &&
      f[2] == [118] + [EQUALS] + Dec(h);
    assert f[3] == [97] + [EQUALS] + [84] && f[4] == [105] + [EQUALS] + Dec(id) && f[5] == [112] + [EQUALS] + [49];
    assert f[6] == [109] + [EQUALS] + (if last then [48] else [49]) && f[7] == [113] + [EQUALS] + [50];
    FieldsArePlain(w, h, id, last);
    ChunkReads(f, payload);
  }

  /** The field in front of the leading comma is empty. */
  lemma LaterIsMalformed(last: bool, payload: seq<byte>)
    requires IsText(payload)
    ensures !WellFormed(Chunk(LaterFields(Mark(last)), payload))
  {
    hide Fields, Chunk;
    FieldsArePlain(0, 0, 0, last);
    ChunkReads(LaterFields(Mark(last)), payload);
    assert LaterFields(Mark(last))[0] == [];
    assert !IsPair([]);
  }

  lemma {:induction false} LaterIsLost(encoded: seq<byte>)
    requires IsText(encoded)
    ensures Kept(Later(encoded)) == []
    ensures encoded != [] ==> Later(encoded) != [] && !WellFormed(Later(encoded)[0])
    decreases |encoded|
  {
    hide WellFormed, Chunk, LaterFields;
    if 0 < |encoded| <= LIMIT {
      LaterIsMalformed(true, encoded);
      assert Later(encoded)[1..] == [];
    } else if encoded != [] {
      LaterIsMalformed(false, encoded[..LIMIT]);
      LaterIsLost(encoded[LIMIT..]);
    }
  }

  /** Of the commands of a transmission a strict terminal keeps the first one. */
  lemma StrictlyKept(w: nat, h: nat, id: nat, encoded: seq<byte>)
    requires encoded != [] && IsText(encoded)
    ensures
      var cs := Transmission(w, h, id, encoded);
      && (AllWellFormed(cs) <==> |encoded| <= LIMIT)
      && Kept(cs) == cs[..1]
      && (WellChunked(Kept(cs)) <==> |encoded| <= LIMIT)
      && Payloads(Kept(cs)) == if |encoded| <= LIMIT then encoded else encoded[..LIMIT]
  {
    hide Chunk, WellFormed, FirstFields, Later, Fields;
    var cs := Transmission(w, h, id, encoded);
    var last := |encoded| <= LIMIT;
    var first := if last then |encoded| else LIMIT;
    FirstIsWellFormed(w, h, id, last, encoded[..first]);
    LaterIsLost(encoded[first..]);
    assert cs[1..] == Later(encoded[first..]);
    FieldsArePlain(w, h, id, last);
    ChunkReads(FirstFields(w, h, id, Mark(last)), encoded[..first]);
    LaterIsChunked(encoded[first..]);
    assert cs[..1] == [cs[0]] && [cs[0]][1..] == [];
    assert encoded[..|encoded|] == encoded;
    assert !last ==> cs[1] == Later(encoded[first..])[0];
  }

  /** How much fits the first chunk: 3072 bytes make 4096 letters. */
  const FIRST_BYTES := LIMIT / 4 * 3

  /** The first chunk carries the first 3072 bytes. */
  lemma FirstPayload(data: seq<byte>)
    requires data != []
    ensures
      var encoded := Base64.Encode(data);
      && encoded != [] && IsText(encoded)
      && (|encoded| <= LIMIT <==> |data| <= FIRST_BYTES)
      && (if |encoded| <= LIMIT then encoded else encoded[..LIMIT]) ==
           Base64.Encode(if |data| <= FIRST_BYTES then data else data[..FIRST_BYTES])
  {
    hide Base64.Encode;
    Base64.EncodedLength(data);
    Base64.EncodedIsText(data);
    if |data| > FIRST_BYTES {
      Base64.PrefixEncodes(data, LIMIT / 4);
    }
  }

  /**
    Every command is well formed if and only if there is only one, that is, if and only if the
    image has at most 3072 bytes.  Of a larger one a strict terminal gets the first 3072 bytes and
    no end.
   */
  lemma StrictlyReceived(w: nat, h: nat, id: nat, data: seq<byte>)
    requires data != []
    ensures
      var cs := Transmission(w, h, id, Base64.Encode(data));
      var strict := ReceiveStrictly(Serialize(cs));
      && (AllWellFormed(cs) <==> |data| <= FIRST_BYTES)
      && (WellChunked(strict) <==> |data| <= FIRST_BYTES)
      && Base64.Decode(Payloads(strict)) == Base64.Ok(if |data| <= FIRST_BYTES then data else data[..FIRST_BYTES])
  {
    hide Base64.Encode, Base64.Decode, IsText, Serialize, Receive, Transmission, WellChunked, Payloads, WellFormed;
    FirstPayload(data);
    var encoded := Base64.Encode(data);
    var cs := Transmission(w, h, id, encoded);
    StrictlyKept(w, h, id, encoded);
    TransmissionIsChunked(w, h, id, encoded);
    Base64.RoundTrip(if |data| <= FIRST_BYTES then data else data[..FIRST_BYTES]);
  }

  /** One column of 769 pixels is one pixel too many. */
  lemma StrictLosesPixels(id: nat) returns (image: Image)
    ensures Valid(image) && image.width == 1 && image.height == 769
    ensures
      var cs := Transmission(image.width, image.height, id, Base64.Encode(image.rgba));
      && !AllWellFormed(cs)
      && Base64.Decode(Payloads(ReceiveStrictly(Serialize(cs)))) == Base64.Ok(image.rgba[..3072])
  {
    hide Transmission, AllWellFormed, ReceiveStrictly, Serialize, Payloads, Base64.Encode, Base64.Decode;
    image := Image(1, 769, seq(3076, _ => 0));
    StrictlyReceived(1, 769, id, image.rgba);
  }

  // ---- The loop ---------------------------------------------------------------------

  datatype Box = Box(columns: int32, rows: int32)

  /** The placement of an image that the terminal has already got; ESC _ G a=p,i=id,p=1[,c=columns,r=rows] ESC \ */
  function Placement(id: nat, box: Box): seq<byte> {
    [ESC, 95, 71, 97, 61, 112, 44, 105, 61] + Dec(id) + [44, 112, 61, 49] +
    (if box.columns > 0 && box.rows > 0 then [44, 99, 61] + Dec(box.columns) + [44, 114, 61] + Dec(box.rows) else []) +
    [ESC, 92]
  }

  /** Show (a=p) the image in a box of cells (c, r), or in its own size if the box has none. */
  ghost predicate Places(control: seq<byte>, id: nat, box: Box) {
    && Says(control, 97, [112]) && Says(control, 105, Dec(id)) && Says(control, 112, [49])
    && if box.columns > 0 && box.rows > 0 then
         Says(control, 99, Dec(box.columns)) && Says(control, 114, Dec(box.rows))
       else Omits(control, 99) && Omits(control, 114)
  }

  /** ESC _ G control ESC \, a command without payload. */
  predicate IsBare(s: seq<byte>, control: seq<byte>) {
    s == [ESC, 95, 71] + control + [ESC, 92] && ESC !in control && SEMICOLON !in control
  }

  function PlacementFields(id: nat, box: Box): seq<seq<byte>> {
    [[97, 61, 112], [105, 61] + Dec(id), [112, 61, 49]] +
    if box.columns > 0 && box.rows > 0 then [[99, 61] + Dec(box.columns), [114, 61] + Dec(box.rows)] else []
  }

  lemma JoinFirst(a: seq<byte>, rest: seq<seq<byte>>)
    requires rest != []
    ensures Join([a] + rest) == a + [COMMA] + Join(rest)
  {
    assert ([a] + rest)[1..] == rest;
  }

  lemma JoinThree(a: seq<byte>, b: seq<byte>, c: seq<byte>)
    ensures Join([a, b, c]) == a + [COMMA] + b + [COMMA] + c
  {
    hide Join;
    assert [a, b, c] == [a] + [b, c] && [b, c] == [b] + [c];
    JoinFirst(a, [b, c]);
    JoinFirst(b, [c]);
    JoinLast(c);
  }

  lemma JoinLast(a: seq<byte>)
    ensures Join([a]) == a
  {
  }

  lemma JoinFive(a: seq<byte>, b: seq<byte>, c: seq<byte>, d: seq<byte>, e: seq<byte>)
    ensures Join([a, b, c, d, e]) == a + [COMMA] + b + [COMMA] + c + [COMMA] + d + [COMMA] + e
  {
    hide Join;
    assert [a, b, c, d, e] == [a] + [b, c, d, e] && [b, c, d, e] == [b] + [c, d, e];
    JoinFirst(a, [b, c, d, e]);
    JoinFirst(b, [c, d, e]);
    JoinThree(c, d, e);
  }

  lemma SmallPlacement(i: seq<byte>)
    ensures [ESC, 95, 71, 97, 61, 112, 44, 105, 61] + i + [44, 112, 61, 49] + [] + [ESC, 92] ==
      [ESC, 95, 71] + ([97, 61, 112] + [COMMA] + ([105, 61] + i) + [COMMA] + [112, 61, 49]) + [ESC, 92]
  {
  }

  lemma BoxedPlacement(front: seq<byte>, c: seq<byte>, r: seq<byte>, end: seq<byte>)
    ensures front + ([44, 99, 61] + c + [44, 114, 61] + r) + end ==
      front + [COMMA] + ([99, 61] + c) + [COMMA] + ([114, 61] + r) + end
  {
  }

  lemma PlacementIsJoined(id: nat, box: Box)
    ensures Placement(id, box) == [ESC, 95, 71] + Join(PlacementFields(id, box)) + [ESC, 92]
  {
    hide Join, Dec;
    var i := Dec(id);
    var a, b, c := [97, 61, 112], [105, 61] + i, [112, 61, 49];
    SmallPlacement(i);
    if box.columns > 0 && box.rows > 0 {
      var d, e := [99, 61] + Dec(box.columns), [114, 61] + Dec(box.rows);
      assert PlacementFields(id, box) == [a, b, c, d, e];
      JoinFive(a, b, c, d, e);
      BoxedPlacement([ESC, 95, 71, 97, 61, 112, 44, 105, 61] + i + [44, 112, 61, 49], Dec(box.columns), Dec(box.rows),
                     [ESC, 92]);
    } else {
      assert PlacementFields(id, box) == [a, b, c];
      JoinThree(a, b, c);
    }
  }

  /** What a terminal reads in a placement. */
  lemma PlacementReads(id: nat, box: Box)
    ensures exists control :: IsBare(Placement(id, box), control) && Places(control, id, box)
  {
    hide Dec, Join, Fields, Says;
    PlacementIsJoined(id, box);
    var f := PlacementFields(id, box);
    var control := Join(f);
    assert f[1][0] == 105;
    if |f| > 3 {
      assert f[3][0] == 99 && f[4][0] == 114;
    }
    assert AllPlain(f);
    FieldsJoin(f);
    JoinIsWritable(f);
    SaysAt(control, f, 0, 97, [112]);
    SaysAt(control, f, 1, 105, Dec(id));
    SaysAt(control, f, 2, 112, [49]);
    if |f| > 3 {
      SaysAt(control, f, 3, 99, Dec(box.columns));
      SaysAt(control, f, 4, 114, Dec(box.rows));
    }
    assert IsBare(Placement(id, box), control);
  }

  /** Join, as the output grows: fields[i..] appended to out. */
  function JoinTo(out: seq<byte>, fields: seq<seq<byte>>, i: nat): seq<byte>
    requires i < |fields|
    decreases |fields| - i
  {
    if i == |fields| - 1 then out + fields[i] else JoinTo(out + fields[i] + [COMMA], fields, i + 1)
  }

  lemma {:induction false} JoinToIsJoin(out: seq<byte>, fields: seq<seq<byte>>, i: nat)
    requires i < |fields|
    ensures JoinTo(out, fields, i) == out + Join(fields[i..])
    decreases |fields| - i
  {
    if i == |fields| - 1 {
      assert fields[i..] == [fields[i]];
    } else {
      var next := out + fields[i] + [COMMA];
      JoinToIsJoin(next, fields, i + 1);
      assert fields[i..][1..] == fields[i + 1..];
      assert next + Join(fields[i + 1..]) == out + (fields[i] + [COMMA] + Join(fields[i + 1..]));
    }
  }

  lemma NextField(out: seq<byte>, key: byte, value: seq<byte>)
    ensures out + [44, key, 61] + value == out + [COMMA] + ([key, 61] + value)
  {
  }

  /** What the loop writes for the control string of the first chunk, piece by piece. */
  lemma FirstIsWritten(out: seq<byte>, w: nat, h: nat, id: nat, last: bool)
    ensures out + Join(FirstFields(w, h, id, Mark(last))) ==
      out + [102, 61, 51, 50, 44, 115, 61] + Dec(w) + [44, 118, 61] + Dec(h) + [44, 97, 61] + [84] +
      [44, 105, 61] + Dec(id) +
      [44, 112, 61, 49] + [44, 109, 61] + [if last then 48 else 49] + [44, 113, 61, 50]
  {
    hide Dec, Join;
    var f := FirstFields(w, h, id, Mark(last));
    var o0 := out + f[0];
    var o1 := o0 + [COMMA] + f[1];
    var o2 := o1 + [COMMA] + f[2];
    var o3 := o2 + [COMMA] + f[3];
    var o4 := o3 + [COMMA] + f[4];
    var o5 := o4 + [COMMA] + f[5];
    var o6 := o5 + [COMMA] + f[6];
    var o7 := o6 + [COMMA] + f[7];
    assert f[0..] == f;
    JoinToIsJoin(out, f, 0);
    assert JoinTo(out, f, 0) == JoinTo(o0 + [COMMA], f, 1);
    assert JoinTo(o0 + [COMMA], f, 1) == JoinTo(o1 + [COMMA], f, 2);
    assert JoinTo(o1 + [COMMA], f, 2) == JoinTo(o2 + [COMMA], f, 3);
    assert JoinTo(o2 + [COMMA], f, 3) == JoinTo(o3 + [COMMA], f, 4);
    assert JoinTo(o3 + [COMMA], f, 4) == JoinTo(o4 + [COMMA], f, 5);
    assert JoinTo(o4 + [COMMA], f, 5) == JoinTo(o5 + [COMMA], f, 6);
    assert JoinTo(o5 + [COMMA], f, 6) == JoinTo(o6 + [COMMA], f, 7) == o7;
    hide JoinTo;
    var p1 := out + [102, 61, 51, 50, 44, 115, 61] + Dec(w);
    var p2 := p1 + [44, 118, 61] + Dec(h);
    var p3 := p2 + [44, 97, 61] + [84];
    var p4 := p3 + [44, 105, 61] + Dec(id);
    var p5 := p4 + [44, 112, 61, 49];
    var p6 := p5 + [44, 109, 61] + [if last then 48 else 49];
    assert p1 == o1;
    NextField(o1, 118, Dec(h));
    NextField(o2, 97, [84]);
    NextField(o3, 105, Dec(id));
    assert p2 == o2 && p3 == o3 && p4 == o4;
    assert p5 == o5;
    assert p6 == o6;
  }

  lemma LaterIsWritten(out: seq<byte>, last: bool)
    ensures out + Join(LaterFields(Mark(last))) == out + [44, 109, 61] + [if last then 48 else 49]
  {
    assert LaterFields(Mark(last))[1..] == [Mark(last)];
  }

  /** What is still to be sent at an offset. */
  function Remaining(w: nat, h: nat, id: nat, encoded: seq<byte>, offset: nat): seq<Command>
    requires offset <= |encoded|
  {
    if offset == 0 then Transmission(w, h, id, encoded) else Later(encoded[offset..])
  }

  lemma NothingRemains(w: nat, h: nat, id: nat, encoded: seq<byte>)
    requires encoded != []
    ensures Serialize(Remaining(w, h, id, encoded, |encoded|)) == []
  {
  }

  /** The next chunk, and what remains after it. */
  lemma ChunkIsNext(w: nat, h: nat, id: nat, encoded: seq<byte>, offset: nat, length: nat)
    requires offset < |encoded| && length == if |encoded| - offset < LIMIT then |encoded| - offset else LIMIT
    ensures
      var last := offset + length == |encoded|;
      var fields := if offset == 0 then FirstFields(w, h, id, Mark(last)) else LaterFields(Mark(last));
      Remaining(w, h, id, encoded, offset) ==
        [Chunk(fields, encoded[offset..offset + length])] + Remaining(w, h, id, encoded, offset + length)
  {
    hide FirstFields, LaterFields, Chunk;
    var end := offset + length;
    assert end == |encoded| ==> encoded[end..] == [] && Later(encoded[end..]) == [];
    if offset > 0 {
      assert end == |encoded| ==> encoded[offset..] == encoded[offset..end];
      assert encoded[offset..][..length] == encoded[offset..offset + length];
      assert encoded[offset..][length..] == encoded[offset + length..];
    } else {
      assert encoded[..length] == encoded[0..length];
    }
  }

  /** The control string: only the first chunk says what it transmits. */
  method AppendControl(out: seq<byte>, w: nat, h: nat, id: nat, first: bool, last: bool) returns (result: seq<byte>)
    requires w < 0x8000_0000 && h < 0x8000_0000 && id < 0x1_0000_0000
    ensures FirstFields(w, h, id, Mark(last)) != [] && LaterFields(Mark(last)) != []
    ensures result == out + if first then Join(FirstFields(w, h, id, Mark(last))) else Join(LaterFields(Mark(last)))
  {
    hide Join, Dec;
    result := out;
    if first {
      result := result + [102, 61, 51, 50, 44, 115, 61];
      result := AppendNumber(result, w);
      result := result + [44, 118, 61];
      result := AppendNumber(result, h);
      result := result + [44, 97, 61] + [84] + [44, 105, 61];
      result := AppendNumber(result, id);
      result := result + [44, 112, 61, 49];
    }
    result := result + [44, 109, 61];
    result := result + [if last then 48 else 49];
    if first {
      result := result + [44, 113, 61, 50];
      FirstIsWritten(out, w, h, id, last);
    } else {
      LaterIsWritten(out, last);
    }
  }

  /** One turn of the loop. */
  method AppendChunk(out: seq<byte>, w: nat, h: nat, id: nat, encoded: seq<byte>, offset: nat, first: bool)
    returns (result: seq<byte>, next: nat)
    requires w < 0x8000_0000 && h < 0x8000_0000 && id < 0x1_0000_0000 && offset < |encoded| && first == (offset == 0)
    ensures offset < next <= |encoded|
    ensures result + Serialize(Remaining(w, h, id, encoded, next)) ==
      out + Serialize(Remaining(w, h, id, encoded, offset))
  {
    hide Serialize, FirstFields, LaterFields, Join, Remaining, Chunk, Mark;
    var remaining := |encoded| - offset;
    var length := if remaining < LIMIT then remaining else LIMIT;
    var last := offset + length == |encoded|;
    next := offset + length;
    result := out + [ESC, 95, 71];
    result := AppendControl(result, w, h, id, first, last);
    result := result + [59];
    result := result + encoded[offset..next];
    result := result + [ESC, 92];
    ghost var fields := if first then FirstFields(w, h, id, Mark(last)) else LaterFields(Mark(last));
    ChunkIsNext(w, h, id, encoded, offset, length);
    ChunkIsWritten(out, fields, encoded[offset..next], result, Remaining(w, h, id, encoded, next));
  }

  method Transmit(w: nat, h: nat, id: nat, encoded: seq<byte>) returns (result: seq<byte>)
    requires w < 0x8000_0000 && h < 0x8000_0000 && id < 0x1_0000_0000 && encoded != []
    ensures result == Serialize(Transmission(w, h, id, encoded))
  {
    hide Transmission, Serialize, Remaining;
    result := [];
    var offset := 0;
    var first := true;
    AllRemains(w, h, id, encoded);
    while offset < |encoded|
      invariant 0 <= offset <= |encoded| && first == (offset == 0)
      invariant result + Serialize(Remaining(w, h, id, encoded, offset)) == Serialize(Transmission(w, h, id, encoded))
      decreases |encoded| - offset
    {
      result, offset := AppendChunk(result, w, h, id, encoded, offset, first);
      first := false;
    }
    NothingRemains(w, h, id, encoded);
  }

  lemma AllRemains(w: nat, h: nat, id: nat, encoded: seq<byte>)
    ensures Remaining(w, h, id, encoded, 0) == Transmission(w, h, id, encoded)
  {
    hide Transmission;
  }

  lemma ChunkIsWritten(before: seq<byte>, fields: seq<seq<byte>>, payload: seq<byte>, after: seq<byte>,
                       rest: seq<Command>)
    requires fields != [] && after == before + [ESC, 95, 71] + Join(fields) + [59] + payload + [ESC, 92]
    ensures before + Serialize([Chunk(fields, payload)] + rest) == after + Serialize(rest)
  {
    hide Join;
    var c := Chunk(fields, payload);
    assert ([c] + rest)[1..] == rest;
    assert before + Encode(c) == after;
    assert before + (Encode(c) + Serialize(rest)) == before + Encode(c) + Serialize(rest);
  }

  method AppendPlacement(out: seq<byte>, id: nat, box: Box) returns (result: seq<byte>)
    requires id < 0x1_0000_0000
    ensures result == out + Placement(id, box)
  {
    hide Dec;
    result := out + [ESC, 95, 71, 97, 61, 112, 44, 105, 61];
    result := AppendNumber(result, id);
    result := result + [44, 112, 61, 49];
    if box.columns > 0 && box.rows > 0 {
      result := result + [44, 99, 61];
      result := AppendNumber(result, box.columns);
      result := result + [44, 114, 61];
      result := AppendNumber(result, box.rows);
    }
    result := result + [ESC, 92];
  }

  /** What terminals get of a transmission: a lenient one everything, a strict one what fits one chunk. */
  ghost predicate Transmitted(image: Image, id: nat, s: seq<byte>)
    requires Valid(image)
  {
    var cs, strict := Receive(s), ReceiveStrictly(s);
    && cs != [] && WellChunked(cs) && Announces(cs[0].control, image.width, image.height, id)
    && Payloads(cs) == Base64.Encode(image.rgba) && Base64.Decode(Payloads(cs)) == Base64.Ok(image.rgba)
    && (AllWellFormed(cs) <==> |image.rgba| <= 3072)
    && (WellChunked(strict) <==> |image.rgba| <= 3072)
    && (Base64.Decode(Payloads(strict)) == Base64.Ok(image.rgba) <==> |image.rgba| <= 3072)
  }

  lemma IsTransmitted(image: Image, id: nat)
    requires Valid(image)
    ensures Transmitted(image, id, Serialize(Transmission(image.width, image.height, id, Base64.Encode(image.rgba))))
  {
    hide Receive, ReceiveStrictly, AllWellFormed, WellChunked, Payloads, Fields, FirstFields, Transmission, Announces;
    hide Serialize, Base64.Encode, Base64.Decode;
    var encoded := Base64.Encode(image.rgba);
    var cs := Transmission(image.width, image.height, id, encoded);
    EncodedIsNotEmpty(image);
    Base64.EncodedIsText(image.rgba);
    Base64.RoundTrip(image.rgba);
    TransmissionIsChunked(image.width, image.height, id, encoded);
    var mark: bool :| Fields(cs[0].control) == FirstFields(image.width, image.height, id, Mark(mark));
    FirstAnnounces(image.width, image.height, id, mark, cs[0].control);
    StrictlyReceived(image.width, image.height, id, image.rgba);
  }

  /**
    An invalid image gives nothing.  A placement names the image and the box.  Transmitted, the control
    data describes the image, the payloads make up the base64 of the pixels, decode to them, and only
    the last chunk says that it is the last.  A terminal that takes only well-formed control data gets
    the whole image if and only if it fits one chunk.
   */
  method EncodeKitty(image: Image, box: Box, id: nat, transmit: bool) returns (result: seq<byte>)
    requires id < 0x1_0000_0000
    ensures !Valid(image) ==> result == []
    ensures Valid(image) && !transmit ==> exists control :: IsBare(result, control) && Places(control, id, box)
    ensures Valid(image) && transmit ==> Transmitted(image, id, result)
  {
    hide Serialize, Transmission, Placement, IsBare, Places, Transmitted;
    result := [];
    if !Valid(image) {
      return;
    }
    if !transmit {
      result := AppendPlacement(result, id, box);
      assert result == Placement(id, box);
      PlacementReads(id, box);
      return;
    }
    var encoded := Base64.EncodeBase64(image.rgba);
    EncodedIsNotEmpty(image);
    result := Transmit(image.width, image.height, id, encoded);
    IsTransmitted(image, id);
  }

  lemma EncodedIsNotEmpty(image: Image)
    requires Valid(image)
    ensures Base64.Encode(image.rgba) != []
  {
    PixelCount(image);
    Base64.EncodedLength(image.rgba);
    assert image.width * image.height >= 1;
  }
}
