/** The binary request and response format. */
module Protocol {
  import opened Bytes
  import opened Identifiers
  import HashBytes

  const WORD: nat := 0x1_0000_0000

  /** Opcodes and statuses are single bytes; decoding casts any byte to the enumeration. */
  datatype Request = Request(opcode: Byte, key: seq<Byte>, value: seq<Byte>)
  datatype Response = Response(status: Byte, value: seq<Byte>)

  // ---------------------------------------------------------------- words

  /** `(v >> 8 * places) & 0xFF` */
  function ByteOf(v: nat, places: nat): (b: nat)
    ensures b < 256
  {
    if places == 0 then v % 256 else ByteOf(v / 256, places - 1)
  }

  function Word(v: nat): (b: seq<Byte>)
    ensures |b| == 4
  {
    [ByteOf(v, 3), ByteOf(v, 2), ByteOf(v, 1), ByteOf(v, 0)]
  }

  function Join(b3: Byte, b2: Byte, b1: Byte, b0: Byte): (v: nat)
    ensures v < WORD
  {
    b3 * 0x100_0000 + b2 * 0x1_0000 + b1 * 0x100 + b0
  }

  function ReadWord(b: seq<Byte>, offset: nat): (v: nat)
    requires offset + 4 <= |b|
    ensures v < WORD
  {
    Join(b[offset], b[offset + 1], b[offset + 2], b[offset + 3])
  }

  lemma BytesOf(v: nat)
    ensures ByteOf(v, 0) == v % 256
    ensures ByteOf(v, 1) == v / 256 % 256
    ensures ByteOf(v, 2) == v / 256 / 256 % 256
    ensures ByteOf(v, 3) == v / 256 / 256 / 256 % 256
  {
    assert ByteOf(v, 3) == ByteOf(v / 256, 2) == ByteOf(v / 256 / 256, 1) == ByteOf(v / 256 / 256 / 256, 0);
  }

  lemma WordRoundTrip(v: nat)
    requires v < WORD
    ensures ReadWord(Word(v), 0) == v
  {
    BytesOf(v);
    var v1 := v / 256;
    var v2 := v1 / 256;
    var v3 := v2 / 256;
    assert v3 < 256;
    assert v == 256 * v1 + v % 256 && v1 == 256 * v2 + v1 % 256 && v2 == 256 * v3 + v2 % 256;
  }

  lemma ReadWordInverse(b: seq<Byte>, offset: nat)
    requires offset + 4 <= |b|
    ensures Word(ReadWord(b, offset)) == b[offset..offset + 4]
  {
    var b3: nat, b2: nat, b1: nat, b0: nat := b[offset], b[offset + 1], b[offset + 2], b[offset + 3];
    var v2: nat := 256 * b3 + b2;
    var v1: nat := 256 * v2 + b1;
    var v: nat := 256 * v1 + b0;
    assert v == ReadWord(b, offset);
    BytesOf(v);
    Digit(v1, b0);
    Digit(v2, b1);
    Digit(b3, b2);
  }

  lemma Digit(q: nat, r: Byte)
    ensures (256 * q + r) / 256 == q && (256 * q + r) % 256 == r
  {
  }

  /** Words travel most significant byte first, like identifiers. */
  lemma ReadWordIsValue(b: seq<Byte>, offset: nat)
    requires offset + 4 <= |b|
    ensures ReadWord(b, offset) == HashBytes.Value(b[offset..offset + 4])
  {
    var w := b[offset..offset + 4];
    assert w[..3][..2] == w[..2] && w[..2][..1] == w[..1] && w[..1][..0] == [];
    assert HashBytes.Value(w[..1]) == w[0];
    assert HashBytes.Value(w[..2]) == 256 * HashBytes.Value(w[..1]) + w[1];
    assert HashBytes.Value(w[..3]) == 256 * HashBytes.Value(w[..2]) + w[2];
    assert w[..4] == w;
  }

  lemma WordIsBigEndian(v: nat)
    requires v < WORD
    ensures HashBytes.Value(Word(v)) == v
  {
    WordRoundTrip(v);
    ReadWordIsValue(Word(v), 0);
    assert Word(v)[0..4] == Word(v);
  }

  // ---------------------------------------------------------------- encoding

  /** Lengths are cast to 32 bits. */
  function EncodedRequest(r: Request): seq<Byte> {
    [r.opcode] + Word(|r.key| % WORD) + r.key + Word(|r.value| % WORD) + r.value
  }

  function EncodedResponse(r: Response): seq<Byte> {
    [r.status] + Word(|r.value| % WORD) + r.value
  }

  /** Opcode, key length, key, value length, value; lengths modulo 2^32, most significant
      byte first. */
  ghost predicate LaysOutRequest(e: seq<Byte>, r: Request) {
    var k, v := |r.key|, |r.value|;
    && |e| == 9 + k + v && e[0] == r.opcode
    && HashBytes.Value(e[1..5]) == k % 0x1_0000_0000 && e[5..5 + k] == r.key
    && HashBytes.Value(e[5 + k..9 + k]) == v % 0x1_0000_0000 && e[9 + k..] == r.value
  }

  /** Status, value length, value. */
  ghost predicate LaysOutResponse(e: seq<Byte>, r: Response) {
    var v := |r.value|;
    |e| == 5 + v && e[0] == r.status && HashBytes.Value(e[1..5]) == v % 0x1_0000_0000 && e[5..] == r.value
  }

  lemma EncodingLaysOut(r: Request)
    ensures LaysOutRequest(EncodedRequest(r), r)
  {
    hide ByteOf;
    var k, v, e := |r.key|, |r.value|, EncodedRequest(r);
    WordIsBigEndian(k % WORD);
    WordIsBigEndian(v % WORD);
    hide Word, HashBytes.Value;
    assert e[1..5] == Word(k % WORD);
    assert e[5..5 + k] == r.key;
    assert e[5 + k..9 + k] == Word(v % WORD);
    assert e[9 + k..] == r.value;
  }

  lemma ResponseLaysOut(r: Response)
    ensures LaysOutResponse(EncodedResponse(r), r)
  {
    hide ByteOf;
    var v, e := |r.value|, EncodedResponse(r);
    WordIsBigEndian(v % WORD);
    hide Word, HashBytes.Value;
    assert e[1..5] == Word(v % WORD);
    assert e[5..] == r.value;
  }

  method WriteUint32(buffer: seq<Byte>, value: nat) returns (grown: seq<Byte>)
    requires value < WORD
    ensures grown == buffer + Word(value)
    ensures |grown| == |buffer| + 4 && HashBytes.Value(grown[|buffer|..]) == value
  {
    WordIsBigEndian(value);
    grown := buffer + [ByteOf(value, 3)];
    grown := grown + [ByteOf(value, 2)];
    grown := grown + [ByteOf(value, 1)];
    grown := grown + [ByteOf(value, 0)];
    assert grown[|buffer|..] == Word(value);
  }

  method EncodeRequest(r: Request) returns (buffer: seq<Byte>)
    ensures buffer == EncodedRequest(r)
    ensures LaysOutRequest(buffer, r)
  {
    EncodingLaysOut(r);
    buffer := [r.opcode];
    buffer := WriteUint32(buffer, |r.key| % WORD);
    buffer := buffer + r.key;
    buffer := WriteUint32(buffer, |r.value| % WORD);
    buffer := buffer + r.value;
  }

  method EncodeResponse(r: Response) returns (buffer: seq<Byte>)
    ensures buffer == EncodedResponse(r)
    ensures LaysOutResponse(buffer, r)
  {
    ResponseLaysOut(r);
    buffer := [r.status];
    buffer := WriteUint32(buffer, |r.value| % WORD);
    buffer := buffer + r.value;
  }

  // ---------------------------------------------------------------- decoding

  /** The reader of a 32-bit word: None if fewer than four bytes are left. */
  method ReadUint32(data: seq<Byte>, offset: nat) returns (value: Option<nat>, next: nat)
    ensures offset + 4 <= |data| ==> value == Some(ReadWord(data, offset)) && next == offset + 4
    ensures offset + 4 <= |data| ==> value == Some(HashBytes.Value(data[offset..offset + 4]))
    ensures offset + 4 > |data| ==> value == None && next == offset
  {
    if offset + 4 > |data| {
      return None, offset;
    }
    ReadWordIsValue(data, offset);
    value := Some(Join(data[offset], data[offset + 1], data[offset + 2], data[offset + 3]));
    next := offset + 4;
  }

  predicate Fits(r: Request) { |r.key| < WORD && |r.value| < WORD }

  /** What decoding means: `data` starts with the encoding of `r`. */
  ghost predicate StartsWithRequest(data: seq<Byte>, r: Request) {
    Fits(r) && EncodedRequest(r) <= data
  }

  ghost predicate StartsWithResponse(data: seq<Byte>, r: Response) {
    |r.value| < WORD && EncodedResponse(r) <= data
  }

  /** The request encoded at the start of `data`, if there is one. */
  ghost function DecodedRequest(data: seq<Byte>): Option<Request> {
    if exists q :: StartsWithRequest(data, q) then var q :| StartsWithRequest(data, q); Some(q) else None
  }

  ghost function DecodedResponse(data: seq<Byte>): Option<Response> {
    if exists q :: StartsWithResponse(data, q) then var q :| StartsWithResponse(data, q); Some(q) else None
  }

  /** Decoding accepts exactly the byte strings that start with an encoding, and returns
      the message encoded there. */
  method DecodeRequest(data: seq<Byte>) returns (r: Option<Request>)
    ensures r == DecodedRequest(data)
  {
    forall q | StartsWithRequest(data, q)
      ensures RequestShape(data, q)
    {
      RequestLayout(data, q);
    }
    var offset := 0;
    if offset >= |data| {
      return None;
    }
    var opcode := data[offset];
    offset := offset + 1;
    var keyLen: Option<nat>;
    keyLen, offset := ReadUint32(data, offset);
    if keyLen.None? || offset + keyLen.value > |data| {
      return None;
    }
    var key := data[offset..offset + keyLen.value];
    offset := offset + keyLen.value;
    var valueLen: Option<nat>;
    valueLen, offset := ReadUint32(data, offset);
    if valueLen.None? || offset + valueLen.value > |data| {
      return None;
    }
    var request := Request(opcode, key, data[offset..offset + valueLen.value]);
    RequestLayout(data, request);
    RequestUnique(data, DecodedRequest(data).value, request);
    return Some(request);
  }

  /** Where the parts of a request lie. */
  ghost predicate RequestShape(data: seq<Byte>, r: Request) {
    var k := |r.key|;
    var v := |r.value|;
    && 9 + k + v <= |data|
    && data[0] == r.opcode && ReadWord(data, 1) == k && data[5..5 + k] == r.key
    && ReadWord(data, 5 + k) == v && data[9 + k..9 + k + v] == r.value
  }

  lemma RequestLayout(data: seq<Byte>, r: Request)
    ensures StartsWithRequest(data, r) <==> RequestShape(data, r)
  {
    if StartsWithRequest(data, r) { StartHasShape(data, r); }
    if RequestShape(data, r) { ShapeIsStart(data, r); }
  }

  lemma StartHasShape(data: seq<Byte>, r: Request)
    requires StartsWithRequest(data, r)
    ensures RequestShape(data, r)
  {
    hide ByteOf, ReadWord;
    var k, v, e := |r.key|, |r.value|, EncodedRequest(r);
    assert |e| == 9 + k + v;
    assert e == [r.opcode] + (Word(k) + r.key + Word(v) + r.value);
    Slices(data, e, 1, 5, Word(k));
    Slices(data, e, 5, 5 + k, r.key);
    Slices(data, e, 5 + k, 9 + k, Word(v));
    Slices(data, e, 9 + k, 9 + k + v, r.value);
    WordRead(data, 1, k);
    WordRead(data, 5 + k, v);
  }

  lemma Slices(data: seq<Byte>, e: seq<Byte>, i: nat, j: nat, part: seq<Byte>)
    requires e <= data && i <= j <= |e| && e[i..j] == part
    ensures data[i..j] == part
  {
    assert data[i..j] == e[i..j];
  }

  lemma WordRead(data: seq<Byte>, offset: nat, v: nat)
    requires v < WORD && offset + 4 <= |data| && data[offset..offset + 4] == Word(v)
    ensures ReadWord(data, offset) == v
  {
    hide ByteOf;
    WordRoundTrip(v);
    var w := data[offset..offset + 4];
    assert w[0] == data[offset] && w[1] == data[offset + 1] && w[2] == data[offset + 2] && w[3] == data[offset + 3];
  }

  lemma ShapeIsStart(data: seq<Byte>, r: Request)
    requires RequestShape(data, r)
    ensures StartsWithRequest(data, r)
  {
    hide ByteOf, ReadWord, Word;
    var k, v := |r.key|, |r.value|;
    ReadWordInverse(data, 1);
    ReadWordInverse(data, 5 + k);
    assert data[..1] == [r.opcode] && data[1..5] == Word(k) && data[5 + k..9 + k] == Word(v);
    assert k < WORD && v < WORD;
    assert |[r.opcode]| == 1 && |Word(k)| == 4 && |Word(v)| == 4;
    PrefixOfParts(data, [r.opcode], Word(|r.key|), r.key, Word(|r.value|), r.value);
  }

  lemma PrefixOfParts(data: seq<Byte>, a: seq<Byte>, b: seq<Byte>, c: seq<Byte>, d: seq<Byte>, e: seq<Byte>)
    requires |a| + |b| + |c| + |d| + |e| <= |data|
    requires data[..|a|] == a && data[|a|..|a| + |b|] == b && data[|a| + |b|..|a| + |b| + |c|] == c
    requires data[|a| + |b| + |c|..|a| + |b| + |c| + |d|] == d
    requires data[|a| + |b| + |c| + |d|..|a| + |b| + |c| + |d| + |e|] == e
    ensures a + b + c + d + e <= data
  {
    Glue(data, |a|, |a| + |b|);
    Glue(data, |a| + |b|, |a| + |b| + |c|);
    Glue(data, |a| + |b| + |c|, |a| + |b| + |c| + |d|);
    Glue(data, |a| + |b| + |c| + |d|, |a| + |b| + |c| + |d| + |e|);
  }

  lemma Glue(data: seq<Byte>, i: nat, j: nat)
    requires i <= j <= |data|
    ensures data[..i] + data[i..j] == data[..j]
  {
  }

  // ---------------------------------------------------------------- what it amounts to

  /** At most one request is encoded at the start of a byte string. */
  lemma RequestUnique(data: seq<Byte>, q: Request, r: Request)
    requires StartsWithRequest(data, q) && StartsWithRequest(data, r)
    ensures q == r
  {
    RequestLayout(data, q);
    RequestLayout(data, r);
  }

  /** Encoding is injective, and no proper prefix of an encoding starts with one. */
  lemma RequestsPrefixFree(q: Request, r: Request)
    requires Fits(q) && Fits(r) && EncodedRequest(q) <= EncodedRequest(r)
    ensures q == r
  {
    RequestUnique(EncodedRequest(r), q, r);
  }

  /** Decoding an encoding, with anything behind it, gives the request back exactly when
      both lengths fit in 32 bits; beyond that the truncated lengths cut it short. */
  lemma RequestRoundTrip(r: Request, rest: seq<Byte>)
    ensures DecodedRequest(EncodedRequest(r) + rest) == Some(r) <==> Fits(r)
  {
    var data := EncodedRequest(r) + rest;
    if Fits(r) {
      assert StartsWithRequest(data, r);
      RequestUnique(data, DecodedRequest(data).value, r);
    }
  }

  /** No proper prefix of an encoding decodes. */
  lemma RequestPrefixFails(r: Request, n: nat)
    requires Fits(r) && n < |EncodedRequest(r)|
    ensures DecodedRequest(EncodedRequest(r)[..n]) == None
  {
    var part := EncodedRequest(r)[..n];
    if q :| StartsWithRequest(part, q) {
      assert EncodedRequest(q) <= EncodedRequest(r);
      RequestsPrefixFree(q, r);
    }
  }

  // ---------------------------------------------------------------- responses

  ghost predicate ResponseShape(data: seq<Byte>, r: Response) {
    var v := |r.value|;
    5 + v <= |data| && data[0] == r.status && ReadWord(data, 1) == v && data[5..5 + v] == r.value
  }

  lemma ResponseLayout(data: seq<Byte>, r: Response)
    ensures StartsWithResponse(data, r) <==> ResponseShape(data, r)
  {
    hide ByteOf, ReadWord;
    var v := |r.value|;
    if StartsWithResponse(data, r) {
      var e := EncodedResponse(r);
      Slices(data, e, 1, 5, Word(v));
      Slices(data, e, 5, 5 + v, r.value);
      WordRead(data, 1, v);
    }
    if ResponseShape(data, r) {
      ReadWordInverse(data, 1);
      assert data[..5 + v] == data[..1] + data[1..5] + data[5..5 + v];
      assert data[..1] == [r.status];
    }
  }

  method DecodeResponse(data: seq<Byte>) returns (r: Option<Response>)
    ensures r == DecodedResponse(data)
  {
    forall q | StartsWithResponse(data, q) ensures ResponseShape(data, q) {
      ResponseLayout(data, q);
    }
    var offset := 0;
    if offset >= |data| {
      return None;
    }
    var status := data[offset];
    offset := offset + 1;
    var valueLen: Option<nat>;
    valueLen, offset := ReadUint32(data, offset);
    if valueLen.None? || offset + valueLen.value > |data| {
      return None;
    }
    var response := Response(status, data[offset..offset + valueLen.value]);
    ResponseLayout(data, response);
    ResponseUnique(data, DecodedResponse(data).value, response);
    return Some(response);
  }

  lemma ResponseUnique(data: seq<Byte>, q: Response, r: Response)
    requires StartsWithResponse(data, q) && StartsWithResponse(data, r)
    ensures q == r
  {
    ResponseLayout(data, q);
    ResponseLayout(data, r);
  }

  lemma ResponseRoundTrip(r: Response, rest: seq<Byte>)
    ensures DecodedResponse(EncodedResponse(r) + rest) == Some(r) <==> |r.value| < WORD
  {
    var data := EncodedResponse(r) + rest;
    if |r.value| < WORD {
      assert StartsWithResponse(data, r);
      ResponseUnique(data, DecodedResponse(data).value, r);
    }
  }

  lemma ResponsePrefixFails(r: Response, n: nat)
    requires |r.value| < WORD && n < |EncodedResponse(r)|
    ensures DecodedResponse(EncodedResponse(r)[..n]) == None
  {
    var part := EncodedResponse(r)[..n];
    if q :| StartsWithResponse(part, q) {
      assert EncodedResponse(q) <= EncodedResponse(r);
      ResponseUnique(EncodedResponse(r), q, r);
    }
  }
}
