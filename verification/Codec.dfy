/** rocketmq/client/remote/codec.go: the remoting command, its private header codec and its frame. */
module Codec {
  import opened Common
  import opened Bytes

  const GO_LANGUAGE: byte := 9
  const JSON_CODECS: byte := 0
  const ROCKETMQ_CODECS: byte := 1
  const RESPONSE_TYPE: int32 := 1
  const HEADER_FIXED_LENGTH := 21

  type Fields = map<bytes, bytes>

  /** `requestId` is the field Opaque of the source; `None` stands for Go's nil map and nil slice. */
  datatype RemotingCommand = RemotingCommand(
    code: int16,
    language: byte,
    version: int16,
    requestId: int32,
    flag: int32,
    remark: bytes,
    extFields: Option<Fields>,
    body: Option<bytes>)
  {
    /** Bit 0 of the flag, in two's complement. */
    predicate IsResponseType() {
      flag % 2 == 1
    }

    function Ext(): Fields {
      if extFields.Some? then extFields.value else map[]
    }

    function Body(): bytes {
      if body.Some? then body.value else []
    }
  }

  /** markResponseType: bit 0 is set. */
  function MarkResponse(flag: int32): int32 {
    if flag % 2 == 1 then flag else flag + 1
  }

  /** Of the 32 bits of the flag only the lowest decides whether a command is a response, and marking sets that one. */
  lemma ResponseIsBitZero(c: RemotingCommand, bits: seq<nat>)
    requires |bits| == 32 && AreBits(bits) && FromBits(bits) == Unsigned32(c.flag)
    ensures c.IsResponseType() <==> bits[0] == 1
    ensures Unsigned32(MarkResponse(c.flag)) == FromBits(bits[0 := 1])
  {
    assert bits[0] in bits;
    var rest := FromBits(bits[1..]);
    assert Unsigned32(c.flag) == bits[0] + 2 * rest;
    assert bits[0 := 1][1..] == bits[1..];
    assert Unsigned32(c.flag) % 2 == c.flag % 2;
  }

  /** What a command looks like to its receiver: sent by a Go client, empty parts read as nil. */
  function AsReceived(c: RemotingCommand): RemotingCommand {
    c.(language := GO_LANGUAGE,
    extFields := if c.Ext() == map[] then None else c.extFields,
    body := if c.Body() == [] then None else c.body)
  }

  // ---------------------------------------------------------------------------
  // The layout, as functions of the order in which Go ranges over the ext fields
  // ---------------------------------------------------------------------------

  function EntryBytes(key: bytes, value: bytes): bytes {
    BigEndian16(|key|) + key + BigEndian32(|value|) + value
  }

  function ExtBytes(order: seq<bytes>, m: Fields): bytes
    requires forall k | k in order :: k in m
  {
    if order == [] then []
    else EntryBytes(order[0], m[order[0]]) + ExtBytes(order[1..], m)
  }

  function HeaderBytes(c: RemotingCommand, order: seq<bytes>): bytes
    requires forall k | k in order :: k in c.Ext()
  {
    var ext := ExtBytes(order, c.Ext());
    BigEndian16(c.code) + [GO_LANGUAGE] + BigEndian16(c.version) + BigEndian32(c.requestId) + BigEndian32(c.flag)
    + (BigEndian32(|c.remark|) + c.remark) + (BigEndian32(|ext|) + ext)
  }

  /** markProtocolType: the codec in the top byte, the low 24 bits of the header length below it. */
  function MarkProtocolType(codec: byte, length: int): (mark: bytes)
    ensures |mark| == 4
  {
    [codec, length / 0x1_0000 % 0x100, length / 0x100 % 0x100, length % 0x100]
  }

  function Payload(codec: byte, header: bytes, body: bytes): bytes {
    MarkProtocolType(codec, |header|) + header + body
  }

  /** The bytes both `encode` and `WriteTo` produce. */
  function Frame(codec: byte, header: bytes, body: bytes): bytes {
    BigEndian32(4 + |header| + |body|) + Payload(codec, header, body)
  }

  // ---------------------------------------------------------------------------
  // Decoding, branch by branch
  // ---------------------------------------------------------------------------

  /** The loop of decodeHeader over the ext fields. A negative length is a panicking `make`. */
  function ParseExt(data: bytes, fields: Fields): Outcome<Fields>
    decreases |data|
  {
    if data == [] then Success(fields)
    else if |data| < 2 then Failed
    else
      var kLen := ReadInt16(data);
      if kLen < 0 then Panicked
      else if |data| < 2 + kLen + 4 then Failed
      else
        var vLen := ReadInt32(data[2 + kLen..]);
        var start := 2 + kLen + 4;
        if vLen < 0 then Panicked
        else if |data| < start + vLen then Failed
        else ParseExt(data[start + vLen..], fields[data[2..2 + kLen] := data[start..start + vLen]])
  }

  /** A length-prefixed string: a length that is not positive reads as the empty string. */
  function ReadBlock(data: bytes): Outcome<bytes> {
    if |data| < 4 then Failed
    else
      var n := ReadInt32(data);
      if n <= 0 then Success([])
      else if |data| < 4 + n then Failed
      else Success(data[4..4 + n])
  }

  function DecodeHeader(data: bytes): Outcome<RemotingCommand> {
    if |data| < 13 then Failed
    else
      match ReadBlock(data[13..])
      case Failed => Failed
      case Panicked => Panicked
      case Success(remark) =>
        match ReadBlock(data[17 + |remark|..])
        case Failed => Failed
        case Panicked => Panicked
        case Success(ext) =>
          var c := RemotingCommand(ReadInt16(data), data[2], ReadInt16(data[3..]), ReadInt32(data[5..]),
                                   ReadInt32(data[9..]), remark, None, None);
          if ext == [] then Success(c)
          else
            match ParseExt(ext, map[])
            case Failed => Failed
            case Panicked => Panicked
            case Success(fields) => Success(c.(extFields := Some(fields)))
  }

  /** decode, applied to a frame without its first four bytes. `json` is the JSON header decoder. */
  function Decode(json: bytes -> Outcome<RemotingCommand>, data: bytes): Outcome<RemotingCommand> {
    if |data| < 4 then Failed
    else
      var headerLength := ReadUint32(data) % 0x100_0000;
      if |data| < 4 + headerLength then Failed
      else
        var header := data[4..4 + headerLength];
        var decoded :=
          if data[0] == JSON_CODECS then json(header)
          else if data[0] == ROCKETMQ_CODECS then DecodeHeader(header)
          else Failed;
        if !decoded.Success? then decoded
        else
          // int32 arithmetic: the length of the data is narrowed before the subtraction
          var bodyLength := Wrap32(Wrap32(|data|) - 4 - headerLength);
          if bodyLength <= 0 then decoded
          else if |data| - 4 - headerLength < bodyLength then Failed
          else Success(decoded.value.(body := Some(data[4 + headerLength..4 + headerLength + bodyLength])))
  }

  // ---------------------------------------------------------------------------
  // Methods: the source's loops and buffers
  // ---------------------------------------------------------------------------

  lemma {:induction false} ExtBytesAppend(order: seq<bytes>, k: bytes, m: Fields)
    requires k in m && forall x | x in order :: x in m
    ensures ExtBytes(order + [k], m) == ExtBytes(order, m) + EntryBytes(k, m[k])
    decreases |order|
  {
    if order == [] {
      assert ExtBytes([k], m) == EntryBytes(k, m[k]) + ExtBytes([], m);
    } else {
      assert (order + [k])[1..] == order[1..] + [k];
      ExtBytesAppend(order[1..], k, m);
    }
  }

  /** Go picks the next key of the map freely, and so does `:|`; `order` reports what it picked. */
  method EncodeMaps(m: Fields) returns (buf: bytes, order: seq<bytes>)
    ensures Enumerates(order, m) && buf == ExtBytes(order, m)
  {
    buf, order := [], [];
    var rest := m.Keys;
    while rest != {}
      invariant rest <= m.Keys && Distinct(order)
      invariant forall k | k in order :: k in m && k !in rest
      invariant forall k | k in m :: k in order || k in rest
      invariant buf == ExtBytes(order, m)
      decreases rest
    {
      var key :| key in rest;
      ExtBytesAppend(order, key, m);
      buf := buf + BigEndian16(|key|);
      buf := buf + key;
      buf := buf + BigEndian32(|m[key]|);
      buf := buf + m[key];
      assert buf == ExtBytes(order, m) + EntryBytes(key, m[key]);
      order := order + [key];
      rest := rest - {key};
    }
  }

  method EncodeHeader(c: RemotingCommand) returns (buf: bytes, order: seq<bytes>)
    ensures Enumerates(order, c.Ext()) && buf == HeaderBytes(c, order)
  {
    var ext;
    ext, order := EncodeMaps(c.Ext());
    buf := BigEndian16(c.code);
    buf := buf + [GO_LANGUAGE];
    buf := buf + BigEndian16(c.version);
    buf := buf + BigEndian32(c.requestId);
    buf := buf + BigEndian32(c.flag);
    buf := buf + BigEndian32(|c.remark|);
    if |c.remark| > 0 {
      buf := buf + c.remark;
    }
    buf := buf + BigEndian32(|ext|);
    if |ext| > 0 {
      buf := buf + ext;
    }
    assert buf == HeaderBytes(c, order);
  }

  /** encode with the RocketMQ codec. */
  method Encode(c: RemotingCommand) returns (buf: bytes, order: seq<bytes>)
    ensures Enumerates(order, c.Ext()) && buf == Frame(ROCKETMQ_CODECS, HeaderBytes(c, order), c.Body())
  {
    var header;
    header, order := EncodeHeader(c);
    buf := BigEndian32(4 + |header| + |c.Body()|);
    buf := buf + MarkProtocolType(ROCKETMQ_CODECS, |header|);
    buf := buf + header;
    buf := buf + c.Body();
    assert buf == Frame(ROCKETMQ_CODECS, header, c.Body());
  }

  /** The loop of decodeHeader that fills ExtFields from a shrinking buffer. */
  method DecodeExtFields(data: bytes) returns (r: Outcome<Fields>)
    ensures r == ParseExt(data, map[])
  {
    var buf, fields := data, map[];
    while |buf| > 0
      invariant ParseExt(buf, fields) == ParseExt(data, map[])
      decreases |buf|
    {
      if |buf| < 2 {
        return Failed;
      }
      var kLen := ReadInt16(buf);
      if kLen < 0 {
        return Panicked;
      }
      if |buf| < 2 + kLen + 4 {
        return Failed;
      }
      var key := buf[2..2 + kLen];
      var vLen := ReadInt32(buf[2 + kLen..]);
      if vLen < 0 {
        return Panicked;
      }
      var start := 2 + kLen + 4;
      if |buf| < start + vLen {
        return Failed;
      }
      fields := fields[key := buf[start..start + vLen]];
      buf := buf[start + vLen..];
    }
    return Success(fields);
  }

  /** A length-prefixed string off the front of the buffer; `rest` is what stays in it. */
  method TakeBlock(buf: bytes) returns (r: Outcome<bytes>, rest: bytes)
    ensures r == ReadBlock(buf) && !r.Panicked?
    ensures r.Success? ==> |buf| >= 4 + |r.value| && rest == buf[4 + |r.value|..]
  {
    rest := buf;
    if |rest| < 4 {
      return Failed, rest;
    }
    var length := ReadInt32(rest);
    rest := rest[4..];
    if length <= 0 {
      return Success([]), rest;
    }
    if |rest| < length {
      return Failed, rest;
    }
    assert rest[..length] == buf[4..4 + length];
    return Success(rest[..length]), rest[length..];
  }

  /** The fixed part of decodeHeader: five reads, each consuming the buffer. */
  method TakeFixed(data: bytes) returns (r: Outcome<RemotingCommand>, rest: bytes)
    ensures |data| < 13 ==> r == Failed
    ensures |data| >= 13 ==> rest == data[13..]
    ensures |data| >= 13 ==>
              r == Success(RemotingCommand(ReadInt16(data), data[2], ReadInt16(data[3..]), ReadInt32(data[5..]),
                                           ReadInt32(data[9..]), [], None, None))
  {
    hide ReadInt16, ReadInt32;
    rest := data;
    if |rest| < 2 { return Failed, rest; }
    var code := ReadInt16(rest);
    rest := rest[2..];
    if |rest| < 1 { return Failed, rest; }
    var language := rest[0];
    rest := rest[1..];
    assert rest == data[3..];
    if |rest| < 2 { return Failed, rest; }
    var version := ReadInt16(rest);
    rest := rest[2..];
    assert rest == data[5..];
    if |rest| < 4 { return Failed, rest; }
    var id := ReadInt32(rest);
    rest := rest[4..];
    assert rest == data[9..];
    if |rest| < 4 { return Failed, rest; }
    var flag := ReadInt32(rest);
    rest := rest[4..];
    assert rest == data[13..];
    r := Success(RemotingCommand(code, language, version, id, flag, [], None, None));
  }

  /** decodeHeader. */
  method ReadHeader(data: bytes) returns (r: Outcome<RemotingCommand>)
    ensures r == DecodeHeader(data)
  {
    hide ReadInt16, ReadInt32, ReadBlock, ParseExt;
    var fixed, buf := TakeFixed(data);
    if !fixed.Success? {
      return Failed;
    }
    var command := fixed.value;
    var remark, afterRemark := TakeBlock(buf);
    if !remark.Success? {
      return Failed;
    }
    command := command.(remark := remark.value);
    assert afterRemark == data[17 + |remark.value|..];
    var ext, _ := TakeBlock(afterRemark);
    if !ext.Success? {
      return Failed;
    }
    if ext.value == [] {
      return Success(command);
    }
    var fields := DecodeExtFields(ext.value);
    match fields {
      case Failed => return Failed;
      case Panicked => return Panicked;
      case Success(m) => return Success(command.(extFields := Some(m)));
    }
  }

  /** decode: mark, header, body off one buffer. */
  method ReadPayload(json: bytes -> Outcome<RemotingCommand>, data: bytes) returns (r: Outcome<RemotingCommand>)
    ensures r == Decode(json, data)
  {
    hide DecodeHeader, ReadUint32;
    var buf := data;
    var length := Wrap32(|data|);
    if |buf| < 4 {
      return Failed;
    }
    var headerLength := ReadUint32(buf) % 0x100_0000;
    buf := buf[4..];
    if |buf| < headerLength {
      return Failed;
    }
    var headerData := buf[..headerLength];
    assert headerData == data[4..4 + headerLength];
    buf := buf[headerLength..];
    if data[0] == JSON_CODECS {
      r := json(headerData);
    } else if data[0] == ROCKETMQ_CODECS {
      r := ReadHeader(headerData);
    } else {
      r := Failed;
    }
    if !r.Success? {
      return;
    }
    var bodyLength := Wrap32(length - 4 - headerLength);
    if bodyLength > 0 {
      if |buf| < bodyLength {
        return Failed;
      }
      assert buf[..bodyLength] == data[4 + headerLength..4 + headerLength + bodyLength];
      r := Success(r.value.(body := Some(buf[..bodyLength])));
    }
  }

  // ---------------------------------------------------------------------------
  // Round trip
  // ---------------------------------------------------------------------------

  ghost predicate ShortKeys(m: Fields) {
    forall k | k in m :: |k| < 0x8000
  }

  lemma ParseEntry(key: bytes, value: bytes, rest: bytes, fields: Fields)
    requires |key| < 0x8000 && |value| < 0x8000_0000
    ensures ParseExt(EntryBytes(key, value) + rest, fields) == ParseExt(rest, fields[key := value])
  {
    hide BigEndian16, BigEndian32, ReadInt16, ReadInt32, ParseExt;
    ReadLengths(|key|, 0, key + BigEndian32(|value|) + value + rest);
    ReadLengths(0, |value|, value + rest);
    ParseParts(BigEndian16(|key|), key, BigEndian32(|value|), value, rest, fields);
  }

  lemma ParseParts(k: bytes, key: bytes, v: bytes, value: bytes, rest: bytes, fields: Fields)
    requires |k| == 2 && ReadInt16(k + (key + v + value + rest)) == |key|
    requires |v| == 4 && ReadInt32(v + (value + rest)) == |value|
    ensures ParseExt(k + key + v + value + rest, fields) == ParseExt(rest, fields[key := value])
  {
    var data := k + key + v + value + rest;
    assert data == k + (key + v + value + rest);
    assert data == k + key + v + (value + rest);
    Seams(k, key, v, value + rest);
    assert data == (k + key + v) + value + rest + [];
    Seams(k + key + v, value, rest, []);
  }

  /** Parsing the printed entries stores them one after the other. */
  lemma {:induction false} ParseOfExtBytes(order: seq<bytes>, m: Fields, fields: Fields)
    requires forall k | k in order :: k in m && |k| < 0x8000
    requires |ExtBytes(order, m)| < 0x8000_0000
    ensures ParseExt(ExtBytes(order, m), fields) == Success(Overwrite(fields, order, m))
    decreases |order|
  {
    if order != [] {
      var k := order[0];
      ParseEntry(k, m[k], ExtBytes(order[1..], m), fields);
      ParseOfExtBytes(order[1..], m, fields[k := m[k]]);
    }
  }

  lemma ReadBlockBack(block: bytes, rest: bytes)
    requires |block| < 0x8000_0000
    ensures ReadBlock(BigEndian32(|block|) + block + rest) == Success(block)
  {
    hide BigEndian32, ReadInt32;
    var data := BigEndian32(|block|) + block + rest;
    assert data == BigEndian32(|block|) + (block + rest);
    ReadBack32(|block|, block + rest);
    assert data[4..4 + |block|] == block;
  }

  lemma HeaderSeams(a: bytes, b: bytes, c: bytes, d: bytes, e: bytes, f: bytes, g: bytes)
    requires |a| == 2 && |b| == 1 && |c| == 2 && |d| == 4 && |e| == 4
    ensures var h := a + b + c + d + e + f + g;
            && h == a + (b + c + d + e + f + g) && h[2] == b[0]
            && h[3..] == c + (d + e + f + g)
            && h[5..] == d + (e + f + g)
            && h[9..] == e + (f + g)
            && h[13..] == f + g
            && h[13 + |f|..] == g
  {
  }

  /** The fixed fields of a header and its two blocks, read where decodeHeader reads them. */
  ghost predicate ReadsAs(h: bytes, c: RemotingCommand, ext: bytes) {
    && |h| == HEADER_FIXED_LENGTH + |c.remark| + |ext|
    && ReadBlock(h[13..]) == Success(c.remark)
    && ReadBlock(h[17 + |c.remark|..]) == Success(ext)
    && ReadInt16(h) == c.code && h[2] == GO_LANGUAGE && ReadInt16(h[3..]) == c.version
    && ReadInt32(h[5..]) == c.requestId && ReadInt32(h[9..]) == c.flag
  }

  lemma HeaderPartsRead(a: bytes, b: bytes, v: bytes, d: bytes, e: bytes, f: bytes, g: bytes, c: RemotingCommand, ext: bytes)
    requires |a| == 2 && b == [GO_LANGUAGE] && |v| == 2 && |d| == 4 && |e| == 4
    requires |f| == 4 + |c.remark| && |g| == 4 + |ext|
    requires ReadInt16(a + (b + v + d + e + f + g)) == c.code
    requires ReadInt16(v + (d + e + f + g)) == c.version
    requires ReadInt32(d + (e + f + g)) == c.requestId
    requires ReadInt32(e + (f + g)) == c.flag
    requires ReadBlock(f + g) == Success(c.remark) && ReadBlock(g) == Success(ext)
    ensures ReadsAs(a + b + v + d + e + f + g, c, ext)
  {
    HeaderSeams(a, b, v, d, e, f, g);
  }

  lemma HeaderPieces(c: RemotingCommand, order: seq<bytes>)
    requires Enumerates(order, c.Ext())
    requires |HeaderBytes(c, order)| < 0x8000_0000
    ensures ReadsAs(HeaderBytes(c, order), c, ExtBytes(order, c.Ext()))
  {
    hide BigEndian16, BigEndian32, ReadInt16, ReadInt32, ReadBlock;
    var ext := ExtBytes(order, c.Ext());
    var f, g := BigEndian32(|c.remark|) + c.remark, BigEndian32(|ext|) + ext;
    ReadBlockBack(c.remark, g);
    ReadBlockBack(ext, []);
    assert g + [] == g;
    var b, v, d, e := [GO_LANGUAGE], BigEndian16(c.version), BigEndian32(c.requestId), BigEndian32(c.flag);
    ReadBack16(c.code, b + v + d + e + f + g);
    ReadBack16(c.version, d + e + f + g);
    ReadBack32(c.requestId, e + f + g);
    ReadBack32(c.flag, f + g);
    HeaderPartsRead(BigEndian16(c.code), b, v, d, e, f, g, c, ext);
  }

  /** decodeHeader undoes encodeHeader for every order in which the ext fields were written. */
  lemma HeaderRoundTrip(c: RemotingCommand, order: seq<bytes>)
    requires Enumerates(order, c.Ext()) && ShortKeys(c.Ext())
    requires |HeaderBytes(c, order)| < 0x8000_0000
    ensures DecodeHeader(HeaderBytes(c, order)) == Success(AsReceived(c).(body := None))
  {
    HeaderPieces(c, order);
    ParseOfExtBytes(order, c.Ext(), map[]);
    OverwriteAll(order, c.Ext());
    if order == [] {
      assert c.Ext() == map[];
    } else {
      assert order[0] in c.Ext();
    }
  }

  /** What decode makes of a decoded header and the bytes after it: the body is cut at its 32-bit length. */
  function WithBody(decoded: Outcome<RemotingCommand>, body: bytes): Outcome<RemotingCommand> {
    if !decoded.Success? || Wrap32(|body|) <= 0 || |body| < Wrap32(|body|) then decoded
    else Success(decoded.value.(body := Some(body[..Wrap32(|body|)])))
  }

  lemma MarkReadsBack(codec: byte, n: nat, rest: bytes)
    ensures ReadUint32(MarkProtocolType(codec, n) + rest) % 0x100_0000 == n % 0x100_0000
  {
    ThreeDigits(n);
    var low := (n / 0x1_0000 % 0x100) * 0x1_0000 + (n / 0x100 % 0x100) * 0x100 + n % 0x100;
    assert ReadUint32(MarkProtocolType(codec, n) + rest) == codec as int * 0x100_0000 + low;
    LowDigits(codec, low);
  }

  lemma ThreeDigits(n: nat)
    ensures (n / 0x1_0000 % 0x100) * 0x1_0000 + (n / 0x100 % 0x100) * 0x100 + n % 0x100 == n % 0x100_0000
  {
    var h := n / 0x100;
    TwoBytes(h);
    assert n / 0x1_0000 == h / 0x100;
    assert (h % 0x1_0000) * 0x100 + n % 0x100 == n % 0x100_0000;
  }

  lemma LowDigits(top: nat, low: nat)
    requires low < 0x100_0000
    ensures (top * 0x100_0000 + low) % 0x100_0000 == low
  {
  }

  lemma DecodeParts(json: bytes -> Outcome<RemotingCommand>, mark: bytes, header: bytes, body: bytes)
    requires |mark| == 4 && ReadUint32(mark + (header + body)) % 0x100_0000 == |header|
    ensures Decode(json, mark + header + body)
            == WithBody(if mark[0] == JSON_CODECS then json(header)
                        else if mark[0] == ROCKETMQ_CODECS then DecodeHeader(header)
                        else Failed, body)
  {
    hide DecodeHeader, ReadUint32, Wrap32;
    var data := mark + header + body;
    assert data == mark + (header + body);
    assert data == mark + header + body + [];
    Seams(mark, header, body, []);
    WrapShrinks(|body|);
    WrapOfDifference(|data|, 4 + |header|);
    assert Wrap32(|data|) - 4 - |header| == Wrap32(|data|) - (4 + |header|) && |data| - (4 + |header|) == |body|;
    var n := Wrap32(|body|);
    assert 0 < n <= |body| ==> data[4 + |header|..4 + |header| + n] == body[..n];
  }

  /** Decoding a frame: the header through its codec, the body behind it. */
  lemma DecodePayload(json: bytes -> Outcome<RemotingCommand>, codec: byte, header: bytes, body: bytes)
    requires |header| < 0x100_0000
    ensures Decode(json, Frame(codec, header, body)[4..])
            == WithBody(if codec == JSON_CODECS then json(header)
                        else if codec == ROCKETMQ_CODECS then DecodeHeader(header)
                        else Failed, body)
    ensures |body| < 0x8000_0000 ==> Wrap32(|body|) == |body| && body[..|body|] == body
  {
    hide ReadUint32, DecodeHeader, Decode;
    assert Frame(codec, header, body)[4..] == Payload(codec, header, body);
    MarkReadsBack(codec, |header|, header + body);
    DecodeParts(json, MarkProtocolType(codec, |header|), header, body);
  }

  function EntrySize(k: bytes, v: bytes): nat {
    6 + |k| + |v|
  }

  function ExtSize(keys: seq<bytes>, m: Fields): nat {
    if keys == [] then 0
    else (if keys[0] in m then EntrySize(keys[0], m[keys[0]]) else 0) + ExtSize(keys[1..], m)
  }

  lemma {:induction false} ExtBytesSize(order: seq<bytes>, m: Fields)
    requires forall k | k in order :: k in m
    ensures |ExtBytes(order, m)| == ExtSize(order, m)
    decreases |order|
  {
    if order != [] {
      ExtBytesSize(order[1..], m);
    }
  }

  lemma {:induction false} ExtSizeAfterStore(keys: seq<bytes>, m: Fields, k: bytes, v: bytes)
    requires Distinct(keys)
    ensures ExtSize(keys, m[k := v]) <= ExtSize(keys, m) + (if k in keys then EntrySize(k, v) else 0)
    decreases |keys|
  {
    if keys != [] {
      forall i, j | 0 <= i < j < |keys[1..]| ensures keys[1..][i] != keys[1..][j] {
        assert keys[i + 1] != keys[j + 1];
      }
      ExtSizeAfterStore(keys[1..], m, k, v);
      if keys[0] == k {
        forall i | 1 <= i < |keys| ensures keys[i] != k {
          assert keys[0] != keys[i];
        }
      }
    }
  }

  /** A parse that succeeds never needs more bytes than it was given, and yields only short keys. */
  lemma {:induction false} ParseExtBounds(data: bytes, fields: Fields, keys: seq<bytes>)
    requires ParseExt(data, fields).Success? && ShortKeys(fields) && Distinct(keys)
    ensures var m := ParseExt(data, fields).value;
            ShortKeys(m) && ExtSize(keys, m) <= |data| + ExtSize(keys, fields)
    decreases |data|
  {
    if data != [] {
      var kLen := ReadInt16(data);
      var start := 2 + kLen + 4;
      var vLen := ReadInt32(data[2 + kLen..]);
      var k, v := data[2..2 + kLen], data[start..start + vLen];
      ParseExtBounds(data[start + vLen..], fields[k := v], keys);
      ExtSizeAfterStore(keys, fields, k, v);
    }
  }

  lemma {:induction false} NoFieldsNoSize(keys: seq<bytes>)
    ensures ExtSize(keys, map[]) == 0
    decreases |keys|
  {
    if keys != [] {
      NoFieldsNoSize(keys[1..]);
    }
  }

  /** A header that decodes to a command is at least as long as any header of that command. */
  lemma DecodedFits(data: bytes, c: RemotingCommand, order: seq<bytes>)
    requires DecodeHeader(data) == Success(c) && Enumerates(order, c.Ext())
    ensures ShortKeys(c.Ext())
    ensures HEADER_FIXED_LENGTH + |c.remark| + |ExtBytes(order, c.Ext())| <= |data|
  {
    var ext := ReadBlock(data[17 + |c.remark|..]).value;
    ExtBytesSize(order, c.Ext());
    NoFieldsNoSize(order);
    if ext == [] {
      assert c.Ext() == map[];
    } else {
      ParseExtBounds(ext, map[], order);
    }
  }

  /** What a caller can check before encoding: the limits of the three narrow length fields. */
  ghost predicate Encodable(c: RemotingCommand, order: seq<bytes>)
    requires Enumerates(order, c.Ext())
  {
    && |HeaderBytes(c, order)| < 0x100_0000
    && ShortKeys(c.Ext())
    && |c.Body()| < 0x8000_0000
  }

  /** With the RocketMQ codec, decode gives back what encode was given exactly for the commands within the
      limits: within them it always does, and a longer key, header or body never survives. */
  lemma RoundTripIff(json: bytes -> Outcome<RemotingCommand>, c: RemotingCommand, order: seq<bytes>)
    requires Enumerates(order, c.Ext())
    ensures Decode(json, Frame(ROCKETMQ_CODECS, HeaderBytes(c, order), c.Body())[4..]) == Success(AsReceived(c))
            <==> Encodable(c, order)
  {
    var header, data := HeaderBytes(c, order), Frame(ROCKETMQ_CODECS, HeaderBytes(c, order), c.Body())[4..];
    if Decode(json, data) == Success(AsReceived(c)) {
      assert data[0] == ROCKETMQ_CODECS;
      DecodedIsEncodable(json, data, c, order);
    }
    if |header| < 0x100_0000 {
      DecodePayload(json, ROCKETMQ_CODECS, header, c.Body());
      if ShortKeys(c.Ext()) {
        HeaderRoundTrip(c, order);
      }
    }
  }

  /** What the RocketMQ codec reads is a command within the limits, whatever it is read from. */
  lemma DecodedIsEncodable(json: bytes -> Outcome<RemotingCommand>, data: bytes, c: RemotingCommand, order: seq<bytes>)
    requires Enumerates(order, c.Ext()) && Decode(json, data) == Success(AsReceived(c)) && data[0] != JSON_CODECS
    ensures Encodable(c, order)
  {
    var h := data[4..4 + ReadUint32(data) % 0x100_0000];
    var decoded := DecodeHeader(h).value;
    assert decoded.Ext() == c.Ext() && decoded.remark == c.remark;
    DecodedFits(h, decoded, order);
  }

  /** The frame is codec-neutral: any header codec with a round trip of its own gets one through the frame. */
  lemma JsonRoundTrip(json: bytes -> Outcome<RemotingCommand>, header: bytes, c: RemotingCommand)
    requires json(header) == Success(c.(body := Some([])))
    requires |header| < 0x100_0000 && |c.Body()| < 0x8000_0000
    ensures Decode(json, Frame(JSON_CODECS, header, c.Body())[4..]) == Success(c.(body := Some(c.Body())))
  {
    DecodePayload(json, JSON_CODECS, header, c.Body());
  }
}
