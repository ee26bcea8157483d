/** The private header of rocketmq/client/remote/codec.go as a format: which bytes are a header, whoever wrote them. */
module HeaderFormat {
  import opened Common
  import opened Bytes
  import opened Codec

  datatype Entry = Entry(key: bytes, value: bytes)

  function EntriesBytes(es: seq<Entry>): bytes {
    if es == [] then []
    else BigEndian16(|es[0].key|) + es[0].key + BigEndian32(|es[0].value|) + es[0].value + EntriesBytes(es[1..])
  }

  /** Keys and values within their signed length fields. */
  ghost predicate EntriesOk(es: seq<Entry>) {
    forall e | e in es :: |e.key| < 0x8000 && |e.value| < 0x8000_0000
  }

  /** The ext fields a list of entries stands for: of entries with one key the last. */
  function Collected(fields: Fields, es: seq<Entry>): Fields
    decreases |es|
  {
    if es == [] then fields else Collected(fields[es[0].key := es[0].value], es[1..])
  }

  // ---------------------------------------------------------------------------
  // Ext fields
  // ---------------------------------------------------------------------------

  lemma {:induction false} EntriesParse(es: seq<Entry>, rest: bytes, fields: Fields)
    requires EntriesOk(es)
    ensures ParseExt(EntriesBytes(es) + rest, fields) == ParseExt(rest, Collected(fields, es))
    decreases |es|
  {
    hide ParseExt, BigEndian16, BigEndian32;
    if es == [] {
      assert EntriesBytes(es) + rest == rest;
    } else {
      var e, tail := es[0], EntriesBytes(es[1..]) + rest;
      assert e in es;
      EntriesParse(es[1..], rest, fields[e.key := e.value]);
      ParseEntry(e.key, e.value, tail, fields);
      assert EntriesBytes(es) + rest == EntryBytes(e.key, e.value) + tail;
    }
  }

  /** One entry in front, where the parse goes on behind it. */
  lemma FirstEntry(data: bytes, fields: Fields) returns (e: Entry, rest: bytes)
    requires |data| >= 2 && ReadInt16(data) >= 0 && |data| >= 2 + ReadInt16(data) + 4
    requires var k := ReadInt16(data); var v := ReadInt32(data[2 + k..]); v >= 0 && |data| >= 6 + k + v
    ensures |e.key| < 0x8000 && |e.value| < 0x8000_0000 && |rest| < |data|
    ensures data == BigEndian16(|e.key|) + e.key + BigEndian32(|e.value|) + e.value + rest
    ensures ParseExt(data, fields) == ParseExt(rest, fields[e.key := e.value])
  {
    hide BigEndian16, BigEndian32, ReadInt16, ReadInt32;
    var k := ReadInt16(data);
    var after := data[2 + k..];
    var v := ReadInt32(after);
    e, rest := Entry(data[2..2 + k], data[6 + k..6 + k + v]), data[6 + k + v..];
    WriteBack(data);
    WriteBack(after);
    assert after[..4] == data[2 + k..6 + k];
    assert data == data[..2] + data[2..2 + k] + data[2 + k..6 + k] + data[6 + k..6 + k + v] + data[6 + k + v..];
  }

  lemma EntriesGrow(e: Entry, es: seq<Entry>, data: bytes, rest: bytes)
    requires data == BigEndian16(|e.key|) + e.key + BigEndian32(|e.value|) + e.value + rest
    requires |e.key| < 0x8000 && |e.value| < 0x8000_0000 && EntriesOk(es)
    ensures EntriesOk([e] + es) && forall fields :: Collected(fields, [e] + es) == Collected(fields[e.key := e.value], es)
    ensures forall tail :: rest == EntriesBytes(es) + tail ==> data == EntriesBytes([e] + es) + tail
  {
    hide BigEndian16, BigEndian32;
    assert ([e] + es)[1..] == es;
    forall tail | rest == EntriesBytes(es) + tail ensures data == EntriesBytes([e] + es) + tail {
      assert EntriesBytes([e] + es) == BigEndian16(|e.key|) + e.key + BigEndian32(|e.value|) + e.value + EntriesBytes(es);
    }
  }

  lemma {:induction false} ParsedEntries(data: bytes, fields: Fields) returns (es: seq<Entry>)
    requires ParseExt(data, fields).Success?
    ensures EntriesOk(es) && data == EntriesBytes(es) && ParseExt(data, fields).value == Collected(fields, es)
    decreases |data|
  {
    hide BigEndian16, BigEndian32, ReadInt16, ReadInt32, EntriesBytes;
    if data == [] {
      es := [];
      assert EntriesBytes([]) == [] by { NoEntries(); }
    } else {
      var e, rest := FirstEntry(data, fields);
      var more := ParsedEntries(rest, fields[e.key := e.value]);
      EntriesGrow(e, more, data, rest);
      es := [e] + more;
      assert rest == EntriesBytes(more) + [];
      assert data == EntriesBytes(es) + [] == EntriesBytes(es);
    }
  }

  lemma NoEntries()
    ensures EntriesBytes([]) == []
  {
  }

  /** Ext fields parse exactly when the data is a list of whole entries; the last value of a key counts. */
  lemma ExtParsesIff(data: bytes, fields: Fields, m: Fields)
    ensures ParseExt(data, fields) == Success(m) <==>
            exists es :: EntriesOk(es) && data == EntriesBytes(es) && m == Collected(fields, es)
  {
    hide EntriesBytes, ParseExt;
    if ParseExt(data, fields) == Success(m) {
      var es := ParsedEntries(data, fields);
    }
    if es :| EntriesOk(es) && data == EntriesBytes(es) && m == Collected(fields, es) {
      EntriesParse(es, [], fields);
      assert EntriesBytes(es) + [] == EntriesBytes(es);
      NothingParses(Collected(fields, es));
    }
  }

  lemma NothingParses(fields: Fields)
    ensures ParseExt([], fields) == Success(fields)
  {
  }

  /** A key length with its sign bit set, or a key followed by such a value length. */
  ghost predicate NegativeLength(rest: bytes) {
    || (|rest| >= 2 && rest[0] >= 128)
    || exists key: bytes, more: bytes ::
         |key| < 0x8000 && |more| >= 4 && more[0] >= 128 && rest == BigEndian16(|key|) + key + more
  }

  lemma SignBit(b: bytes)
    ensures |b| >= 2 ==> (ReadInt16(b) < 0 <==> b[0] >= 128)
    ensures |b| >= 4 ==> (ReadInt32(b) < 0 <==> b[0] >= 128)
  {
  }

  lemma NegativePanics(rest: bytes, fields: Fields)
    requires NegativeLength(rest)
    ensures ParseExt(rest, fields).Panicked?
  {
    hide BigEndian16, ReadInt16, ReadInt32;
    SignBit(rest);
    if rest[0] < 128 {
      var key: bytes, more: bytes :|
        |key| < 0x8000 && |more| >= 4 && more[0] >= 128 && rest == BigEndian16(|key|) + key + more;
      ReadLengths(|key|, 0, key + more);
      assert rest == BigEndian16(|key|) + (key + more);
      assert rest[2 + |key|..] == more;
      SignBit(more);
    }
  }

  lemma {:induction false} PanickedEntries(data: bytes, fields: Fields) returns (es: seq<Entry>, rest: bytes)
    requires ParseExt(data, fields).Panicked?
    ensures EntriesOk(es) && data == EntriesBytes(es) + rest && NegativeLength(rest)
    decreases |data|
  {
    hide BigEndian16, BigEndian32, ReadInt16, ReadInt32, EntriesBytes, NegativeLength;
    var k := ReadInt16(data);
    if k < 0 || ReadInt32(data[2 + k..]) < 0 {
      es, rest := [], data;
      assert EntriesBytes([]) == [] by { NoEntries(); }
      assert [] + rest == data;
      assert NegativeLength(data) by { NegativeInFront(data); }
    } else {
      var e, behind := FirstEntry(data, fields);
      var more;
      more, rest := PanickedEntries(behind, fields[e.key := e.value]);
      EntriesGrow(e, more, data, behind);
      es := [e] + more;
    }
  }

  lemma NegativeInFront(data: bytes)
    requires |data| >= 2
    requires ReadInt16(data) < 0 || (|data| >= 6 + ReadInt16(data) && ReadInt32(data[2 + ReadInt16(data)..]) < 0)
    ensures NegativeLength(data)
  {
    hide BigEndian16, ReadInt16, ReadInt32;
    SignBit(data);
    var k := ReadInt16(data);
    if k >= 0 {
      var key, more := data[2..2 + k], data[2 + k..];
      WriteBack(data);
      SignBit(more);
      assert data == data[..2] + key + more;
    }
  }

  /** Parsing them panics exactly when whole entries are followed by a negative length; everything else is an error. */
  lemma ExtPanicsIff(data: bytes, fields: Fields)
    ensures ParseExt(data, fields).Panicked? <==>
            exists es, rest :: EntriesOk(es) && data == EntriesBytes(es) + rest && NegativeLength(rest)
  {
    hide EntriesBytes, ParseExt, NegativeLength;
    if ParseExt(data, fields).Panicked? {
      var es, rest := PanickedEntries(data, fields);
    }
    if es, rest :| EntriesOk(es) && data == EntriesBytes(es) + rest && NegativeLength(rest) {
      EntriesParse(es, rest, fields);
      NegativePanics(rest, Collected(fields, es));
    }
  }

  // ---------------------------------------------------------------------------
  // The header
  // ---------------------------------------------------------------------------

  /** A length and as many bytes; a length that is zero or negative stands for no bytes. */
  ghost predicate IsBlock(block: bytes, text: bytes) {
    && |block| == 4 + |text| && block[4..] == text
    && if text == [] then block[0] >= 128 || block == [0, 0, 0, 0]
       else |text| < 0x8000_0000 && block[..4] == BigEndian32(|text|)
  }

  lemma ZeroBytes(b: bytes)
    requires |b| >= 4
    ensures ReadInt32(b) == 0 <==> b[..4] == [0, 0, 0, 0]
  {
  }

  lemma BlockReadsIff(data: bytes, text: bytes)
    ensures ReadBlock(data) == Success(text) <==> |data| >= 4 + |text| && IsBlock(data[..4 + |text|], text)
  {
    hide BigEndian32, ReadInt32;
    if |data| >= 4 {
      SignBit(data);
      ZeroBytes(data);
      WriteBack(data);
      var n := ReadInt32(data);
      if n > 0 && |data| >= 4 + n {
        assert data[..4 + n][4..] == data[4..4 + n] && data[..4 + n][..4] == data[..4];
      }
      if |data| >= 4 + |text| && IsBlock(data[..4 + |text|], text) {
        assert data[..4 + |text|][4..] == data[4..4 + |text|] && data[..4 + |text|][..4] == data[..4];
        if text != [] {
          ReadLengths(0, |text|, data[4..]);
          assert data == BigEndian32(|text|) + data[4..];
        }
      }
    }
  }

  /** A block that announces more than there is, and one without its length. */
  lemma ShortBlockFails(data: bytes)
    ensures |data| < 4 ==> ReadBlock(data) == Failed
    ensures forall n: nat, rest: bytes :: data == BigEndian32(n) + rest && |rest| < n < 0x8000_0000 ==> ReadBlock(data) == Failed
  {
    hide BigEndian32, ReadInt32;
    forall n: nat, rest: bytes | data == BigEndian32(n) + rest && |rest| < n < 0x8000_0000 ensures ReadBlock(data) == Failed {
      ReadLengths(0, n, rest);
    }
  }

  /** The fixed fields of a header. */
  function FixedBytes(c: RemotingCommand): (b: bytes)
    ensures |b| == 13
  {
    BigEndian16(c.code) + [c.language] + BigEndian16(c.version) + BigEndian32(c.requestId) + BigEndian32(c.flag)
  }

  /** A header of the command: fixed fields, remark block, ext block, and whatever follows. */
  ghost predicate IsHeader(data: bytes, c: RemotingCommand, remark: bytes, ext: bytes, es: seq<Entry>, rest: bytes) {
    && data == FixedBytes(c) + remark + ext + rest
    && IsBlock(remark, c.remark) && IsBlock(ext, EntriesBytes(es)) && EntriesOk(es)
    && c.extFields == (if es == [] then None else Some(Collected(map[], es))) && c.body == None
  }

  lemma FixedReads(data: bytes, c: RemotingCommand)
    requires |data| >= 13
    ensures data[..13] == FixedBytes(c) <==>
            && ReadInt16(data) == c.code && data[2] == c.language && ReadInt16(data[3..]) == c.version
            && ReadInt32(data[5..]) == c.requestId && ReadInt32(data[9..]) == c.flag
  {
    hide BigEndian16, BigEndian32, ReadInt16, ReadInt32;
    WriteBack(data);
    WriteBack(data[3..]);
    WriteBack(data[5..]);
    WriteBack(data[9..]);
    assert data[3..][..2] == data[3..5] && data[5..][..4] == data[5..9] && data[9..][..4] == data[9..13];
    assert data[..13] == data[..2] + [data[2]] + data[3..5] + data[5..9] + data[9..13];
    if data[..13] == FixedBytes(c) {
      FixedSeams(data, BigEndian16(c.code), c.language, BigEndian16(c.version), BigEndian32(c.requestId), BigEndian32(c.flag));
      ReadBack16(c.code, data[2..]);
      ReadBack16(c.version, data[5..]);
      ReadBack32(c.requestId, data[9..]);
      ReadBack32(c.flag, data[13..]);
    }
  }

  lemma FixedSeams(data: bytes, a: bytes, l: byte, v: bytes, d: bytes, e: bytes)
    requires |data| >= 13 && |a| == 2 && |v| == 2 && |d| == 4 && |e| == 4 && data[..13] == a + [l] + v + d + e
    ensures data == a + data[2..] && data[2] == l && data[3..] == v + data[5..]
    ensures data[5..] == d + data[9..] && data[9..] == e + data[13..]
  {
    var front := a + [l] + v + d + e;
    assert forall i | 0 <= i < 13 :: data[i] == front[i];
  }

  /** Where the blocks lie. */
  lemma HeaderCuts(data: bytes, fixed: bytes, remark: bytes, ext: bytes, rest: bytes)
    requires |fixed| == 13 && data == fixed + remark + ext + rest
    ensures |data| >= 13 + |remark| + |ext| && data[..13] == fixed
    ensures data[13..] == remark + ext + rest && data[13..][..|remark|] == remark
    ensures data[13 + |remark|..] == ext + rest && data[13 + |remark|..][..|ext|] == ext
  {
  }

  lemma FixedOf(c: RemotingCommand, d: RemotingCommand)
    requires c.code == d.code && c.language == d.language && c.version == d.version && c.requestId == d.requestId && c.flag == d.flag
    ensures FixedBytes(c) == FixedBytes(d)
  {
  }

  /** Decoding succeeds exactly on headers, and gives the command they are headers of: every field where its writer put
      it, the language byte included, whatever the writer. */
  lemma HeaderDecodesIff(data: bytes, c: RemotingCommand)
    ensures DecodeHeader(data) == Success(c) <==> exists remark, ext, es, rest :: IsHeader(data, c, remark, ext, es, rest)
  {
    hide FixedBytes, IsBlock, EntriesBytes, ReadBlock, ParseExt, ReadInt16, ReadInt32;
    if DecodeHeader(data) == Success(c) {
      var remark, ext, es, rest := DecodedIsHeader(data, c);
    }
    if remark, ext, es, rest :| IsHeader(data, c, remark, ext, es, rest) {
      HeaderIsDecoded(data, c, remark, ext, es, rest);
    }
  }

  lemma BlockLength(block: bytes, text: bytes)
    requires IsBlock(block, text)
    ensures |block| == 4 + |text|
  {
  }

  lemma HeaderIsDecoded(data: bytes, c: RemotingCommand, remark: bytes, ext: bytes, es: seq<Entry>, rest: bytes)
    requires IsHeader(data, c, remark, ext, es, rest)
    ensures DecodeHeader(data) == Success(c)
  {
    hide FixedBytes, IsBlock, EntriesBytes, ReadBlock, ParseExt, ReadInt16, ReadInt32;
    HeaderCuts(data, FixedBytes(c), remark, ext, rest);
    FixedReads(data, c);
    BlockLength(remark, c.remark);
    BlockLength(ext, EntriesBytes(es));
    BlockReadsIff(data[13..], c.remark);
    BlockReadsIff(data[13 + |remark|..], EntriesBytes(es));
    ExtParsesIff(EntriesBytes(es), map[], Collected(map[], es));
    EmptyEntries(es);
  }

  lemma EmptyEntries(es: seq<Entry>)
    ensures EntriesBytes(es) == [] <==> es == []
  {
    hide BigEndian32;
  }

  lemma DecodedIsHeader(data: bytes, c: RemotingCommand) returns (remark: bytes, ext: bytes, es: seq<Entry>, rest: bytes)
    requires DecodeHeader(data) == Success(c)
    ensures IsHeader(data, c, remark, ext, es, rest)
  {
    hide FixedBytes, IsBlock, EntriesBytes, ReadBlock, ParseExt, ReadInt16, ReadInt32;
    FixedReads(data, c);
    var m := 17 + |c.remark|;
    BlockReadsIff(data[13..], c.remark);
    var text := ReadBlock(data[m..]).value;
    BlockReadsIff(data[m..], text);
    remark, ext, rest := data[13..m], data[m..m + 4 + |text|], data[m + 4 + |text|..];
    assert data[13..][..4 + |c.remark|] == remark && data[m..][..4 + |text|] == ext;
    if text == [] {
      es := [];
    } else {
      es := ParsedEntries(text, map[]);
    }
    EmptyEntries(es);
    assert data == data[..13] + remark + ext + rest;
  }

  /** A header of any sender: the layout that encodeHeader writes, with any language byte in place of Go's 9, is read back
      with that language. */
  lemma AnySenderIsRead(language: byte, c: RemotingCommand, order: seq<bytes>)
    requires Enumerates(order, c.Ext()) && ShortKeys(c.Ext()) && |HeaderBytes(c, order)| < 0x8000_0000
    ensures |HeaderBytes(c, order)| >= 21 && HeaderBytes(c, order)[2] == 9
    ensures DecodeHeader(HeaderBytes(c, order)[2 := language]) == Success(AsReceived(c).(body := None, language := language))
  {
    hide HeaderBytes, DecodeHeader;
    HeaderIsLong(c, order);
    HeaderRoundTrip(c, order);
    LanguageIsRead(HeaderBytes(c, order), language);
  }

  lemma HeaderIsLong(c: RemotingCommand, order: seq<bytes>)
    requires Enumerates(order, c.Ext())
    ensures |HeaderBytes(c, order)| >= 21 && HeaderBytes(c, order)[2] == 9
  {
  }

  /** Only the language of the command depends on the third byte. */
  lemma LanguageIsRead(data: bytes, language: byte)
    requires |data| >= 13
    ensures DecodeHeader(data[2 := language]) ==
            match DecodeHeader(data)
            case Success(c) => Success(c.(language := language))
            case Failed => Failed
            case Panicked => Panicked
  {
    hide ParseExt, Wrap16, Wrap32;
    var other := data[2 := language];
    assert other[3..] == data[3..] && other[5..] == data[5..] && other[9..] == data[9..] && other[13..] == data[13..];
    forall n | 13 <= n <= |data| ensures other[n..] == data[n..] {}
  }

  /** A header whose remark or ext block announces more bytes than there are is refused, and so is one that ends before
      its second length. */
  lemma TruncatedFails(fixed: bytes, remark: bytes, text: bytes, n: nat, part: bytes)
    requires |fixed| == 13 && IsBlock(remark, text) && |part| < n < 0x8000_0000
    ensures DecodeHeader(fixed + BigEndian32(n) + part) == Failed
    ensures DecodeHeader(fixed + remark + BigEndian32(n) + part) == Failed
    ensures forall k | 0 <= k < 4 :: DecodeHeader(fixed + remark + BigEndian32(n)[..k]) == Failed
  {
    hide ReadBlock, ParseExt, BigEndian32, ReadInt16, ReadInt32, IsBlock;
    var data, more := fixed + BigEndian32(n) + part, fixed + remark + BigEndian32(n) + part;
    ShortBlockFails(data[13..]);
    assert data[13..] == BigEndian32(n) + part;
    TextInFront(fixed, remark, text, BigEndian32(n) + part);
    assert more == fixed + remark + (BigEndian32(n) + part);
    ShortBlockFails(BigEndian32(n) + part);
    forall k | 0 <= k < 4 ensures DecodeHeader(fixed + remark + BigEndian32(n)[..k]) == Failed {
      TextInFront(fixed, remark, text, BigEndian32(n)[..k]);
      ShortBlockFails(BigEndian32(n)[..k]);
    }
  }

  lemma TextInFront(fixed: bytes, remark: bytes, text: bytes, behind: bytes)
    requires |fixed| == 13 && IsBlock(remark, text)
    ensures var data := fixed + remark + behind;
            |data| >= 17 + |text| && ReadBlock(data[13..]) == Success(text) && data[17 + |text|..] == behind
  {
    hide ReadBlock, IsBlock;
    var data := fixed + remark + behind;
    BlockLength(remark, text);
    BlockReadsIff(data[13..], text);
    assert data[13..] == remark + behind && data[13..][..|remark|] == remark;
  }

  /** No proper prefix of a written header is one: cut anywhere, it is refused. */
  lemma CutShortFails(c: RemotingCommand, order: seq<bytes>, n: nat)
    requires Enumerates(order, c.Ext()) && n < |HeaderBytes(c, order)| < 0x8000_0000
    ensures DecodeHeader(HeaderBytes(c, order)[..n]) == Failed
  {
    hide ReadBlock, ParseExt, BigEndian16, BigEndian32, ReadInt16, ReadInt32, ExtBytes;
    var ext := ExtBytes(order, c.Ext());
    var fixed := FixedBytes(c.(language := GO_LANGUAGE));
    var remark, last := BigEndian32(|c.remark|) + c.remark, BigEndian32(|ext|) + ext;
    var h := fixed + remark + last;
    assert HeaderBytes(c, order) == h;
    if n >= 13 {
      var m := 13 + |remark|;
      if n < m {
        assert h[..n][13..] == remark[..n - 13];
        CutBlock(c.remark, n - 13);
      } else {
        assert h[..n] == fixed + remark + last[..n - m];
        WrittenBlock(c.remark);
        TextInFront(fixed, remark, c.remark, last[..n - m]);
        CutBlock(ext, n - m);
      }
    }
  }

  lemma WrittenBlock(text: bytes)
    requires |text| < 0x8000_0000
    ensures IsBlock(BigEndian32(|text|) + text, text)
  {
    assert BigEndian32(0) == [0, 0, 0, 0];
  }

  lemma CutBlock(text: bytes, n: nat)
    requires n < 4 + |text| < 0x8000_0000
    ensures ReadBlock((BigEndian32(|text|) + text)[..n]) == Failed
  {
    hide BigEndian32, ReadBlock;
    var block := BigEndian32(|text|) + text;
    if n >= 4 {
      assert block[..n] == BigEndian32(|text|) + text[..n - 4];
    }
    ShortBlockFails(block[..n]);
  }

  // ---------------------------------------------------------------------------
  // The frame around it
  // ---------------------------------------------------------------------------

  /** A frame is its length, the codec, three bytes of header length, header and body. */
  lemma FrameLayout(codec: byte, a: byte, b: byte, c: byte, header: bytes, body: bytes)
    requires |header| == a as int * 0x1_0000 + b as int * 0x100 + c as int
    ensures Frame(codec, header, body) == BigEndian32(4 + |header| + |body|) + [codec, a, b, c] + header + body
  {
    hide BigEndian32;
    MarkBytes(codec, a, b, c);
    var mark := MarkProtocolType(codec, |header|);
    assert BigEndian32(4 + |header| + |body|) + (mark + header + body) == BigEndian32(4 + |header| + |body|) + mark + header + body;
  }

  lemma MarkBytes(codec: byte, a: byte, b: byte, c: byte)
    ensures MarkProtocolType(codec, a as int * 0x1_0000 + b as int * 0x100 + c as int) == [codec, a, b, c]
  {
    var h := a as int * 0x100 + b as int;
    var n := h * 0x100 + c as int;
    assert n / 0x100 == h && n / 0x1_0000 == a as int;
  }

  /** Decoding a frame without its length: codec 0 is JSON, codec 1 the private header, no other is known; an empty body
      is none. */
  lemma PayloadReads(json: bytes -> Outcome<RemotingCommand>, codec: byte, a: byte, b: byte, c: byte, header: bytes, body: bytes)
    requires |header| == a as int * 0x1_0000 + b as int * 0x100 + c as int && |body| < 0x8000_0000
    ensures var decoded := if codec == 0 then json(header) else if codec == 1 then DecodeHeader(header) else Failed;
            Decode(json, [codec, a, b, c] + header + body) ==
            match decoded
            case Success(cmd) => Success(if body == [] then cmd else cmd.(body := Some(body)))
            case Failed => Failed
            case Panicked => Panicked
  {
    hide Decode, DecodeHeader, ReadUint32;
    MarkValue(codec, a, b, c, header + body);
    DecodeParts(json, [codec, a, b, c], header, body);
    assert body[..|body|] == body;
  }

  lemma MarkValue(codec: byte, a: byte, b: byte, c: byte, rest: bytes)
    ensures ReadUint32([codec, a, b, c] + rest) % 0x100_0000 == a as int * 0x1_0000 + b as int * 0x100 + c as int
  {
    var n := a as int * 0x1_0000 + b as int * 0x100 + c as int;
    assert ReadUint32([codec, a, b, c] + rest) == codec as int * 0x100_0000 + n;
  }

  /** A payload without its mark, or with a header longer than the payload, is refused. */
  lemma ShortPayloadFails(json: bytes -> Outcome<RemotingCommand>, codec: byte, a: byte, b: byte, c: byte, data: bytes, rest: bytes)
    ensures |data| < 4 ==> Decode(json, data) == Failed
    ensures |rest| < a as int * 0x1_0000 + b as int * 0x100 + c as int ==> Decode(json, [codec, a, b, c] + rest) == Failed
  {
    hide ReadUint32, DecodeHeader;
    MarkValue(codec, a, b, c, rest);
  }
}
