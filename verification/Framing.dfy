/** rocketmq/client/remote/remote_client.go: cutting the byte stream of a connection into frames again. */
module Framing {
  import opened Common
  import opened Bytes
  import opened Codec

  /** The scanner's buffer limit: a frame that does not fit ends the scan. */
  const MAX_TOKEN_SIZE: nat := 128 * 1024 * 1024

  /** A connection as its reader sees it: the bytes that were sent and not read yet. */
  class Wire {
    var unread: bytes

    constructor ()
      ensures unread == []
    {
      unread := [];
    }

    method Write(data: bytes)
      modifies this
      ensures unread == old(unread) + data
    {
      unread := unread + data;
    }

    /** One Read: any positive number of bytes up to `limit`, or none at the end of the stream. */
    method Read(limit: nat) returns (chunk: bytes)
      requires limit > 0
      modifies this
      ensures chunk + unread == old(unread) && |chunk| <= limit
      ensures chunk == [] <==> old(unread) == []
    {
      if unread == [] {
        return [];
      }
      var n :| 1 <= n <= limit && n <= |unread|;
      chunk, unread := unread[..n], unread[n..];
    }

    /** io.ReadFull: exactly `n` bytes however they arrive, or `None` when the stream ends first. */
    method ReadFull(n: nat) returns (r: Option<bytes>)
      modifies this
      ensures |old(unread)| >= n ==> r == Some(old(unread)[..n]) && unread == old(unread)[n..]
      ensures |old(unread)| < n ==> r == None
    {
      var buf := [];
      while |buf| < n
        invariant |buf| <= n && buf + unread == old(unread)
        decreases n - |buf|
      {
        var chunk := Read(n - |buf|);
        if chunk == [] {
          return None;
        }
        buf := buf + chunk;
      }
      return Some(buf);
    }
  }

  /** The payloads of the complete frames at the front of a stream, up to a negative frame length. */
  function Payloads(stream: bytes): seq<bytes>
    decreases |stream|
  {
    if |stream| < 4 then []
    else
      var n := ReadInt32(stream);
      if n < 0 || |stream| < 4 + n then []
      else [stream[4..4 + n]] + Payloads(stream[4 + n..])
  }

  /** The commands decoded from payloads: one that fails is skipped, one that panics ends the reader. */
  function Delivered(json: bytes -> Outcome<RemotingCommand>, payloads: seq<bytes>): seq<RemotingCommand> {
    if payloads == [] then []
    else
      match Decode(json, payloads[0])
      case Success(c) => [c] + Delivered(json, payloads[1..])
      case Failed => Delivered(json, payloads[1..])
      case Panicked => []
  }

  /** WriteTo: four writes, one frame. */
  method WriteTo(c: RemotingCommand, w: Wire) returns (ghost order: seq<bytes>)
    modifies w
    ensures Enumerates(order, c.Ext())
    ensures w.unread == old(w.unread) + Frame(ROCKETMQ_CODECS, HeaderBytes(c, order), c.Body())
  {
    hide BigEndian32, MarkProtocolType, HeaderBytes;
    var header;
    header, order := EncodeHeader(c);
    w.Write(BigEndian32(4 + |header| + |c.Body()|));
    w.Write(MarkProtocolType(ROCKETMQ_CODECS, |header|));
    w.Write(header);
    w.Write(c.Body());
    assert w.unread == old(w.unread) + Frame(ROCKETMQ_CODECS, header, c.Body());
  }

  lemma {:induction false} DeliveredAppend(json: bytes -> Outcome<RemotingCommand>, ps: seq<bytes>, qs: seq<bytes>)
    requires forall p | p in ps :: !Decode(json, p).Panicked?
    ensures Delivered(json, ps + qs) == Delivered(json, ps) + Delivered(json, qs)
    decreases |ps|
  {
    hide Decode;
    if ps == [] {
      assert ps + qs == qs;
    } else {
      assert (ps + qs)[1..] == ps[1..] + qs;
      DeliveredAppend(json, ps[1..], qs);
    }
  }

  lemma LengthIsInFront(stream: bytes, front: bytes)
    requires |stream| >= 4 && |front| >= 4 && front[..4] == stream[..4]
    ensures ReadInt32(front) == ReadInt32(stream)
  {
    assert front[0] == front[..4][0] && front[1] == front[..4][1] && front[2] == front[..4][2] && front[3] == front[..4][3];
  }

  /** receiveResponse, from the first byte to the end of the stream (or to a panic, which ends the reader). */
  method ReceiveResponse(json: bytes -> Outcome<RemotingCommand>, r: Wire) returns (commands: seq<RemotingCommand>)
    modifies r
    ensures commands == Delivered(json, Payloads(old(r.unread)))
  {
    hide Decode, ReadInt32;
    commands := [];
    while true
      invariant commands + Delivered(json, Payloads(r.unread)) == Delivered(json, Payloads(old(r.unread)))
      decreases |r.unread|
    {
      ghost var stream := r.unread;
      var header := r.ReadFull(4);
      if header == None {
        return;
      }
      var length := ReadInt32(header.value);
      LengthIsInFront(stream, header.value);
      if length < 0 {
        return;
      }
      var buf := r.ReadFull(length);
      if buf == None {
        return;
      }
      assert stream[4..][..length] == stream[4..4 + length] && stream[4..][length..] == stream[4 + length..];
      assert Payloads(stream) == [buf.value] + Payloads(r.unread);
      match Decode(json, buf.value) {
        case Success(c) => commands := commands + [c];
        case Failed =>
        case Panicked => return;
      }
    }
  }

  // ---------------------------------------------------------------------------
  // The scanner of the tests and servers
  // ---------------------------------------------------------------------------

  /** The split function of createScanner: how far to advance, and the token if there is one.
      A negative length makes its slice expression panic; the deferred recover turns that into (0, nil, nil). */
  function SplitFrame(data: bytes, atEof: bool): (nat, Option<bytes>) {
    if atEof || |data| < 4 then (0, None)
    else
      var length := ReadInt32(data);
      if length < 0 || |data| < 4 + length then (0, None)
      else (4 + length, Some(data[4..4 + length]))
  }

  /** The longest prefix of frames that fit the scanner's buffer. */
  function Fitting(payloads: seq<bytes>): seq<bytes> {
    if payloads == [] || 4 + |payloads[0]| > MAX_TOKEN_SIZE then []
    else [payloads[0]] + Fitting(payloads[1..])
  }

  lemma SplitSees(buf: bytes, unread: bytes)
    ensures var (advance, token) := SplitFrame(buf, false);
            && (token.Some? ==>
                  && |buf| >= advance == 4 + |token.value|
                  && Payloads(buf + unread) == [token.value] + Payloads(buf[advance..] + unread))
            && (token.None? && unread == [] ==> Payloads(buf) == [])
            && (token.None? && |buf| >= MAX_TOKEN_SIZE ==> Fitting(Payloads(buf + unread)) == [])
    ensures SplitFrame(buf, true) == (0, None)
  {
    hide ReadInt32;
    var stream := buf + unread;
    if |buf| >= 4 {
      assert stream[..4] == buf[..4];
      LengthIsInFront(stream, buf);
      var n := ReadInt32(buf);
      if 0 <= n && 4 + n <= |buf| {
        assert stream[4..4 + n] == buf[4..4 + n];
        assert stream[4 + n..] == buf[4 + n..] + unread;
      }
    }
  }

  /** bufio.Scanner over the split function: it asks for more bytes only when the split finds no token,
      gives up when its buffer is full, and sees the end of the stream on a read of its own. */
  method Scan(r: Wire) returns (tokens: seq<bytes>)
    modifies r
    ensures tokens == Fitting(Payloads(old(r.unread)))
  {
    hide SplitFrame, Payloads;
    tokens := [];
    var buf, eof := [], false;
    assert buf + r.unread == r.unread;
    while true
      invariant |buf| <= MAX_TOKEN_SIZE
      invariant tokens + Fitting(Payloads(buf + r.unread)) == Fitting(Payloads(old(r.unread)))
      invariant eof ==> Payloads(buf + r.unread) == []
      decreases |buf| + |r.unread|, MAX_TOKEN_SIZE - |buf|, !eof
    {
      if eof {
        return;
      }
      SplitSees(buf, r.unread);
      var (advance, token) := SplitFrame(buf, eof);
      if token.Some? {
        tokens := tokens + [token.value];
        buf := buf[advance..];
      } else if |buf| >= MAX_TOKEN_SIZE {
        return;
      } else {
        ghost var stream := buf + r.unread;
        var chunk := r.Read(MAX_TOKEN_SIZE - |buf|);
        if chunk == [] {
          eof := true;
          assert buf + r.unread == buf;
        }
        buf := buf + chunk;
        assert buf + r.unread == stream;
      }
    }
  }

  /** Receive loop and scanner cut every stream into the same payloads exactly when no frame outgrows the scanner. */
  lemma {:induction false} ScannerAgreesIff(payloads: seq<bytes>)
    ensures Fitting(payloads) <= payloads
    ensures Fitting(payloads) == payloads <==> forall p | p in payloads :: 4 + |p| <= 134_217_728
    ensures forall p | p in Fitting(payloads) :: 4 + |p| <= 134_217_728
    ensures |Fitting(payloads)| < |payloads| ==> 4 + |payloads[|Fitting(payloads)|]| > 134_217_728
  {
    if payloads != [] {
      ScannerAgreesIff(payloads[1..]);
      assert payloads == [payloads[0]] + payloads[1..];
    }
  }

  // ---------------------------------------------------------------------------
  // From WriteTo to the reader
  // ---------------------------------------------------------------------------

  /** A command with one order of its ext fields, within the limits of the codec and of a frame. */
  ghost predicate Sendable(c: RemotingCommand, order: seq<bytes>) {
    && Enumerates(order, c.Ext()) && Encodable(c, order)
    && 4 + |HeaderBytes(c, order)| + |c.Body()| < 0x8000_0000
  }

  ghost predicate AllSendable(cs: seq<RemotingCommand>, orders: seq<seq<bytes>>) {
    |cs| == |orders| && forall i | 0 <= i < |cs| :: Sendable(cs[i], orders[i])
  }

  /** The stream that a sequence of WriteTo calls leaves on the wire. */
  ghost function Written(cs: seq<RemotingCommand>, orders: seq<seq<bytes>>): bytes
    requires AllSendable(cs, orders)
  {
    if cs == [] then []
    else Frame(ROCKETMQ_CODECS, HeaderBytes(cs[0], orders[0]), cs[0].Body()) + Written(cs[1..], orders[1..])
  }

  function AllAsReceived(cs: seq<RemotingCommand>): seq<RemotingCommand> {
    if cs == [] then [] else [AsReceived(cs[0])] + AllAsReceived(cs[1..])
  }

  lemma FirstPayload(prefix: bytes, payload: bytes, rest: bytes)
    requires |prefix| == 4 && ReadInt32(prefix + (payload + rest)) == |payload|
    ensures Payloads(prefix + payload + rest) == [payload] + Payloads(rest)
  {
    hide ReadInt32;
    assert prefix + payload + rest == prefix + (payload + rest);
    Seams(prefix, payload, rest, []);
    assert prefix + payload + rest + [] == prefix + payload + rest;
    assert rest + [] == rest;
  }

  /** Everything written arrives: in order, once, and whatever bytes follow are read from a frame boundary. */
  lemma {:induction false} WrittenArrives(json: bytes -> Outcome<RemotingCommand>, cs: seq<RemotingCommand>, orders: seq<seq<bytes>>,
                                          tail: bytes)
    requires AllSendable(cs, orders)
    ensures Delivered(json, Payloads(Written(cs, orders) + tail)) == AllAsReceived(cs) + Delivered(json, Payloads(tail))
    decreases |cs|
  {
    hide Decode, ReadInt32, BigEndian32, HeaderBytes, MarkProtocolType, Encodable, AsReceived;
    if cs == [] {
      assert Written(cs, orders) + tail == tail;
    } else {
      var c := cs[0];
      var header := HeaderBytes(c, orders[0]);
      var payload := Payload(ROCKETMQ_CODECS, header, c.Body());
      var prefix := BigEndian32(|payload|);
      var rest := Written(cs[1..], orders[1..]) + tail;
      assert Sendable(c, orders[0]);
      assert |payload| == 4 + |header| + |c.Body()|;
      assert Written(cs, orders) + tail == prefix + payload + rest;
      ReadBack32(|payload|, payload + rest);
      FirstPayload(prefix, payload, rest);
      assert Frame(ROCKETMQ_CODECS, header, c.Body())[4..] == payload;
      RoundTripIff(json, c, orders[0]);
      WrittenArrives(json, cs[1..], orders[1..], tail);
    }
  }

  /** The command is the next one the reader delivers, and the reader goes on behind it. */
  ghost predicate Arrives(json: bytes -> Outcome<RemotingCommand>, c: RemotingCommand, order: seq<bytes>, tail: bytes)
    requires Enumerates(order, c.Ext())
  {
    Delivered(json, Payloads(Frame(ROCKETMQ_CODECS, HeaderBytes(c, order), c.Body()) + tail)) ==
    [AsReceived(c)] + Delivered(json, Payloads(tail))
  }

  /** A frame whose length field was cut to 32 bits reads as one of negative length, which ends the reader. */
  lemma LongFrameEndsReader(header: bytes, body: bytes, tail: bytes)
    requires 0x8000_0000 <= 4 + |header| + |body| < 0x1_0000_0000
    ensures Payloads(Frame(ROCKETMQ_CODECS, header, body) + tail) == []
  {
    hide BigEndian32, ReadInt32;
    var payload := Payload(ROCKETMQ_CODECS, header, body);
    ReadBack32(|payload|, payload + tail);
    assert Frame(ROCKETMQ_CODECS, header, body) + tail == BigEndian32(|payload|) + (payload + tail);
  }

  /** A command that the codec can carry arrives, whatever follows it, exactly when its whole frame stays below 2 GiB. */
  lemma FrameArrivesIff(json: bytes -> Outcome<RemotingCommand>, c: RemotingCommand, order: seq<bytes>, tail: bytes)
    requires Enumerates(order, c.Ext()) && Encodable(c, order)
    ensures Arrives(json, c, order, tail) <==> 4 + |HeaderBytes(c, order)| + |c.Body()| < 0x8000_0000
  {
    hide Decode, Payloads, Encodable, HeaderBytes, Frame;
    var header := HeaderBytes(c, order);
    if 4 + |header| + |c.Body()| < 0x8000_0000 {
      OneWritten(c, order);
      WrittenArrives(json, [c], [order], tail);
      assert AllAsReceived([c]) == [AsReceived(c)] + AllAsReceived([]);
    } else {
      assert |header| < 0x100_0000 && |c.Body()| < 0x8000_0000 by {
        EncodableLengths(c, order);
      }
      LongFrameEndsReader(header, c.Body(), tail);
    }
  }

  lemma EncodableLengths(c: RemotingCommand, order: seq<bytes>)
    requires Enumerates(order, c.Ext()) && Encodable(c, order)
    ensures |HeaderBytes(c, order)| < 0x100_0000 && |c.Body()| < 0x8000_0000
  {
  }

  lemma OneWritten(c: RemotingCommand, order: seq<bytes>)
    requires Sendable(c, order)
    ensures Written([c], [order]) == Frame(ROCKETMQ_CODECS, HeaderBytes(c, order), c.Body())
  {
    hide HeaderBytes, Frame, Encodable;
    assert Written([c], [order]) == Frame(ROCKETMQ_CODECS, HeaderBytes(c, order), c.Body()) + Written([], []);
  }

  lemma {:induction false} DeliveredWasDecoded(json: bytes -> Outcome<RemotingCommand>, payloads: seq<bytes>)
    returns (payload: bytes)
    requires Delivered(json, payloads) != []
    ensures Decode(json, payload) == Success(Delivered(json, payloads)[0])
  {
    hide Decode;
    payload := payloads[0];
    if !Decode(json, payload).Success? {
      payload := DeliveredWasDecoded(json, payloads[1..]);
    }
  }

  /** Over all commands: whatever follows it and however JSON headers are read, a command arrives exactly when it is
      within the limits of the codec and of a frame. */
  lemma ArrivesIff(c: RemotingCommand, order: seq<bytes>)
    requires Enumerates(order, c.Ext())
    ensures (forall json, tail :: Arrives(json, c, order, tail)) <==> Sendable(c, order)
  {
    hide Decode, Payloads, Encodable, HeaderBytes, Frame, AsReceived;
    if Sendable(c, order) {
      forall json, tail ensures Arrives(json, c, order, tail) {
        FrameArrivesIff(json, c, order, tail);
      }
    } else {
      var refuse: bytes -> Outcome<RemotingCommand> := header => Failed;
      if Arrives(refuse, c, order, []) {
        var payload := DeliveredWasDecoded(refuse, Payloads(Frame(ROCKETMQ_CODECS, HeaderBytes(c, order), c.Body()) + []));
        RefusedCodec(payload, refuse);
        DecodedIsEncodable(refuse, payload, c, order);
        FrameArrivesIff(refuse, c, order, []);
      }
    }
  }

  lemma RefusedCodec(payload: bytes, json: bytes -> Outcome<RemotingCommand>)
    requires Decode(json, payload).Success? && forall header :: json(header).Failed?
    ensures payload[0] != JSON_CODECS
  {
  }

  /** The stream ends where a frame ends. */
  ghost predicate AtBoundary(stream: bytes)
    decreases |stream|
  {
    stream == [] ||
    (|stream| >= 4 && var n := ReadInt32(stream); n >= 0 && |stream| >= 4 + n && AtBoundary(stream[4 + n..]))
  }

  lemma {:induction false} PayloadsAppend(stream: bytes, more: bytes)
    requires AtBoundary(stream)
    ensures Payloads(stream + more) == Payloads(stream) + Payloads(more)
    decreases |stream|
  {
    hide ReadInt32;
    if stream == [] {
      assert stream + more == more;
    } else {
      var n, all := ReadInt32(stream), stream + more;
      assert all[..4] == stream[..4];
      LengthIsInFront(all, stream);
      assert all[4..4 + n] == stream[4..4 + n] && all[4 + n..] == stream[4 + n..] + more;
      PayloadsAppend(stream[4 + n..], more);
    }
  }

  /** Reading a stream that ends with a frame, none of which panics, and then another one is reading both as one. */
  lemma StreamsAppend(json: bytes -> Outcome<RemotingCommand>, stream: bytes, more: bytes)
    requires AtBoundary(stream) && forall p | p in Payloads(stream) :: !Decode(json, p).Panicked?
    ensures Delivered(json, Payloads(stream + more)) == Delivered(json, Payloads(stream)) + Delivered(json, Payloads(more))
  {
    PayloadsAppend(stream, more);
    DeliveredAppend(json, Payloads(stream), Payloads(more));
  }

  lemma FirstFrame(json: bytes -> Outcome<RemotingCommand>, payload: bytes, rest: bytes)
    requires |payload| < 0x8000_0000
    ensures var frame := BigEndian32(|payload|) + payload;
            Delivered(json, Payloads(frame + rest)) ==
            match Decode(json, payload)
            case Success(c) => [c] + Delivered(json, Payloads(rest))
            case Failed => Delivered(json, Payloads(rest))
            case Panicked => []
  {
    hide Decode, ReadInt32, BigEndian32;
    ReadBack32(|payload|, payload + rest);
    FirstPayload(BigEndian32(|payload|), payload, rest);
  }

  /** There is a stream from which a command is read. */
  lemma SomeCommandArrives(json: bytes -> Outcome<RemotingCommand>) returns (stream: bytes)
    ensures Delivered(json, Payloads(stream)) != []
  {
    hide Decode, Payloads, Delivered;
    var c := RemotingCommand(0, GO_LANGUAGE, 0, 0, 0, [], None, None);
    var none: seq<bytes> := [];
    assert |HeaderBytes(c, none)| == 21;
    assert Sendable(c, none);
    stream := Written([c], [none]) + [];
    WrittenArrives(json, [c], [none], []);
  }

  /** A frame is skipped without a trace, whatever follows it, exactly when its payload fails to decode: one that decodes
      is delivered, and one on which decoding panics ends the reader. */
  lemma BadFrameIsSkippedIff(json: bytes -> Outcome<RemotingCommand>, payload: bytes)
    requires |payload| < 0x8000_0000
    ensures (forall rest :: Delivered(json, Payloads(BigEndian32(|payload|) + payload + rest)) == Delivered(json, Payloads(rest)))
            <==> Decode(json, payload).Failed?
  {
    hide Decode, Payloads, BigEndian32, Delivered;
    forall rest
      ensures Delivered(json, Payloads(BigEndian32(|payload|) + payload + rest)) ==
              match Decode(json, payload)
              case Success(c) => [c] + Delivered(json, Payloads(rest))
              case Failed => Delivered(json, Payloads(rest))
              case Panicked => []
    {
      FirstFrame(json, payload, rest);
    }
    var stream := SomeCommandArrives(json);
    var frame := BigEndian32(|payload|) + payload;
    if !Decode(json, payload).Failed? {
      assert Delivered(json, Payloads(frame + stream)) != Delivered(json, Payloads(stream));
    }
  }

  /** A key of negative length is such a payload: the header decoder panics on it. */
  lemma NegativeKeyPanics(fields: Fields)
    ensures ParseExt(BigEndian16(-1), fields).Panicked?
  {
    ReadBack16(-1, []);
    assert BigEndian16(-1) + [] == BigEndian16(-1);
  }
}
