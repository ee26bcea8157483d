/** wecom/wxbizmsgcrypt.go: the message envelope, layer by layer, and the way back. */
module Wecom {
  import opened Common
  import opened Bytes
  import opened Ordering

  const BLOCK_SIZE := 32
  const AES_BLOCK_SIZE := 16

  const DECRYPT_AES_ERROR := -40007
  const DECODE_BASE64_ERROR := -40010
  const VALIDATE_SIGNATURE_ERROR := -40001
  const VALIDATE_CORPID_ERROR := -40005
  const ILLEGAL_BUFFER := -40008
  const PARSE_XML_ERROR := -40002
  const ENCRYPT_AES_ERROR := -40006
  const GEN_XML_ERROR := -40010

  /** A call that returns a value, a CryptError with its code, or panics on a slice bound. */
  datatype Result<+T> = Ok(value: T) | Error(code: int) | Panic

  /** A block cipher under a fixed key. */
  datatype Cipher = Cipher(enc: bytes -> bytes, dec: bytes -> bytes)

  ghost predicate CipherOk(c: Cipher) {
    forall b: bytes | |b| == AES_BLOCK_SIZE :: |c.enc(b)| == AES_BLOCK_SIZE && |c.dec(b)| == AES_BLOCK_SIZE && c.dec(c.enc(b)) == b
  }

  // ---------------------------------------------------------------------------
  // Padding (section 6.3 of RFC 5652, block size 32)
  // ---------------------------------------------------------------------------

  function Repeat(b: byte, n: nat): bytes {
    seq(n, _ => b)
  }

  function Pad(text: bytes): bytes {
    var padding := BLOCK_SIZE - |text| % BLOCK_SIZE;
    text + Repeat(padding, padding)
  }

  /** pKCS7Unpadding: the last byte is believed; one larger than the text is a slice that panics. */
  function Unpad(text: bytes): Result<bytes> {
    if |text| == 0 || |text| % BLOCK_SIZE != 0 then Error(DECRYPT_AES_ERROR)
    else
      var padding := text[|text| - 1];
      if padding > |text| then Panic else Ok(text[..|text| - padding])
  }

  lemma UnpadUndoesPad(text: bytes)
    ensures |Pad(text)| % BLOCK_SIZE == 0 && Unpad(Pad(text)) == Ok(text)
  {
    var padding := BLOCK_SIZE - |text| % BLOCK_SIZE;
    assert Pad(text)[|Pad(text)| - 1] == padding;
    assert Pad(text)[..|text|] == text;
  }

  // ---------------------------------------------------------------------------
  // Cipher block chaining (section 6.2 of NIST SP 800-38A)
  // ---------------------------------------------------------------------------

  /** Exclusive or of the low `k` bits. */
  function XorBits(a: nat, b: nat, k: nat): nat {
    if k == 0 then 0 else (a % 2 + b % 2) % 2 + 2 * XorBits(a / 2, b / 2, k - 1)
  }

  function Pow2(k: nat): nat {
    if k == 0 then 1 else 2 * Pow2(k - 1)
  }

  lemma Halves(bit: nat, rest: nat)
    requires bit < 2
    ensures (bit + 2 * rest) % 2 == bit && (bit + 2 * rest) / 2 == rest
  {
  }

  lemma BitTwice(x: nat, y: nat)
    ensures ((x % 2 + y % 2) % 2 + y % 2) % 2 + 2 * (x / 2) == x
  {
  }

  lemma XorUnfolds(a: nat, b: nat, k: nat)
    ensures XorBits(a, b, k) == if k == 0 then 0 else (a % 2 + b % 2) % 2 + 2 * XorBits(a / 2, b / 2, k - 1)
  {
  }

  lemma {:induction false} XorTwice(a: nat, b: nat, k: nat)
    requires a < Pow2(k)
    ensures XorBits(a, b, k) < Pow2(k)
    ensures XorBits(XorBits(a, b, k), b, k) == a
  {
    hide XorBits;
    XorUnfolds(a, b, k);
    XorUnfolds(XorBits(a, b, k), b, k);
    if k > 0 {
      XorTwice(a / 2, b / 2, k - 1);
      Halves((a % 2 + b % 2) % 2, XorBits(a / 2, b / 2, k - 1));
      BitTwice(a, b);
    }
  }

  function XorByte(a: byte, b: byte): byte {
    ByteXorTwice(a, b);
    XorBits(a, b, 8)
  }

  lemma ByteXorTwice(a: byte, b: byte)
    ensures XorBits(a, b, 8) < 256 && XorBits(XorBits(a, b, 8), b, 8) == a
  {
    assert Pow2(8) == 256 by {
      assert Pow2(4) == 16;
      assert Pow2(8) == 16 * Pow2(4);
    }
    XorTwice(a, b, 8);
  }

  function Xor(a: bytes, b: bytes): (r: bytes)
    requires |a| == |b|
    ensures |r| == |a|
  {
    seq(|a|, i requires 0 <= i < |a| => XorByte(a[i], b[i]))
  }

  lemma XorCancels(a: bytes, b: bytes)
    requires |a| == |b|
    ensures Xor(Xor(a, b), b) == a
  {
    forall i | 0 <= i < |a| ensures Xor(Xor(a, b), b)[i] == a[i] {
      ByteXorTwice(a[i], b[i]);
    }
  }

  function CbcEncrypt(c: Cipher, iv: bytes, text: bytes): (r: bytes)
    requires |iv| == AES_BLOCK_SIZE && |text| % AES_BLOCK_SIZE == 0 && CipherOk(c)
    ensures |r| == |text|
    decreases |text|
  {
    if text == [] then []
    else
      var block := c.enc(Xor(text[..AES_BLOCK_SIZE], iv));
      block + CbcEncrypt(c, block, text[AES_BLOCK_SIZE..])
  }

  function CbcDecrypt(c: Cipher, iv: bytes, data: bytes): (r: bytes)
    requires |iv| == AES_BLOCK_SIZE && |data| % AES_BLOCK_SIZE == 0 && CipherOk(c)
    ensures |r| == |data|
    decreases |data|
  {
    if data == [] then []
    else Xor(c.dec(data[..AES_BLOCK_SIZE]), iv) + CbcDecrypt(c, data[..AES_BLOCK_SIZE], data[AES_BLOCK_SIZE..])
  }

  lemma {:induction false} CbcRoundTrip(c: Cipher, iv: bytes, text: bytes)
    requires |iv| == AES_BLOCK_SIZE && |text| % AES_BLOCK_SIZE == 0 && CipherOk(c)
    ensures CbcDecrypt(c, iv, CbcEncrypt(c, iv, text)) == text
    decreases |text|
  {
    if text != [] {
      var first, rest := text[..AES_BLOCK_SIZE], text[AES_BLOCK_SIZE..];
      var block := c.enc(Xor(first, iv));
      var data := CbcEncrypt(c, iv, text);
      assert data[..AES_BLOCK_SIZE] == block && data[AES_BLOCK_SIZE..] == CbcEncrypt(c, block, rest);
      XorCancels(first, iv);
      CbcRoundTrip(c, block, rest);
      assert text == first + rest;
    }
  }

  /** The block before position `end`, which the block at `end` is chained to. */
  function Previous(iv: bytes, data: bytes, end: nat): (r: bytes)
    requires |iv| == AES_BLOCK_SIZE && end <= |data| && end % AES_BLOCK_SIZE == 0
    ensures |r| == AES_BLOCK_SIZE
  {
    if end == 0 then iv else data[end - AES_BLOCK_SIZE..end]
  }

  /** The plain text of everything from position `end` on. */
  function PlainFrom(c: Cipher, iv: bytes, data: bytes, end: nat): (r: bytes)
    requires |iv| == AES_BLOCK_SIZE && |data| % AES_BLOCK_SIZE == 0 && CipherOk(c)
    requires end <= |data| && end % AES_BLOCK_SIZE == 0
    ensures |r| == |data| - end
  {
    CbcDecrypt(c, Previous(iv, data, end), data[end..])
  }

  lemma DecryptStep(c: Cipher, iv: bytes, data: bytes, start: nat)
    requires |iv| == AES_BLOCK_SIZE && |data| % AES_BLOCK_SIZE == 0 && CipherOk(c)
    requires start % AES_BLOCK_SIZE == 0 && start + AES_BLOCK_SIZE <= |data|
    ensures |c.dec(data[start..start + AES_BLOCK_SIZE])| == AES_BLOCK_SIZE
    ensures PlainFrom(c, iv, data, start)
            == Xor(c.dec(data[start..start + AES_BLOCK_SIZE]), Previous(iv, data, start))
               + PlainFrom(c, iv, data, start + AES_BLOCK_SIZE)
  {
    var end := start + AES_BLOCK_SIZE;
    assert data[start..][..AES_BLOCK_SIZE] == data[start..end] && data[start..][AES_BLOCK_SIZE..] == data[end..];
  }

  lemma PlainFromStart(c: Cipher, iv: bytes, data: bytes)
    requires |iv| == AES_BLOCK_SIZE && |data| % AES_BLOCK_SIZE == 0 && CipherOk(c)
    ensures PlainFrom(c, iv, data, 0) == CbcDecrypt(c, iv, data)
  {
    assert data[0..] == data;
  }

  method WriteBlock(buf: array<byte>, start: nat, block: bytes)
    requires start + |block| <= buf.Length
    modifies buf
    ensures buf[..] == old(buf[..])[..start] + block + old(buf[..])[start + |block|..]
  {
    ghost var before := buf[..];
    for i := 0 to |block|
      invariant buf[..] == before[..start] + block[..i] + before[start + i..]
    {
      buf[start + i] := block[i];
    }
  }

  lemma UntouchedPrefix(data: bytes, end: nat, tail: bytes, start: nat)
    requires start + AES_BLOCK_SIZE == end <= |data|
    ensures var cur := data[..end] + tail;
            && cur[..start] == data[..start] && cur[start..end] == data[start..end] && cur[end..] == tail
            && (start >= AES_BLOCK_SIZE ==> cur[start - AES_BLOCK_SIZE..start] == data[start - AES_BLOCK_SIZE..start])
  {
  }

  /** One block of the loop below: decrypted with the block before it, which is still as it was. */
  method DecryptBlock(c: Cipher, iv: bytes, buf: array<byte>, start: nat, ghost data: bytes, ghost tail: bytes)
    requires |iv| == AES_BLOCK_SIZE && start % AES_BLOCK_SIZE == 0 && start + AES_BLOCK_SIZE <= |data| && CipherOk(c)
    requires buf[..] == data[..start + AES_BLOCK_SIZE] + tail
    modifies buf
    ensures buf[..] == data[..start] + (Xor(c.dec(data[start..start + AES_BLOCK_SIZE]), Previous(iv, data, start)) + tail)
  {
    hide Xor, CipherOk;
    UntouchedPrefix(data, start + AES_BLOCK_SIZE, tail, start);
    var block := buf[start..start + AES_BLOCK_SIZE];
    var chain := if start == 0 then iv else buf[start - AES_BLOCK_SIZE..start];
    assert block == buf[..][start..start + AES_BLOCK_SIZE] == data[start..start + AES_BLOCK_SIZE];
    assert start > 0 ==> chain == buf[..][start - AES_BLOCK_SIZE..start];
    assert chain == Previous(iv, data, start);
    BlockOk(c, block);
    var plain := Xor(c.dec(block), chain);
    WriteBlock(buf, start, plain);
    assert data[..start] + plain + tail == data[..start] + (plain + tail);
  }

  /** CryptBlocks of the CBC decrypter with one buffer for input and output: from the last block to the first. */
  method DecryptInPlace(c: Cipher, iv: bytes, buf: array<byte>)
    requires |iv| == AES_BLOCK_SIZE && buf.Length % AES_BLOCK_SIZE == 0 && CipherOk(c)
    modifies buf
    ensures buf[..] == CbcDecrypt(c, iv, old(buf[..]))
  {
    hide CbcDecrypt, PlainFrom, Previous, Xor, CipherOk;
    ghost var data := buf[..];
    var end: nat := buf.Length;
    assert data[..end] + PlainFrom(c, iv, data, end) == data;
    while end > 0
      invariant end <= |data| && end % AES_BLOCK_SIZE == 0
      invariant buf[..] == data[..end] + PlainFrom(c, iv, data, end)
    {
      var start := end - AES_BLOCK_SIZE;
      DecryptBlock(c, iv, buf, start, data, PlainFrom(c, iv, data, end));
      DecryptStep(c, iv, data, start);
      end := start;
    }
    PlainFromStart(c, iv, data);
    assert data[..0] + PlainFrom(c, iv, data, 0) == PlainFrom(c, iv, data, 0);
  }

  lemma BlockOk(c: Cipher, b: bytes)
    requires CipherOk(c) && |b| == AES_BLOCK_SIZE
    ensures |c.enc(b)| == AES_BLOCK_SIZE && |c.dec(b)| == AES_BLOCK_SIZE && c.dec(c.enc(b)) == b
  {
  }

  // ---------------------------------------------------------------------------
  // Base64 (section 4 of RFC 4648)
  // ---------------------------------------------------------------------------

  const PAD_SYMBOL: byte := 61

  function Symbol(v: nat): byte
    requires v < 64
  {
    if v < 26 then 65 + v else if v < 52 then 71 + v else if v < 62 then v - 4 else if v == 62 then 43 else 47
  }

  function ValueOf(b: byte): Option<nat> {
    if 65 <= b <= 90 then Some(b - 65)
    else if 97 <= b <= 122 then Some(b - 71)
    else if 48 <= b <= 57 then Some(b as int + 4)
    else if b == 43 then Some(62)
    else if b == 47 then Some(63)
    else None
  }

  function Base64Encode(data: bytes): bytes {
    if data == [] then []
    else
      var a := data[0] as int;
      if |data| == 1 then [Symbol(a / 4), Symbol(a % 4 * 16), PAD_SYMBOL, PAD_SYMBOL]
      else
        var b := data[1] as int;
        if |data| == 2 then [Symbol(a / 4), Symbol(a % 4 * 16 + b / 16), Symbol(b % 16 * 4), PAD_SYMBOL]
        else
          var c := data[2] as int;
          [Symbol(a / 4), Symbol(a % 4 * 16 + b / 16), Symbol(b % 16 * 4 + c / 64), Symbol(c % 64)] + Base64Encode(data[3..])
  }

  /** Decoding skips line breaks ... */
  function WithoutBreaks(text: bytes): bytes {
    if text == [] then []
    else (if text[0] == 10 || text[0] == 13 then [] else [text[0]]) + WithoutBreaks(text[1..])
  }

  /** ... and takes four symbols at a time; padding ends the text. */
  function DecodeQuads(text: bytes): Option<bytes> {
    if text == [] then Some([])
    else if |text| < 4 then None
    else
      match (ValueOf(text[0]), ValueOf(text[1]), ValueOf(text[2]), ValueOf(text[3]))
      case (Some(p), Some(q), Some(r), Some(s)) =>
        (match DecodeQuads(text[4..])
         case None => None
         case Some(rest) => Some([p * 4 + q / 16, q % 16 * 16 + r / 4, r % 4 * 64 + s] + rest))
      case (Some(p), Some(q), Some(r), None) =>
        if text[3] == PAD_SYMBOL && |text| == 4 then Some([p * 4 + q / 16, q % 16 * 16 + r / 4]) else None
      case (Some(p), Some(q), None, None) =>
        if text[2] == text[3] == PAD_SYMBOL && |text| == 4 then Some([p * 4 + q / 16]) else None
      case _ => None
  }

  function Base64Decode(text: bytes): Option<bytes> {
    DecodeQuads(WithoutBreaks(text))
  }

  lemma SymbolReads(v: nat)
    requires v < 64
    ensures ValueOf(Symbol(v)) == Some(v) && Symbol(v) != PAD_SYMBOL && Symbol(v) != 10 && Symbol(v) != 13
  {
  }

  lemma FourSixes(a: byte, b: byte, c: byte)
    ensures var p, q, r, s := a / 4, a % 4 * 16 + b / 16, b % 16 * 4 + c / 64, c % 64;
            p < 64 && q < 64 && r < 64 && s < 64 &&
            p * 4 + q / 16 == a && q % 16 * 16 + r / 4 == b && r % 4 * 64 + s == c
  {
  }

  lemma QuadReads(p: nat, q: nat, r: nat, s: nat, rest: bytes)
    requires p < 64 && q < 64 && r < 64 && s < 64
    ensures DecodeQuads([Symbol(p), Symbol(q), Symbol(r), Symbol(s)] + rest)
            == match DecodeQuads(rest)
               case None => None
               case Some(d) => Some([p * 4 + q / 16, q % 16 * 16 + r / 4, r % 4 * 64 + s] + d)
  {
    SymbolReads(p);
    SymbolReads(q);
    SymbolReads(r);
    SymbolReads(s);
    var text := [Symbol(p), Symbol(q), Symbol(r), Symbol(s)] + rest;
    assert text[4..] == rest;
  }

  lemma OneByteReads(a: byte)
    ensures DecodeQuads(Base64Encode([a])) == Some([a])
  {
    hide Symbol, ValueOf;
    FourSixes(a, 0, 0);
    SymbolReads(a / 4);
    SymbolReads(a % 4 * 16);
    PaddingIsNoSymbol();
  }

  lemma TwoBytesRead(a: byte, b: byte)
    ensures DecodeQuads(Base64Encode([a, b])) == Some([a, b])
  {
    hide Symbol, ValueOf;
    FourSixes(a, b, 0);
    SymbolReads(a / 4);
    SymbolReads(a % 4 * 16 + b / 16);
    SymbolReads(b % 16 * 4);
    PaddingIsNoSymbol();
  }

  lemma {:induction false} QuadsRoundTrip(data: bytes)
    ensures DecodeQuads(Base64Encode(data)) == Some(data)
    decreases |data|
  {
    hide Symbol, DecodeQuads;
    if |data| == 0 {
      assert DecodeQuads([]) == Some([]) by { NothingReads(); }
    } else if |data| == 1 {
      OneByteReads(data[0]);
      assert data == [data[0]];
    } else if |data| == 2 {
      TwoBytesRead(data[0], data[1]);
      assert data == [data[0], data[1]];
    } else {
      var a, b, c := data[0], data[1], data[2];
      FourSixes(a, b, c);
      QuadsRoundTrip(data[3..]);
      QuadReads(a / 4, a % 4 * 16 + b / 16, b % 16 * 4 + c / 64, c % 64, Base64Encode(data[3..]));
      assert data == [a, b, c] + data[3..];
    }
  }

  lemma NothingReads()
    ensures DecodeQuads([]) == Some([])
  {
  }

  lemma PaddingIsNoSymbol()
    ensures ValueOf(PAD_SYMBOL) == None
  {
  }

  ghost predicate NoBreaks(text: bytes) {
    forall i | 0 <= i < |text| :: text[i] != 10 && text[i] != 13
  }

  lemma {:induction false} BreaksKept(text: bytes)
    requires NoBreaks(text)
    ensures WithoutBreaks(text) == text
  {
    if text != [] {
      BreaksKept(text[1..]);
    }
  }

  lemma {:induction false} EncodedHasNoBreaks(data: bytes)
    ensures NoBreaks(Base64Encode(data))
    decreases |data|
  {
    forall v: nat | v < 64 ensures Symbol(v) != 10 && Symbol(v) != 13 {
      SymbolReads(v);
    }
    if |data| > 2 {
      EncodedHasNoBreaks(data[3..]);
    }
  }

  lemma Base64RoundTrip(data: bytes)
    ensures Base64Decode(Base64Encode(data)) == Some(data)
  {
    EncodedHasNoBreaks(data);
    BreaksKept(Base64Encode(data));
    QuadsRoundTrip(data);
  }

  // ---------------------------------------------------------------------------
  // Signature
  // ---------------------------------------------------------------------------

  ghost predicate Ascending(s: seq<bytes>) {
    forall i, j | 0 <= i < j < |s| :: AtMost(s[i], s[j])
  }

  lemma LeastsAgree(s: seq<bytes>, t: seq<bytes>)
    requires Ascending(s) && Ascending(t) && multiset(s) == multiset(t) && s != [] && t != []
    ensures s[0] == t[0]
  {
    assert s[0] in multiset(s) && t[0] in multiset(t);
    var i :| 0 <= i < |t| && t[i] == s[0];
    var j :| 0 <= j < |s| && s[j] == t[0];
    AtMostIsTotal(s[0], s[0]);
    AtMostIsTotal(t[0], t[0]);
    assert AtMost(t[0], t[i]) && AtMost(s[0], s[j]);
    AtMostIsTotal(s[0], t[0]);
  }

  /** Two ascending lists of the same strings are equal, so it does not matter which sort produced them. */
  lemma {:induction false} AscendingIsUnique(s: seq<bytes>, t: seq<bytes>)
    requires Ascending(s) && Ascending(t) && multiset(s) == multiset(t)
    ensures s == t
    decreases |s|
  {
    hide AtMost;
    assert |s| == |multiset(s)| == |multiset(t)| == |t|;
    if s != [] {
      LeastsAgree(s, t);
      FirstApart(s);
      FirstApart(t);
      AscendingIsUnique(s[1..], t[1..]);
      assert s == [s[0]] + s[1..] && t == [t[0]] + t[1..];
    }
  }

  function Insert(x: bytes, s: seq<bytes>): seq<bytes> {
    if s == [] || AtMost(x, s[0]) then [x] + s else [s[0]] + Insert(x, s[1..])
  }

  function Sort(s: seq<bytes>): seq<bytes> {
    if s == [] then [] else Insert(s[0], Sort(s[1..]))
  }

  lemma AscendingFrom(x: bytes, s: seq<bytes>)
    requires Ascending(s) && forall k | k in s :: AtMost(x, k)
    ensures Ascending([x] + s)
  {
    hide AtMost;
    forall i, j | 0 <= i < j < |[x] + s| ensures AtMost(([x] + s)[i], ([x] + s)[j]) {
      assert s[j - 1] in s;
    }
  }

  lemma {:induction false} InsertSorts(x: bytes, s: seq<bytes>)
    requires Ascending(s)
    ensures Ascending(Insert(x, s)) && multiset(Insert(x, s)) == multiset(s) + multiset{x}
  {
    hide AtMost;
    if s == [] || AtMost(x, s[0]) {
      forall k | k in s ensures AtMost(x, k) {
        var j :| 0 <= j < |s| && s[j] == k;
        if j > 0 {
          AtMostIsTransitive(x, s[0], s[j]);
        }
      }
      AscendingFrom(x, s);
    } else {
      var t := Insert(x, s[1..]);
      InsertSorts(x, s[1..]);
      AtMostIsTotal(x, s[0]);
      FirstApart(s);
      forall k | k in t ensures AtMost(s[0], k) {
        assert k in multiset(t);
        if k != x {
          assert k in s[1..];
        }
      }
      AscendingFrom(s[0], t);
    }
  }

  lemma {:induction false} SortSorts(s: seq<bytes>)
    ensures Ascending(Sort(s)) && multiset(Sort(s)) == multiset(s)
  {
    if s != [] {
      SortSorts(s[1..]);
      InsertSorts(s[0], Sort(s[1..]));
      assert s == [s[0]] + s[1..];
    }
  }

  function Concat(parts: seq<bytes>): bytes {
    if parts == [] then [] else parts[0] + Concat(parts[1..])
  }

  /** calSignature; `digest` is the hexadecimal SHA-1 of the bytes. */
  function Signature(digest: bytes -> bytes, token: bytes, timestamp: bytes, nonce: bytes, data: bytes): bytes {
    digest(Concat(Sort([token, timestamp, nonce, data])))
  }

  /** The signature depends on the four strings only as a collection: any order of them, and any sort, gives it. */
  lemma SignatureIgnoresOrder(digest: bytes -> bytes, token: bytes, timestamp: bytes, nonce: bytes, data: bytes, sorted: seq<bytes>)
    requires Ascending(sorted) && multiset(sorted) == multiset{token, timestamp, nonce, data}
    ensures Signature(digest, token, timestamp, nonce, data) == digest(Concat(sorted))
  {
    var parts := [token, timestamp, nonce, data];
    SortSorts(parts);
    assert multiset(parts) == multiset{token, timestamp, nonce, data};
    AscendingIsUnique(Sort(parts), sorted);
  }

  // ---------------------------------------------------------------------------
  // The envelope
  // ---------------------------------------------------------------------------

  /** WXBizMsgCrypt with its key already decoded into a cipher and the first block of the key. */
  datatype Crypt = Crypt(token: bytes, receiverId: bytes, cipher: Cipher, iv: bytes, digest: bytes -> bytes)

  ghost predicate CryptOk(w: Crypt) {
    CipherOk(w.cipher) && |w.iv| == AES_BLOCK_SIZE
  }

  datatype Envelope = Envelope(encrypt: bytes, signature: bytes, timestamp: bytes, nonce: bytes)

  /** Random prefix, big-endian length (narrowed to 32 bits), message, receiver. */
  function Layout(random: bytes, msg: bytes, receiverId: bytes): bytes {
    random + BigEndian32(|msg|) + msg + receiverId
  }

  function CbcEncrypter(w: Crypt, text: bytes): bytes
    requires CryptOk(w)
  {
    UnpadUndoesPad(text);
    Base64Encode(CbcEncrypt(w.cipher, w.iv, Pad(text)))
  }

  function EncryptMsg(w: Crypt, random: bytes, msg: bytes, timestamp: bytes, nonce: bytes): Envelope
    requires CryptOk(w)
  {
    var encrypt := CbcEncrypter(w, Layout(random, msg, w.receiverId));
    Envelope(encrypt, Signature(w.digest, w.token, timestamp, nonce, encrypt), timestamp, nonce)
  }

  function CbcDecrypter(w: Crypt, text: bytes): Result<bytes>
    requires CryptOk(w)
  {
    match Base64Decode(text)
    case None => Error(DECODE_BASE64_ERROR)
    case Some(data) =>
      if |data| < AES_BLOCK_SIZE || |data| % AES_BLOCK_SIZE != 0 then Error(DECRYPT_AES_ERROR)
      else Ok(CbcDecrypt(w.cipher, w.iv, data))
  }

  datatype Parsed = Parsed(random: bytes, msg: bytes, receiverId: bytes)

  /** ParsePlainText, in 32-bit unsigned arithmetic. */
  function ParsePlainText(padded: bytes): Result<Parsed> {
    match Unpad(padded)
    case Error(code) => Error(code)
    case Panic => Panic
    case Ok(text) =>
      var textLen := |text| % 0x1_0000_0000;
      if textLen < 20 then Error(ILLEGAL_BUFFER)
      else
        var end := (20 + ReadUint32(text[16..20])) % 0x1_0000_0000;
        if textLen < end then Error(ILLEGAL_BUFFER)
        else if end < 20 then Panic
        else Ok(Parsed(text[..16], text[20..end], text[end..]))
  }

  function DecryptMsg(w: Crypt, signature: bytes, timestamp: bytes, nonce: bytes, encrypt: bytes): Result<bytes>
    requires CryptOk(w)
  {
    if Signature(w.digest, w.token, timestamp, nonce, encrypt) != signature then Error(VALIDATE_SIGNATURE_ERROR)
    else
      match CbcDecrypter(w, encrypt)
      case Error(code) => Error(code)
      case Panic => Panic
      case Ok(plain) =>
        match ParsePlainText(plain)
        case Error(code) => Error(code)
        case Panic => Panic
        case Ok(p) =>
          if |w.receiverId| > 0 && p.receiverId != w.receiverId then Error(VALIDATE_CORPID_ERROR) else Ok(p.msg)
  }

  /** The cipher layers undo each other for every text. */
  lemma CipherLayersUndo(w: Crypt, text: bytes)
    requires CryptOk(w)
    ensures CbcDecrypter(w, CbcEncrypter(w, text)) == Ok(Pad(text))
  {
    UnpadUndoesPad(text);
    var data := CbcEncrypt(w.cipher, w.iv, Pad(text));
    Base64RoundTrip(data);
    CbcRoundTrip(w.cipher, w.iv, Pad(text));
  }

  /** What a caller can check of the lengths: the message length and the text length are compared in 32 bits. */
  predicate LengthsFit(msg: bytes, receiverId: bytes) {
    20 + |msg| < 0x1_0000_0000 && 20 + |msg| <= (20 + |msg| + |receiverId|) % 0x1_0000_0000
  }

  lemma LayoutSeams(random: bytes, msg: bytes, receiverId: bytes)
    requires |random| == 16
    ensures var text := Layout(random, msg, receiverId);
            && |text| == 20 + |msg| + |receiverId|
            && text[..16] == random && ReadUint32(text[16..20]) == |msg| % 0x1_0000_0000
            && text[20..20 + |msg|] == msg && text[20 + |msg|..] == receiverId
  {
    hide BigEndian32, ReadUint32;
    var length := BigEndian32(|msg|);
    Seams(random, length, msg, receiverId);
    ReadBack32(|msg|, []);
    assert length + [] == length;
  }

  /** Parsing the padded layout gives the message back exactly when the lengths fit. */
  lemma ParseLayout(random: bytes, msg: bytes, receiverId: bytes)
    requires |random| == 16
    ensures var p := ParsePlainText(Pad(Layout(random, msg, receiverId)));
            && (LengthsFit(msg, receiverId) ==> p == Ok(Parsed(random, msg, receiverId)))
            && (!LengthsFit(msg, receiverId) ==> p.Ok? ==> p.value.msg != msg)
  {
    hide Pad, Unpad, Layout, ReadUint32;
    var text := Layout(random, msg, receiverId);
    UnpadUndoesPad(text);
    LayoutSeams(random, msg, receiverId);
  }

  /** DecryptMsg returns what EncryptMsg was given, for every message, receiver, 16-byte prefix, timestamp and nonce
      and every bijective block cipher, exactly when the lengths fit 32 bits. */
  lemma EnvelopeRoundTripIff(w: Crypt, random: bytes, msg: bytes, timestamp: bytes, nonce: bytes)
    requires CryptOk(w) && |random| == 16
    ensures var e := EncryptMsg(w, random, msg, timestamp, nonce);
            DecryptMsg(w, e.signature, e.timestamp, e.nonce, e.encrypt) == Ok(msg) <==> LengthsFit(msg, w.receiverId)
  {
    hide CbcEncrypter, CbcDecrypter, ParsePlainText, Signature, Pad, Layout;
    CipherLayersUndo(w, Layout(random, msg, w.receiverId));
    ParseLayout(random, msg, w.receiverId);
  }

  /** In particular for every layout below 2^32 bytes. */
  lemma SmallEnvelopesFit(msg: bytes, receiverId: bytes)
    requires 20 + |msg| + |receiverId| < 0x1_0000_0000
    ensures LengthsFit(msg, receiverId)
  {
  }

  // ---------------------------------------------------------------------------
  // With the account's key and the XML around the envelope
  // ---------------------------------------------------------------------------

  /** WXBizMsgCrypt as it is configured: `newCipher` is the block cipher for a key, or its error; `serialize` and
      `parse` are the XML processor. */
  datatype Account = Account(
    token: bytes, encodingKey: bytes, receiverId: bytes, digest: bytes -> bytes,
    newCipher: bytes -> Option<Cipher>, serialize: Envelope -> Option<bytes>, parse: bytes -> Option<bytes>)

  ghost predicate AccountOk(a: Account) {
    forall key | a.newCipher(key).Some? :: |key| >= AES_BLOCK_SIZE && CipherOk(a.newCipher(key).value)
  }

  /** The key is base64 text and the first block of it the initial vector; `error` is the code for a key of a length that
      the cipher refuses. */
  function OpenKey(a: Account, error: int): (r: Result<Crypt>)
    requires AccountOk(a)
    ensures r.Ok? ==> CryptOk(r.value)
  {
    match Base64Decode(a.encodingKey)
    case None => Error(DECODE_BASE64_ERROR)
    case Some(key) =>
      match a.newCipher(key)
      case None => Error(error)
      case Some(cipher) => Ok(Crypt(a.token, a.receiverId, cipher, key[..AES_BLOCK_SIZE], a.digest))
  }

  /** EncryptMsg, up to the XML text. */
  function Reply(a: Account, random: bytes, msg: bytes, timestamp: bytes, nonce: bytes): Result<bytes>
    requires AccountOk(a)
  {
    match OpenKey(a, ENCRYPT_AES_ERROR)
    case Error(code) => Error(code)
    case Panic => Panic
    case Ok(w) =>
      match a.serialize(EncryptMsg(w, random, msg, timestamp, nonce))
      case None => Error(GEN_XML_ERROR)
      case Some(xml) => Ok(xml)
  }

  /** DecryptMsg, from the XML text: the signature is checked before the key is touched, and the key's own error comes
      after those of both base64 texts. */
  function Receive(a: Account, signature: bytes, timestamp: bytes, nonce: bytes, post: bytes): Result<bytes>
    requires AccountOk(a)
  {
    match a.parse(post)
    case None => Error(PARSE_XML_ERROR)
    case Some(encrypt) =>
      if Signature(a.digest, a.token, timestamp, nonce, encrypt) != signature then Error(VALIDATE_SIGNATURE_ERROR)
      else if Base64Decode(a.encodingKey).None? || Base64Decode(encrypt).None? then Error(DECODE_BASE64_ERROR)
      else
        match OpenKey(a, DECRYPT_AES_ERROR)
        case Error(code) => Error(code)
        case Panic => Panic
        case Ok(w) => DecryptMsg(w, signature, timestamp, nonce, encrypt)
  }

  /** From message to XML and back, for every account: a reply whose XML reads back as the cipher text written into it
      is received as the message exactly when the lengths fit 32 bits, under the signature that was put into it; a reply
      whose XML is refused (as encoding/xml refuses a nonce with a control character that it wrote itself) is an
      error. */
  lemma MessageRoundTripIff(a: Account, random: bytes, msg: bytes, timestamp: bytes, nonce: bytes)
    requires AccountOk(a) && |random| == 16 && Reply(a, random, msg, timestamp, nonce).Ok?
    ensures var e := EncryptMsg(OpenKey(a, ENCRYPT_AES_ERROR).value, random, msg, timestamp, nonce);
            var post := Reply(a, random, msg, timestamp, nonce).value;
            var received := Receive(a, e.signature, timestamp, nonce, post);
            && (a.parse(post) == Some(e.encrypt) ==> (received == Ok(msg) <==> LengthsFit(msg, a.receiverId)))
            && (a.parse(post) == None ==> received == Error(PARSE_XML_ERROR))
  {
    hide DecryptMsg, Signature, CbcEncrypter, Base64Decode, Layout, LengthsFit, OpenKey;
    var w := OpenKey(a, ENCRYPT_AES_ERROR).value;
    var e := EncryptMsg(w, random, msg, timestamp, nonce);
    EnvelopeRoundTripIff(w, random, msg, timestamp, nonce);
    CipherTextIsBase64(w, Layout(random, msg, w.receiverId));
    OpensAlike(a, ENCRYPT_AES_ERROR, DECRYPT_AES_ERROR);
  }

  lemma CipherTextIsBase64(w: Crypt, text: bytes)
    requires CryptOk(w)
    ensures Base64Decode(CbcEncrypter(w, text)).Some?
  {
    hide Base64Decode;
    UnpadUndoesPad(text);
    Base64RoundTrip(CbcEncrypt(w.cipher, w.iv, Pad(text)));
  }

  lemma OpensAlike(a: Account, error: int, other: int)
    requires AccountOk(a) && OpenKey(a, error).Ok?
    ensures Base64Decode(a.encodingKey).Some? && OpenKey(a, other) == OpenKey(a, error)
    ensures OpenKey(a, error).value.token == a.token && OpenKey(a, error).value.digest == a.digest
    ensures OpenKey(a, error).value.receiverId == a.receiverId
  {
  }

  // ---------------------------------------------------------------------------
  // The code: buffers, and one slice for cipher text and plain text
  // ---------------------------------------------------------------------------

  /** sort.Strings. */
  method SortStrings(a: array<bytes>)
    modifies a
    ensures a[..] == Sort(old(a[..]))
  {
    var sorted := Sort(a[..]);
    SortSorts(a[..]);
    assert |sorted| == |multiset(sorted)| == |multiset(a[..])| == a.Length;
    for i := 0 to a.Length
      invariant forall j | 0 <= j < i :: a[j] == sorted[j]
    {
      a[i] := sorted[i];
    }
  }

  method CalSignature(digest: bytes -> bytes, token: bytes, timestamp: bytes, nonce: bytes, data: bytes) returns (signature: bytes)
    ensures signature == Signature(digest, token, timestamp, nonce, data)
  {
    hide Sort;
    var sortArr := new bytes[] [token, timestamp, nonce, data];
    assert sortArr[..] == [token, timestamp, nonce, data];
    SortStrings(sortArr);
    var buffer := ConcatAll(sortArr);
    return digest(buffer);
  }

  method ConcatAll(a: array<bytes>) returns (buffer: bytes)
    ensures buffer == Concat(a[..])
  {
    ghost var parts := a[..];
    buffer := [];
    for i := 0 to a.Length
      invariant buffer + Concat(parts[i..]) == Concat(parts)
    {
      assert parts[i..][0] == a[i] && parts[i..][1..] == parts[i + 1..];
      buffer := buffer + a[i];
    }
    assert buffer == Concat(parts);
  }

  method Encrypt(w: Crypt, random: bytes, msg: bytes, timestamp: bytes, nonce: bytes) returns (e: Envelope)
    requires CryptOk(w)
    ensures e == EncryptMsg(w, random, msg, timestamp, nonce)
  {
    hide CbcEncrypter, Signature, BigEndian32;
    var buffer := random;
    buffer := buffer + BigEndian32(|msg|);
    buffer := buffer + msg;
    buffer := buffer + w.receiverId;
    var ciphertext := CbcEncrypter(w, buffer);
    var signature := CalSignature(w.digest, w.token, timestamp, nonce, ciphertext);
    return Envelope(ciphertext, signature, timestamp, nonce);
  }

  method DecryptCbc(w: Crypt, text: bytes) returns (r: Result<bytes>)
    requires CryptOk(w)
    ensures r == CbcDecrypter(w, text)
  {
    var decoded := Base64Decode(text);
    if decoded.None? {
      return Error(DECODE_BASE64_ERROR);
    }
    if |decoded.value| < AES_BLOCK_SIZE {
      return Error(DECRYPT_AES_ERROR);
    }
    if |decoded.value| % AES_BLOCK_SIZE != 0 {
      return Error(DECRYPT_AES_ERROR);
    }
    var data := decoded.value;
    var encryptMsg := new byte[|data|](i requires 0 <= i < |data| => data[i]);
    assert encryptMsg[..] == data;
    DecryptInPlace(w.cipher, w.iv, encryptMsg);
    return Ok(encryptMsg[..]);
  }

  method Decrypt(w: Crypt, signature: bytes, timestamp: bytes, nonce: bytes, encrypt: bytes) returns (r: Result<bytes>)
    requires CryptOk(w)
    ensures r == DecryptMsg(w, signature, timestamp, nonce, encrypt)
  {
    hide CbcDecrypter, Signature, ParsePlainText;
    var computed := CalSignature(w.digest, w.token, timestamp, nonce, encrypt);
    if computed != signature {
      return Error(VALIDATE_SIGNATURE_ERROR);
    }
    var plain := DecryptCbc(w, encrypt);
    match plain {
      case Error(code) => return Error(code);
      case Panic => return Panic;
      case Ok(text) =>
        var parsed := ParsePlainText(text);
        match parsed {
          case Error(code) => return Error(code);
          case Panic => return Panic;
          case Ok(p) =>
            if |w.receiverId| > 0 && p.receiverId != w.receiverId {
              return Error(VALIDATE_CORPID_ERROR);
            }
            return Ok(p.msg);
        }
    }
  }

  method SendReply(a: Account, random: bytes, msg: bytes, timestamp: bytes, nonce: bytes) returns (r: Result<bytes>)
    requires AccountOk(a)
    ensures r == Reply(a, random, msg, timestamp, nonce)
  {
    hide EncryptMsg;
    var key := OpenKey(a, ENCRYPT_AES_ERROR);
    match key {
      case Error(code) => return Error(code);
      case Panic => return Panic;
      case Ok(w) =>
        var e := Encrypt(w, random, msg, timestamp, nonce);
        var xml := a.serialize(e);
        if xml.None? {
          return Error(GEN_XML_ERROR);
        }
        return Ok(xml.value);
    }
  }

  method ReceivePost(a: Account, signature: bytes, timestamp: bytes, nonce: bytes, post: bytes) returns (r: Result<bytes>)
    requires AccountOk(a)
    ensures r == Receive(a, signature, timestamp, nonce, post)
  {
    hide Signature, Base64Decode, DecryptMsg;
    var encrypt := a.parse(post);
    if encrypt.None? {
      return Error(PARSE_XML_ERROR);
    }
    var computed := CalSignature(a.digest, a.token, timestamp, nonce, encrypt.value);
    if computed != signature {
      return Error(VALIDATE_SIGNATURE_ERROR);
    }
    if Base64Decode(a.encodingKey).None? {
      return Error(DECODE_BASE64_ERROR);
    }
    if Base64Decode(encrypt.value).None? {
      return Error(DECODE_BASE64_ERROR);
    }
    var key := OpenKey(a, DECRYPT_AES_ERROR);
    match key {
      case Error(code) => return Error(code);
      case Panic => return Panic;
      case Ok(w) => r := Decrypt(w, signature, timestamp, nonce, encrypt.value);
    }
  }
}
