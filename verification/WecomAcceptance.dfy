/** wecom/wxbizmsgcrypt.go: what an envelope must be to be accepted, layer by layer, whoever made it. */
module WecomAcceptance {
  import opened Common
  import opened Bytes
  import opened Ordering
  import opened Wecom

  // ---------------------------------------------------------------------------
  // Signature
  // ---------------------------------------------------------------------------

  /** The signature of four strings: the digest of all of them in ascending order. */
  ghost predicate Signs(digest: bytes -> bytes, token: bytes, timestamp: bytes, nonce: bytes, data: bytes, signature: bytes) {
    exists a, b, c, d ::
      && Ascending([a, b, c, d]) && multiset{a, b, c, d} == multiset{token, timestamp, nonce, data}
      && signature == digest(a + b + c + d)
  }

  lemma FourStrings(s: seq<bytes>)
    requires |s| == 4
    ensures Concat(s) == s[0] + s[1] + s[2] + s[3]
  {
    assert Concat(s[3..]) == s[3] + Concat(s[3..][1..]) == s[3] + [] == s[3];
    assert Concat(s[2..]) == s[2] + Concat(s[2..][1..]) && s[2..][1..] == s[3..];
    assert Concat(s[1..]) == s[1] + Concat(s[1..][1..]) && s[1..][1..] == s[2..];
    assert s[0] + (s[1] + (s[2] + s[3])) == s[0] + s[1] + s[2] + s[3];
  }

  lemma SignatureIff(digest: bytes -> bytes, token: bytes, timestamp: bytes, nonce: bytes, data: bytes, signature: bytes)
    ensures Signature(digest, token, timestamp, nonce, data) == signature <==> Signs(digest, token, timestamp, nonce, data, signature)
  {
    hide AtMost, Sort, Concat;
    var parts := [token, timestamp, nonce, data];
    var s := Sort(parts);
    SortSorts(parts);
    assert |s| == |multiset(s)| == |multiset(parts)| == 4;
    assert s == [s[0], s[1], s[2], s[3]];
    assert multiset{s[0], s[1], s[2], s[3]} == multiset(s) == multiset{token, timestamp, nonce, data};
    FourStrings(s);
    if a, b, c, d :| Ascending([a, b, c, d]) && multiset{a, b, c, d} == multiset{token, timestamp, nonce, data}
                     && signature == digest(a + b + c + d) {
      assert multiset([a, b, c, d]) == multiset{a, b, c, d};
      SignatureIgnoresOrder(digest, token, timestamp, nonce, data, [a, b, c, d]);
      FourStrings([a, b, c, d]);
    }
  }

  // ---------------------------------------------------------------------------
  // Padding and layout
  // ---------------------------------------------------------------------------

  /** Padding adds between 1 and 32 bytes up to a whole block, each of them their number. */
  lemma PadAdds(text: bytes)
    ensures text <= Pad(text) && |Pad(text)| % 32 == 0 && 1 <= |Pad(text)| - |text| <= 32
    ensures forall i | |text| <= i < |Pad(text)| :: Pad(text)[i] as int == |Pad(text)| - |text|
  {
  }

  /** Taking it off believes the last byte, and looks at no other. */
  ghost predicate Unpads(padded: bytes, text: bytes) {
    padded != [] && |padded| % 32 == 0 && text <= padded && |padded| == |text| + padded[|padded| - 1] as int
  }

  lemma UnpadIff(padded: bytes, text: bytes)
    ensures Unpad(padded) == Ok(text) <==> Unpads(padded, text)
    ensures Unpad(padded) == Panic <==> padded != [] && |padded| % 32 == 0 && padded[|padded| - 1] as int > |padded|
    ensures Unpad(padded).Error? ==> Unpad(padded) == Error(-40007)
  {
    assert text <= padded ==> text == padded[..|text|];
  }

  /** A text parses into prefix, message and receiver exactly when it is their layout, and they fit 32 bits. */
  lemma ParsesIff(padded: bytes, p: Parsed)
    ensures ParsePlainText(padded) == Ok(p) <==>
            |p.random| == 16 && LengthsFit(p.msg, p.receiverId) && Unpads(padded, Layout(p.random, p.msg, p.receiverId))
    ensures ParsePlainText(padded).Error? ==> ParsePlainText(padded) in {Error(-40007), Error(-40008)}
  {
    hide ParsePlainText, Layout, LengthsFit, Unpads;
    if |p.random| == 16 && LengthsFit(p.msg, p.receiverId) && Unpads(padded, Layout(p.random, p.msg, p.receiverId)) {
      LayoutParses(padded, p);
    }
    if ParsePlainText(padded) == Ok(p) {
      ParsedLayout(padded, p);
    }
    ParseErrors(padded);
  }

  lemma LayoutParses(padded: bytes, p: Parsed)
    requires |p.random| == 16 && LengthsFit(p.msg, p.receiverId) && Unpads(padded, Layout(p.random, p.msg, p.receiverId))
    ensures ParsePlainText(padded) == Ok(p)
  {
    hide Unpad, Unpads, Layout, ReadUint32;
    UnpadIff(padded, Layout(p.random, p.msg, p.receiverId));
    LayoutSeams(p.random, p.msg, p.receiverId);
  }

  lemma ParsedLayout(padded: bytes, p: Parsed)
    requires ParsePlainText(padded) == Ok(p)
    ensures |p.random| == 16 && LengthsFit(p.msg, p.receiverId) && Unpads(padded, Layout(p.random, p.msg, p.receiverId))
  {
    hide Unpad, Unpads, Layout, ReadUint32, LengthsFit;
    var text := Unpad(padded).value;
    UnpadIff(padded, text);
    ParsedIsLayout(text, p);
  }

  lemma ParseErrors(padded: bytes)
    ensures ParsePlainText(padded).Error? ==> ParsePlainText(padded) in {Error(-40007), Error(-40008)}
  {
    hide Unpad, ReadUint32;
    UnpadIff(padded, []);
  }

  /** What is not a layout: a text of less than 20 bytes, or one shorter than its length field says, is refused; a length
      field so large that adding 20 to it overflows is a slice that panics. */
  lemma NoLayout(padded: bytes, text: bytes, n: nat, rest: bytes)
    requires Unpads(padded, text) && |text| < 0x1_0000_0000 && n < 0x1_0000_0000
    ensures |text| < 20 ==> ParsePlainText(padded) == Error(-40008)
    ensures |text| >= 20 && text[16..] == BigEndian32(n) + rest ==>
              && (|rest| < n && 20 + n < 0x1_0000_0000 ==> ParsePlainText(padded) == Error(-40008))
              && (20 + n >= 0x1_0000_0000 ==> ParsePlainText(padded) == Panic)
  {
    hide Unpad, BigEndian32, ReadUint32;
    UnpadIff(padded, text);
    if |text| >= 20 && text[16..] == BigEndian32(n) + rest {
      ReadBack32(n, []);
      assert text[16..20] == text[16..][..4] == BigEndian32(n) == BigEndian32(n) + [];
    }
  }

  lemma ParsedIsLayout(text: bytes, p: Parsed)
    requires |text| % 0x1_0000_0000 >= 20
    requires var end := 20 + ReadUint32(text[16..20]);
             end < 0x1_0000_0000 && |text| % 0x1_0000_0000 >= end && p == Parsed(text[..16], text[20..end], text[end..])
    ensures |p.random| == 16 && LengthsFit(p.msg, p.receiverId) && text == Layout(p.random, p.msg, p.receiverId)
  {
    hide BigEndian32, ReadUint32;
    var n := ReadUint32(text[16..20]);
    assert |p.msg| == n;
    UnsignedBack(text[16..20]);
    assert text == text[..16] + text[16..20] + text[20..20 + n] + text[20 + n..];
  }

  lemma UnsignedBack(b: bytes)
    requires |b| == 4
    ensures BigEndian32(ReadUint32(b)) == b
  {
    BigEndianBytes(b[0], b[1], b[2], b[3]);
  }

  // ---------------------------------------------------------------------------
  // Cipher block chaining
  // ---------------------------------------------------------------------------

  /** One where the bits differ, zero where they agree. */
  function Differences(x: seq<nat>, y: seq<nat>): (z: seq<nat>)
    requires |x| == |y|
    ensures |z| == |x|
  {
    seq(|x|, i requires 0 <= i < |x| => if x[i] == y[i] then 0 else 1)
  }

  lemma RestDiffers(x: seq<nat>, y: seq<nat>)
    requires |x| == |y| > 0
    ensures Differences(x, y) == [if x[0] == y[0] then 0 else 1] + Differences(x[1..], y[1..])
    ensures AreBits(x) ==> x[0] < 2 && AreBits(x[1..])
    ensures AreBits(y) ==> y[0] < 2 && AreBits(y[1..])
  {
    assert x[0] in x && y[0] in y;
    assert forall b | b in x[1..] :: b in x;
    assert forall b | b in y[1..] :: b in y;
  }

  lemma FirstBit(bit: nat, bits: seq<nat>)
    ensures FromBits([bit] + bits) == bit + 2 * FromBits(bits)
  {
    assert ([bit] + bits)[1..] == bits;
  }

  /** The exclusive or of two bytes: a bit is set where exactly one of them has it set. */
  lemma {:induction false} XorIsBitwise(x: seq<nat>, y: seq<nat>)
    requires |x| == |y| && AreBits(x) && AreBits(y)
    ensures XorBits(FromBits(x), FromBits(y), |x|) == FromBits(Differences(x, y))
  {
    hide XorBits, Differences, AreBits;
    XorUnfolds(FromBits(x), FromBits(y), |x|);
    if x != [] {
      RestDiffers(x, y);
      XorIsBitwise(x[1..], y[1..]);
      Halves(x[0], FromBits(x[1..]));
      Halves(y[0], FromBits(y[1..]));
      FirstBit(if x[0] == y[0] then 0 else 1, Differences(x[1..], y[1..]));
    }
  }

  /** The k-th block, and the block it is chained to. */
  function BlockAt(data: bytes, k: nat): (b: bytes)
    requires 16 * (k + 1) <= |data|
    ensures |b| == 16
  {
    data[16 * k..16 * k + 16]
  }

  function ChainedTo(iv: bytes, data: bytes, k: nat): bytes
    requires 16 * (k + 1) <= |data|
  {
    if k == 0 then iv else BlockAt(data, k - 1)
  }

  lemma BlockBehind(first: bytes, rest: bytes, k: nat)
    requires |first| == 16 && 16 * (k + 1) <= |rest|
    ensures BlockAt(first + rest, k + 1) == BlockAt(rest, k) && BlockAt(first + rest, 0) == first
  {
  }

  /** Each block is encrypted after it was combined with the cipher text of the block before it; the first one with the
      initial vector. */
  lemma {:induction false} BlockIsChained(c: Cipher, iv: bytes, text: bytes, k: nat)
    requires |iv| == AES_BLOCK_SIZE && |text| % AES_BLOCK_SIZE == 0 && CipherOk(c) && 16 * (k + 1) <= |text|
    ensures |ChainedTo(iv, CbcEncrypt(c, iv, text), k)| == 16
    ensures var data := CbcEncrypt(c, iv, text);
            BlockAt(data, k) == c.enc(Xor(BlockAt(text, k), ChainedTo(iv, data, k)))
    decreases k
  {
    hide Xor;
    var first, rest := text[..16], text[16..];
    var block := c.enc(Xor(first, iv));
    assert text == first + rest;
    var more := CbcEncrypt(c, block, rest);
    assert CbcEncrypt(c, iv, text) == block + more;
    if k > 0 {
      BlockIsChained(c, block, rest, k - 1);
      BlockBehind(block, more, k - 1);
      BlockBehind(first, rest, k - 1);
      if k > 1 {
        BlockBehind(block, more, k - 2);
      }
    } else {
      assert BlockAt(block + more, 0) == block && BlockAt(text, 0) == first;
    }
  }

  // ---------------------------------------------------------------------------
  // Base64
  // ---------------------------------------------------------------------------

  /** The alphabet: capitals, small letters, digits, plus and slash. */
  lemma SymbolsInOrder(v: nat)
    requires v < 64
    ensures v < 26 ==> Symbol(v) as int == 'A' as int + v
    ensures 26 <= v < 52 ==> Symbol(v) as int == 'a' as int + (v - 26)
    ensures 52 <= v < 62 ==> Symbol(v) as int == '0' as int + (v - 52)
    ensures v == 62 ==> Symbol(v) as int == '+' as int
    ensures v == 63 ==> Symbol(v) as int == '/' as int
  {
  }

  lemma SymbolOfValue(b: byte)
    ensures ValueOf(b).Some? ==> ValueOf(b).value < 64 && Symbol(ValueOf(b).value) == b
  {
  }

  /** The text is the encoding of the data, but for the bits of the last symbol that encode nothing. */
  ghost predicate Encodes(text: bytes, data: bytes) {
    var e := Base64Encode(data);
    && |text| == |e|
    && forall i | 0 <= i < |e| ::
         if i + 3 == |e| && |data| % 3 == 1 then SameHighBits(text[i], e[i], 16)
         else if i + 2 == |e| && |data| % 3 == 2 then SameHighBits(text[i], e[i], 4)
         else text[i] == e[i]
  }

  ghost predicate SameHighBits(a: byte, b: byte, low: nat)
    requires low > 0
  {
    ValueOf(a).Some? && ValueOf(b).Some? && ValueOf(a).value / low == ValueOf(b).value / low
  }

  lemma ThreeBytes(p: nat, q: nat, r: nat, s: nat)
    requires p < 64 && q < 64 && r < 64 && s < 64
    ensures var a, b, c := p * 4 + q / 16, q % 16 * 16 + r / 4, r % 4 * 64 + s;
            && a < 256 && b < 256 && c < 256
            && a / 4 == p && a % 4 * 16 + b / 16 == q && b % 16 * 4 + c / 64 == r && c % 64 == s
            && a % 4 == q / 16 && b % 16 == r / 4
  {
  }

  /** The length of an encoding tells how much data it holds. */
  lemma {:induction false} EncodedLength(data: bytes)
    ensures |Base64Encode(data)| == (|data| + 2) / 3 * 4
    decreases |data|
  {
    hide Symbol;
    if |data| >= 3 {
      EncodedLength(data[3..]);
    }
  }

  lemma EncodesStep(quad: bytes, text: bytes, three: bytes, data: bytes)
    requires |quad| == 4 && |three| == 3 && Base64Encode(three + data) == Base64Encode(three) + Base64Encode(data)
    requires quad == Base64Encode(three)
    ensures Encodes(quad + text, three + data) <==> Encodes(text, data)
  {
    hide Base64Encode, SameHighBits;
    var e := Base64Encode(data);
    EncodedLength(data);
    assert |three + data| % 3 == |data| % 3;
    assert forall i | 0 <= i < |text| :: (quad + text)[i + 4] == text[i];
    assert forall i | 0 <= i < |e| :: (quad + e)[i + 4] == e[i];
    if Encodes(quad + text, three + data) {
      forall i | 0 <= i < |e|
        ensures if i + 3 == |e| && |data| % 3 == 1 then SameHighBits(text[i], e[i], 16)
                else if i + 2 == |e| && |data| % 3 == 2 then SameHighBits(text[i], e[i], 4)
                else text[i] == e[i]
      {
        assert (quad + text)[i + 4] == text[i] && (quad + e)[i + 4] == e[i];
      }
    }
  }

  lemma EncodeStep(a: byte, b: byte, c: byte, data: bytes)
    ensures Base64Encode([a, b, c] + data) == Base64Encode([a, b, c]) + Base64Encode(data)
    ensures |Base64Encode([a, b, c])| == 4
  {
    hide Symbol;
    var all := [a, b, c] + data;
    assert all[3..] == data && [a, b, c][3..] == [];
    assert all[0] == a && all[1] == b && all[2] == c;
  }

  /** Decoding four symbols at a time succeeds exactly on encodings. */
  lemma {:induction false} QuadsDecode(text: bytes, data: bytes)
    requires DecodeQuads(text) == Some(data)
    ensures Encodes(text, data)
    decreases |text|
  {
    hide Symbol, ValueOf;
    if text != [] {
      forall i | 0 <= i < 4 ensures ValueOf(text[i]).Some? ==> ValueOf(text[i]).value < 64 && Symbol(ValueOf(text[i]).value) == text[i] {
        SymbolOfValue(text[i]);
      }
      var v, w := ValueOf(text[2]), ValueOf(text[3]);
      var p, q := ValueOf(text[0]).value, ValueOf(text[1]).value;
      if v.Some? && w.Some? {
        LastOrFull(text, data, p, q, v.value, w.value);
      } else if v.Some? {
        TwoDecoded(text, data, p, q, v.value);
      } else {
        OneDecoded(text, data, p, q);
      }
    }
  }

  lemma LastOrFull(text: bytes, data: bytes, p: nat, q: nat, r: nat, s: nat)
    requires |text| >= 4 && p < 64 && q < 64 && r < 64 && s < 64
    requires text[0] == Symbol(p) && text[1] == Symbol(q) && text[2] == Symbol(r) && text[3] == Symbol(s)
    requires DecodeQuads(text) == Some(data)
    ensures Encodes(text, data)
    decreases |text|, 0
  {
    hide Symbol, ValueOf, Encodes, DecodeQuads;
    QuadReads(p, q, r, s, text[4..]);
    assert text == [Symbol(p), Symbol(q), Symbol(r), Symbol(s)] + text[4..];
    var rest := DecodeQuads(text[4..]).value;
    QuadsDecode(text[4..], rest);
    ThreeBytes(p, q, r, s);
    var a, b, c := p * 4 + q / 16, q % 16 * 16 + r / 4, r % 4 * 64 + s;
    EncodeStep(a, b, c, rest);
    OneQuad(a, b, c);
    EncodesStep(text[..4], text[4..], [a, b, c], rest);
    assert text == text[..4] + text[4..] && data == [a, b, c] + rest;
  }

  lemma OneQuad(a: byte, b: byte, c: byte)
    ensures Base64Encode([a, b, c]) == [Symbol(a / 4), Symbol(a % 4 * 16 + b / 16), Symbol(b % 16 * 4 + c / 64), Symbol(c % 64)]
  {
    hide Symbol;
    assert [a, b, c][3..] == [];
  }

  lemma TwoDecoded(text: bytes, data: bytes, p: nat, q: nat, r: nat)
    requires |text| >= 4 && ValueOf(text[0]) == Some(p) && ValueOf(text[1]) == Some(q) && ValueOf(text[2]) == Some(r)
    requires ValueOf(text[3]).None? && DecodeQuads(text) == Some(data)
    ensures Encodes(text, data)
  {
    hide Symbol, ValueOf;
    forall i | 0 <= i < 3 ensures ValueOf(text[i]).value < 64 && Symbol(ValueOf(text[i]).value) == text[i] {
      SymbolOfValue(text[i]);
    }
    ThreeBytes(p, q, r, 0);
    var b := q % 16 * 16 + r / 4;
    assert data == [p * 4 + q / 16, b];
    SymbolReads(b % 16 * 4);
    assert Base64Encode(data) == [Symbol(p), Symbol(q), Symbol(b % 16 * 4), PAD_SYMBOL];
  }

  lemma OneDecoded(text: bytes, data: bytes, p: nat, q: nat)
    requires |text| >= 4 && ValueOf(text[0]) == Some(p) && ValueOf(text[1]) == Some(q) && ValueOf(text[2]).None?
    requires DecodeQuads(text) == Some(data)
    ensures Encodes(text, data)
  {
    hide Symbol, ValueOf;
    forall i | 0 <= i < 2 ensures ValueOf(text[i]).value < 64 && Symbol(ValueOf(text[i]).value) == text[i] {
      SymbolOfValue(text[i]);
    }
    ThreeBytes(p, q, 0, 0);
    var a := p * 4 + q / 16;
    assert data == [a];
    SymbolReads(a % 4 * 16);
    assert Base64Encode(data) == [Symbol(p), Symbol(a % 4 * 16), PAD_SYMBOL, PAD_SYMBOL];
  }

  lemma EncodesNothing(text: bytes)
    ensures Encodes(text, []) <==> text == []
  {
  }

  /** The other direction, for what is left of an encoding: nothing, one byte, two bytes, or three and more. */
  lemma {:induction false} EncodingsDecode(text: bytes, data: bytes)
    requires Encodes(text, data)
    ensures DecodeQuads(text) == Some(data)
    decreases |text|
  {
    hide Symbol, ValueOf;
    EncodedLength(data);
    if |data| == 1 {
      OneEncoded(text, data[0]);
      assert data == [data[0]];
    } else if |data| == 2 {
      TwoEncoded(text, data[0], data[1]);
      assert data == [data[0], data[1]];
    } else if |data| >= 3 {
      ThreeEncoded(text, data);
    }
  }

  lemma OneEncoded(text: bytes, a: byte)
    requires Encodes(text, [a])
    ensures DecodeQuads(text) == Some([a])
  {
    hide Symbol, ValueOf;
    var e := Base64Encode([a]);
    assert e == [Symbol(a as int / 4), Symbol(a as int % 4 * 16), PAD_SYMBOL, PAD_SYMBOL];
    assert |text| == 4 && text[0] == e[0] && text[2] == e[2] && text[3] == e[3] && SameHighBits(text[1], e[1], 16);
    SymbolReads(a as int / 4);
    SymbolReads(a as int % 4 * 16);
    PaddingIsNoSymbol();
    SymbolOfValue(text[1]);
    FourSixes(a, 0, 0);
  }

  lemma TwoEncoded(text: bytes, a: byte, b: byte)
    requires Encodes(text, [a, b])
    ensures DecodeQuads(text) == Some([a, b])
  {
    hide Symbol, ValueOf;
    var e := Base64Encode([a, b]);
    assert e == [Symbol(a as int / 4), Symbol(a as int % 4 * 16 + b as int / 16), Symbol(b as int % 16 * 4), PAD_SYMBOL];
    assert |text| == 4 && text[0] == e[0] && text[1] == e[1] && text[3] == e[3] && SameHighBits(text[2], e[2], 4);
    SymbolReads(a as int / 4);
    SymbolReads(a as int % 4 * 16 + b as int / 16);
    SymbolReads(b as int % 16 * 4);
    PaddingIsNoSymbol();
    SymbolOfValue(text[2]);
    FourSixes(a, b, 0);
  }

  lemma ThreeEncoded(text: bytes, data: bytes)
    requires |data| >= 3 && Encodes(text, data)
    ensures DecodeQuads(text) == Some(data)
    decreases |text|, 0
  {
    hide Symbol, ValueOf, DecodeQuads, SameHighBits;
    var a, b, c, rest := data[0], data[1], data[2], data[3..];
    assert data == [a, b, c] + rest;
    EncodeStep(a, b, c, rest);
    OneQuad(a, b, c);
    var e := Base64Encode(data);
    EncodedLength(data);
    assert text == text[..4] + text[4..];
    forall i | 0 <= i < 4 ensures text[i] == e[i] {}
    assert text[..4] == e[..4] == Base64Encode([a, b, c]);
    EncodesStep(text[..4], text[4..], [a, b, c], rest);
    EncodingsDecode(text[4..], rest);
    FourSixes(a, b, c);
    QuadReads(a as int / 4, a as int % 4 * 16 + b as int / 16, b as int % 16 * 4 + c as int / 64, c as int % 64, text[4..]);
  }

  /** Decoding succeeds exactly when the text without its line breaks is an encoding, and gives what it encodes. */
  lemma Base64DecodesIff(text: bytes, data: bytes)
    ensures Base64Decode(text) == Some(data) <==> Encodes(WithoutBreaks(text), data)
  {
    hide DecodeQuads, Encodes;
    if Base64Decode(text) == Some(data) {
      QuadsDecode(WithoutBreaks(text), data);
    }
    if Encodes(WithoutBreaks(text), data) {
      EncodingsDecode(WithoutBreaks(text), data);
    }
  }

  /** What counts as a line break ... */
  lemma BreaksAre(x: byte)
    ensures WithoutBreaks([x]) == if x == 10 || x == 13 then [] else [x]
  {
    assert [x][1..] == [];
  }

  /** ... and it does not matter where one stands. */
  lemma {:induction false} BreaksAreSkipped(a: bytes, b: bytes)
    ensures WithoutBreaks(a + b) == WithoutBreaks(a) + WithoutBreaks(b)
  {
    hide WithoutBreaks;
    if a == [] {
      assert a + b == b;
      NoTextLeft();
    } else {
      BreaksAreSkipped(a[1..], b);
      FirstByte(a);
      FirstByte(a + b);
      assert (a + b)[1..] == a[1..] + b;
    }
  }

  lemma NoTextLeft()
    ensures WithoutBreaks([]) == []
  {
  }

  lemma FirstByte(a: bytes)
    requires a != []
    ensures WithoutBreaks(a) == (if a[0] == 10 || a[0] == 13 then [] else [a[0]]) + WithoutBreaks(a[1..])
  {
  }

  // ---------------------------------------------------------------------------
  // The envelope
  // ---------------------------------------------------------------------------

  /** The cipher text carries this message to this receiver: it decrypts to their padded layout. */
  ghost predicate Carries(w: Crypt, encrypt: bytes, msg: bytes, receiver: bytes)
    requires CryptOk(w)
  {
    exists random, padded ::
      && CbcDecrypter(w, encrypt) == Ok(padded) && |random| == 16
      && LengthsFit(msg, receiver) && Unpads(padded, Layout(random, msg, receiver))
  }

  /** Deciphering succeeds exactly on base64 of whole blocks, at least one, and undoes the chaining of each. */
  lemma DeciphersIff(w: Crypt, text: bytes, plain: bytes)
    requires CryptOk(w)
    ensures CbcDecrypter(w, text) == Ok(plain) <==>
            exists data :: Encodes(WithoutBreaks(text), data) && data != [] && |data| % 16 == 0 && plain == CbcDecrypt(w.cipher, w.iv, data)
    ensures CbcDecrypter(w, text) == Error(-40010) <==> forall data :: !Encodes(WithoutBreaks(text), data)
    ensures CbcDecrypter(w, text).Error? ==> CbcDecrypter(w, text) in {Error(-40010), Error(-40007)}
    ensures !CbcDecrypter(w, text).Panic?
  {
    hide Base64Decode, CbcDecrypt, Encodes, WithoutBreaks;
    if Base64Decode(text).Some? {
      Base64DecodesIff(text, Base64Decode(text).value);
    }
    forall data | Encodes(WithoutBreaks(text), data) ensures Base64Decode(text) == Some(data) {
      Base64DecodesIff(text, data);
    }
  }

  lemma FirstDecrypted(c: Cipher, iv: bytes, data: bytes)
    requires |iv| == AES_BLOCK_SIZE && |data| % AES_BLOCK_SIZE == 0 && CipherOk(c) && |data| >= 16
    ensures |c.dec(data[..16])| == 16
    ensures CbcDecrypt(c, iv, data) == Xor(c.dec(data[..16]), iv) + CbcDecrypt(c, data[..16], data[16..])
  {
  }

  lemma {:induction false} BlockIsUnchained(c: Cipher, iv: bytes, data: bytes, k: nat)
    requires |iv| == AES_BLOCK_SIZE && |data| % AES_BLOCK_SIZE == 0 && CipherOk(c) && 16 * (k + 1) <= |data|
    ensures |c.dec(BlockAt(data, k))| == 16 && |ChainedTo(iv, data, k)| == 16
    ensures BlockAt(CbcDecrypt(c, iv, data), k) == Xor(c.dec(BlockAt(data, k)), ChainedTo(iv, data, k))
    decreases k
  {
    hide Xor, CbcDecrypt, CipherOk;
    var first, rest := data[..16], data[16..];
    FirstDecrypted(c, iv, data);
    BlockOk(c, BlockAt(data, k));
    var plain := Xor(c.dec(first), iv);
    assert data == first + rest;
    var more := CbcDecrypt(c, first, rest);
    if k > 0 {
      BlockIsUnchained(c, first, rest, k - 1);
      BlockBehind(plain, more, k - 1);
      BlockBehind(first, rest, k - 1);
      if k > 1 {
        BlockBehind(first, rest, k - 2);
      }
    } else {
      assert BlockAt(plain + more, 0) == plain && BlockAt(data, 0) == first;
    }
  }

  lemma CarriesIff(w: Crypt, encrypt: bytes, msg: bytes, receiver: bytes)
    requires CryptOk(w)
    ensures Carries(w, encrypt, msg, receiver) <==>
            && CbcDecrypter(w, encrypt).Ok? && ParsePlainText(CbcDecrypter(w, encrypt).value).Ok?
            && var p := ParsePlainText(CbcDecrypter(w, encrypt).value).value; p.msg == msg && p.receiverId == receiver
  {
    hide CbcDecrypter, ParsePlainText, Unpads, Layout, LengthsFit;
    if Carries(w, encrypt, msg, receiver) {
      var random, padded :| CbcDecrypter(w, encrypt) == Ok(padded) && |random| == 16
                            && LengthsFit(msg, receiver) && Unpads(padded, Layout(random, msg, receiver));
      ParsesIff(padded, Parsed(random, msg, receiver));
    }
    if CbcDecrypter(w, encrypt).Ok? && ParsePlainText(CbcDecrypter(w, encrypt).value).Ok? {
      ParsesIff(CbcDecrypter(w, encrypt).value, ParsePlainText(CbcDecrypter(w, encrypt).value).value);
    }
  }

  lemma CarriedOutcome(w: Crypt, signature: bytes, timestamp: bytes, nonce: bytes, encrypt: bytes, msg: bytes, receiver: bytes)
    requires CryptOk(w) && Signs(w.digest, w.token, timestamp, nonce, encrypt, signature) && Carries(w, encrypt, msg, receiver)
    ensures DecryptMsg(w, signature, timestamp, nonce, encrypt) ==
            if w.receiverId == [] || receiver == w.receiverId then Ok(msg) else Error(-40005)
  {
    hide CbcDecrypter, ParsePlainText, Signature, Signs, Carries;
    SignatureIff(w.digest, w.token, timestamp, nonce, encrypt, signature);
    CarriesIff(w, encrypt, msg, receiver);
  }

  lemma OtherOutcomes(w: Crypt, signature: bytes, timestamp: bytes, nonce: bytes, encrypt: bytes)
    requires CryptOk(w)
    ensures !Signs(w.digest, w.token, timestamp, nonce, encrypt, signature) ==>
              DecryptMsg(w, signature, timestamp, nonce, encrypt) == Error(-40001)
    ensures Signs(w.digest, w.token, timestamp, nonce, encrypt, signature)
            && (forall msg, receiver :: !Carries(w, encrypt, msg, receiver)) ==>
              var r := DecryptMsg(w, signature, timestamp, nonce, encrypt);
              r.Panic? || r in {Error(-40007), Error(-40008), Error(-40010)}
  {
    hide CbcDecrypter, ParsePlainText, Signature, Signs, Carries;
    SignatureIff(w.digest, w.token, timestamp, nonce, encrypt, signature);
    DeciphersIff(w, encrypt, []);
    if CbcDecrypter(w, encrypt).Ok? {
      var plain := CbcDecrypter(w, encrypt).value;
      ParsesIff(plain, Parsed([], [], []));
      if ParsePlainText(plain).Ok? {
        CarriesIff(w, encrypt, ParsePlainText(plain).value.msg, ParsePlainText(plain).value.receiverId);
      }
    }
  }

  /** A message is accepted exactly when the signature is that of token, timestamp, nonce and cipher text, and the cipher
      text carries the message to the receiver of the account; an account without a receiver takes anybody's. */
  lemma AcceptsIff(w: Crypt, signature: bytes, timestamp: bytes, nonce: bytes, encrypt: bytes, msg: bytes)
    requires CryptOk(w)
    ensures DecryptMsg(w, signature, timestamp, nonce, encrypt) == Ok(msg) <==>
            && Signs(w.digest, w.token, timestamp, nonce, encrypt, signature)
            && exists receiver :: Carries(w, encrypt, msg, receiver) && (w.receiverId == [] || receiver == w.receiverId)
  {
    hide DecryptMsg, Signs, Carries;
    OtherOutcomes(w, signature, timestamp, nonce, encrypt);
    if Signs(w.digest, w.token, timestamp, nonce, encrypt, signature) {
      forall m, receiver | Carries(w, encrypt, m, receiver)
        ensures DecryptMsg(w, signature, timestamp, nonce, encrypt) ==
                if w.receiverId == [] || receiver == w.receiverId then Ok(m) else Error(-40005)
      {
        CarriedOutcome(w, signature, timestamp, nonce, encrypt, m, receiver);
      }
    }
  }

  /** The two refusals that are not about the form of the envelope: another signature, and another receiver. */
  lemma RefusesIff(w: Crypt, signature: bytes, timestamp: bytes, nonce: bytes, encrypt: bytes)
    requires CryptOk(w)
    ensures DecryptMsg(w, signature, timestamp, nonce, encrypt) == Error(-40001) <==>
            !Signs(w.digest, w.token, timestamp, nonce, encrypt, signature)
    ensures DecryptMsg(w, signature, timestamp, nonce, encrypt) == Error(-40005) <==>
            && Signs(w.digest, w.token, timestamp, nonce, encrypt, signature) && w.receiverId != []
            && exists msg, receiver :: Carries(w, encrypt, msg, receiver) && receiver != w.receiverId
  {
    hide DecryptMsg, Signs, Carries;
    OtherOutcomes(w, signature, timestamp, nonce, encrypt);
    if Signs(w.digest, w.token, timestamp, nonce, encrypt, signature) {
      forall m, receiver | Carries(w, encrypt, m, receiver)
        ensures DecryptMsg(w, signature, timestamp, nonce, encrypt) ==
                if w.receiverId == [] || receiver == w.receiverId then Ok(m) else Error(-40005)
      {
        CarriedOutcome(w, signature, timestamp, nonce, encrypt, m, receiver);
      }
    }
  }

  /** An envelope made for one receiver and opened by another, with the same token and key. */
  lemma OtherReceiverIsRefused(w: Crypt, other: bytes, random: bytes, msg: bytes, timestamp: bytes, nonce: bytes)
    requires CryptOk(w) && |random| == 16 && LengthsFit(msg, other)
    ensures var e := EncryptMsg(w.(receiverId := other), random, msg, timestamp, nonce);
            DecryptMsg(w, e.signature, e.timestamp, e.nonce, e.encrypt) ==
            if w.receiverId == [] || w.receiverId == other then Ok(msg) else Error(-40005)
  {
    hide CbcEncrypter, CbcDecrypter, ParsePlainText, Signature, Pad, Layout;
    CipherLayersUndo(w, Layout(random, msg, other));
    ParseLayout(random, msg, other);
    SameCipherText(w, other, Layout(random, msg, other));
  }

  lemma SameCipherText(w: Crypt, other: bytes, text: bytes)
    requires CryptOk(w)
    ensures CryptOk(w.(receiverId := other)) && CbcEncrypter(w.(receiverId := other), text) == CbcEncrypter(w, text)
  {
  }

  // ---------------------------------------------------------------------------
  // The account
  // ---------------------------------------------------------------------------

  /** The key of an account: base64 text that the block cipher takes; its first block is the initial vector. */
  ghost predicate Opens(a: Account, w: Crypt) {
    exists key ::
      && Encodes(WithoutBreaks(a.encodingKey), key) && a.newCipher(key) == Some(w.cipher) && w.iv <= key && |w.iv| == 16
      && w.token == a.token && w.receiverId == a.receiverId && w.digest == a.digest
  }

  lemma OpensIff(a: Account, error: int, w: Crypt)
    requires AccountOk(a)
    ensures OpenKey(a, error) == Ok(w) <==> Opens(a, w)
  {
    hide Base64Decode, Encodes;
    forall key ensures Base64Decode(a.encodingKey) == Some(key) <==> Encodes(WithoutBreaks(a.encodingKey), key) {
      Base64DecodesIff(a.encodingKey, key);
    }
    if Opens(a, w) {
      var key :| Encodes(WithoutBreaks(a.encodingKey), key) && a.newCipher(key) == Some(w.cipher) && w.iv <= key && |w.iv| == 16
                 && w.token == a.token && w.receiverId == a.receiverId && w.digest == a.digest;
      assert w.iv == key[..16];
    }
  }

  /** A key that is no base64 text, and one that the block cipher refuses. */
  lemma KeyErrors(a: Account, error: int, key: bytes)
    requires AccountOk(a)
    ensures (forall k :: !Encodes(WithoutBreaks(a.encodingKey), k)) ==> OpenKey(a, error) == Error(-40010)
    ensures Encodes(WithoutBreaks(a.encodingKey), key) && a.newCipher(key) == None ==> OpenKey(a, error) == Error(error)
  {
    hide Base64Decode, Encodes;
    forall k ensures Base64Decode(a.encodingKey) == Some(k) <==> Encodes(WithoutBreaks(a.encodingKey), k) {
      Base64DecodesIff(a.encodingKey, k);
    }
  }

  /** A reply is the XML of the envelope under the key of the account; without such a key, or when the XML cannot be written,
      it is an error. */
  lemma ReplyOutcomes(a: Account, random: bytes, msg: bytes, timestamp: bytes, nonce: bytes, w: Crypt, key: bytes)
    requires AccountOk(a)
    ensures (forall k :: !Encodes(WithoutBreaks(a.encodingKey), k)) ==> Reply(a, random, msg, timestamp, nonce) == Error(-40010)
    ensures Encodes(WithoutBreaks(a.encodingKey), key) && a.newCipher(key) == None ==>
              Reply(a, random, msg, timestamp, nonce) == Error(-40006)
    ensures CryptOk(w) && Opens(a, w) ==>
              Reply(a, random, msg, timestamp, nonce) ==
              match a.serialize(EncryptMsg(w, random, msg, timestamp, nonce))
              case None => Error(-40010)
              case Some(xml) => Ok(xml)
  {
    hide EncryptMsg, Encodes, Opens, OpenKey;
    KeyErrors(a, ENCRYPT_AES_ERROR, key);
    OpensIff(a, ENCRYPT_AES_ERROR, w);
  }

  /** A signed post that fails on the key of the account or on the base64 of its cipher text. */
  lemma ReceiveKeyErrors(a: Account, signature: bytes, timestamp: bytes, nonce: bytes, post: bytes, encrypt: bytes, key: bytes)
    requires AccountOk(a) && a.parse(post) == Some(encrypt) && Signs(a.digest, a.token, timestamp, nonce, encrypt, signature)
    ensures (forall k :: !Encodes(WithoutBreaks(a.encodingKey), k)) || (forall k :: !Encodes(WithoutBreaks(encrypt), k)) ==>
              Receive(a, signature, timestamp, nonce, post) == Error(-40010)
    ensures Encodes(WithoutBreaks(a.encodingKey), key) && a.newCipher(key) == None && Base64Decode(encrypt).Some? ==>
              Receive(a, signature, timestamp, nonce, post) == Error(-40007)
  {
    hide Signature, Signs, Encodes, DecryptMsg, OpenKey, Base64Decode;
    SignatureIff(a.digest, a.token, timestamp, nonce, encrypt, signature);
    KeyErrors(a, DECRYPT_AES_ERROR, key);
    Base64DecodesIff(a.encodingKey, key);
    forall text, k ensures Base64Decode(text) == Some(k) <==> Encodes(WithoutBreaks(text), k) {
      Base64DecodesIff(text, k);
    }
  }

  /** A post is accepted exactly when it parses, its signature is right, the key of the account opens, and its cipher text
      carries the message to the account. */
  lemma ReceivesIff(a: Account, signature: bytes, timestamp: bytes, nonce: bytes, post: bytes, msg: bytes)
    requires AccountOk(a)
    ensures Receive(a, signature, timestamp, nonce, post) == Ok(msg) <==>
            exists encrypt, w, receiver ::
              && a.parse(post) == Some(encrypt) && Signs(a.digest, a.token, timestamp, nonce, encrypt, signature)
              && CryptOk(w) && Opens(a, w) && Carries(w, encrypt, msg, receiver)
              && (a.receiverId == [] || receiver == a.receiverId)
  {
    hide CbcDecrypter, Signature, Signs, Carries, Opens, DecryptMsg, OpenKey;
    if a.parse(post).Some? {
      var encrypt := a.parse(post).value;
      SignatureIff(a.digest, a.token, timestamp, nonce, encrypt, signature);
      forall w ensures OpenKey(a, DECRYPT_AES_ERROR) == Ok(w) <==> Opens(a, w) {
        OpensIff(a, DECRYPT_AES_ERROR, w);
      }
      if OpenKey(a, DECRYPT_AES_ERROR).Ok? {
        var w := OpenKey(a, DECRYPT_AES_ERROR).value;
        OpensAlike(a, DECRYPT_AES_ERROR, DECRYPT_AES_ERROR);
        AcceptsIff(w, signature, timestamp, nonce, encrypt, msg);
        if exists receiver :: Carries(w, encrypt, msg, receiver) {
          CarriedIsBase64(w, encrypt, msg);
        }
      }
    }
  }

  lemma CarriedIsBase64(w: Crypt, encrypt: bytes, msg: bytes)
    requires CryptOk(w) && exists receiver :: Carries(w, encrypt, msg, receiver)
    ensures Base64Decode(encrypt).Some?
  {
    hide Base64Decode, ParsePlainText, Unpads, Layout, LengthsFit;
  }

  /** A post that does not parse, and one under a wrong signature, which is refused before the key is looked at. */
  lemma ReceiveRefuses(a: Account, signature: bytes, timestamp: bytes, nonce: bytes, post: bytes)
    requires AccountOk(a)
    ensures a.parse(post) == None ==> Receive(a, signature, timestamp, nonce, post) == Error(-40002)
    ensures a.parse(post).Some? && !Signs(a.digest, a.token, timestamp, nonce, a.parse(post).value, signature) ==>
              Receive(a, signature, timestamp, nonce, post) == Error(-40001)
  {
    hide Signature, Signs, DecryptMsg, OpenKey;
    if a.parse(post).Some? {
      SignatureIff(a.digest, a.token, timestamp, nonce, a.parse(post).value, signature);
    }
  }

  /** A rightly signed post for another receiver is refused as such. */
  lemma ReceiveRefusesReceiver(a: Account, w: Crypt, signature: bytes, timestamp: bytes, nonce: bytes, post: bytes,
                               encrypt: bytes, msg: bytes, receiver: bytes)
    requires AccountOk(a) && a.parse(post) == Some(encrypt) && Signs(a.digest, a.token, timestamp, nonce, encrypt, signature)
    requires CryptOk(w) && Opens(a, w) && Carries(w, encrypt, msg, receiver) && a.receiverId != [] && receiver != a.receiverId
    ensures Receive(a, signature, timestamp, nonce, post) == Error(-40005)
  {
    hide Signature, Signs, Carries, Opens, DecryptMsg, OpenKey;
    SignatureIff(a.digest, a.token, timestamp, nonce, encrypt, signature);
    OpensIff(a, DECRYPT_AES_ERROR, w);
    OpensAlike(a, DECRYPT_AES_ERROR, DECRYPT_AES_ERROR);
    CarriedOutcome(w, signature, timestamp, nonce, encrypt, msg, receiver);
    CarriedIsBase64(w, encrypt, msg);
  }
}
