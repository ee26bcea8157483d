/** Bytes, Go's fixed-width integers and the big-endian layout of `encoding/binary`. */
module Bytes {

  type byte = b: int | 0 <= b < 256
  type bytes = seq<byte>
  type int16 = n: int | -0x8000 <= n < 0x8000
  type int32 = n: int | -0x8000_0000 <= n < 0x8000_0000

  /** The conversions `int16(n)` and `int32(n)`: keep the low bits, read them as two's complement. */
  function Wrap16(n: int): int16 {
    var low := n % 0x1_0000;
    if low < 0x8000 then low else low - 0x1_0000
  }

  function Wrap32(n: int): int32 {
    var low := n % 0x1_0000_0000;
    if low < 0x8000_0000 then low else low - 0x1_0000_0000
  }

  /** Subtraction in 32 bits agrees with subtraction narrowed at the end. */
  lemma WrapOfDifference(n: int, d: int)
    ensures Wrap32(Wrap32(n) - d) == Wrap32(n - d)
  {
    assert Wrap32(n) == n - n / 0x1_0000_0000 * 0x1_0000_0000
        || Wrap32(n) == n - (n / 0x1_0000_0000 + 1) * 0x1_0000_0000;
  }

  lemma WrapShrinks(n: nat)
    ensures Wrap32(n) <= n
  {
  }

  /** Cutting a concatenation at its seams. */
  lemma Seams(a: bytes, b: bytes, c: bytes, d: bytes)
    ensures var s := a + b + c + d;
            && s[..|a|] == a && s[|a|..] == b + c + d
            && s[|a|..|a| + |b|] == b && s[|a| + |b|..] == c + d
            && s[|a| + |b|..|a| + |b| + |c|] == c && s[|a| + |b| + |c|..] == d
  {
  }

  function BigEndian16(n: int): (b: bytes)
    ensures |b| == 2
  {
    [n / 0x100 % 0x100, n % 0x100]
  }

  function BigEndian32(n: int): (b: bytes)
    ensures |b| == 4
  {
    [n / 0x100_0000 % 0x100, n / 0x1_0000 % 0x100, n / 0x100 % 0x100, n % 0x100]
  }

  function ReadInt16(b: bytes): (n: int)
    requires |b| >= 2
    ensures -0x8000 <= n < 0x8000
  {
    Wrap16(b[0] as int * 0x100 + b[1])
  }

  function ReadUint32(b: bytes): (n: int)
    requires |b| >= 4
    ensures 0 <= n < 0x1_0000_0000
  {
    b[0] as int * 0x100_0000 + b[1] as int * 0x1_0000 + b[2] as int * 0x100 + b[3]
  }

  function ReadInt32(b: bytes): (n: int)
    requires |b| >= 4
    ensures -0x8000_0000 <= n < 0x8000_0000
  {
    Wrap32(ReadUint32(b))
  }

  lemma TwoBytes(n: int)
    ensures (n / 0x100 % 0x100) * 0x100 + n % 0x100 == n % 0x1_0000
  {
  }

  lemma FourBytes(n: int)
    ensures (n / 0x100_0000 % 0x100) * 0x100_0000 + (n / 0x1_0000 % 0x100) * 0x1_0000 + (n / 0x100 % 0x100) * 0x100 + n % 0x100
            == n % 0x1_0000_0000
  {
    var h := n / 0x1_0000;
    TwoBytes(n);
    TwoBytes(h);
    assert n / 0x100_0000 == h / 0x100;
    assert (h % 0x1_0000) * 0x1_0000 + n % 0x1_0000 == n % 0x1_0000_0000;
  }

  lemma ReadBack16(n: int, rest: bytes)
    ensures ReadInt16(BigEndian16(n) + rest) == Wrap16(n)
  {
    TwoBytes(n);
  }

  /** Whatever the width of `n`, what was written reads back as its low 32 bits. */
  lemma ReadBack32(n: int, rest: bytes)
    ensures ReadUint32(BigEndian32(n) + rest) == n % 0x1_0000_0000
    ensures ReadInt32(BigEndian32(n) + rest) == Wrap32(n)
  {
    FourBytes(n);
    var b := BigEndian32(n) + rest;
    assert b[0] == n / 0x100_0000 % 0x100 && b[1] == n / 0x1_0000 % 0x100 && b[2] == n / 0x100 % 0x100 && b[3] == n % 0x100;
    LowBits(n);
  }

  lemma LowBits(n: int)
    ensures Wrap32(n % 0x1_0000_0000) == Wrap32(n)
  {
  }

  /** A length that fits reads back as itself. */
  lemma ReadLengths(short: nat, long: nat, rest: bytes)
    ensures short < 0x8000 ==> ReadInt16(BigEndian16(short) + rest) == short
    ensures long < 0x8000_0000 ==> ReadInt32(BigEndian32(long) + rest) == long
  {
    hide BigEndian16, BigEndian32, ReadInt16, ReadInt32;
    ReadBack16(short, rest);
    ReadBack32(long, rest);
  }

  /** Big-endian: four bytes are their value, the most significant first ... */
  lemma BigEndianBytes(a: byte, b: byte, c: byte, d: byte)
    ensures BigEndian32(a as int * 0x100_0000 + b as int * 0x1_0000 + c as int * 0x100 + d) == [a, b, c, d]
    ensures BigEndian16(a as int * 0x100 + b) == [a, b]
  {
    var h := a as int * 0x100 + b;
    var n := h * 0x1_0000 + c as int * 0x100 + d;
    assert n / 0x100 == h * 0x100 + c as int;
    assert n / 0x1_0000 == h && n / 0x100_0000 == a as int;
  }

  /** ... and what is read, signed, is written back as it was. */
  lemma WriteBack(b: bytes)
    ensures |b| >= 2 ==> BigEndian16(ReadInt16(b)) == b[..2]
    ensures |b| >= 4 ==> BigEndian32(ReadInt32(b)) == b[..4]
  {
    if |b| >= 2 {
      BigEndianBytes(b[0], b[1], 0, 0);
      SameLowBits16(b[0] as int * 0x100 + b[1]);
      assert b[..2] == [b[0], b[1]];
    }
    if |b| >= 4 {
      BigEndianBytes(b[0], b[1], b[2], b[3]);
      SameLowBits32(ReadUint32(b));
      assert b[..4] == [b[0], b[1], b[2], b[3]];
    }
  }

  lemma SameLowBits16(n: nat)
    requires n < 0x1_0000
    ensures BigEndian16(Wrap16(n)) == BigEndian16(n)
  {
  }

  lemma SameLowBits32(n: nat)
    requires n < 0x1_0000_0000
    ensures BigEndian32(Wrap32(n)) == BigEndian32(n)
  {
    hide Wrap32;
    var m := n - 0x1_0000_0000;
    assert Wrap32(n) == n || Wrap32(n) == m by {
      WrapsOnce(n);
    }
    assert m / 0x100_0000 == n / 0x100_0000 - 0x100;
    assert m / 0x1_0000 == n / 0x1_0000 - 0x1_0000;
    assert m / 0x100 == n / 0x100 - 0x100_0000;
    SameDigit(n / 0x100_0000, 1);
    SameDigit(n / 0x1_0000, 0x100);
    SameDigit(n / 0x100, 0x1_0000);
    SameDigit(n, 0x100_0000);
  }

  lemma WrapsOnce(n: nat)
    requires n < 0x1_0000_0000
    ensures Wrap32(n) == n || Wrap32(n) == n - 0x1_0000_0000
  {
  }

  lemma SameDigit(n: int, q: nat)
    ensures (n - 0x100 * q) % 0x100 == n % 0x100
  {
    assert n == n / 0x100 * 0x100 + n % 0x100;
    assert n - 0x100 * q == (n / 0x100 - q) * 0x100 + n % 0x100;
  }

  // ---------------------------------------------------------------------------
  // Bits
  // ---------------------------------------------------------------------------

  /** The number with these bits, the lowest first. */
  function FromBits(bits: seq<nat>): nat {
    if bits == [] then 0 else bits[0] + 2 * FromBits(bits[1..])
  }

  ghost predicate AreBits(bits: seq<nat>) {
    forall b | b in bits :: b < 2
  }

  /** A 32-bit number without its sign. */
  function Unsigned32(n: int32): nat {
    if n < 0 then n + 0x1_0000_0000 else n
  }
}
