/** CRC-32 with the polynomial of section 8 of RFC 1952, bit by bit and by table. */
module Crc32 {

  type u8 = bv8
  type u32 = bv32

  const POLY: u32 := 0xedb88320

  /** One bit: `crc = (crc >> 1) ^ ((crc & 1) ? CRC32POLY_LE : 0)`. */
  function Bit(c: u32): (r: u32)
  {
    (c >> 1) ^ Feedback(c)
  }

  function Bits(c: u32, n: nat): (r: u32)
  {
    if n == 0 then c else Bit(Bits(c, n - 1))
  }

  function Mix(c: u32, b: u8): (r: u32)
  {
    c ^ (b as u32)
  }

  /** One byte of the message. */
  function Byte(c: u32, b: u8): (r: u32)
  {
    Bits(Mix(c, b), 8)
  }

  /** The checksum of `buf` continued from `base`. */
  function Crc(buf: seq<u8>, base: u32): (crc: u32)
  {
    if buf == [] then base else Byte(Crc(buf[..|buf| - 1], base), buf[|buf| - 1])
  }

  // ---- the loops

  method Bitwise(buf: seq<u8>, base: u32) returns (crc: u32)
    ensures crc == Crc(buf, base)
  {
    crc := base;
    for k := 0 to |buf|
      invariant crc == Crc(buf[..k], base)
    {
      crc := crc ^ (buf[k] as u32);
      ghost var start := crc;
      for i := 0 to 8
        invariant crc == Bits(start, i)
      {
        crc := (crc >> 1) ^ (if crc & 1 == 1 then POLY else 0);
      }
      assert buf[..k + 1][..k] == buf[..k];
    }
    assert buf[..|buf|] == buf;
  }

  // ---- algebra

  lemma XorSwap(a: u32, b: u32, p: u32, q: u32)
    ensures (a ^ b) ^ (p ^ q) == (a ^ p) ^ (b ^ q)
  {
  }

  lemma XorShift(x: u32, y: u32)
    ensures (x ^ y) >> 1 == (x >> 1) ^ (y >> 1)
    ensures (x ^ y) & 1 == (x & 1) ^ (y & 1)
    ensures x & 1 == 1 || x & 1 == 0
  {
  }

  lemma XorCancel(x: u32)
    ensures x ^ x == 0 && x ^ 0 == x && 0 ^ x == x
  {
  }

  /** What the low bit feeds back. */
  function Feedback(c: u32): (f: u32)
  {
    if c & 1 == 1 then POLY else 0
  }

  lemma BitLinear(x: u32, y: u32)
    ensures Bit(x ^ y) == Bit(x) ^ Bit(y)
  {
    XorShift(x, y);
    XorShift(y, x);
    XorCancel(POLY);
    XorCancel(0);
    assert Feedback(x ^ y) == Feedback(x) ^ Feedback(y);
    XorSwap(x >> 1, y >> 1, Feedback(x), Feedback(y));
  }

  function Xor(x: u32, y: u32): (z: u32)
  {
    x ^ y
  }

  lemma BitXor(x: u32, y: u32)
    ensures Bit(Xor(x, y)) == Xor(Bit(x), Bit(y))
  {
    BitLinear(x, y);
  }

  /** Any number of bit steps is linear over exclusive or. */
  lemma {:induction false} BitsLinear(x: u32, y: u32, n: nat)
    ensures Bits(Xor(x, y), n) == Xor(Bits(x, n), Bits(y, n))
  {
    hide Bit, Feedback, Xor;
    if n > 0 {
      BitsLinear(x, y, n - 1);
      BitXor(Bits(x, n - 1), Bits(y, n - 1));
    }
  }

  /** The bit step undone: the polynomial has its top bit set, so the top bit says what was shifted out. */
  function Unbit(c: u32): (r: u32)
  {
    if c & 0x8000_0000 != 0 then ((c ^ POLY) << 1) | 1 else c << 1
  }

  lemma UnbitBit(c: u32)
    ensures Unbit(Bit(c)) == c
  {
  }

  lemma BitOfHigh(c: u32)
    requires c & 0x8000_0000 != 0
    ensures Bit(((c ^ POLY) << 1) | 1) == c
  {
  }

  lemma BitOfLow(c: u32)
    requires c & 0x8000_0000 == 0
    ensures Bit(c << 1) == c
  {
  }

  lemma BitBijective(c: u32)
    ensures Unbit(Bit(c)) == c && Bit(Unbit(c)) == c
  {
    UnbitBit(c);
    hide Bit, Feedback;
    if c & 0x8000_0000 != 0 {
      BitOfHigh(c);
    } else {
      BitOfLow(c);
    }
  }

  lemma {:induction false} BitsInjective(x: u32, y: u32, n: nat)
    requires Bits(x, n) == Bits(y, n)
    ensures x == y
  {
    if n > 0 {
      BitBijective(Bits(x, n - 1));
      BitBijective(Bits(y, n - 1));
      BitsInjective(x, y, n - 1);
    }
  }

  lemma {:induction false} BitsAdd(c: u32, m: nat, n: nat)
    ensures Bits(c, m + n) == Bits(Bits(c, m), n)
  {
    if n > 0 {
      BitsAdd(c, m, n - 1);
    }
  }

  /** The checksum of a concatenation is that of the second part, started from that of the first. */
  lemma {:induction false} CrcConcat(a: seq<u8>, b: seq<u8>, base: u32)
    ensures Crc(a + b, base) == Crc(b, Crc(a, base))
    decreases |b|
  {
    if b == [] {
      assert a + b == a;
    } else {
      assert (a + b)[..|a + b| - 1] == a + b[..|b| - 1];
      CrcConcat(a, b[..|b| - 1], base);
    }
  }

  // ---- the value that every implementation is checked with

  const DIGITS: seq<u8> := [0x31, 0x32, 0x33, 0x34, 0x35, 0x36, 0x37, 0x38, 0x39] // 123456789

  lemma CheckBytes()
    ensures Byte(0xffff_ffff, 0x31) == 0x7c23_1048 && Byte(0x7c23_1048, 0x32) == 0xb0ac_bb32
    ensures Byte(0xb0ac_bb32, 0x33) == 0x77b7_9c2d && Byte(0x77b7_9c2d, 0x34) == 0x641c_1f5c
    ensures Byte(0x641c_1f5c, 0x35) == 0x340a_c5e3 && Byte(0x340a_c5e3, 0x36) == 0xf68d_2c9e
    ensures Byte(0xf68d_2c9e, 0x37) == 0xaffc_9660 && Byte(0xaffc_9660, 0x38) == 0x651f_2550
    ensures Byte(0x651f_2550, 0x39) == 0x340b_c6d9
  {
  }

  /** From all ones the nine digits give the complement of the published check value. */
  lemma CheckValue()
    ensures Crc(DIGITS, 0xffff_ffff) == 0x340b_c6d9 && !(0x340b_c6d9 as u32) == 0xcbf4_3926
  {
    hide Byte;
    CheckBytes();
    assert DIGITS == [] + [0x31] + [0x32] + [0x33] + [0x34] + [0x35] + [0x36] + [0x37] + [0x38] + [0x39];
    ThreeBytes([], 0x31, 0x32, 0x33, 0xffff_ffff);
    ThreeBytes([] + [0x31] + [0x32] + [0x33], 0x34, 0x35, 0x36, 0xffff_ffff);
    ThreeBytes([] + [0x31] + [0x32] + [0x33] + [0x34] + [0x35] + [0x36], 0x37, 0x38, 0x39, 0xffff_ffff);
  }

  lemma ThreeBytes(s: seq<u8>, a: u8, b: u8, c: u8, base: u32)
    ensures Crc([], base) == base
    ensures Crc(s + [a] + [b] + [c], base) == Byte(Byte(Byte(Crc(s, base), a), b), c)
  {
    hide Byte, Crc;
    OneByte(s, a, base);
    OneByte(s + [a], b, base);
    OneByte(s + [a] + [b], c, base);
  }

  lemma OneByte(s: seq<u8>, b: u8, base: u32)
    ensures Crc([], base) == base && Crc(s + [b], base) == Byte(Crc(s, base), b)
  {
    hide Byte;
    assert (s + [b])[..|s|] == s;
  }
}
