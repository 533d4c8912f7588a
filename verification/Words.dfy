/** 32-bit words and their little-endian bytes. */
module Words {
  import opened Bytes

  const W32 := 0x1_0000_0000
  const W64 := 0x1_0000_0000_0000_0000

  type U32 = w: int | 0 <= w < 0x1_0000_0000

  /** A 16-bit word in a byte sequence. */
  function Half(p: seq<Byte>, at: nat): (w: nat)
    requires at + 2 <= |p|
    ensures w < 0x1_0000
  {
    var lo: int, hi: int := p[at], p[at + 1];
    lo + 0x100 * hi
  }

  /** The bytes of a word, lowest first. */
  function Le32(w: U32): (s: seq<Byte>)
    ensures |s| == 4
  {
    [w % 0x100, w / 0x100 % 0x100, w / 0x1_0000 % 0x100, w / 0x100_0000]
  }

  /** The word that four bytes are. */
  function UnLe32(s: seq<Byte>): (w: U32)
    requires |s| == 4
  {
    var a: int, b: int, c: int, d: int := s[0], s[1], s[2], s[3];
    a + 0x100 * b + 0x1_0000 * c + 0x100_0000 * d
  }

  lemma LowestFirst()
    ensures Le32(0x0403_0201) == [1, 2, 3, 4] && UnLe32([1, 2, 3, 4]) == 0x0403_0201 && Half([1, 2], 0) == 0x201
  {
  }

  lemma Le32RoundTrip(w: U32)
    ensures UnLe32(Le32(w)) == w
    ensures Half(Le32(w), 0) == w % 0x1_0000 && Half(Le32(w), 2) == w / 0x1_0000
  {
    var q := w / 0x100;
    var r := q / 0x100;
    assert w / 0x1_0000 == r && w / 0x100_0000 == r / 0x100;
  }

  lemma UnLe32RoundTrip(s: seq<Byte>)
    requires |s| == 4
    ensures Le32(UnLe32(s)) == s
  {
    var w := UnLe32(s);
    var b: int, c: int, d: int := s[1], s[2], s[3];
    assert w / 0x100 == b + 0x100 * c + 0x1_0000 * d;
    assert w / 0x1_0000 == c + 0x100 * d;
  }
}
