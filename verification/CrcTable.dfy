/** The lookup table of the table-driven CRC, and that each entry is what eight bit steps make of its index. */
module CrcTable {
  import opened Crc32

  const ROW0: seq<u32> := [
    0x00000000, 0x77073096, 0xee0e612c, 0x990951ba, 0x076dc419, 0x706af48f, 0xe963a535, 0x9e6495a3,
    0x0edb8832, 0x79dcb8a4, 0xe0d5e91e, 0x97d2d988, 0x09b64c2b, 0x7eb17cbd, 0xe7b82d07, 0x90bf1d91
  ]

  const ROW1: seq<u32> := [
    0x1db71064, 0x6ab020f2, 0xf3b97148, 0x84be41de, 0x1adad47d, 0x6ddde4eb, 0xf4d4b551, 0x83d385c7,
    0x136c9856, 0x646ba8c0, 0xfd62f97a, 0x8a65c9ec, 0x14015c4f, 0x63066cd9, 0xfa0f3d63, 0x8d080df5
  ]

  const ROW2: seq<u32> := [
    0x3b6e20c8, 0x4c69105e, 0xd56041e4, 0xa2677172, 0x3c03e4d1, 0x4b04d447, 0xd20d85fd, 0xa50ab56b,
    0x35b5a8fa, 0x42b2986c, 0xdbbbc9d6, 0xacbcf940, 0x32d86ce3, 0x45df5c75, 0xdcd60dcf, 0xabd13d59
  ]

  const ROW3: seq<u32> := [
    0x26d930ac, 0x51de003a, 0xc8d75180, 0xbfd06116, 0x21b4f4b5, 0x56b3c423, 0xcfba9599, 0xb8bda50f,
    0x2802b89e, 0x5f058808, 0xc60cd9b2, 0xb10be924, 0x2f6f7c87, 0x58684c11, 0xc1611dab, 0xb6662d3d
  ]

  const ROW4: seq<u32> := [
    0x76dc4190, 0x01db7106, 0x98d220bc, 0xefd5102a, 0x71b18589, 0x06b6b51f, 0x9fbfe4a5, 0xe8b8d433,
    0x7807c9a2, 0x0f00f934, 0x9609a88e, 0xe10e9818, 0x7f6a0dbb, 0x086d3d2d, 0x91646c97, 0xe6635c01
  ]

  const ROW5: seq<u32> := [
    0x6b6b51f4, 0x1c6c6162, 0x856530d8, 0xf262004e, 0x6c0695ed, 0x1b01a57b, 0x8208f4c1, 0xf50fc457,
    0x65b0d9c6, 0x12b7e950, 0x8bbeb8ea, 0xfcb9887c, 0x62dd1ddf, 0x15da2d49, 0x8cd37cf3, 0xfbd44c65
  ]

  const ROW6: seq<u32> := [
    0x4db26158, 0x3ab551ce, 0xa3bc0074, 0xd4bb30e2, 0x4adfa541, 0x3dd895d7, 0xa4d1c46d, 0xd3d6f4fb,
    0x4369e96a, 0x346ed9fc, 0xad678846, 0xda60b8d0, 0x44042d73, 0x33031de5, 0xaa0a4c5f, 0xdd0d7cc9
  ]

  const ROW7: seq<u32> := [
    0x5005713c, 0x270241aa, 0xbe0b1010, 0xc90c2086, 0x5768b525, 0x206f85b3, 0xb966d409, 0xce61e49f,
    0x5edef90e, 0x29d9c998, 0xb0d09822, 0xc7d7a8b4, 0x59b33d17, 0x2eb40d81, 0xb7bd5c3b, 0xc0ba6cad
  ]

  const ROW8: seq<u32> := [
    0xedb88320, 0x9abfb3b6, 0x03b6e20c, 0x74b1d29a, 0xead54739, 0x9dd277af, 0x04db2615, 0x73dc1683,
    0xe3630b12, 0x94643b84, 0x0d6d6a3e, 0x7a6a5aa8, 0xe40ecf0b, 0x9309ff9d, 0x0a00ae27, 0x7d079eb1
  ]

  const ROW9: seq<u32> := [
    0xf00f9344, 0x8708a3d2, 0x1e01f268, 0x6906c2fe, 0xf762575d, 0x806567cb, 0x196c3671, 0x6e6b06e7,
    0xfed41b76, 0x89d32be0, 0x10da7a5a, 0x67dd4acc, 0xf9b9df6f, 0x8ebeeff9, 0x17b7be43, 0x60b08ed5
  ]

  const ROWA: seq<u32> := [
    0xd6d6a3e8, 0xa1d1937e, 0x38d8c2c4, 0x4fdff252, 0xd1bb67f1, 0xa6bc5767, 0x3fb506dd, 0x48b2364b,
    0xd80d2bda, 0xaf0a1b4c, 0x36034af6, 0x41047a60, 0xdf60efc3, 0xa867df55, 0x316e8eef, 0x4669be79
  ]

  const ROWB: seq<u32> := [
    0xcb61b38c, 0xbc66831a, 0x256fd2a0, 0x5268e236, 0xcc0c7795, 0xbb0b4703, 0x220216b9, 0x5505262f,
    0xc5ba3bbe, 0xb2bd0b28, 0x2bb45a92, 0x5cb36a04, 0xc2d7ffa7, 0xb5d0cf31, 0x2cd99e8b, 0x5bdeae1d
  ]

  const ROWC: seq<u32> := [
    0x9b64c2b0, 0xec63f226, 0x756aa39c, 0x026d930a, 0x9c0906a9, 0xeb0e363f, 0x72076785, 0x05005713,
    0x95bf4a82, 0xe2b87a14, 0x7bb12bae, 0x0cb61b38, 0x92d28e9b, 0xe5d5be0d, 0x7cdcefb7, 0x0bdbdf21
  ]

  const ROWD: seq<u32> := [
    0x86d3d2d4, 0xf1d4e242, 0x68ddb3f8, 0x1fda836e, 0x81be16cd, 0xf6b9265b, 0x6fb077e1, 0x18b74777,
    0x88085ae6, 0xff0f6a70, 0x66063bca, 0x11010b5c, 0x8f659eff, 0xf862ae69, 0x616bffd3, 0x166ccf45
  ]

  const ROWE: seq<u32> := [
    0xa00ae278, 0xd70dd2ee, 0x4e048354, 0x3903b3c2, 0xa7672661, 0xd06016f7, 0x4969474d, 0x3e6e77db,
    0xaed16a4a, 0xd9d65adc, 0x40df0b66, 0x37d83bf0, 0xa9bcae53, 0xdebb9ec5, 0x47b2cf7f, 0x30b5ffe9
  ]

  const ROWF: seq<u32> := [
    0xbdbdf21c, 0xcabac28a, 0x53b39330, 0x24b4a3a6, 0xbad03605, 0xcdd70693, 0x54de5729, 0x23d967bf,
    0xb3667a2e, 0xc4614ab8, 0x5d681b02, 0x2a6f2b94, 0xb40bbe37, 0xc30c8ea1, 0x5a05df1b, 0x2d02ef8d
  ]

  function Row(h: u32): (row: seq<u32>)
    requires h < 16
    ensures |row| == 16
  {
    if h == 0 then ROW0
    else if h == 1 then ROW1
    else if h == 2 then ROW2
    else if h == 3 then ROW3
    else if h == 4 then ROW4
    else if h == 5 then ROW5
    else if h == 6 then ROW6
    else if h == 7 then ROW7
    else if h == 8 then ROW8
    else if h == 9 then ROW9
    else if h == 10 then ROWA
    else if h == 11 then ROWB
    else if h == 12 then ROWC
    else if h == 13 then ROWD
    else if h == 14 then ROWE
    else ROWF
  }

  /** Entry `i` of the 256. */
  function Tab(i: u32): (t: u32)
    requires i < 256
  {
    Nibbles(i);
    Row(i >> 4)[(i & 15) as nat]
  }

  lemma Nibbles(i: u32)
    requires i < 256
    ensures i >> 4 < 16 && i & 15 < 16 && Xor((i >> 4) << 4, i & 15) == i
  {
  }

  // ---- the entries, up to linearity

  lemma LowEntries()
    ensures Bits(0x00, 8) == 0x00000000
    ensures Bits(0x01, 8) == 0x77073096
    ensures Bits(0x02, 8) == 0xee0e612c
    ensures Bits(0x03, 8) == 0x990951ba
    ensures Bits(0x04, 8) == 0x076dc419
    ensures Bits(0x05, 8) == 0x706af48f
    ensures Bits(0x06, 8) == 0xe963a535
    ensures Bits(0x07, 8) == 0x9e6495a3
  {
  }

  lemma LowEntries8()
    ensures Bits(0x08, 8) == 0x0edb8832
    ensures Bits(0x09, 8) == 0x79dcb8a4
    ensures Bits(0x0a, 8) == 0xe0d5e91e
    ensures Bits(0x0b, 8) == 0x97d2d988
    ensures Bits(0x0c, 8) == 0x09b64c2b
    ensures Bits(0x0d, 8) == 0x7eb17cbd
    ensures Bits(0x0e, 8) == 0xe7b82d07
    ensures Bits(0x0f, 8) == 0x90bf1d91
  {
  }

  lemma HighEntries()
    ensures Bits(0x00, 8) == 0x00000000
    ensures Bits(0x10, 8) == 0x1db71064
    ensures Bits(0x20, 8) == 0x3b6e20c8
    ensures Bits(0x30, 8) == 0x26d930ac
    ensures Bits(0x40, 8) == 0x76dc4190
    ensures Bits(0x50, 8) == 0x6b6b51f4
    ensures Bits(0x60, 8) == 0x4db26158
    ensures Bits(0x70, 8) == 0x5005713c
  {
  }

  lemma HighEntries8()
    ensures Bits(0x80, 8) == 0xedb88320
    ensures Bits(0x90, 8) == 0xf00f9344
    ensures Bits(0xa0, 8) == 0xd6d6a3e8
    ensures Bits(0xb0, 8) == 0xcb61b38c
    ensures Bits(0xc0, 8) == 0x9b64c2b0
    ensures Bits(0xd0, 8) == 0x86d3d2d4
    ensures Bits(0xe0, 8) == 0xa00ae278
    ensures Bits(0xf0, 8) == 0xbdbdf21c
  {
  }

  predicate IsNibble(x: u32) {
    || x == 0 || x == 1 || x == 2 || x == 3 || x == 4 || x == 5 || x == 6 || x == 7
    || x == 8 || x == 9 || x == 10 || x == 11 || x == 12 || x == 13 || x == 14 || x == 15
  }

  lemma FirstRow(l: u32)
    requires l < 16
    ensures ROW0[l as nat] == Bits(l, 8)
  {
    hide Bits;
    assert IsNibble(l);
    LowEntries();
    LowEntries8();
  }

  lemma FirstColumn(h: u32)
    requires h < 16
    ensures Row(h)[0] == Bits(h << 4, 8)
  {
    hide Bits;
    assert IsNibble(h);
    HighEntries();
    HighEntries8();
  }

  lemma RowIsLinear(h: u32, l: u32)
    requires h < 16 && l < 16
    ensures Row(h)[l as nat] == Xor(Row(h)[0], ROW0[l as nat])
  {
    assert IsNibble(h);
    assert IsNibble(l);
  }

  lemma EntryIsBits(i: u32)
    requires i < 256
    ensures Tab(i) == Bits(i, 8)
  {
    hide Bits, Xor, Row;
    Nibbles(i);
    FirstColumn(i >> 4);
    FirstRow(i & 15);
    RowIsLinear(i >> 4, i & 15);
    BitsLinear((i >> 4) << 4, i & 15, 8);
  }

  // ---- a byte at a time

  function Half(c: u32): (h: u32) {
    c >> 1
  }

  predicate Even(c: u32) {
    c & 1 == 0
  }

  lemma EvenBit(c: u32)
    requires Even(c)
    ensures Bit(c) == Half(c)
  {
  }

  lemma Evens(y: u32)
    requires y & 0xf == 0
    ensures Even(y) && Even(Half(y)) && Even(Half(Half(y))) && Even(Half(Half(Half(y))))
  {
  }

  lemma Halves(y: u32)
    ensures Half(Half(Half(Half(y)))) == y >> 4
  {
  }

  /** Four zero bits are just shifted out. */
  lemma ShiftOut4(y: u32)
    requires y & 0xf == 0
    ensures Bits(y, 4) == y >> 4
  {
    hide Bit, Half, Even;
    Evens(y);
    Halves(y);
    EvenBit(y);
    EvenBit(Half(y));
    EvenBit(Half(Half(y)));
    EvenBit(Half(Half(Half(y))));
    assert Bits(y, 0) == y;
    assert Bits(y, 1) == Half(y);
    assert Bits(y, 2) == Half(Half(y));
    assert Bits(y, 3) == Half(Half(Half(y)));
  }

  function Shift8(c: u32): (r: u32) {
    c >> 8
  }

  lemma NibbleByNibble(y: u32)
    requires y & 0xff == 0
    ensures y & 0xf == 0 && (y >> 4) & 0xf == 0 && y >> 4 >> 4 == Shift8(y)
  {
  }

  lemma ShiftOut(y: u32)
    requires y & 0xff == 0
    ensures Bits(y, 8) == Shift8(y)
  {
    hide Bits, Shift8;
    NibbleByNibble(y);
    ShiftOut4(y);
    ShiftOut4(y >> 4);
    BitsAdd(y, 4, 4);
  }

  function Low(x: u32): (l: u32)
    ensures l < 256
  {
    LowBound(x);
    x & 0xff
  }

  lemma LowBound(x: u32)
    ensures x & 0xff < 256
  {
  }

  function High(x: u32): (h: u32) {
    x & 0xffff_ff00
  }

  /** One round of the table loop: `(crc >> 8) ^ tab[(crc ^ b) & 0xff]`. */
  function Lookup(c: u32, b: u8): (r: u32)
  {
    Xor(Shift8(c), Tab(Low(Mix(c, b))))
  }

  lemma SplitByte(x: u32)
    ensures High(x) & 0xff == 0 && Xor(Low(x), High(x)) == x
  {
  }

  lemma MixHigh(c: u32, b: u8)
    ensures Shift8(High(Mix(c, b))) == Shift8(c)
  {
  }

  lemma ShiftOutHigh(x: u32)
    ensures Bits(High(x), 8) == Shift8(High(x))
  {
    hide Bits, High, Shift8;
    SplitByte(x);
    ShiftOut(High(x));
  }

  /** One lookup is eight bit steps. */
  lemma LookupIsByte(c: u32, b: u8)
    ensures Lookup(c, b) == Byte(c, b)
  {
    hide Bits, Xor, Tab, Low, High, Shift8, Mix;
    var x := Mix(c, b);
    SplitByte(x);
    MixHigh(c, b);
    EntryIsBits(Low(x));
    ShiftOutHigh(x);
    BitsLinear(Low(x), High(x), 8);
    Swap(Tab(Low(x)), Shift8(c));
  }

  lemma Swap(a: u32, b: u32)
    ensures Xor(a, b) == Xor(b, a)
  {
  }

  /** The table-driven loop returns what the bitwise one does. */
  method ByTable(buf: seq<u8>, base: u32) returns (crc: u32)
    ensures crc == Crc(buf, base)
  {
    hide Lookup, Byte;
    crc := base;
    for k := 0 to |buf|
      invariant crc == Crc(buf[..k], base)
    {
      LookupIsByte(crc, buf[k]);
      assert buf[..k + 1][..k] == buf[..k];
      crc := Lookup(crc, buf[k]);
    }
    assert buf[..|buf|] == buf;
  }
}
