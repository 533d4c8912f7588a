/** Partition tables as bytes: what a valid one is, what that implies, and what stamping one does. */
module PtableSpec {
  import opened Bytes
  import opened Words
  import Crc32
  import CrcDetect
  import opened Strtoul
  import opened Areas

  const HDRSZ := 28  // sizeof(ptable_t)
  const PARTSZ := 32 // sizeof(ptable_part_t)
  const HDRCRC := 24
  const PARTCRC := 28
  const VERSION: Byte := 2
  const WRAPS := 0x7ff_ffff // from this count on the size does not fit in 32 bits
  const MAGIC: seq<Byte> := [0xde, 0xad, 0xfc, 0xbe]

  // ---- fields

  function Bits8(s: seq<Byte>): (r: seq<bv8>)
    ensures |r| == |s|
  {
    seq(|s|, i requires 0 <= i < |s| => s[i] as bv8)
  }

  function Not(x: bv32): (y: bv32)
  {
    !x
  }

  function ToU32(x: bv32): (w: U32)
  {
    x as int
  }

  function FromU32(w: U32): (x: bv32)
  {
    w as bv32
  }

  /** ptable_crc32 */
  function TableCrc(s: seq<Byte>): (crc: U32)
  {
    ToU32(Not(Crc32.Crc(Bits8(s), 0xffff_ffff)))
  }

  /** Of the nine digits it is the published check value. */
  lemma TableCrcCheck()
    ensures TableCrc([0x31, 0x32, 0x33, 0x34, 0x35, 0x36, 0x37, 0x38, 0x39]) == 0xcbf4_3926
  {
    hide Crc32.Crc;
    assert Bits8([0x31, 0x32, 0x33, 0x34, 0x35, 0x36, 0x37, 0x38, 0x39]) == Crc32.DIGITS;
    Crc32.CheckValue();
  }

  function U32At(s: seq<Byte>, at: nat): (w: U32)
    requires at + 4 <= |s|
  {
    UnLe32(s[at..at + 4])
  }

  function CountOf(s: seq<Byte>): (n: nat)
    requires |s| >= HDRSZ
  {
    U32At(s, 0)
  }

  /** Where partition `i` starts. */
  function At(i: nat): (at: nat)
  {
    HDRSZ + PARTSZ * i
  }

  function TrueSize(count: nat): (size: nat)
  {
    At(count) + 4
  }

  /** ptable_size: in 32 bits. */
  function Size32(count: nat): (size: U32)
  {
    TrueSize(count) % W32
  }

  lemma SizeIsExact(count: nat)
    requires count < W32
    ensures Size32(count) == TrueSize(count) <==> count < WRAPS
  {
  }

  /** With one partition too many the size wraps to nothing, which passes any limit. */
  lemma SizeWraps()
    ensures Size32(0x7ff_ffff) == 0 && Size32(0x800_0000) == 32
  {
  }

  /** The part of a partition record that its checksum covers. */
  function Rec(s: seq<Byte>, i: nat): (r: seq<Byte>)
    requires At(i) + PARTSZ <= |s|
    ensures |r| == PARTCRC
  {
    s[At(i)..At(i) + PARTCRC]
  }

  function OffsetOf(s: seq<Byte>, i: nat): (offset: U32)
    requires At(i) + PARTSZ <= |s|
  {
    U32At(Rec(s, i), 8)
  }

  function SizeOf(s: seq<Byte>, i: nat): (size: U32)
    requires At(i) + PARTSZ <= |s|
  {
    U32At(Rec(s, i), 12)
  }

  /** A C string: up to the first zero byte. */
  function CString(s: seq<Byte>): (name: seq<Byte>)
    ensures |name| <= |s|
  {
    if s == [] || s[0] == 0 then [] else [s[0]] + CString(s[1..])
  }

  function NameOf(s: seq<Byte>, i: nat): (name: seq<Byte>)
    requires At(i) + PARTSZ <= |s|
  {
    CString(Rec(s, i)[..8])
  }

  // ---- validity

  /** One to seven letters and digits, then a zero. */
  predicate GoodName(n: seq<Byte>)
    requires |n| == 8
  {
    exists k :: 1 <= k < 8 && n[k] == 0 && forall i :: 0 <= i < k ==> IsAlnum(n[i] as char)
  }

  /** A block-aligned, nonempty range inside the device, and a good name. */
  predicate PartFits(s: seq<Byte>, i: nat, memsz: U32, blksz: U32)
    requires At(i) + PARTSZ <= |s|
  {
    && blksz > 0 && SizeOf(s, i) > 0 && SizeOf(s, i) % blksz == 0 && OffsetOf(s, i) % blksz == 0
    && OffsetOf(s, i) + SizeOf(s, i) <= memsz
    && GoodName(Rec(s, i)[..8])
  }

  /** Neither memory nor name in common. */
  predicate Apart(s: seq<Byte>, i: nat, j: nat)
    requires At(i) + PARTSZ <= |s| && At(j) + PARTSZ <= |s|
  {
    Disjoint(OffsetOf(s, i), SizeOf(s, i), OffsetOf(s, j), SizeOf(s, j)) && NameOf(s, i) != NameOf(s, j)
  }

  predicate PartCrcOk(s: seq<Byte>, i: nat)
    requires At(i) + PARTSZ <= |s|
  {
    U32At(s, At(i) + PARTCRC) == TableCrc(Rec(s, i))
  }

  predicate PartOk(s: seq<Byte>, i: nat, memsz: U32, blksz: U32, crcCheck: bool)
    requires At(i) + PARTSZ <= |s|
  {
    && (crcCheck ==> PartCrcOk(s, i))
    && PartFits(s, i, memsz, blksz)
    && forall j :: 0 <= j < i ==> At(j) + PARTSZ <= |s| && Apart(s, i, j)
  }

  /** Old versions have no checksums. */
  predicate Checksummed(s: seq<Byte>)
    requires |s| >= HDRSZ
  {
    s[4] != 0 && s[4] != 1 && s[4] != 0xff
  }

  predicate HeaderOk(s: seq<Byte>)
    requires |s| >= HDRSZ
  {
    Checksummed(s) ==> U32At(s, HDRCRC) == TableCrc(s[..HDRCRC])
  }

  predicate MagicOk(s: seq<Byte>)
    requires |s| >= HDRSZ && TrueSize(CountOf(s)) <= |s|
  {
    s[At(CountOf(s))..TrueSize(CountOf(s))] == MAGIC
  }

  predicate PartsOk(s: seq<Byte>, memsz: U32, blksz: U32)
    requires |s| >= HDRSZ && At(CountOf(s)) <= |s|
  {
    forall i :: 0 <= i < CountOf(s) ==> PartOk(s, i, memsz, blksz, Checksummed(s))
  }

  /**
   A valid table, all of it in the buffer. With a count whose size is zero in 32 bits, any block
   is large enough, and the signature is looked for in `front`, the four bytes in front of the table.
   */
  predicate TableOk(front: seq<Byte>, s: seq<Byte>, memsz: U32, blksz: U32)
    requires |s| >= HDRSZ
  {
    && HeaderOk(s)
    && At(CountOf(s)) <= |s|
    && (if Size32(CountOf(s)) == 0 then front == MAGIC
        else
          && CountOf(s) < WRAPS && TrueSize(CountOf(s)) <= |s|
          && TrueSize(CountOf(s)) <= blksz
          && MagicOk(s))
    && PartsOk(s, memsz, blksz)
  }

  predicate Refused(s: seq<Byte>, i: nat, memsz: U32, blksz: U32)
    requires |s| >= HDRSZ
  {
    At(i) + PARTSZ <= |s| && !PartOk(s, i, memsz, blksz, Checksummed(s))
  }

  /**
   The buffer holds what is looked at. That is what the 32-bit size says, if that passes the size
   check, and one more record if the true size is larger; with a size of zero it is all records,
   or those up to one that is refused.
   */
  predicate Held(s: seq<Byte>, memsz: U32, blksz: U32) {
    && |s| >= HDRSZ
    && var n := CountOf(s);
       if Size32(n) == 0 then
         blksz > 0 && (At(n) <= |s| || exists i: nat :: i < n && Refused(s, i, memsz, blksz))
       else Size32(n) <= blksz ==> Size32(n) + (if n < WRAPS then 0 else PARTCRC) <= |s|
  }

  /** When the size wraps, the signature is where the name of a partition is. */
  lemma WrappedMagic(count: nat)
    requires WRAPS <= count < W32 && Size32(count) > 0
    ensures Size32(count) % PARTSZ == 0
    ensures var j := Size32(count) / PARTSZ - 1; 0 <= j < count && At(j) + 4 == Size32(count)
  {
    var j := Size32(count) / PARTSZ - 1;
    assert Size32(count) == PARTSZ * ((count + 1) % 0x800_0000);
  }

  lemma MagicIsNoName(s: seq<Byte>, i: nat)
    requires At(i) + PARTSZ <= |s| && s[At(i)..At(i) + 4] == MAGIC
    ensures !GoodName(Rec(s, i)[..8])
  {
    assert Rec(s, i)[..8][0] == s[At(i)..At(i) + 4][0] == 0xde;
  }

  // ---- what validity implies

  lemma PartsApart(s: seq<Byte>, memsz: U32, blksz: U32, i: nat, j: nat)
    requires |s| >= HDRSZ && At(CountOf(s)) <= |s| && PartsOk(s, memsz, blksz) && i < CountOf(s) && j < CountOf(s) && i != j
    ensures Apart(s, i, j)
  {
    assert PartOk(s, if i < j then j else i, memsz, blksz, Checksummed(s));
  }

  /** The areas of all partitions. */
  function AreasOf(s: seq<Byte>): (rs: seq<Area>)
    requires |s| >= HDRSZ && (CountOf(s) > 0 ==> At(CountOf(s)) <= |s|)
  {
    seq(CountOf(s), i requires 0 <= i < CountOf(s) => Area(OffsetOf(s, i), SizeOf(s, i)))
  }

  lemma PartRange(s: seq<Byte>, memsz: U32, blksz: U32, i: nat)
    requires |s| >= HDRSZ && At(CountOf(s)) <= |s| && PartsOk(s, memsz, blksz) && i < CountOf(s)
    ensures blksz <= SizeOf(s, i) && OffsetOf(s, i) + SizeOf(s, i) <= memsz
  {
    assert PartOk(s, i, memsz, blksz, Checksummed(s));
    MultipleAtLeast(SizeOf(s, i), blksz);
  }

  lemma ApartRanges(s: seq<Byte>, i: nat, j: nat)
    requires At(i) + PARTSZ <= |s| && At(j) + PARTSZ <= |s| && Apart(s, i, j)
    ensures Disjoint(OffsetOf(s, i), SizeOf(s, i), OffsetOf(s, j), SizeOf(s, j))
  {
  }

  lemma MultipleAtLeast(k: nat, b: nat)
    requires k > 0 && b > 0 && k % b == 0
    ensures b <= k
  {
  }

  /** Partitions of a valid table share no byte and no name, and together they fit into the device. */
  lemma ValidTablesFit(front: seq<Byte>, s: seq<Byte>, memsz: U32, blksz: U32)
    requires |s| >= HDRSZ && TableOk(front, s, memsz, blksz)
    ensures forall i, j :: 0 <= i < j < CountOf(s) ==> Apart(s, i, j)
    ensures SizeSum(AreasOf(s)) <= memsz
    ensures CountOf(s) * blksz <= memsz
  {
    hide OffsetOf, SizeOf, HeaderOk, MagicOk, PartOk, Apart, Checksummed, UnLe32, SizeSum;
    var n, rs := CountOf(s), AreasOf(s);
    forall i | 0 <= i < n
      ensures blksz <= rs[i].size && rs[i].offset + rs[i].size <= memsz
    {
      PartRange(s, memsz, blksz, i);
    }
    forall i, j | 0 <= i < j < n
      ensures Apart(s, i, j) && Disjoint(rs[i].offset, rs[i].size, rs[j].offset, rs[j].size)
    {
      PartsApart(s, memsz, blksz, i, j);
      ApartRanges(s, i, j);
    }
    DisjointFit(rs, memsz);
    SumAtLeast(rs, blksz);
    OffIsProduct(n, blksz);
  }

  /** With blocks of more than 32 bytes, what is accepted lies inside one block and ends with its signature. */
  lemma ValidTablesInBlock(front: seq<Byte>, s: seq<Byte>, memsz: U32, blksz: U32)
    requires |s| >= HDRSZ && TableOk(front, s, memsz, blksz)
    ensures blksz > 32 ==> TrueSize(CountOf(s)) <= |s| && TrueSize(CountOf(s)) <= blksz && MagicOk(s)
  {
    hide PartsOk, HeaderOk, MagicOk, UnLe32;
    ValidTablesFit(front, s, memsz, blksz);
    SizeIsExact(CountOf(s));
    if Size32(CountOf(s)) == 0 && blksz > 32 {
      FewBlocks(CountOf(s), blksz);
      assert false;
    }
  }

  lemma FewBlocks(n: nat, blksz: nat)
    requires n >= WRAPS && blksz > 32
    ensures n * blksz >= W32
  {
    assert n * blksz == n * 33 + n * (blksz - 33);
  }

  // ---- what the checksums catch

  lemma ByteBits(b: int)
    requires 0 <= b < 256
    ensures (b as bv8) as int == b
  {
    if b < 16 {
    } else if b < 32 {
    } else if b < 64 {
    } else if b < 128 {
    }
  }

  lemma Bits8Injective(s: seq<Byte>, t: seq<Byte>)
    requires |s| == |t| && Bits8(s) == Bits8(t)
    ensures s == t
  {
    forall i | 0 <= i < |s|
      ensures s[i] == t[i]
    {
      ByteBits(s[i]);
      ByteBits(t[i]);
      assert Bits8(s)[i] == Bits8(t)[i];
    }
  }

  /** Two pieces of the same checksum that differ only inside four consecutive bytes do not differ at all. */
  lemma DamageDetected(s: seq<Byte>, t: seq<Byte>, w: nat)
    requires |s| == |t| && TableCrc(s) == TableCrc(t)
    requires forall k :: 0 <= k < |s| && !(w <= k < w + 4) ==> s[k] == t[k]
    ensures s == t
  {
    hide Crc32.Crc, Bits8, Not, ToU32;
    var a, b := Bits8(s), Bits8(t);
    NotInjective(Crc32.Crc(a, 0xffff_ffff), Crc32.Crc(b, 0xffff_ffff));
    forall k | 0 <= k < |s| && !(w <= k < w + 4)
      ensures a[k] == b[k]
    {
      Bits8At(s, k);
      Bits8At(t, k);
    }
    SameCrc(a, b, w);
    Bits8Injective(s, t);
  }

  lemma Bits8At(s: seq<Byte>, k: nat)
    requires k < |s|
    ensures Bits8(s)[k] == s[k] as bv8
  {
  }

  lemma SameCrc(a: seq<bv8>, b: seq<bv8>, w: nat)
    requires |a| == |b| && Crc32.Crc(a, 0xffff_ffff) == Crc32.Crc(b, 0xffff_ffff)
    requires forall k :: 0 <= k < |a| && !(w <= k < w + 4) ==> a[k] == b[k]
    ensures a == b
  {
    hide Crc32.Crc;
    if a != b {
      CrcDetect.DetectsWindow(a, b, 0xffff_ffff, w);
    }
  }

  lemma ToU32AndBack(x: bv32)
    ensures FromU32(ToU32(x)) == x
  {
  }

  lemma NotTwice(x: bv32)
    ensures Not(Not(x)) == x
  {
  }

  lemma NotInjective(x: bv32, y: bv32)
    requires ToU32(Not(x)) == ToU32(Not(y))
    ensures x == y
  {
    hide ToU32, FromU32, Not;
    ToU32AndBack(Not(x));
    ToU32AndBack(Not(y));
    NotTwice(x);
    NotTwice(y);
  }

  // ---- stamping

  /** The first `n` records with their checksums filled in. */
  function StampParts(s: seq<Byte>, n: nat): (r: seq<Byte>)
    requires At(n) <= |s|
    ensures |r| == |s|
  {
    if n == 0 then s
    else Splice(StampParts(s, n - 1), At(n - 1) + PARTCRC, Le32(TableCrc(Rec(s, n - 1))))
  }

  function StampHeader(s: seq<Byte>): (r: seq<Byte>)
    requires |s| >= HDRSZ
    ensures |r| == |s|
  {
    var v := s[4 := VERSION];
    Splice(v, HDRCRC, Le32(TableCrc(v[..HDRCRC])))
  }

  /** What ptable_serialize makes of a table. */
  function Stamped(s: seq<Byte>): (r: seq<Byte>)
    requires |s| >= HDRSZ && TrueSize(CountOf(s)) <= |s|
    ensures |r| == |s|
  {
    Splice(StampParts(StampHeader(s), CountOf(s)), At(CountOf(s)), MAGIC)
  }

  lemma {:induction false} StampPartsKeeps(s: seq<Byte>, n: nat, k: nat)
    requires At(n) <= |s| && k < |s|
    ensures (forall i :: 0 <= i < n ==> !(At(i) + PARTCRC <= k < At(i + 1))) ==> StampParts(s, n)[k] == s[k]
    ensures At(n) <= k ==> StampParts(s, n)[k] == s[k]
  {
    if n > 0 {
      StampPartsKeeps(s, n - 1, k);
    }
  }

  lemma SpliceBehind(s: seq<Byte>, at: nat, x: seq<Byte>, from: nat, n: nat)
    requires from + n <= at && at + |x| <= |s|
    ensures Splice(s, at, x)[from..from + n] == s[from..from + n]
    ensures Splice(s, at, x)[at..at + |x|] == x
  {
  }

  lemma {:induction false} StampPartsAt(s: seq<Byte>, n: nat, i: nat)
    requires At(n) <= |s| && i < n
    ensures Rec(StampParts(s, n), i) == Rec(s, i)
    ensures StampParts(s, n)[At(i) + PARTCRC..At(i) + PARTSZ] == Le32(TableCrc(Rec(s, i)))
  {
    hide Le32, TableCrc, StampParts, Splice;
    var crc := Le32(TableCrc(Rec(s, n - 1)));
    StampNext(s, n - 1);
    if i < n - 1 {
      StampPartsAt(s, n - 1, i);
      SpliceBehind(StampParts(s, n - 1), At(n - 1) + PARTCRC, crc, At(i), PARTCRC);
      SpliceBehind(StampParts(s, n - 1), At(n - 1) + PARTCRC, crc, At(i) + PARTCRC, 4);
    } else {
      SpliceBehind(StampParts(s, n - 1), At(n - 1) + PARTCRC, crc, At(i), PARTCRC);
    }
  }

  predicate PartContentOk(s: seq<Byte>, i: nat, memsz: U32, blksz: U32)
    requires At(i) + PARTSZ <= |s|
  {
    PartFits(s, i, memsz, blksz) && forall j :: 0 <= j < i ==> Apart(s, i, j)
  }

  lemma StampNext(s: seq<Byte>, n: nat)
    requires At(n + 1) <= |s|
    ensures Rec(StampParts(s, n), n) == Rec(s, n)
    ensures StampParts(s, n + 1) == Splice(StampParts(s, n), At(n) + PARTCRC, Le32(TableCrc(Rec(s, n))))
  {
    hide Le32, TableCrc;
    forall k | At(n) <= k < At(n) + PARTCRC
      ensures StampParts(s, n)[k] == s[k]
    {
      StampPartsKeeps(s, n, k);
    }
  }

  /** Content, checksums aside: what the caller of ptable_serialize answers for. */
  predicate ContentOk(s: seq<Byte>, memsz: U32, blksz: U32)
    requires |s| >= HDRSZ && TrueSize(CountOf(s)) <= |s|
  {
    && TrueSize(CountOf(s)) <= blksz
    && forall i :: 0 <= i < CountOf(s) ==> PartContentOk(s, i, memsz, blksz)
  }

  lemma StampHeaderIs(s: seq<Byte>)
    requires |s| >= HDRSZ
    ensures var h := StampHeader(s);
            && h[4] == VERSION && U32At(h, HDRCRC) == TableCrc(h[..HDRCRC])
            && forall k {:trigger h[k]} :: 0 <= k < |s| && k != 4 && !(HDRCRC <= k < HDRSZ) ==> h[k] == s[k]
  {
    hide Le32, TableCrc, UnLe32;
    var v := s[4 := VERSION];
    var h := StampHeader(s);
    assert h[..HDRCRC] == v[..HDRCRC];
    assert h[HDRCRC..HDRCRC + 4] == Le32(TableCrc(v[..HDRCRC]));
    Le32RoundTrip(TableCrc(v[..HDRCRC]));
  }

  lemma StampedHeader(s: seq<Byte>)
    requires |s| >= HDRSZ && TrueSize(CountOf(s)) <= |s|
    ensures var r := Stamped(s);
            CountOf(r) == CountOf(s) && r[4] == VERSION && HeaderOk(r) && MagicOk(r)
  {
    hide Le32, TableCrc, UnLe32, StampHeader, StampParts;
    var h, r := StampHeader(s), Stamped(s);
    StampHeaderIs(s);
    forall k: nat | k < HDRSZ
      ensures r[k] == h[k]
    {
      StampPartsKeeps(h, CountOf(s), k);
    }
    assert r[..HDRCRC] == h[..HDRCRC] && r[HDRCRC..HDRCRC + 4] == h[HDRCRC..HDRCRC + 4];
    assert r[0..4] == s[0..4];
    assert r[At(CountOf(s))..TrueSize(CountOf(s))] == MAGIC;
  }

  lemma StampedPart(s: seq<Byte>, i: nat)
    requires |s| >= HDRSZ && TrueSize(CountOf(s)) <= |s| && i < CountOf(s)
    ensures var r := Stamped(s);
            Rec(r, i) == Rec(s, i) && PartCrcOk(r, i)
  {
    hide Le32, TableCrc, UnLe32, StampHeader, StampParts, CountOf;
    var h, r := StampHeader(s), Stamped(s);
    var q := StampParts(h, CountOf(s));
    StampHeaderIs(s);
    StampPartsAt(h, CountOf(s), i);
    assert Rec(r, i) == Rec(q, i);
    assert Rec(h, i) == Rec(s, i);
    assert r[At(i) + PARTCRC..At(i) + PARTSZ] == q[At(i) + PARTCRC..At(i) + PARTSZ];
    Le32RoundTrip(TableCrc(Rec(s, i)));
  }

  lemma SameRecords(s: seq<Byte>, r: seq<Byte>, i: nat, j: nat, memsz: U32, blksz: U32)
    requires |s| == |r| && At(i) + PARTSZ <= |s| && At(j) + PARTSZ <= |s|
    requires Rec(s, i) == Rec(r, i) && Rec(s, j) == Rec(r, j)
    ensures PartFits(s, i, memsz, blksz) == PartFits(r, i, memsz, blksz)
    ensures Apart(s, i, j) == Apart(r, i, j)
  {
  }

  /**
   Stamping changes no record and makes all checksums and the signature right, so what was
   stamped is valid exactly if its content is.
   */
  lemma StampedIsValid(front: seq<Byte>, s: seq<Byte>, memsz: U32, blksz: U32)
    requires |s| >= HDRSZ && TrueSize(CountOf(s)) <= |s| && CountOf(s) < WRAPS
    ensures Held(Stamped(s), memsz, blksz)
    ensures TableOk(front, Stamped(s), memsz, blksz) <==> ContentOk(s, memsz, blksz)
  {
    hide Stamped, PartOk, PartContentOk, HeaderOk, MagicOk, CountOf;
    var r, n := Stamped(s), CountOf(s);
    SizeIsExact(n);
    StampedHeader(s);
    forall i: nat | i < n
      ensures PartOk(r, i, memsz, blksz, true) <==> PartContentOk(s, i, memsz, blksz)
    {
      StampedPartOk(s, i, memsz, blksz);
    }
    assert Checksummed(r);
  }

  lemma StampedPartOk(s: seq<Byte>, i: nat, memsz: U32, blksz: U32)
    requires |s| >= HDRSZ && TrueSize(CountOf(s)) <= |s| && i < CountOf(s)
    ensures PartOk(Stamped(s), i, memsz, blksz, true) <==> PartContentOk(s, i, memsz, blksz)
  {
    hide Stamped, PartFits, Apart, PartCrcOk, Rec, CountOf;
    var r := Stamped(s);
    StampedPart(s, i);
    SameRecords(s, r, i, i, memsz, blksz);
    forall j: nat | j < i
      ensures At(j) + PARTSZ <= |s| && Apart(s, i, j) == Apart(r, i, j)
    {
      StampedPart(s, j);
      SameRecords(s, r, i, j, memsz, blksz);
    }
  }
}
