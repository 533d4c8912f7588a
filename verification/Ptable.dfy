/** Checking and stamping partition tables in place. */
module Ptable {
  import opened Bytes
  import opened Words
  import opened Areas
  import opened PtableSpec
  import opened Strtoul
  import Crc32

  method Crc(t: array<Byte>, from: nat, n: nat) returns (crc: U32)
    requires from + n <= t.Length
    ensures crc == TableCrc(t[from..from + n])
  {
    var c := Crc32.Bitwise(Bits8(t[from..from + n]), 0xffff_ffff);
    crc := ToU32(Not(c));
  }

  /** The name check of ptable_partVerify. */
  method NameVerify(name: seq<Byte>) returns (ok: bool)
    requires |name| == 8
    ensures ok <==> GoodName(name)
  {
    var i := 0;
    while i < 8 && IsAlnum(name[i] as char)
      invariant 0 <= i <= 8 && forall k :: 0 <= k < i ==> IsAlnum(name[k] as char)
    {
      i := i + 1;
    }
    return i != 0 && i < 8 && name[i] == 0;
  }

  /** The range checks of ptable_partVerify, in 32 bits. */
  method RangeVerify(offset: U32, size: U32, memsz: U32, blksz: U32) returns (ok: bool)
    requires blksz > 0
    ensures ok <==> size > 0 && size % blksz == 0 && offset % blksz == 0 && offset + size <= memsz
  {
    if size == 0 || size % blksz != 0 || offset % blksz != 0 {
      return false;
    }
    var end := (offset + size) % W32;
    return end <= memsz && end >= offset;
  }

  /** The overlap test, in 32 bits; exact for ranges that do not wrap. */
  method Overlap(offset: U32, size: U32, other: U32, otherSize: U32) returns (clash: bool)
    requires 0 < size && offset + size < W32 && 0 < otherSize && other + otherSize < W32
    ensures clash <==> !Disjoint(offset, size, other, otherSize)
  {
    return offset <= (other + otherSize - 1) % W32 && (offset + size - 1) % W32 >= other;
  }

  /** The comparison of partition `i` with the ones before it. */
  method Compare(t: array<Byte>, i: nat, ghost memsz: U32, ghost blksz: U32) returns (ok: bool)
    requires At(i) + PARTSZ <= t.Length && blksz > 0 && forall j :: 0 <= j <= i ==> PartFits(t[..], j, memsz, blksz)
    ensures ok <==> forall j :: 0 <= j < i ==> Apart(t[..], i, j)
  {
    hide GoodName, U32At, CString, Rec;
    ghost var s := t[..];
    var offset, size, name := OffsetOf(t[..], i), SizeOf(t[..], i), NameOf(t[..], i);
    for j := 0 to i
      invariant forall k :: 0 <= k < j ==> Apart(s, i, k)
    {
      assert PartFits(s, i, memsz, blksz) && PartFits(s, j, memsz, blksz);
      var clash := Overlap(offset, size, OffsetOf(t[..], j), SizeOf(t[..], j));
      if clash || name == NameOf(t[..], j) {
        assert !Apart(t[..], i, j);
        return false;
      }
    }
    return true;
  }

  /** ptable_partVerify, given that the partitions before are good. */
  method PartVerify(t: array<Byte>, i: nat, memsz: U32, blksz: U32, crcCheck: bool) returns (res: int)
    requires At(i) + PARTSZ <= t.Length && blksz > 0
    requires forall j :: 0 <= j < i ==> PartFits(t[..], j, memsz, blksz)
    ensures res == 0 || res == -1
    ensures res == 0 <==> PartOk(t[..], i, memsz, blksz, crcCheck)
  {
    hide GoodName, U32At, Apart, TableCrc;
    if crcCheck {
      var crc := Crc(t, At(i), PARTCRC);
      if U32At(t[..], At(i) + PARTCRC) != crc {
        assert t[..][At(i)..At(i) + PARTCRC] == t[At(i)..At(i) + PARTCRC];
        return -1;
      }
      assert t[..][At(i)..At(i) + PARTCRC] == t[At(i)..At(i) + PARTCRC];
    }
    var inside := RangeVerify(OffsetOf(t[..], i), SizeOf(t[..], i), memsz, blksz);
    if !inside {
      return -1;
    }
    var named := NameVerify(Rec(t[..], i)[..8]);
    if !named {
      return -1;
    }
    var apart := Compare(t, i, memsz, blksz);
    return if apart then 0 else -1;
  }

  /** ptable_verify, on a table in memory behind the four bytes `front`. */
  method Verify(front: seq<Byte>, t: array<Byte>, memsz: U32, blksz: U32) returns (res: int)
    requires |front| == 4 && Held(t[..], memsz, blksz)
    ensures res == 0 || res == -1
    ensures res == 0 <==> TableOk(front, t[..], memsz, blksz)
  {
    hide TableCrc, U32At, PartOk;
    ghost var s := t[..];
    var count := CountOf(t[..]);
    var crcCheck := !(t[4] == 0 || t[4] == 1 || t[4] == 0xff);
    if crcCheck {
      var crc := Crc(t, 0, HDRCRC);
      assert s[..HDRCRC] == t[0..HDRCRC];
      if U32At(t[..], HDRCRC) != crc {
        return -1;
      }
    }
    SizeIsExact(count);
    var size := Size32(count);
    if size > blksz {
      return -1;
    }
    MagicAt(front, s);
    var memory := front + t[..];
    if memory[size..size + 4] != MAGIC {
      return -1;
    }
    res := VerifyParts(t, count, memsz, blksz, crcCheck);
  }

  /** The signature is compared with the four bytes before the end: those in front of the table, if it has no size. */
  lemma MagicAt(front: seq<Byte>, s: seq<Byte>)
    requires |front| == 4 && |s| >= HDRSZ && Size32(CountOf(s)) <= |s|
    ensures var size := Size32(CountOf(s));
            (front + s)[size..size + 4] == if size == 0 then front else s[size - 4..size]
  {
    SizeIsExact(CountOf(s));
    var size := Size32(CountOf(s));
    assert size % 4 == 0;
  }

  /** The loop of ptable_verify. With the signature where a name begins, it ends there at the latest. */
  method VerifyParts(t: array<Byte>, count: U32, memsz: U32, blksz: U32, crcCheck: bool) returns (res: int)
    requires Held(t[..], memsz, blksz) && count == CountOf(t[..]) && crcCheck == Checksummed(t[..])
    requires var size := Size32(count);
             size > 0 ==> size <= blksz && t[..][size - 4..size] == MAGIC
    ensures res == 0 || res == -1
    ensures res == 0 <==> At(count) <= t.Length && PartsOk(t[..], memsz, blksz) && (Size32(count) == 0 || count < WRAPS)
  {
    hide TableCrc, U32At, PartOk;
    ghost var s := t[..];
    var size := Size32(count);
    SizeIsExact(count);
    ghost var last := if size > 0 && count >= WRAPS then size / PARTSZ - 1 else count;
    if size > 0 && count >= WRAPS {
      WrappedMagic(count);
    }
    for i := 0 to count
      invariant i <= last && forall j :: 0 <= j < i ==> At(j) + PARTSZ <= |s| && PartOk(s, j, memsz, blksz, crcCheck)
    {
      forall j | 0 <= j < i
        ensures PartFits(s, j, memsz, blksz)
      {
        OkFits(s, j, memsz, blksz, crcCheck);
      }
      InBuffer(s, i, memsz, blksz);
      var r := PartVerify(t, i, memsz, blksz, crcCheck);
      if r < 0 {
        assert s == t[..] && i < CountOf(s);
        assert !PartOk(s, i, memsz, blksz, Checksummed(s));
        return -1;
      }
      if size > 0 && count >= WRAPS && i == last {
        // the signature is no name, so the source never gets here
        OkFits(s, i, memsz, blksz, crcCheck);
        MagicIsNoName(s, i);
        assert false;
      }
    }
    return 0;
  }

  /** The record after the good ones is in the buffer. */
  lemma InBuffer(s: seq<Byte>, i: nat, memsz: U32, blksz: U32)
    requires Held(s, memsz, blksz) && i < CountOf(s)
    requires forall j :: 0 <= j < i ==> At(j) + PARTSZ <= |s| && PartOk(s, j, memsz, blksz, Checksummed(s))
    ensures Size32(CountOf(s)) == 0 ==> At(i) + PARTSZ <= |s|
  {
    if Size32(CountOf(s)) == 0 && At(CountOf(s)) > |s| {
      var k: nat :| k < CountOf(s) && Refused(s, k, memsz, blksz);
      assert i <= k;
    }
  }

  lemma OkFits(s: seq<Byte>, i: nat, memsz: U32, blksz: U32, crcCheck: bool)
    requires At(i) + PARTSZ <= |s| && PartOk(s, i, memsz, blksz, crcCheck)
    ensures PartFits(s, i, memsz, blksz)
  {
  }

  /** Writes a word. */
  method Store32(t: array<Byte>, at: nat, w: U32)
    requires at + 4 <= t.Length
    modifies t
    ensures t[..] == Splice(old(t[..]), at, Le32(w))
  {
    MemCpy(t, at, Le32(w));
  }

  /** ptable_serialize, on a little-endian host, where the last conversions change nothing. */
  method Serialize(front: seq<Byte>, t: array<Byte>, memsz: U32, blksz: U32) returns (res: int)
    requires |front| == 4 && t.Length >= HDRSZ && CountOf(t[..]) < WRAPS && TrueSize(CountOf(t[..])) <= t.Length
    modifies t
    ensures res == 0 || res == -1
    ensures t[..] == Stamped(old(t[..]))
    ensures res == 0 <==> ContentOk(old(t[..]), memsz, blksz)
    ensures res == 0 <==> TableOk(front, t[..], memsz, blksz)
  {
    hide TableCrc, Le32, UnLe32, TableOk, ContentOk;
    ghost var s := t[..];
    ghost var n := CountOf(s);
    t[4] := VERSION;
    ghost var v := t[..];
    var crc := Crc(t, 0, HDRCRC);
    assert v[..HDRCRC] == t[0..HDRCRC];
    Store32(t, HDRCRC, crc);
    ghost var h := t[..];
    assert h == StampHeader(s);
    StampHeaderIs(s);
    assert h[0..4] == s[0..4];
    StampAll(t);
    SizeIsExact(n);
    assert t[..][0..4] == h[0..4] by {
      forall k: nat | k < 4
        ensures t[..][k] == h[k]
      {
        StampPartsKeeps(h, n, k);
      }
    }
    MemCpy(t, Size32(CountOf(t[..])) - 4, MAGIC);
    StampedIsValid(front, s, memsz, blksz);
    res := Verify(front, t, memsz, blksz);
  }

  /** The checksums of all partitions. */
  method StampAll(t: array<Byte>)
    requires t.Length >= HDRSZ && At(CountOf(t[..])) <= t.Length
    modifies t
    ensures t[..] == StampParts(old(t[..]), CountOf(old(t[..])))
  {
    hide TableCrc, Le32, UnLe32, U32At, StampParts, Splice;
    ghost var h := t[..];
    StampNothing(h);
    var n := CountOf(t[..]);
    for i := 0 to n
      invariant t[..] == StampParts(h, i)
    {
      var crc := Crc(t, At(i), PARTCRC);
      StampNext(h, i);
      assert t[At(i)..At(i) + PARTCRC] == Rec(t[..], i);
      Store32(t, At(i) + PARTCRC, crc);
    }
  }

  lemma StampNothing(s: seq<Byte>)
    requires At(0) <= |s|
    ensures StampParts(s, 0) == s
  {
  }

  /** ptable_deserialize, on a little-endian host. */
  method Deserialize(front: seq<Byte>, t: array<Byte>, memsz: U32, blksz: U32) returns (res: int)
    requires |front| == 4 && Held(t[..], memsz, blksz)
    modifies t
    ensures res == 0 || res == -1
    ensures t[..] == old(t[..])
    ensures res == 0 <==> TableOk(front, old(t[..]), memsz, blksz)
  {
    res := Verify(front, t, memsz, blksz);
  }
}
