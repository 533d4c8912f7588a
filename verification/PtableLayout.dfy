/** Partition tables field by field: where the fields lie, and what a valid table is in terms of their values. */
module PtableLayout {
  import opened Bytes
  import opened Words
  import opened Strtoul
  import opened PtableSpec

  type Name = s: seq<Byte> | |s| == 8 witness [0, 0, 0, 0, 0, 0, 0, 0]
  type PartPad = s: seq<Byte> | |s| == 11 witness [0, 0, 0, 0, 0, 0, 0, 0, 0, 0, 0]
  type HeaderPad = s: seq<Byte> | |s| == 19 witness [0, 0, 0, 0, 0, 0, 0, 0, 0, 0, 0, 0, 0, 0, 0, 0, 0, 0, 0]

  /** ptable_part_t: the fields, and their bytes up to the checksum. */
  datatype Part = Part(name: Name, offset: U32, size: U32, typ: Byte, reserved: PartPad, crc: U32) {
    function Fields(): (s: seq<Byte>)
      ensures |s| == 28
    {
      name + Le32(offset) + Le32(size) + [typ] + reserved
    }
  }

  /** ptable_t, without its partitions. */
  datatype Header = Header(count: U32, version: Byte, reserved: HeaderPad, crc: U32) {
    function Fields(): (s: seq<Byte>)
      ensures |s| == 24
    {
      Le32(count) + [version] + reserved
    }
  }

  function PartsBytes(ps: seq<Part>): (s: seq<Byte>)
    ensures |s| == 32 * |ps|
  {
    if ps == [] then []
    else
      var n := |ps| - 1;
        PartsBytes(ps[..n]) + ps[n].Fields() + Le32(ps[n].crc)
  }

  /** A table in memory: header, partitions, four bytes for the signature, and anything behind. */
  function TableBytes(h: Header, ps: seq<Part>, end: seq<Byte>, rest: seq<Byte>): (s: seq<Byte>)
    ensures |s| == 28 + 32 * |ps| + |end| + |rest|
  {
    h.Fields() + Le32(h.crc) + PartsBytes(ps) + end + rest
  }

  // ---- where the fields are

  lemma WordAt(s: seq<Byte>, pre: seq<Byte>, w: U32, post: seq<Byte>)
    requires s == pre + Le32(w) + post
    ensures U32At(s, |pre|) == w
  {
    Le32RoundTrip(w);
    assert s[|pre|..|pre| + 4] == Le32(w);
  }

  lemma {:induction false} PartAt(ps: seq<Part>, i: nat)
    requires i < |ps|
    ensures PartsBytes(ps)[32 * i..32 * i + 28] == ps[i].Fields()
    ensures PartsBytes(ps)[32 * i + 28..32 * i + 32] == Le32(ps[i].crc)
  {
    hide Le32;
    var n := |ps| - 1;
    if i < n {
      PartAt(ps[..n], i);
      assert PartsBytes(ps)[32 * i..32 * i + 28] == PartsBytes(ps[..n])[32 * i..32 * i + 28];
      assert PartsBytes(ps)[32 * i + 28..32 * i + 32] == PartsBytes(ps[..n])[32 * i + 28..32 * i + 32];
    }
  }

  /** The fields of partition `i`, as ptable_partVerify reads them. */
  lemma PartFields(h: Header, ps: seq<Part>, end: seq<Byte>, rest: seq<Byte>, i: nat)
    requires i < |ps|
    ensures var s, p := TableBytes(h, ps, end, rest), ps[i];
            && At(i) + PARTSZ <= |s|
            && Rec(s, i) == p.Fields() && Rec(s, i)[..8] == p.name && NameOf(s, i) == CString(p.name)
            && OffsetOf(s, i) == p.offset && SizeOf(s, i) == p.size
            && U32At(s, At(i) + PARTCRC) == p.crc
  {
    hide Le32, UnLe32, CString, PartsBytes, Part.Fields, Header.Fields;
    var s, p := TableBytes(h, ps, end, rest), ps[i];
    PartAt(ps, i);
    var head, all := h.Fields() + Le32(h.crc), PartsBytes(ps);
    Inside(s, head, all, end + rest, 32 * i, 28);
    Inside(s, head, all, end + rest, 32 * i + 28, 4);
    Le32RoundTrip(p.crc);
    RecordFields(p);
  }

  lemma Inside(s: seq<Byte>, a: seq<Byte>, b: seq<Byte>, c: seq<Byte>, at: nat, n: nat)
    requires s == a + b + c && at + n <= |b|
    ensures s[|a| + at..|a| + at + n] == b[at..at + n]
  {
  }

  lemma RecordFields(p: Part)
    ensures p.Fields()[..8] == p.name && U32At(p.Fields(), 8) == p.offset && U32At(p.Fields(), 12) == p.size
  {
    hide Le32, UnLe32;
    WordAt(p.Fields(), p.name, p.offset, Le32(p.size) + [p.typ] + p.reserved);
    WordAt(p.Fields(), p.name + Le32(p.offset), p.size, [p.typ] + p.reserved);
  }

  lemma HeaderFields(h: Header, ps: seq<Part>, end: seq<Byte>, rest: seq<Byte>)
    ensures var s := TableBytes(h, ps, end, rest);
            && CountOf(s) == h.count && s[4] == h.version
            && s[..HDRCRC] == h.Fields() && U32At(s, HDRCRC) == h.crc
            && s[28 + 32 * |ps|..28 + 32 * |ps| + |end|] == end
  {
    hide Le32, UnLe32, PartsBytes;
    var s := TableBytes(h, ps, end, rest);
    WordAt(s, [], h.count, [h.version] + h.reserved + Le32(h.crc) + PartsBytes(ps) + end + rest);
    WordAt(s, h.Fields(), h.crc, PartsBytes(ps) + end + rest);
    assert s[..24] == h.Fields() && h.Fields()[4] == h.version;
    assert s == (h.Fields() + Le32(h.crc) + PartsBytes(ps)) + end + rest;
  }

  // ---- validity in terms of the fields

  /** What a C string is: all in front of the first zero. */
  lemma {:induction false} CStringIs(s: seq<Byte>)
    ensures CString(s) <= s && 0 !in CString(s)
    ensures |CString(s)| < |s| ==> s[|CString(s)|] == 0
  {
    if s != [] && s[0] != 0 {
      CStringIs(s[1..]);
    }
  }

  lemma {:induction false} CStringEnds(s: seq<Byte>, k: nat)
    requires k < |s| && s[k] == 0 && forall i :: 0 <= i < k ==> s[i] != 0
    ensures CString(s) == s[..k]
  {
    if k > 0 {
      CStringEnds(s[1..], k - 1);
      assert s[..k] == [s[0]] + s[1..][..k - 1];
    }
  }

  /** A good name: one to seven letters and digits and a zero. */
  lemma GoodNameIs(n: seq<Byte>)
    requires |n| == 8
    ensures GoodName(n) <==> 1 <= |CString(n)| < 8 && forall c :: c in CString(n) ==> IsAlnum(c as char)
  {
    var t := CString(n);
    CStringIs(n);
    if GoodName(n) {
      var k :| 1 <= k < 8 && n[k] == 0 && forall i :: 0 <= i < k ==> IsAlnum(n[i] as char);
      CStringEnds(n, k);
    }
    if 1 <= |t| < 8 && forall c :: c in t ==> IsAlnum(c as char) {
      assert n[|t|] == 0 && forall i :: 0 <= i < |t| ==> t[i] == n[i] && t[i] in t;
    }
  }

  /** Its checksum is right. */
  predicate Sealed(p: Part) {
    p.crc == TableCrc(p.Fields())
  }

  /** The device has room for it, in whole blocks, and it has a name. */
  predicate Placed(p: Part, memsz: U32, blksz: U32)
    requires blksz > 0
  {
    && p.size > 0 && p.size % blksz == 0 && p.offset % blksz == 0 && p.offset + p.size <= memsz
    && 1 <= |CString(p.name)| < 8 && forall c :: c in CString(p.name) ==> IsAlnum(c as char)
  }

  predicate Distinct(p: Part, q: Part) {
    (p.offset + p.size <= q.offset || q.offset + q.size <= p.offset) && CString(p.name) != CString(q.name)
  }

  predicate ValidTable(h: Header, ps: seq<Part>, end: seq<Byte>, memsz: U32, blksz: U32)
  {
    && 28 + 32 * |ps| + 4 <= blksz && end == [0xde, 0xad, 0xfc, 0xbe]
    && (h.version !in {0, 1, 0xff} ==>
          && h.crc == TableCrc(h.Fields())
          && forall i :: 0 <= i < |ps| ==> Sealed(ps[i]))
    && (forall i :: 0 <= i < |ps| ==> Placed(ps[i], memsz, blksz))
    && forall i, j :: 0 <= j < i < |ps| ==> Distinct(ps[i], ps[j])
  }

  /** Partition `i` as far as its own fields go, and in comparison with one before it. */
  lemma FieldsDecide(h: Header, ps: seq<Part>, end: seq<Byte>, rest: seq<Byte>, i: nat, memsz: U32, blksz: U32)
    requires i < |ps| && blksz > 0
    ensures var s := TableBytes(h, ps, end, rest);
            && At(i) + PARTSZ <= |s|
            && (PartFits(s, i, memsz, blksz) <==> Placed(ps[i], memsz, blksz))
            && (PartCrcOk(s, i) <==> Sealed(ps[i]))
            && forall j :: 0 <= j < i ==> At(j) + PARTSZ <= |s| && (Apart(s, i, j) <==> Distinct(ps[i], ps[j]))
  {
    hide TableBytes, TableCrc, CString, GoodName, U32At, Rec, NameOf, OffsetOf, SizeOf;
    var s := TableBytes(h, ps, end, rest);
    PartFields(h, ps, end, rest, i);
    GoodNameIs(ps[i].name);
    forall j: nat | j < i
      ensures At(j) + PARTSZ <= |s| && (Apart(s, i, j) <==> Distinct(ps[i], ps[j]))
    {
      PartFields(h, ps, end, rest, j);
    }
  }

  predicate FieldsOk(ps: seq<Part>, i: nat, memsz: U32, blksz: U32, crcCheck: bool)
    requires i < |ps| && blksz > 0
  {
    && (crcCheck ==> Sealed(ps[i]))
    && Placed(ps[i], memsz, blksz)
    && forall j :: 0 <= j < i ==> Distinct(ps[i], ps[j])
  }

  lemma PartsInFields(h: Header, ps: seq<Part>, end: seq<Byte>, rest: seq<Byte>, memsz: U32, blksz: U32)
    requires h.count == |ps| && blksz > 0
    ensures var s := TableBytes(h, ps, end, rest);
            && CountOf(s) == |ps|
            && (PartsOk(s, memsz, blksz) <==> forall i :: 0 <= i < |ps| ==> FieldsOk(ps, i, memsz, blksz, Checksummed(s)))
  {
    hide TableBytes, TableCrc, Sealed, Placed, Distinct, U32At, PartFits, PartCrcOk, Apart, Checksummed;
    var s := TableBytes(h, ps, end, rest);
    HeaderFields(h, ps, end, rest);
    forall i: nat | i < |ps|
      ensures At(i) + PARTSZ <= |s|
      ensures PartOk(s, i, memsz, blksz, Checksummed(s)) <==> FieldsOk(ps, i, memsz, blksz, Checksummed(s))
    {
      FieldsDecide(h, ps, end, rest, i, memsz, blksz);
    }
  }

  lemma EachField(ps: seq<Part>, memsz: U32, blksz: U32, crcCheck: bool)
    requires blksz > 0
    ensures (forall i :: 0 <= i < |ps| ==> FieldsOk(ps, i, memsz, blksz, crcCheck))
            <==> && (crcCheck ==> forall i :: 0 <= i < |ps| ==> Sealed(ps[i]))
                 && (forall i :: 0 <= i < |ps| ==> Placed(ps[i], memsz, blksz))
                 && forall i, j :: 0 <= j < i < |ps| ==> Distinct(ps[i], ps[j])
  {
    hide Sealed, Placed, Distinct;
    if forall i :: 0 <= i < |ps| ==> FieldsOk(ps, i, memsz, blksz, crcCheck) {
      forall i | 0 <= i < |ps|
        ensures (crcCheck ==> Sealed(ps[i])) && Placed(ps[i], memsz, blksz)
      {
        assert FieldsOk(ps, i, memsz, blksz, crcCheck);
      }
      forall i, j | 0 <= j < i < |ps|
        ensures Distinct(ps[i], ps[j])
      {
        assert FieldsOk(ps, i, memsz, blksz, crcCheck);
      }
    }
  }

  /** Verification accepts a table exactly if the values of its fields make it valid. */
  lemma ValidInFields(front: seq<Byte>, h: Header, ps: seq<Part>, end: seq<Byte>, rest: seq<Byte>, memsz: U32, blksz: U32)
    requires |end| == 4 && h.count == |ps| < WRAPS
    ensures TableOk(front, TableBytes(h, ps, end, rest), memsz, blksz) <==> ValidTable(h, ps, end, memsz, blksz)
  {
    hide TableBytes, TableCrc, Sealed, Placed, Distinct, U32At, PartsOk;
    var s := TableBytes(h, ps, end, rest);
    HeaderFields(h, ps, end, rest);
    SizeIsExact(h.count);
    assert Checksummed(s) <==> h.version !in {0, 1, 0xff};
    assert MagicOk(s) <==> end == [0xde, 0xad, 0xfc, 0xbe];
    assert HeaderOk(s) <==> (h.version !in {0, 1, 0xff} ==> h.crc == TableCrc(h.Fields()));
    if blksz > 0 {
      PartsInFields(h, ps, end, rest, memsz, blksz);
      EachField(ps, memsz, blksz, h.version !in {0, 1, 0xff});
    }
  }

  // ---- what ptable_serialize makes of the fields

  /** With its checksum filled in. */
  function Seal(p: Part): (q: Part)
    ensures q.Fields() == p.Fields()
  {
    p.(crc := TableCrc(p.Fields()))
  }

  function SealParts(ps: seq<Part>): (qs: seq<Part>)
    ensures |qs| == |ps|
  {
    if ps == [] then []
    else
      var n := |ps| - 1;
        SealParts(ps[..n]) + [Seal(ps[n])]
  }

  function SealHeader(h: Header): (g: Header)
    ensures g.count == h.count
  {
    var v := h.(version := 2);
    v.(crc := TableCrc(v.Fields()))
  }

  lemma SpliceMiddle(a: seq<Byte>, b: seq<Byte>, x: seq<Byte>, c: seq<Byte>)
    requires |b| == |x|
    ensures Splice(a + b + c, |a|, x) == a + x + c
  {
  }

  lemma {:induction false} PartsConcat(ps: seq<Part>, qs: seq<Part>)
    ensures PartsBytes(ps + qs) == PartsBytes(ps) + PartsBytes(qs)
  {
    if qs == [] {
      assert ps + qs == ps;
    } else {
      hide Part.Fields, Le32;
      var n := |qs| - 1;
      assert (ps + qs)[..|ps| + n] == ps + qs[..n];
      PartsConcat(ps, qs[..n]);
      Associative(PartsBytes(ps), PartsBytes(qs[..n]), qs[n].Fields(), Le32(qs[n].crc));
    }
  }

  lemma Associative(a: seq<Byte>, b: seq<Byte>, c: seq<Byte>, d: seq<Byte>)
    ensures a + b + c + d == a + (b + c + d)
  {
  }

  lemma OnePart(p: Part)
    ensures PartsBytes([p]) == p.Fields() + Le32(p.crc)
  {
    hide Le32;
    assert [p][..0] == [];
    assert [] + p.Fields() + Le32(p.crc) == p.Fields() + Le32(p.crc);
  }

  lemma OneOfParts(a: seq<Part>, p: Part, b: seq<Part>)
    ensures PartsBytes(a + [p] + b) == PartsBytes(a) + (p.Fields() + Le32(p.crc)) + PartsBytes(b)
  {
    hide Le32, PartsBytes;
    PartsConcat(a + [p], b);
    PartsConcat(a, [p]);
    OnePart(p);
  }

  /** Storing a checksum changes that field of that partition. */
  lemma StoreCrc(h: Header, a: seq<Part>, p: Part, b: seq<Part>, end: seq<Byte>, rest: seq<Byte>, crc: U32)
    ensures var q := p.(crc := crc);
            && Splice(TableBytes(h, a + [p] + b, end, rest), At(|a|) + PARTCRC, Le32(crc)) == TableBytes(h, a + [q] + b, end, rest)
  {
    hide Le32, PartsBytes, Header.Fields, Part.Fields;
    var q := p.(crc := crc);
    assert q.Fields() == p.Fields() by {
      SameFields(p, q);
    }
    OneOfParts(a, p, b);
    OneOfParts(a, q, b);
    var front := h.Fields() + Le32(h.crc) + PartsBytes(a) + p.Fields();
    var back := PartsBytes(b) + end + rest;
    SpliceMiddle(front, Le32(p.crc), Le32(crc), back);
    Regroup(h.Fields() + Le32(h.crc), PartsBytes(a), p.Fields(), Le32(p.crc), PartsBytes(b), end, rest);
    Regroup(h.Fields() + Le32(h.crc), PartsBytes(a), p.Fields(), Le32(crc), PartsBytes(b), end, rest);
  }

  lemma Regroup(head: seq<Byte>, a: seq<Byte>, f: seq<Byte>, c: seq<Byte>, b: seq<Byte>, end: seq<Byte>, rest: seq<Byte>)
    ensures head + (a + (f + c) + b) + end + rest == (head + a + f) + c + (b + end + rest)
  {
  }

  lemma SameFields(p: Part, q: Part)
    requires q == p.(crc := q.crc)
    ensures q.Fields() == p.Fields()
  {
  }

  lemma {:induction false} StampedParts(h: Header, ps: seq<Part>, end: seq<Byte>, rest: seq<Byte>, n: nat)
    requires n <= |ps|
    ensures StampParts(TableBytes(h, ps, end, rest), n) == TableBytes(h, SealParts(ps[..n]) + ps[n..], end, rest)
  {
    hide TableBytes, Le32, TableCrc, Splice;
    if n == 0 {
      assert SealParts(ps[..0]) + ps[0..] == ps;
    } else {
      var p, a, b := ps[n - 1], SealParts(ps[..n - 1]), ps[n..];
      StampedParts(h, ps, end, rest, n - 1);
      PartFields(h, ps, end, rest, n - 1);
      assert ps[..n][..n - 1] == ps[..n - 1];
      assert a + ps[n - 1..] == a + [p] + b;
      assert SealParts(ps[..n]) + ps[n..] == a + [Seal(p)] + b;
      StoreCrc(h, a, p, b, end, rest, TableCrc(p.Fields()));
    }
  }

  lemma StampedHeaderFields(h: Header, ps: seq<Part>, end: seq<Byte>, rest: seq<Byte>)
    ensures StampHeader(TableBytes(h, ps, end, rest)) == TableBytes(SealHeader(h), ps, end, rest)
  {
    hide Le32, TableCrc, PartsBytes, Splice;
    var v, back := h.(version := 2), PartsBytes(ps) + end + rest;
    var s, t := TableBytes(h, ps, end, rest), TableBytes(v, ps, end, rest);
    assert s == Le32(h.count) + [h.version] + (h.reserved + Le32(h.crc) + back);
    assert t == Le32(h.count) + [VERSION] + (h.reserved + Le32(h.crc) + back);
    assert s[4 := VERSION] == t;
    assert t == v.Fields() + Le32(h.crc) + back;
    assert t[..HDRCRC] == v.Fields();
    SpliceMiddle(v.Fields(), Le32(h.crc), Le32(TableCrc(v.Fields())), back);
    assert SealHeader(h).Fields() == v.Fields();
  }

  /** Version 2, all checksums right, the signature, and nothing else changed. */
  lemma StampedInFields(h: Header, ps: seq<Part>, end: seq<Byte>, rest: seq<Byte>)
    requires |end| == 4 && h.count == |ps|
    ensures var s := TableBytes(h, ps, end, rest);
            && TrueSize(CountOf(s)) <= |s|
            && Stamped(s) == TableBytes(SealHeader(h), SealParts(ps), [0xde, 0xad, 0xfc, 0xbe], rest)
  {
    hide Le32, TableCrc, PartsBytes, Splice, CountOf, StampParts, StampHeader;
    var g, n := SealHeader(h), |ps|;
    HeaderFields(h, ps, end, rest);
    StampedHeaderFields(h, ps, end, rest);
    StampedParts(g, ps, end, rest, n);
    assert ps[..n] == ps && SealParts(ps) + ps[n..] == SealParts(ps);
    var front := g.Fields() + Le32(g.crc) + PartsBytes(SealParts(ps));
    SpliceMiddle(front, end, MAGIC, rest);
    assert TableBytes(g, SealParts(ps), end, rest) == front + end + rest;
    assert TableBytes(g, SealParts(ps), MAGIC, rest) == front + MAGIC + rest;
  }
}
