/** What the checksum detects: any change inside four consecutive bytes. */
module CrcDetect {
  import opened Crc32
  import opened CrcTable

  // ---- equal bytes keep a difference

  lemma MixInjective(c: u32, d: u32, b: u8)
    requires Mix(c, b) == Mix(d, b)
    ensures c == d
  {
  }

  lemma {:induction false} CrcInjective(s: seq<u8>, c: u32, d: u32)
    requires Crc(s, c) == Crc(s, d)
    ensures c == d
  {
    hide Mix, Bits;
    if s != [] {
      var t, b := s[..|s| - 1], s[|s| - 1];
      BitsInjective(Mix(Crc(t, c), b), Mix(Crc(t, d), b), 8);
      MixInjective(Crc(t, c), Crc(t, d), b);
      CrcInjective(t, c, d);
    }
  }

  // ---- up to four bytes fit into the 32 bits of the state

  /** Byte `b` as the `k`-th byte of a word. */
  function Place(b: u8, k: nat): (w: u32)
    requires k < 4
  {
    if k == 0 then b as u32
    else if k == 1 then (b as u32) << 8
    else if k == 2 then (b as u32) << 16
    else (b as u32) << 24
  }

  function Pack(x: seq<u8>): (w: u32)
    requires |x| <= 4
  {
    if x == [] then 0 else Xor(Pack(x[..|x| - 1]), Place(x[|x| - 1], |x| - 1))
  }

  lemma PlaceStep(b: u8, k: nat)
    requires 0 < k < 4
    ensures Place(b, k) & 0xff == 0 && Shift8(Place(b, k)) == Place(b, k - 1)
  {
  }

  /** Shifting a placed byte down to the low end feeds nothing back. */
  lemma {:induction false} PlaceOut(b: u8, k: nat)
    requires k < 4
    ensures Bits(Place(b, k), 8 * k) == Place(b, 0)
  {
    hide Place, Shift8;
    if k > 0 {
      PlaceStep(b, k);
      ShiftOut(Place(b, k));
      PlaceOut(b, k - 1);
      BitsAdd(Place(b, k), 8, 8 * (k - 1));
      assert 8 + 8 * (k - 1) == 8 * k;
    }
  }

  lemma MixIsXor(c: u32, b: u8)
    ensures Mix(c, b) == Xor(c, Place(b, 0))
  {
  }

  lemma XorAssoc(a: u32, b: u32, c: u32)
    ensures Xor(Xor(a, b), c) == Xor(a, Xor(b, c))
    ensures Xor(a, 0) == a
  {
  }

  /** Up to four bytes can be mixed in at once, before the bit steps. */
  lemma {:induction false} CrcOfPack(x: seq<u8>, c: u32)
    requires |x| <= 4
    ensures Crc(x, c) == Bits(Xor(c, Pack(x)), 8 * |x|)
  {
    hide Mix, Bits, Xor, Place;
    if x == [] {
      XorAssoc(c, c, c);
      BitsNone(c);
    } else {
      var k := |x| - 1;
      var t, b := x[..k], x[k];
      CrcOfPack(t, c);
      PlaceOut(b, k);
      BitsLinear(Xor(c, Pack(t)), Place(b, k), 8 * k);
      MixIsXor(Crc(t, c), b);
      BitsAdd(Xor(Xor(c, Pack(t)), Place(b, k)), 8 * k, 8);
      XorAssoc(c, Pack(t), Place(b, k));
    }
  }

  lemma BitsNone(c: u32)
    ensures Bits(c, 0) == c
  {
  }

  /** A word whose bytes from the `k`-th on are zero. */
  predicate Below(w: u32, k: nat)
    requires k <= 4
  {
    if k == 0 then w == 0
    else if k == 1 then w & 0xffff_ff00 == 0
    else if k == 2 then w & 0xffff_0000 == 0
    else if k == 3 then w & 0xff00_0000 == 0
    else true
  }

  lemma BelowStep0(w: u32, b: u8)
    requires w == 0
    ensures (w ^ (b as u32)) & 0xffff_ff00 == 0
  {
  }

  lemma BelowStep1(w: u32, b: u8)
    requires w & 0xffff_ff00 == 0
    ensures (w ^ ((b as u32) << 8)) & 0xffff_0000 == 0
  {
  }

  lemma BelowStep2(w: u32, b: u8)
    requires w & 0xffff_0000 == 0
    ensures (w ^ ((b as u32) << 16)) & 0xff00_0000 == 0
  {
  }

  lemma BelowStep(w: u32, b: u8, k: nat)
    requires k < 4 && Below(w, k)
    ensures Below(Xor(w, Place(b, k)), k + 1)
  {
    if k == 0 {
      BelowStep0(w, b);
    } else if k == 1 {
      BelowStep1(w, b);
    } else if k == 2 {
      BelowStep2(w, b);
    }
  }

  lemma {:induction false} PackBelow(x: seq<u8>)
    requires |x| <= 4
    ensures Below(Pack(x), |x|)
  {
    hide Xor, Place;
    if x != [] {
      PackBelow(x[..|x| - 1]);
      hide Below;
      BelowStep(Pack(x[..|x| - 1]), x[|x| - 1], |x| - 1);
    }
  }

  lemma Separate0(v: u32, w: u32, b: u8, c: u8)
    requires Below(v, 0) && Below(w, 0) && Xor(v, Place(b, 0)) == Xor(w, Place(c, 0))
    ensures v == w && b == c
  {
  }

  lemma Separate1(v: u32, w: u32, b: u8, c: u8)
    requires Below(v, 1) && Below(w, 1) && Xor(v, Place(b, 1)) == Xor(w, Place(c, 1))
    ensures v == w && b == c
  {
  }

  lemma Separate2(v: u32, w: u32, b: u8, c: u8)
    requires Below(v, 2) && Below(w, 2) && Xor(v, Place(b, 2)) == Xor(w, Place(c, 2))
    ensures v == w && b == c
  {
  }

  lemma Separate3(v: u32, w: u32, b: u8, c: u8)
    requires Below(v, 3) && Below(w, 3) && Xor(v, Place(b, 3)) == Xor(w, Place(c, 3))
    ensures v == w && b == c
  {
  }

  lemma Separate(v: u32, w: u32, b: u8, c: u8, k: nat)
    requires k < 4 && Below(v, k) && Below(w, k)
    requires Xor(v, Place(b, k)) == Xor(w, Place(c, k))
    ensures v == w && b == c
  {
    hide Below, Xor, Place;
    if k == 0 {
      Separate0(v, w, b, c);
    } else if k == 1 {
      Separate1(v, w, b, c);
    } else if k == 2 {
      Separate2(v, w, b, c);
    } else {
      Separate3(v, w, b, c);
    }
  }

  lemma {:induction false} PackInjective(x: seq<u8>, y: seq<u8>)
    requires |x| == |y| <= 4 && Pack(x) == Pack(y)
    ensures x == y
  {
    hide Xor, Place, Below;
    if x != [] {
      var k := |x| - 1;
      PackBelow(x[..k]);
      PackBelow(y[..k]);
      Separate(Pack(x[..k]), Pack(y[..k]), x[k], y[k], k);
      PackInjective(x[..k], y[..k]);
      assert x == x[..k] + [x[k]] && y == y[..k] + [y[k]];
    }
  }

  lemma XorInjective(c: u32, v: u32, w: u32)
    requires Xor(c, v) == Xor(c, w)
    ensures v == w
  {
  }

  // ---- the result

  /** Two buffers that differ, and only inside four consecutive bytes, have different checksums. */
  lemma DetectsWindow(a: seq<u8>, b: seq<u8>, base: u32, w: nat)
    requires |a| == |b| && a != b
    requires forall k :: 0 <= k < |a| && !(w <= k < w + 4) ==> a[k] == b[k]
    ensures Crc(a, base) != Crc(b, base)
  {
    hide Crc, Pack, Xor, Bits;
    if Crc(a, base) == Crc(b, base) {
      var i := if w < |a| then w else |a|;
      var j := if w + 4 < |a| then w + 4 else |a|;
      var x, y := a[i..j], b[i..j];
      assert a == a[..i] + (x + a[j..]) && b == a[..i] + (y + a[j..]);
      var c := Crc(a[..i], base);
      CrcConcat(a[..i], x + a[j..], base);
      CrcConcat(a[..i], y + a[j..], base);
      CrcConcat(x, a[j..], c);
      CrcConcat(y, a[j..], c);
      CrcInjective(a[j..], Crc(x, c), Crc(y, c));
      CrcOfPack(x, c);
      CrcOfPack(y, c);
      BitsInjective(Xor(c, Pack(x)), Xor(c, Pack(y)), 8 * |x|);
      XorInjective(c, Pack(x), Pack(y));
      PackInjective(x, y);
    }
  }
}
