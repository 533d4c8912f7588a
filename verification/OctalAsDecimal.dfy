/** Octal digits read as decimal ones: where they stand for the same number modulo a power of two. */
module OctalAsDecimal {
  import opened Bytes
  import opened Words
  import opened NumText

  /** What the octal digits of `n` stand for when they are taken for decimal ones. */
  function AsDecimal(n: nat): (v: nat)
  {
    if n < 8 then n else 10 * AsDecimal(n / 8) + n % 8
  }

  lemma {:induction false} AsDecimalIs(n: nat, large: bool)
    ensures AllDigits(Text(n, 8, large), 10) && Value(Text(n, 8, large), 10) == AsDecimal(n)
  {
    var s := Text(n, 8, large);
    if n >= 8 {
      AsDecimalIs(n / 8, large);
      assert s[..|s| - 1] == Text(n / 8, 8, large);
    } else {
      assert s[..0] == "";
    }
  }

  /** More than `n`, if there are several digits, and less than 10^i, if there are up to i. */
  lemma {:induction false} AsDecimalBounds(n: nat, i: nat)
    ensures n <= AsDecimal(n) && (n >= 8 ==> n < AsDecimal(n))
    ensures n < Pow(8, i) ==> AsDecimal(n) < Pow(10, i)
    decreases n
  {
    if n >= 8 {
      AsDecimalBounds(n / 8, if i > 0 then i - 1 else 0);
    } else if i > 1 {
      PowMore(10, i - 1);
    }
  }

  function Pow(b: nat, i: nat): (p: nat)
  {
    if i == 0 then 1 else b * Pow(b, i - 1)
  }

  lemma {:induction false} PowMore(b: nat, i: nat)
    requires b > 0
    ensures Pow(b, i) > 0
  {
    if i > 0 {
      PowMore(b, i - 1);
    }
  }

  /** The last five digits, and the rest. */
  lemma FiveDigits(n: nat) returns (d0: nat, d1: nat, d2: nat, d3: nat, d4: nat, q: nat)
    ensures d0 < 8 && d1 < 8 && d2 < 8 && d3 < 8 && d4 < 8
    ensures n == d0 + 8 * d1 + 64 * d2 + 512 * d3 + 4096 * d4 + 32768 * q
    ensures AsDecimal(n) == d0 + 10 * d1 + 100 * d2 + 1000 * d3 + 10000 * d4 + 100000 * AsDecimal(q)
  {
    hide AsDecimal;
    var n1 := n / 8;
    var n2 := n1 / 8;
    var n3 := n2 / 8;
    var n4 := n3 / 8;
    d0, d1, d2, d3, d4, q := n % 8, n1 % 8, n2 % 8, n3 % 8, n4 % 8, n4 / 8;
    LowestDigit(n);
    LowestDigit(n1);
    LowestDigit(n2);
    LowestDigit(n3);
    LowestDigit(n4);
  }

  lemma LowestDigit(n: nat)
    ensures AsDecimal(n) == 10 * AsDecimal(n / 8) + n % 8
  {
  }

  /** What ten octal digits above the last one stand for more, taken for decimal ones. */
  function Above(d1: nat, d2: nat, d3: nat, d4: nat, d5: nat, d6: nat, d7: nat, d8: nat, d9: nat, d10: nat): (x: nat)
  {
    2 * d1 + 36 * d2 + 488 * d3 + 5904 * d4 + 67232 * d5
      + 737856 * d6 + 7902848 * d7 + 83222784 * d8 + 865782272 * d9 + 8926258176 * d10
  }

  /** That is none of the first multiples of 2^32. */
  lemma NoMultiple(d1: nat, d2: nat, d3: nat, d4: nat, d5: nat, d6: nat, d7: nat, d8: nat, d9: nat, d10: nat, t: nat)
    requires d1 < 8 && d2 < 8 && d3 < 8 && d4 < 8 && d5 < 8 && d6 < 8 && d7 < 8 && d8 < 8 && d9 < 8 && d10 < 8
    requires 0 < t <= 7
    ensures Above(d1, d2, d3, d4, d5, d6, d7, d8, d9, d10) != W32 * t
  {
    var x := Above(d1, d2, d3, d4, d5, d6, d7, d8, d9, d10);
    match t
    case 1 => assert x != 0x1_0000_0000;
    case 2 => assert x != 0x2_0000_0000;
    case 3 => assert x != 0x3_0000_0000;
    case 4 => assert x != 0x4_0000_0000;
    case 5 => assert x != 0x5_0000_0000;
    case 6 => assert x != 0x6_0000_0000;
    case 7 => assert x != 0x7_0000_0000;
  }

  lemma Multiples32(n: nat, t: nat)
    requires n < W32 && 0 < t <= 7
    ensures AsDecimal(n) != n + W32 * t
  {
    hide AsDecimal;
    var d0, d1, d2, d3, d4, q := FiveDigits(n);
    var d5, d6, d7, d8, d9, d10 := FiveDigits(q);
    assert AsDecimal(d10) == d10 by {
      LowestDigit(d10);
      LowestDigit(0);
    }
    NoMultiple(d1, d2, d3, d4, d5, d6, d7, d8, d9, d10, t);
  }

  lemma Wraps32(n: nat)
    requires n < W32
    ensures AsDecimal(n) - n < W32 * 8
  {
    hide AsDecimal;
    var d0, d1, d2, d3, d4, q := FiveDigits(n);
    var d5, d6, d7, d8, d9, d10 := FiveDigits(q);
    assert d10 < 4;
    LowestDigit(d10);
    LowestDigit(0);
  }

  /**
   Modulo `m` they stand for the number itself if there is one digit. If the reading does not wrap,
   that is the only case, and so it is for every number below 2^32 that is read modulo 2^32.
   */
  lemma SameModulo(n: nat, m: nat)
    requires n < m
    ensures AsDecimal(n) < m || m == W32 ==> (AsDecimal(n) % m == n <==> n < 8)
    ensures n < 8 ==> AsDecimal(n) % m == n
  {
    hide AsDecimal;
    AsDecimalBounds(n, 0);
    var v := AsDecimal(n);
    if n < 8 {
      LowestDigit(n);
      LowestDigit(0);
      DivModUnique(0, n, m);
    } else if v < m {
      DivModUnique(0, v, m);
    } else if m == W32 && v % m == n {
      Wraps32(n);
      Multiples32(n, v / m);
    }
  }

  /** Read modulo 2^64, up to nineteen digits do not wrap. */
  lemma NineteenDigits(n: nat)
    requires n < 0x200_0000_0000_0000
    ensures AsDecimal(n) < W64
  {
    AsDecimalBounds(n, 19);
    assert Pow(8, 10) == 0x4000_0000;
    assert Pow(10, 10) == 10_000_000_000;
    assert Pow(8, 19) == 0x200_0000_0000_0000;
    assert Pow(10, 19) == 10_000_000_000_000_000_000;
  }

  /** A longer one that is read as itself: the decimal digits wrap 87 times. */
  lemma Coincidence()
    ensures AsDecimal(16454510724414655648) == 16454510724414655648 + 87 * W64
  {
    assert AsDecimal(913) == 1621;
    assert AsDecimal(467665) == 1621321;
    assert AsDecimal(239444645) == 1621321245;
    assert AsDecimal(122595658335) == 1621321245137;
    assert AsDecimal(62768977067621) == 1621321245137145;
    assert AsDecimal(32137716258622374) == 1621321245137145646;
  }
}
