/** Printing integers: the integer path of lib_formatSprintfNum, digit loops and all. */
module Format {
  import opened Bytes
  import opened Words
  import opened NumText

  const BUFSZ := 32 // tmp_buf

  type U64 = n: int | 0 <= n < 0x1_0000_0000_0000_0000

  datatype Flags = Flags(signed: bool, wide: bool, hex: bool, oct: bool, large: bool, alternate: bool,
                         zero: bool, space: bool, plus: bool)

  function Base(f: Flags): (b: nat)
    ensures IsBase(b)
  {
    if f.hex then 16 else if f.oct then 8 else 10
  }

  // ---- what is printed

  /** The integers that a conversion can be given. */
  predicate InRange(n: int, f: Flags) {
    var w := if f.wide then W64 else W32;
    if f.signed then -w <= 2 * n < w else 0 <= n < w
  }

  /** How va_arg passes them: in two's complement, sign-extended to 64 bits. */
  function Passed(n: int): (u: U64)
  {
    n % W64
  }

  function Magnitude(n: int): (a: nat)
  {
    if n < 0 then -n else n
  }

  function Sign(n: int, f: Flags): (s: string)
    ensures |s| <= 1
  {
    if !f.signed then ""
    else if n < 0 then "-"
    else if f.space then " "
    else if f.plus then "+"
    else ""
  }

  function Prefix(n: int, f: Flags): (s: string)
  {
    if n == 0 || !f.alternate then ""
    else if f.hex then if f.large then "0X" else "0x"
    else if f.oct then "0"
    else ""
  }

  function Body(n: int, f: Flags): (s: string)
  {
    Prefix(n, f) + Text(Magnitude(n), Base(f), f.large)
  }

  function Padding(n: int, f: Flags, width: int): (p: nat)
  {
    var p := width - |Body(n, f)| - |Sign(n, f)|;
    if p > 0 then p else 0
  }

  function Spaces(k: nat): (s: string)
    ensures |s| == k
  {
    Fill(k, ' ')
  }

  function Printed(n: int, f: Flags, width: int): (s: string)
  {
    var p := Padding(n, f, width);
    (if f.zero then "" else Spaces(p)) + Sign(n, f) + (if f.zero then Zeros(p) else "") + Body(n, f)
  }

  // ---- digits, least significant first

  function Reversed(s: string): (r: string)
    ensures |r| == |s|
  {
    if s == "" then "" else [s[|s| - 1]] + Reversed(s[..|s| - 1])
  }

  lemma ReversedAdd(s: string, c: char)
    ensures Reversed(s + [c]) == [c] + Reversed(s)
  {
    assert (s + [c])[..|s|] == s;
  }

  /** The digits still to come: none for zero. */
  function Rest(n: nat, b: nat, large: bool): (s: string)
    requires IsBase(b)
  {
    if n == 0 then "" else Text(n, b, large)
  }

  /** x times the `j`-th power of b. */
  function Scale(x: nat, b: nat, j: nat): (y: nat)
  {
    if j == 0 then x else b * Scale(x, b, j - 1)
  }

  lemma {:induction false} ScaleUp(x: nat, b: nat, j: nat)
    requires b > 0
    ensures x <= Scale(x, b, j)
    ensures Scale(x, b, j + 1) == b * Scale(x, b, j)
  {
    if j > 0 {
      ScaleUp(x, b, j - 1);
      var y := Scale(x, b, j - 1);
      assert b * y == y + (b - 1) * y;
    }
  }

  lemma Capacity()
    ensures W32 <= Scale(1, 10, 10) && W64 <= Scale(1, 10, 20)
    ensures W32 == Scale(1, 16, 8) && W32 == Scale(4, 8, 10) && W32 <= Scale(1, 8, 11)
  {
    assert Scale(1, 10, 5) == 100000;
    assert Scale(1, 10, 10) == 10000000000;
    assert Scale(1, 10, 15) == 1000000000000000;
    assert Scale(1, 10, 20) == 100000000000000000000;
    assert Scale(1, 16, 4) == 0x1_0000;
    assert Scale(4, 8, 5) == 0x2_0000;
    assert Scale(1, 8, 5) == 0x8000;
    assert Scale(1, 8, 10) == 0x4000_0000;
  }

  /** `k` characters of the buffer, and the digits of `left` still to come, make up the number. */
  ghost predicate Partial(buf: array<char>, k: nat, left: nat, n: nat, b: nat, large: bool)
    reads buf
  {
    && buf.Length == BUFSZ && k <= BUFSZ && IsBase(b)
    && Rest(left, b, large) + Reversed(buf[..k]) == Rest(n, b, large)
  }

  lemma RestStep(left: nat, b: nat, large: bool)
    requires IsBase(b) && left > 0
    ensures Rest(left, b, large) == Rest(left / b, b, large) + [DigitChar(left % b, large)]
  {
    if left < b {
      assert left / b == 0 && left % b == left;
    }
  }

  lemma Regroup(s: string, c: char, t: string)
    ensures s + [c] + t == s + ([c] + t)
  {
  }

  /** Writes one digit. */
  method Put(buf: array<char>, k: nat, d: nat, large: bool, ghost left: nat, ghost n: nat, ghost b: nat)
    requires Partial(buf, k, left, n, b, large) && k < BUFSZ && left > 0 && d == left % b
    modifies buf
    ensures Partial(buf, k + 1, left / b, n, b, large)
  {
    hide Rest, Reversed, DigitChar;
    ghost var s := buf[..k];
    var c := DigitChar(d, large);
    buf[k] := c;
    assert buf[..k + 1] == s + [c];
    ReversedAdd(s, c);
    RestStep(left, b, large);
    Regroup(Rest(left / b, b, large), c, Reversed(s));
  }

  lemma DivLess(x: nat, b: nat, y: nat)
    requires b > 0 && x < b * y
    ensures x / b < y
  {
    OffIsProduct(y, b);
    OffDiv(x, y, b);
  }

  /** The loops that write digits while the number is not zero; they write at most `room` digits. */
  method PutAll(buf: array<char>, k: nat, num: nat, b: nat, large: bool, ghost n: nat, ghost room: nat)
    returns (k': nat)
    requires IsBase(b) && Partial(buf, k, num, n, b, large) && k + room <= BUFSZ && num < Scale(1, b, room)
    modifies buf
    ensures k <= k' <= k + room && Partial(buf, k', 0, n, b, large)
  {
    hide Partial;
    var x: nat := num;
    k' := k;
    ghost var left: nat := room;
    while x > 0
      invariant k <= k' && k' + left == k + room && IsBase(b)
      invariant Partial(buf, k', x, n, b, large) && x < Scale(1, b, left)
    {
      assert left > 0;
      Put(buf, k', x % b, large, x, n, b);
      DivLess(x, b, Scale(1, b, left - 1));
      x := x / b;
      k' := k' + 1;
      left := left - 1;
    }
  }

  /** Writes exactly `cnt` digits of `num`, above which the number goes on with `high`. */
  method PutLow(buf: array<char>, num: nat, cnt: nat, b: nat, large: bool, ghost high: nat, ghost top: nat, ghost n: nat)
    returns (num': nat)
    requires IsBase(b) && high > 0 && top > 0 && num < Scale(top, b, cnt) && cnt <= BUFSZ
    requires n == num + Scale(top * high, b, cnt)
    requires Partial(buf, 0, n, n, b, large)
    modifies buf
    ensures num' < top && Partial(buf, cnt, num' + top * high, n, b, large)
  {
    hide Partial;
    num' := num;
    ghost var left := n;
    for i := 0 to cnt
      invariant num' < Scale(top, b, cnt - i) && left == num' + Scale(top * high, b, cnt - i)
      invariant Partial(buf, i, left, n, b, large)
    {
      ghost var y, z := Scale(top, b, cnt - i - 1), Scale(top * high, b, cnt - i - 1);
      LowDigit(num', b, z);
      ScaleUp(top * high, b, cnt - i - 1);
      Put(buf, i, num' % b, large, left, n, b);
      DivLess(num', b, y);
      num', left := num' / b, left / b;
    }
  }

  lemma LowDigit(num: nat, b: nat, z: nat)
    requires b > 0
    ensures (num + b * z) % b == num % b && (num + b * z) / b == num / b + z
  {
    var q, r := num / b, num % b;
    assert num + b * z == (q + z) * b + r;
    DivModUnique(q + z, r, b);
  }

  // ---- the three notations

  /** The number as the two words in which it is printed. */
  function Low(u: U64): (w: U32)
  {
    u % W32
  }

  function High(u: U64): (w: U32)
  {
    u / W32
  }

  method PutHex(buf: array<char>, u: U64, wide: bool, large: bool) returns (k: nat)
    requires buf.Length == BUFSZ && u > 0 && (wide <==> High(u) > 0)
    modifies buf
    ensures k <= 16 && Partial(buf, k, 0, u, 16, large)
  {
    hide Partial, Scale;
    Capacity();
    Nothing(buf, u, 16, large);
    if wide {
      ScaleProduct(High(u), 8, 16);
      var rest := PutLow(buf, Low(u), 8, 16, large, High(u), 1, u);
      k := PutAll(buf, 8, High(u), 16, large, u, 8);
    } else {
      k := PutAll(buf, 0, Low(u), 16, large, u, 8);
    }
  }

  method PutOct(buf: array<char>, u: U64, wide: bool, large: bool) returns (k: nat)
    requires buf.Length == BUFSZ && u > 0 && (wide <==> High(u) > 0)
    modifies buf
    ensures k <= 22 && Partial(buf, k, 0, u, 8, large)
  {
    hide Partial, Scale;
    Capacity();
    Nothing(buf, u, 8, large);
    if wide {
      // 30 bits
      ScaleProduct(4 * High(u), 10, 8);
      ScaleProduct(4, 10, 8);
      var num32 := PutLow(buf, Low(u), 10, 8, large, High(u), 4, u);
      // the upper two bits of the low word, and the lowest bit of the high word
      var digit := num32 + High(u) % 2 * 4;
      Put(buf, 10, digit % 8, large, num32 + 4 * High(u), u, 8);
      k := PutAll(buf, 11, High(u) / 2, 8, large, u, 11);
    } else {
      k := PutAll(buf, 0, Low(u), 8, large, u, 11);
    }
  }

  method PutDec(buf: array<char>, u: U64, wide: bool, large: bool) returns (k: nat)
    requires buf.Length == BUFSZ && u > 0 && (wide <==> High(u) > 0)
    modifies buf
    ensures k <= 20 && Partial(buf, k, 0, u, 10, large)
  {
    hide Partial, Scale;
    Capacity();
    Nothing(buf, u, 10, large);
    if wide {
      k := PutAll(buf, 0, u, 10, large, u, 20);
    } else {
      k := PutAll(buf, 0, Low(u), 10, large, u, 10);
    }
  }

  lemma Nothing(buf: array<char>, n: nat, b: nat, large: bool)
    requires buf.Length == BUFSZ && IsBase(b)
    ensures Partial(buf, 0, n, n, b, large)
  {
    assert buf[..0] == "";
  }

  /** 2^32 as a power of the base, times x. */
  lemma {:induction false} ScaleProduct(x: nat, j: nat, b: nat)
    ensures Scale(x, b, j) == x * Scale(1, b, j)
  {
    if j > 0 {
      ScaleProduct(x, j - 1, b);
      var y := Scale(1, b, j - 1);
      assert b * (x * y) == x * (b * y);
    }
  }

  // ---- all of it

  /** The buffer's first `k` characters, backwards, are `s`. */
  ghost predicate Holds(buf: array<char>, k: nat, s: string)
    reads buf
  {
    buf.Length == BUFSZ && k <= BUFSZ && Reversed(buf[..k]) == s
  }

  method PutChar(buf: array<char>, k: nat, c: char, ghost s: string)
    requires Holds(buf, k, s) && k < BUFSZ
    modifies buf
    ensures Holds(buf, k + 1, [c] + s)
  {
    ghost var was := buf[..k];
    buf[k] := c;
    assert buf[..k + 1] == was + [c];
    ReversedAdd(was, c);
  }

  lemma AllThere(buf: array<char>, k: nat, n: nat, b: nat, large: bool)
    requires Partial(buf, k, 0, n, b, large) && n > 0
    ensures Holds(buf, k, Text(n, b, large))
  {
    assert "" + Reversed(buf[..k]) == Reversed(buf[..k]);
  }

  /** Digits and prefix; `mag` is what the source has in num32 and num_high. At most 23 characters. */
  method PutBody(buf: array<char>, mag: U64, wide: bool, f: Flags) returns (k: nat)
    requires buf.Length == BUFSZ && (wide <==> High(mag) > 0)
    modifies buf
    ensures k <= 23 && Holds(buf, k, Body(mag, f))
  {
    hide Partial, Holds, Text;
    if mag == 0 {
      buf[0] := '0';
      ZeroIsThere(buf, f);
      return 1;
    }
    ghost var s := Text(mag, Base(f), f.large);
    if f.hex {
      k := PutHex(buf, mag, wide, f.large);
      AllThere(buf, k, mag, 16, f.large);
      if f.alternate {
        var x := if f.large then 'X' else 'x';
        PutChar(buf, k, x, s);
        PutChar(buf, k + 1, '0', [x] + s);
        assert ['0'] + ([x] + s) == Body(mag, f);
        k := k + 2;
      }
    } else if f.oct {
      k := PutOct(buf, mag, wide, f.large);
      AllThere(buf, k, mag, 8, f.large);
      if f.alternate {
        PutChar(buf, k, '0', s);
        k := k + 1;
      }
    } else {
      k := PutDec(buf, mag, wide, f.large);
      AllThere(buf, k, mag, 10, f.large);
    }
    assert "" + s == s;
  }

  lemma ZeroIsThere(buf: array<char>, f: Flags)
    requires buf.Length == BUFSZ && buf[0] == '0'
    ensures Holds(buf, 1, Body(0, f))
  {
    assert buf[..1] == "0" && Text(0, Base(f), f.large) == "0";
    ReversedAdd("", '0');
    assert Body(0, f) == "" + "0";
  }

  /** Feeds `pad` times c. */
  method Feed(out: string, c: char, pad: int) returns (out': string)
    ensures out' == out + Fill(if pad > 0 then pad else 0, c)
  {
    out' := out;
    var left := pad;
    ghost var n: nat := 0;
    assert Fill(0, c) == [];
    while left > 0
      invariant n == (if pad > 0 then pad - left else 0) && (pad > 0 ==> left >= 0)
      invariant out' == out + Fill(n, c)
    {
      out' := out' + [c];
      assert Fill(n, c) + [c] == Fill(n + 1, c);
      left, n := left - 1, n + 1;
    }
  }

  /** Feeds the buffer backwards. */
  method FeedReversed(out: string, buf: array<char>, k: nat) returns (out': string)
    requires k <= buf.Length
    ensures out' == out + Reversed(buf[..k])
  {
    out' := out;
    var i := k;
    while i > 0
      invariant 0 <= i <= k && out' + Reversed(buf[..i]) == out + Reversed(buf[..k])
    {
      i := i - 1;
      assert buf[..i + 1][..i] == buf[..i];
      Regroup(out', buf[i], Reversed(buf[..i]));
      out' := out' + [buf[i]];
    }
    assert out' + "" == out';
  }

  /** What the arguments look like, in the width that counts. */
  lemma PassedIs(n: int, f: Flags)
    requires InRange(n, f)
    ensures var w := if f.wide then W64 else W32;
            (if f.wide then Passed(n) else Low(Passed(n))) == if n < 0 then n + w else n
  {
    if n < 0 {
      assert Passed(n) == n + W64;
      if !f.wide {
        assert Low(Passed(n)) == n + W32;
      }
    }
  }

  lemma TopBit(u: U64)
    ensures High(u) >= 0x8000_0000 <==> 2 * u >= W64
  {
  }

  function PositiveSign(f: Flags): (s: string)
  {
    if f.space then " " else if f.plus then "+" else ""
  }

  /** The magnitude and the sign, found by looking at the top bit. */
  method SplitSign(num64: U64, f: Flags, ghost n: int) returns (mag: U64, sign: string)
    requires InRange(n, f) && num64 == Passed(n)
    ensures mag == Magnitude(n) && sign == Sign(n, f) && (!f.wide ==> mag < W32)
  {
    hide Low, High, Passed;
    PassedIs(n, f);
    mag, sign := if f.wide then num64 else Low(num64), "";
    TopBit(mag);
    if f.signed {
      if f.wide {
        if High(mag) >= 0x8000_0000 {
          mag, sign := (W64 - mag) % W64, "-";
        }
      } else if mag >= 0x8000_0000 {
        mag, sign := (W32 - mag) % W32, "-";
      }
      if sign == "" {
        sign := PositiveSign(f);
      }
    }
  }

  /** lib_formatSprintfNum for an integer n, which it gets as `num64`. */
  method FormatNum(num64: U64, f: Flags, width: int, ghost n: int) returns (out: string)
    requires InRange(n, f) && num64 == Passed(n)
    ensures out == Printed(n, f, width)
  {
    hide Holds, Printed, Body, Sign;
    var mag, sign := SplitSign(num64, f, n);
    var buf := new char[BUFSZ];
    var k := PutBody(buf, mag, f.wide && High(mag) > 0, f);
    out := Emit(buf, k, sign, f, width, n);
  }

  method Emit(buf: array<char>, k: nat, sign: string, f: Flags, width: int, ghost n: int) returns (out: string)
    requires Holds(buf, k, Body(Magnitude(n), f)) && sign == Sign(n, f)
    ensures out == Printed(n, f, width)
  {
    hide Body;
    assert Body(Magnitude(n), f) == Body(n, f) by {
      BodyOfMagnitude(n, f);
    }
    var pad := width - k - |sign|;
    out := "";
    if !f.zero {
      out := Feed(out, ' ', pad);
    }
    out := out + sign;
    if f.zero {
      out := Feed(out, '0', pad);
    }
    out := FeedReversed(out, buf, k);
  }

  lemma BodyOfMagnitude(n: int, f: Flags)
    ensures Body(Magnitude(n), f) == Body(n, f)
  {
  }
}
