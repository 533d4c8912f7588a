/** Printing and reading undo each other: exactly when, for every width and flag. */
module NumRoundTrip {
  import opened Bytes
  import opened Strtoul
  import opened NumText
  import opened Format
  import opened OctalAsDecimal
  import opened Words

  /** Digits followed by something else never look like a 0x prefix. */
  lemma NoHexPrefix(t: string, rest: string, b: nat)
    requires t != "" && AllDigits(t, b) && b <= 16 && Stops(rest)
    ensures !HexPrefix(t + rest)
  {
    var s := t + rest;
    if |t| > 1 {
      assert s[1] == t[1];
    } else {
      assert CharAt(s, 1) == CharAt(rest, 0);
    }
  }

  /** The text of a number, zero-padded or not, read in its own base. */
  lemma PlainRead(z: nat, n: nat, b: nat, large: bool, rest: string, m: nat)
    requires m > 0 && IsBase(b) && Stops(rest)
    ensures var t := Zeros(z) + Text(n, b, large);
            Unsigned(t + rest, b, m) == (n % m, |t|) && !HexPrefix(t + rest) && AllDigits(t, b)
  {
    hide Text, Digits, Value;
    var t := Zeros(z) + Text(n, b, large);
    ReadText("", z, n, b, large, rest, m);
    assert "" + t == t;
    ValueOfText(n, b, large);
    ValueOfZeros(z, Text(n, b, large), b);
    NoHexPrefix(t, rest, b);
  }

  /** With a prefix. */
  lemma PrefixedRead(n: nat, f: Flags, rest: string, m: nat)
    requires m > 0 && n > 0 && f.hex && f.alternate && Stops(rest)
    ensures var s := Body(n, f);
            HexPrefix(s + rest) && Digits(s + rest, 2, 16, 0, m) == (n % m, |s|)
  {
    var head, t := Prefix(n, f), Text(n, 16, f.large);
    ReadText(head, 0, n, 16, f.large, rest, m);
    assert Zeros(0) + t == t;
  }

  /** Zeros before a prefix end the number at its x. */
  lemma PrefixTooLate(z: nat, n: nat, f: Flags, rest: string, m: nat)
    requires m > 0 && z > 0 && n > 0 && f.hex && f.alternate
    ensures Unsigned(Zeros(z) + Body(n, f) + rest, 16, m).1 == z + 1
    ensures Unsigned(Zeros(z) + Body(n, f) + rest, 0, m).1 == z + 1
  {
    hide Text, Digits, Value;
    var t, x := Zeros(z + 1), Prefix(n, f)[1..] + Text(n, 16, f.large) + rest;
    var s := Zeros(z) + Body(n, f) + rest;
    assert s == "" + t + x;
    ReadRun("", t, x, 16, m);
    ReadRun("", t, x, 8, m);
    assert s[1] == '0';
  }

  lemma ZerosAdd(z: nat, s: string)
    ensures Zeros(z) + ("0" + s) == Zeros(z + 1) + s
  {
  }

  /**
   %u, %x, %X and %o with any flags and width, read in the matching base: the number comes back,
   modulo what an unsigned long holds, and reading stops right behind it - unless the number was
   padded with spaces, or with zeros before a prefix.
   */
  lemma UnsignedRoundTrip(n: nat, f: Flags, width: int, rest: string, m: nat)
    requires m > 0 && !f.signed && Stops(rest)
    ensures var s := Printed(n, f, width);
            Unsigned(s + rest, if f.hex then 16 else if f.oct then 8 else 10, m) == (n % m, |s|)
            <==> Padding(n, f, width) == 0 || (f.zero && !(f.hex && f.alternate && n > 0))
  {
    var s, z, b := Printed(n, f, width), Padding(n, f, width), Base(f);
    if z > 0 && !f.zero {
      assert (s + rest)[0] == ' ';
    } else {
      assert s == Zeros(z) + Body(n, f);
      if f.hex && f.alternate && n > 0 {
        if z > 0 {
          PrefixTooLate(z, n, f, rest, m);
        } else {
          assert s == Body(n, f);
          PrefixedRead(n, f, rest, m);
        }
      } else if f.oct && !f.hex && f.alternate && n > 0 {
        ZerosAdd(z, Text(n, 8, f.large));
        PlainRead(z + 1, n, 8, f.large, rest, m);
      } else {
        assert Body(n, f) == Text(n, b, f.large);
        PlainRead(z, n, b, f.large, rest, m);
      }
    }
  }

  // ---- base 0

  lemma {:induction false} EndsBefore(s: string, i: nat, b: nat, v: nat, m: nat, j: nat)
    requires m > 0 && i <= j <= |s| && !HasDigit(s, j, b)
    ensures Digits(s, i, b, v, m).1 <= j
    decreases j - i
  {
    if i < j && HasDigit(s, i, b) {
      EndsBefore(s, i + 1, b, Accumulate(v, b, DigitValue(s[i]), m), m, j);
    }
  }

  lemma SmallerStep(v: nat, n: nat, b: nat, c: nat)
    requires 0 < c < b <= n && v <= n / b
    ensures v * c + n % b < n
  {
    var q, r := n / b, n % b;
    OffDiv(n, 1, b);
    OffIsProduct(1, b);
    OffIsProduct(q, b);
    assert n == q * b + r && q > 0;
    TimesMono(v, q, c);
    TimesLess(q, c, b);
  }

  lemma TimesMono(v: nat, q: nat, c: nat)
    requires v <= q
    ensures v * c <= q * c
  {
  }

  lemma TimesLess(q: nat, c: nat, b: nat)
    requires q > 0 && c < b
    ensures q * c < q * b
  {
  }

  /** In a smaller base, digits stand for a smaller number, if there is more than one. */
  lemma {:induction false} SmallerBase(n: nat, b: nat, c: nat, large: bool)
    requires IsBase(b) && 0 < c < b && AllDigits(Text(n, b, large), c)
    ensures Value(Text(n, b, large), c) <= n
    ensures n >= b ==> Value(Text(n, b, large), c) < n
  {
    var s := Text(n, b, large);
    if n >= b {
      assert s[..|s| - 1] == Text(n / b, b, large);
      SmallerBase(n / b, b, c, large);
      SmallerStep(Value(Text(n / b, b, large), c), n, b, c);
    } else {
      assert s[..0] == "";
    }
  }

  /** A number of one digit is the same in every base that has the digit. */
  lemma OneDigit(n: nat, b: nat, c: nat, large: bool)
    requires IsBase(b) && n < b && n < c
    ensures AllDigits(Text(n, b, large), c) && Value(Text(n, b, large), c) == n
  {
    var s := Text(n, b, large);
    assert s[..0] == "";
  }

  lemma ReadInBase(z: nat, s: string, c: nat, rest: string, m: nat)
    requires m > 0 && c > 0 && Stops(rest)
    ensures var t := Zeros(z) + s;
            if AllDigits(s, c) then Digits(t + rest, 0, c, 0, m) == (Value(s, c) % m, |t|)
            else Digits(t + rest, 0, c, 0, m).1 < |t|
  {
    var t := Zeros(z) + s;
    if AllDigits(s, c) {
      ValueOfZeros(z, s, c);
      ReadRun("", t, rest, c, m);
      assert "" + t + rest == t + rest;
    } else {
      var i: nat :| i < |s| && !(IsAlnum(s[i]) && DigitValue(s[i]) < c);
      assert (t + rest)[z + i] == s[i];
      EndsBefore(t + rest, 0, c, 0, m, z + i);
    }
  }

  /** The digits of a number, taken for digits of another base, stand for that number again. */
  predicate Ambiguous(n: nat, b: nat, c: nat, large: bool, m: nat)
    requires m > 0 && IsBase(b)
  {
    AllDigits(Text(n, b, large), c) && Value(Text(n, b, large), c) % m == n % m
  }

  /**
   That is so for one digit, and as long as nothing wraps only for one digit, if the other base is
   smaller. Octal digits read as decimal ones may wrap; modulo 2^32 that is so for one digit only.
   */
  lemma AmbiguousIs(n: nat, b: nat, c: nat, large: bool, m: nat)
    requires n < m && IsBase(b) && IsBase(c) && b != c
    ensures n < Min(b, c) ==> Ambiguous(n, b, c, large, m)
    ensures c < b ==> (Ambiguous(n, b, c, large, m) <==> n < c)
    ensures b == 8 && c == 10 ==> (Ambiguous(n, b, c, large, m) <==> AsDecimal(n) % m == n)
    ensures b == 8 && c == 10 && (m == W32 || AsDecimal(n) < m) ==> (Ambiguous(n, b, c, large, m) <==> n < 8)
  {
    hide Text, Value, AllDigits;
    SmallMod(n, m);
    AsDecimalIs(n, large);
    SameModulo(n, m);
    if n < Min(b, c) {
      OneDigit(n, b, c, large);
    } else if c < b && AllDigits(Text(n, b, large), c) {
      SmallerBase(n, b, c, large);
      ManyDigits(n, b, c, large);
      SmallMod(Value(Text(n, b, large), c), m);
    }
  }

  lemma SmallMod(n: nat, m: nat)
    requires n < m
    ensures n % m == n
  {
    DivModUnique(0, n, m);
  }

  /** A number with only digits of a smaller base is less than that base, or has two digits. */
  lemma ManyDigits(n: nat, b: nat, c: nat, large: bool)
    requires IsBase(b) && c < b && AllDigits(Text(n, b, large), c)
    ensures n < c || n >= b
  {
    if n < b {
      assert Text(n, b, large)[0] == DigitChar(n, large);
    }
  }

  /** The base that base 0 takes a printed number to be in. */
  function Guessed(n: nat, f: Flags, z: nat): (b: nat)
    ensures IsBase(b)
  {
    if z == 0 && f.hex && f.alternate && n > 0 then 16
    else if z > 0 || n == 0 || (f.oct && !f.hex && f.alternate) then 8
    else 10
  }

  /**
   Read in base 0, with any flags and width: the number comes back, modulo what an unsigned long
   holds, if and only if it was not padded with spaces, nor with zeros before a prefix, and the
   base that the text suggests is the one it was printed in, or gives the same number.
   */
  lemma BaseZeroRoundTrip(n: nat, f: Flags, width: int, rest: string, m: nat)
    requires m > 0 && !f.signed && Stops(rest)
    ensures var s, z, b, c := Printed(n, f, width), Padding(n, f, width), Base(f), Guessed(n, f, Padding(n, f, width));
            Unsigned(s + rest, 0, m) == (n % m, |s|)
            <==> (z == 0 || (f.zero && !(f.hex && f.alternate && n > 0))) && (b == c || Ambiguous(n, b, c, f.large, m))
  {
    hide Text, Unsigned, Value, Body, Padding, AllDigits;
    var s, z, b := Printed(n, f, width), Padding(n, f, width), Base(f);
    if z > 0 && !f.zero {
      assert (s + rest)[0] == ' ';
      NotDigit(s + rest, m);
    } else {
      assert s == Zeros(z) + Body(n, f);
      if f.hex && f.alternate && n > 0 {
        if z > 0 {
          PrefixTooLate(z, n, f, rest, m);
          BodyLong(n, f);
        } else {
          assert s == Body(n, f);
          HexRead(n, f, rest, m);
        }
      } else {
        var y := if f.oct && !f.hex && f.alternate && n > 0 then z + 1 else z;
        BodyUnprefixed(z, y, n, f);
        UnprefixedRead(y, n, b, f.large, rest, m);
      }
    }
  }

  /** If nothing wraps, zero-padded decimals and unprefixed hexadecimals come back only if they have one digit in both bases. */
  lemma BaseZeroSmall(n: nat, f: Flags, width: int, rest: string, m: nat)
    requires n < m && !f.signed && Stops(rest)
    requires Guessed(n, f, Padding(n, f, width)) < Base(f) && (Padding(n, f, width) == 0 || f.zero) && !(f.hex && f.alternate && n > 0)
    ensures var s := Printed(n, f, width);
            Unsigned(s + rest, 0, m) == (n, |s|) <==> n < Guessed(n, f, Padding(n, f, width))
  {
    BaseZeroRoundTrip(n, f, width, rest, m);
    AmbiguousIs(n, Base(f), Guessed(n, f, Padding(n, f, width)), f.large, m);
    SmallMod(n, m);
  }

  /**
   So do octal ones without prefix and padding that are read into 32 bits, or into more without
   wrapping; where the decimal digits wrap, the number may come back by coincidence.
   */
  lemma BaseZeroOctal(n: nat, f: Flags, width: int, rest: string, m: nat)
    requires 0 < n < m && !f.signed && Stops(rest)
    requires f.oct && !f.hex && !f.alternate && Padding(n, f, width) == 0
    ensures var s := Printed(n, f, width);
            && (Unsigned(s + rest, 0, m) == (n, |s|) <==> AsDecimal(n) % m == n)
            && (m == W32 || AsDecimal(n) < m ==> (Unsigned(s + rest, 0, m) == (n, |s|) <==> n < 8))
            && (m == W64 && n < 0x200_0000_0000_0000 ==> (Unsigned(s + rest, 0, m) == (n, |s|) <==> n < 8))
  {
    hide Unsigned, Padding, Ambiguous, AsDecimal, Printed;
    BaseZeroRoundTrip(n, f, width, rest, m);
    AmbiguousIs(n, 8, 10, f.large, m);
    SmallMod(n, m);
    if n < 0x200_0000_0000_0000 {
      NineteenDigits(n);
    }
  }

  /** A number of 22 octal digits that comes back from a 64-bit reading, though its base is taken for 10. */
  lemma OctalCoincidence(f: Flags, rest: string)
    requires !f.signed && Stops(rest) && f.oct && !f.hex && !f.alternate
    ensures var n, s := 16454510724414655648, Printed(16454510724414655648, f, 0);
            Unsigned(s + rest, 0, W64) == (n, |s|) && Base(f) == 8 && Guessed(n, f, 0) == 10
  {
    hide Unsigned, AsDecimal, Printed, Body;
    var n := 16454510724414655648;
    BaseZeroOctal(n, f, 0, rest, W64);
    Coincidence();
    DivModUnique(87, n, W64);
  }

  lemma BodyLong(n: nat, f: Flags)
    requires f.hex && f.alternate && n > 0
    ensures |Body(n, f)| > 1
  {
  }

  lemma HexRead(n: nat, f: Flags, rest: string, m: nat)
    requires m > 0 && n > 0 && f.hex && f.alternate && Stops(rest)
    ensures Unsigned(Body(n, f) + rest, 0, m) == (n % m, |Body(n, f)|)
  {
    PrefixedRead(n, f, rest, m);
  }

  /** The prefix of octal is one more zero. */
  lemma BodyUnprefixed(z: nat, y: nat, n: nat, f: Flags)
    requires !(f.hex && f.alternate && n > 0) && y == if f.oct && !f.hex && f.alternate && n > 0 then z + 1 else z
    ensures Zeros(z) + Body(n, f) == Zeros(y) + Text(n, Base(f), f.large)
  {
    ZerosAdd(z, Text(n, Base(f), f.large));
    assert "" + Text(n, Base(f), f.large) == Text(n, Base(f), f.large);
  }

  lemma NotDigit(s: string, m: nat)
    requires m > 0 && s != "" && !IsAlnum(s[0])
    ensures Unsigned(s, 0, m).1 == 0
  {
  }

  /** Without a prefix, a leading zero alone decides. */
  lemma UnprefixedRead(z: nat, n: nat, b: nat, large: bool, rest: string, m: nat)
    requires m > 0 && IsBase(b) && Stops(rest)
    ensures var s, c := Text(n, b, large), if z > 0 || n == 0 then 8 else 10;
            Unsigned(Zeros(z) + s + rest, 0, m) == (n % m, z + |s|) <==> b == c || Ambiguous(n, b, c, large, m)
  {
    hide Text, Digits, Value, Unsigned, HexPrefix, AllDigits, Zeros;
    var s, c := Text(n, b, large), if z > 0 || n == 0 then 8 else 10;
    var t := Zeros(z) + s;
    PlainRead(z, n, b, large, rest, m);
    FirstChar(z, n, b, large);
    assert CharAt(t + rest, 0) == t[0];
    GuessedRead(t + rest, m);
    ReadInBase(z, s, c, rest, m);
    if b == c {
      ValueOfText(n, b, large);
    }
  }

  lemma GuessedRead(s: string, m: nat)
    requires m > 0 && !HexPrefix(s)
    ensures Unsigned(s, 0, m) == Digits(s, 0, if CharAt(s, 0) == '0' then 8 else 10, 0, m)
  {
  }

  lemma FirstChar(z: nat, n: nat, b: nat, large: bool)
    requires IsBase(b)
    ensures (Zeros(z) + Text(n, b, large))[0] == '0' <==> z > 0 || n == 0
  {
    TextIsDigits(n, b, large);
    ZeroText(b, large);
  }

  lemma ZeroText(b: nat, large: bool)
    requires IsBase(b)
    ensures Text(0, b, large) == "0"
  {
  }

  lemma ModIs(x: int, q: int, r: nat, m: nat)
    requires r < m && x == q * m + r
    ensures x % m == r
  {
    var d := x / m - q;
    assert d > 0 ==> d * m >= m;
    assert d < 0 ==> d * m <= -1 * m;
    assert d * m == r - x % m;
  }

  /** Negating the remainder of the magnitude gives the remainder. */
  lemma ModOfNegative(n: nat, m: nat)
    requires m > 0
    ensures (-1 * (n % m) as int) % m == (-1 * n as int) % m
  {
    var q, r: int := n / m, n % m;
    var x: int := -1 * n;
    if r == 0 {
      ModIs(x, -q, 0, m);
      ModIs(0, 0, 0, m);
    } else {
      ModIs(x, -q - 1, m - r, m);
      ModIs(-r, -1, m - r, m);
    }
  }

  /** What a long can hold survives. */
  lemma FitsInLong(n: int, m: nat)
    requires m > 0 && m % 2 == 0 && -1 * m as int <= 2 * n < m
    ensures ToSigned(n % m, m) == n
  {
    if n < 0 {
      ModIs(n, -1, n + m, m);
    } else {
      ModIs(n, 0, n, m);
    }
  }

  /**
   %d and %lld with any flags and width, read by lib_strtol in base 10: the number comes back, in
   two's complement as wide as a long, and reading stops right behind it - unless the number was
   padded with spaces, or a plus or a space stands for its sign.
   */
  lemma SignedRoundTrip(n: int, f: Flags, width: int, rest: string, m: nat)
    requires m > 0 && f.signed && !f.hex && !f.oct && Stops(rest)
    ensures var s := Printed(n, f, width);
            Signed(s + rest, 10, m) == (ToSigned(n % m, m), |s|)
            <==> (Padding(n, f, width) == 0 || f.zero) && !(n >= 0 && (f.space || f.plus))
  {
    hide Text, Unsigned, Body, Padding, ToSigned, Stops, Magnitude;
    var s, z := Printed(n, f, width), Padding(n, f, width);
    BodyIsText(n, f);
    if z > 0 && !f.zero {
      NotRead(s + rest, 10, m);
    } else if n >= 0 && (f.space || f.plus) {
      NotRead(s + rest, 10, m);
    } else {
      var t := Zeros(z) + Text(Magnitude(n), 10, f.large);
      if n < 0 {
        assert s == "-" + t;
        assert s + rest == "-" + (t + rest);
        NegativeRead(n, z, f.large, rest, m);
      } else {
        assert s == t;
        PositiveRead(n, z, f.large, rest, m);
      }
    }
  }

  lemma BodyIsText(n: int, f: Flags)
    requires Base(f) == 10
    ensures Body(n, f) == Text(Magnitude(n), 10, f.large) && (n < 0 ==> Magnitude(n) == -n) && (n >= 0 ==> Magnitude(n) == n)
  {
  }

  lemma NegativeRead(n: int, z: nat, large: bool, rest: string, m: nat)
    requires m > 0 && n < 0 && Stops(rest)
    ensures var t := Zeros(z) + Text(-n, 10, large);
            Signed("-" + (t + rest), 10, m) == (ToSigned(n % m, m), |t| + 1)
  {
    hide Text, Unsigned, Stops, Zeros;
    var t := Zeros(z) + Text(-n, 10, large);
    assert ("-" + (t + rest))[1..] == t + rest;
    PlainRead(z, -n, 10, large, rest, m);
    ModOfNegative(-n, m);
  }

  lemma PositiveRead(n: nat, z: nat, large: bool, rest: string, m: nat)
    requires m > 0 && Stops(rest)
    ensures var t := Zeros(z) + Text(n, 10, large);
            Signed(t + rest, 10, m) == (ToSigned(n % m, m), |t|)
  {
    hide Text, Unsigned, Stops, Zeros;
    var t := Zeros(z) + Text(n, 10, large);
    PlainRead(z, n, 10, large, rest, m);
    assert t[0] != '-';
    ModIs(n % m, 0, n % m, m);
  }

  lemma NotRead(s: string, b: nat, m: nat)
    requires m > 0 && s != "" && !IsAlnum(s[0]) && s[0] != '-'
    ensures Signed(s, b, m).1 == 0
  {
  }
}
