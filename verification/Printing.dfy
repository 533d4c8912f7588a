/** What a printed number looks like: field width, sign, letter case, and texts that anyone can check. */
module Printing {
  import opened Bytes
  import opened Words
  import opened Strtoul
  import opened NumText
  import opened Format

  /** The characters in front of the zeros of a zero-padded number: its sign, if one is shown. */
  function SignLength(n: int, f: Flags): (g: nat)
  {
    if f.signed && (n < 0 || f.space || f.plus) then 1 else 0
  }

  /** Without a width there is no padding; with one, what is missing is put in front, zeros behind the sign. */
  lemma FieldWidth(n: int, f: Flags, width: int)
    ensures var s, u, g := Printed(n, f, width), Printed(n, f, 0), SignLength(n, f);
            && 1 <= |u| && g < |u|
            && Padding(n, f, width) == (if width > |u| then width - |u| else 0)
            && if width <= |u| then s == u
               else if f.zero then s == u[..g] + Zeros(width - |u|) + u[g..]
               else s == Spaces(width - |u|) + u
  {
    hide Text;
    var u := Printed(n, f, 0);
    assert u == Sign(n, f) + Body(n, f);
    assert |Sign(n, f)| == SignLength(n, f);
  }

  /** The sign: minus exactly for negative numbers; else a space if asked for, else a plus if asked for, else none. */
  lemma SignShown(n: int, f: Flags)
    ensures var u := Printed(n, f, 0);
            && u != ""
            && (u[0] == '-' <==> f.signed && n < 0)
            && (u[0] == ' ' <==> f.signed && n >= 0 && f.space)
            && (u[0] == '+' <==> f.signed && n >= 0 && f.plus && !f.space)
            && forall i :: SignLength(n, f) <= i < |u| ==> IsAlnum(u[i])
  {
    var u := Printed(n, f, 0);
    assert u == Sign(n, f) + Body(n, f);
    BodyAlnum(n, f);
    hide Body;
    assert forall i :: SignLength(n, f) <= i < |u| ==> u[i] == Body(n, f)[i - |Sign(n, f)|];
    BodyLong(n, f);
    assert Body(n, f)[0] in Body(n, f) && IsAlnum(Body(n, f)[0]);
    if SignLength(n, f) == 0 {
      assert Sign(n, f) == "" && u[0] == Body(n, f)[0];
    } else {
      assert u[0] == Sign(n, f)[0];
    }
  }

  lemma BodyLong(n: int, f: Flags)
    ensures Body(n, f) != ""
  {
    hide Text;
  }

  lemma BodyAlnum(n: int, f: Flags)
    ensures forall c :: c in Body(n, f) ==> IsAlnum(c)
    ensures forall c :: c in Body(n, f) ==> if f.large then !('a' <= c <= 'z') else !('A' <= c <= 'Z')
  {
    TextCase(Magnitude(n), Base(f), f.large);
  }

  lemma {:induction false} TextCase(n: nat, b: nat, large: bool)
    requires IsBase(b)
    ensures forall c :: c in Text(n, b, large) ==> IsAlnum(c)
    ensures forall c :: c in Text(n, b, large) ==> if large then !('a' <= c <= 'z') else !('A' <= c <= 'Z')
  {
    if n >= b {
      TextCase(n / b, b, large);
    }
  }

  /** %X has no small letter and %x no capital one, the prefix included. */
  lemma LetterCase(n: int, f: Flags, width: int)
    ensures forall c :: c in Printed(n, f, width) ==> if f.large then !('a' <= c <= 'z') else !('A' <= c <= 'Z')
  {
    hide Body;
    BodyAlnum(n, f);
  }

  const U := Flags(false, false, false, false, false, false, false, false, false)
  const D := U.(signed := true)
  const X := U.(hex := true)
  const O := U.(oct := true)

  lemma TwoDigits(n: nat, b: nat, large: bool)
    requires IsBase(b) && b <= n < b * b
    ensures n / b < b && n % b < b && Text(n, b, large) == [DigitChar(n / b, large)] + [DigitChar(n % b, large)]
  {
    assert n / b < b;
  }

  /** %u, %x, %X, %#x, %#X, %o, %#o without a width. */
  lemma UnsignedExamples()
    ensures Printed(42, U, 0) == "42" && Printed(0, X.(alternate := true), 0) == "0"
    ensures Printed(171, X, 0) == "ab" && Printed(171, X.(large := true), 0) == "AB"
    ensures Printed(171, X.(alternate := true), 0) == "0xab" && Printed(171, X.(alternate := true, large := true), 0) == "0XAB"
    ensures Printed(42, O, 0) == "52" && Printed(42, O.(alternate := true), 0) == "052"
  {
    TwoDigits(42, 10, false);
    TwoDigits(171, 16, false);
    TwoDigits(171, 16, true);
    TwoDigits(42, 8, false);
  }

  /** %d, %+d, "% d", "%+ d", %5d and %05d. */
  lemma SignedExamples()
    ensures Printed(-42, D, 0) == "-42" && Printed(42, D, 0) == "42"
    ensures Printed(42, D.(plus := true), 0) == "+42" && Printed(42, D.(space := true), 0) == " 42"
    ensures Printed(42, D.(plus := true, space := true), 0) == " 42" && Printed(-42, D.(plus := true), 0) == "-42"
    ensures Printed(-42, D, 5) == "  -42" && Printed(-42, D.(zero := true), 5) == "-0042" && Printed(-42, D, 2) == "-42"
  {
    TwoDigits(42, 10, false);
    FieldWidth(-42, D, 5);
    FieldWidth(-42, D.(zero := true), 5);
    FieldWidth(-42, D, 2);
    assert Spaces(2) == "  " && Zeros(2) == "00";
  }

  /** lib_strtoul into 32 bits, where the base is given: decimal, and hexadecimal in both cases, and where it stops. */
  lemma ReadExamples()
    ensures Unsigned("42", 10, W32) == (42, 2) && Unsigned("4-", 10, W32) == (4, 1) && Unsigned("", 10, W32) == (0, 0)
    ensures Unsigned("aB", 16, W32) == (171, 2) && Unsigned("Zz", 36, W32) == (1295, 2) && Unsigned("0x4", 10, W32) == (0, 1)
  {
  }

  /** And where it is found from a prefix. */
  lemma PrefixExamples()
    ensures Unsigned("42", 0, W32) == (42, 2) && Unsigned("052", 0, W32) == (42, 3) && Unsigned("09", 0, W32) == (0, 1)
    ensures Unsigned("0xaB", 16, W32) == (171, 4) && Unsigned("0XaB", 0, W32) == (171, 4) && Unsigned("0x", 16, W32) == (0, 2)
  {
    hide Digits, Accumulate;
    LastTwo("42", 0, 10, '4', '2');
    LastTwo("052", 1, 8, '5', '2');
    OneDigit("052", 0, 8, 0);
    OneDigit("09", 0, 8, 0);
    NoDigit("09", 1, 8, 0);
    LastTwo("0xaB", 2, 16, 'a', 'B');
    LastTwo("0XaB", 2, 16, 'a', 'B');
    NoDigit("0x", 2, 16, 0);
  }

  lemma OneDigit(s: string, i: nat, b: nat, v: nat)
    requires i < |s| && IsAlnum(s[i]) && DigitValue(s[i]) < b <= 16 && v < 16
    ensures Digits(s, i, b, v, W32) == Digits(s, i + 1, b, v * b + DigitValue(s[i]), W32)
  {
    SmallProduct(v, b, DigitValue(s[i]));
    DivModUnique(0, v * b + DigitValue(s[i]), W32);
    hide DigitValue;
  }

  lemma SmallProduct(v: nat, b: nat, d: nat)
    requires v < 16 && b <= 16 && d < 16
    ensures v * b + d < W32
  {
    assert v * b <= 16 * b;
  }

  lemma NoDigit(s: string, i: nat, b: nat, v: nat)
    requires i <= |s| && !HasDigit(s, i, b)
    ensures Digits(s, i, b, v, W32) == (v, i)
  {
  }

  /** The last two characters. */
  lemma LastTwo(s: string, i: nat, b: nat, c: char, d: char)
    requires |s| == i + 2 && s[i] == c && s[i + 1] == d && IsAlnum(c) && IsAlnum(d) && DigitValue(c) < b && DigitValue(d) < b <= 16
    ensures Digits(s, i, b, 0, W32) == (DigitValue(c) * b + DigitValue(d), i + 2)
  {
    hide Digits, DigitValue;
    OneDigit(s, i, b, 0);
    OneDigit(s, i + 1, b, DigitValue(c));
    NoDigit(s, i + 2, b, DigitValue(c) * b + DigitValue(d));
  }

  lemma SignExamples()
    ensures Signed("-42", 10, W32) == (-42, 3) && Signed("42", 10, W32) == (42, 2) && Signed("+4", 10, W32) == (0, 0)
  {
    ReadExamples();
    assert "-42"[1..] == "42";
  }
}
