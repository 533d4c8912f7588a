/** Reading numbers: lib_strtoul and lib_strtol, where an unsigned long holds the values below `m`. */
module Strtoul {
  import opened Bytes

  predicate IsDigit(c: char) {
    '0' <= c <= '9'
  }

  predicate IsAlpha(c: char) {
    'a' <= c <= 'z' || 'A' <= c <= 'Z'
  }

  predicate IsAlnum(c: char) {
    IsDigit(c) || IsAlpha(c)
  }

  /** What a character counts for: digits, then letters of either case from ten on. */
  function DigitValue(c: char): (d: nat)
    requires IsAlnum(c)
    ensures d < 36
  {
    if IsDigit(c) then c as int - '0' as int
    else if c <= 'Z' then c as int - 'A' as int + 10
    else c as int - 'a' as int + 10
  }

  /** The characters of a C string; past the end there is the terminator. */
  function CharAt(s: string, i: nat): (c: char)
  {
    if i < |s| then s[i] else '\0'
  }

  predicate HasDigit(s: string, i: nat, base: nat) {
    IsAlnum(CharAt(s, i)) && DigitValue(CharAt(s, i)) < base
  }

  function Accumulate(v: nat, base: nat, d: nat, m: nat): (v': nat)
    requires m > 0
    ensures v' < m
  {
    (v * base + d) % m
  }

  /** Reads digits from `i` on; gives the value and where it stopped. */
  function Digits(s: string, i: nat, base: nat, v: nat, m: nat): (r: (nat, nat))
    requires m > 0 && i <= |s|
    decreases |s| - i
  {
    if i < |s| && HasDigit(s, i, base)
    then Digits(s, i + 1, base, Accumulate(v, base, DigitValue(s[i]), m), m)
    else (v, i)
  }

  /** A leading 0x, which counts only for bases 16 and 0. */
  predicate HexPrefix(s: string) {
    CharAt(s, 0) == '0' && (CharAt(s, 1) == 'x' || CharAt(s, 1) == 'X')
  }

  function Unsigned(s: string, base: nat, m: nat): (r: (nat, nat))
    requires m > 0
  {
    if (base == 16 || base == 0) && HexPrefix(s) then Digits(s, 2, 16, 0, m)
    else if base == 0 && CharAt(s, 0) == '0' then Digits(s, 0, 8, 0, m)
    else if base == 0 then Digits(s, 0, 10, 0, m)
    else Digits(s, 0, base, 0, m)
  }

  /** Two's complement reading of an unsigned long. */
  function ToSigned(v: nat, m: nat): (n: int)
    requires v < m
  {
    if 2 * v < m then v else v - m
  }

  function Signed(s: string, base: nat, m: nat): (r: (int, nat))
    requires m > 0
  {
    if CharAt(s, 0) == '-' then
      var (v, end) := Unsigned(s[1..], base, m);
      (ToSigned((-1 * v as int) % m, m), end + 1)
    else
      var (v, end) := Unsigned(s, base, m);
      (ToSigned(v % m, m), end)
  }

  /** lib_strtoul */
  method StrToUl(s: string, base: nat, m: nat) returns (v: nat, end: nat)
    requires m > 0
    ensures (v, end) == Unsigned(s, base, m)
    ensures end <= |s| && v < m
  {
    hide Accumulate, DigitValue;
    var nptr, b := 0, base;
    v := 0;
    if (base == 16 || base == 0) && HexPrefix(s) {
      b := 16;
      nptr := 2;
    } else if base == 0 && CharAt(s, 0) == '0' {
      b := 8;
    } else if base == 0 {
      b := 10;
    }
    while nptr < |s| && HasDigit(s, nptr, b)
      invariant nptr <= |s| && v < m
      invariant Digits(s, nptr, b, v, m) == Unsigned(s, base, m)
    {
      v := Accumulate(v, b, DigitValue(s[nptr]), m);
      nptr := nptr + 1;
    }
    end := nptr;
  }

  /** lib_strtol */
  method StrToL(s: string, base: nat, m: nat) returns (n: int, end: nat)
    requires m > 0
    ensures (n, end) == Signed(s, base, m)
  {
    var sign, at := 1, 0;
    if CharAt(s, 0) == '-' {
      sign := -1;
      at := 1;
    }
    var v, e := StrToUl(s[at..], base, m);
    assert s[0..] == s;
    n := ToSigned(sign * v % m, m);
    end := at + e;
  }
}
