/** The text of a number in a base, most significant digit first, and what reading it back gives. */
module NumText {
  import opened Bytes
  import opened Strtoul

  predicate IsBase(b: nat) {
    b == 8 || b == 10 || b == 16
  }

  function DigitChar(d: nat, large: bool): (c: char)
    requires d < 16
    ensures IsAlnum(c) && DigitValue(c) == d && (c == '0' <==> d == 0)
  {
    (if large then "0123456789ABCDEF" else "0123456789abcdef")[d]
  }

  function Text(n: nat, b: nat, large: bool): (s: string)
    requires IsBase(b)
    ensures s != ""
  {
    if n < b then [DigitChar(n, large)] else Text(n / b, b, large) + [DigitChar(n % b, large)]
  }

  predicate AllDigits(s: string, b: nat) {
    forall i :: 0 <= i < |s| ==> IsAlnum(s[i]) && DigitValue(s[i]) < b
  }

  lemma {:induction false} TextIsDigits(n: nat, b: nat, large: bool)
    requires IsBase(b)
    ensures AllDigits(Text(n, b, large), b)
    ensures n > 0 ==> Text(n, b, large)[0] != '0'
  {
    hide DigitChar;
    if n >= b {
      TextIsDigits(n / b, b, large);
    }
  }

  function Zeros(z: nat): (s: string)
    ensures |s| == z && forall i :: 0 <= i < z ==> s[i] == '0'
  {
    Fill(z, '0')
  }

  /** Where reading stops: the end, or a character that is neither digit nor letter. */
  predicate Stops(rest: string) {
    rest == "" || !IsAlnum(rest[0])
  }

  /** The number that a run of digits stands for. */
  function Value(s: string, b: nat): (n: nat)
    requires AllDigits(s, b)
  {
    if s == "" then 0 else Value(s[..|s| - 1], b) * b + DigitValue(s[|s| - 1])
  }

  lemma {:induction false} ValueOfText(n: nat, b: nat, large: bool)
    requires IsBase(b)
    ensures AllDigits(Text(n, b, large), b) && Value(Text(n, b, large), b) == n
  {
    TextIsDigits(n, b, large);
    var s := Text(n, b, large);
    if n >= b {
      ValueOfText(n / b, b, large);
      assert s[..|s| - 1] == Text(n / b, b, large);
    } else {
      assert s[..0] == "";
    }
  }

  lemma {:induction false} ValueOfZeros(z: nat, s: string, b: nat)
    requires AllDigits(s, b) && b > 0
    ensures AllDigits(Zeros(z) + s, b) && Value(Zeros(z) + s, b) == Value(s, b)
    decreases |s| + z
  {
    var t := Zeros(z) + s;
    if s != "" {
      ValueOfZeros(z, s[..|s| - 1], b);
      assert t[..|t| - 1] == Zeros(z) + s[..|s| - 1];
    } else if z > 0 {
      ValueOfZeros(z - 1, s, b);
      assert t[..z - 1] == Zeros(z - 1) + s;
    }
  }

  lemma ModStep(x: nat, b: nat, d: nat, m: nat)
    requires m > 0
    ensures Accumulate(x % m, b, d, m) == (x * b + d) % m
  {
    var q, r := x / m, x % m;
    var y := r * b + d;
    assert x * b + d == (q * b) * m + y;
    AddMultiple(q * b, y, m);
  }

  /** Reading from `i` on takes in all digits up to `j`. */
  lemma {:induction false} DigitsRead(s: string, i: nat, j: nat, b: nat, m: nat)
    requires m > 0 && i <= j <= |s| && AllDigits(s[i..j], b)
    ensures Digits(s, i, b, 0, m) == Digits(s, j, b, Value(s[i..j], b) % m, m)
    decreases j
  {
    if i < j {
      hide Accumulate;
      var t := s[i..j];
      assert t[..|t| - 1] == s[i..j - 1] && t[|t| - 1] == s[j - 1];
      DigitsRead(s, i, j - 1, b, m);
      ModStep(Value(s[i..j - 1], b), b, DigitValue(s[j - 1]), m);
    } else {
      assert s[i..j] == "";
    }
  }

  /** Nor a digit of the base. */
  predicate StopsAt(rest: string, b: nat) {
    Stops(rest) || DigitValue(rest[0]) >= b
  }

  /** A run of digits is read to its end, as the number it stands for. */
  lemma ReadRun(head: string, t: string, rest: string, b: nat, m: nat)
    requires m > 0 && AllDigits(t, b) && StopsAt(rest, b)
    ensures Digits(head + t + rest, |head|, b, 0, m) == (Value(t, b) % m, |head| + |t|)
  {
    var s, j := head + t + rest, |head| + |t|;
    assert s[|head|..j] == t;
    DigitsRead(s, |head|, j, b, m);
    assert CharAt(s, j) == CharAt(rest, 0);
  }

  /** Zeros and the text of a number read back as the number, modulo the width of an unsigned long. */
  lemma ReadText(head: string, z: nat, n: nat, b: nat, large: bool, rest: string, m: nat)
    requires m > 0 && IsBase(b) && Stops(rest)
    ensures var t := Zeros(z) + Text(n, b, large);
            Digits(head + t + rest, |head|, b, 0, m) == (n % m, |head| + |t|)
  {
    ValueOfText(n, b, large);
    ValueOfZeros(z, Text(n, b, large), b);
    ReadRun(head, Zeros(z) + Text(n, b, large), rest, b, m);
  }
}
