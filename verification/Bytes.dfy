/** Byte buffers: the block copy every driver is built from, and the error codes they return. */
module Bytes {

  type Byte = b: int | 0 <= b < 256

  const EOK := 0
  const EIO := -5
  const ENXIO := -6
  const EFAULT := -14
  const ENODEV := -19
  const EINVAL := -22
  const ENOSPC := -28

  function Min(a: nat, b: nat): (m: nat)
  {
    if a <= b then a else b
  }

  function Max(a: nat, b: nat): (m: nat)
  {
    if a >= b then a else b
  }

  function Fill<T>(n: nat, x: T): (s: seq<T>)
  {
    seq(n, _ => x)
  }

  /** `dst` with the elements from `at` on overwritten by `src`. */
  function Splice<T>(dst: seq<T>, at: nat, src: seq<T>): (r: seq<T>)
    requires at + |src| <= |dst|
    ensures |r| == |dst|
    ensures forall i :: 0 <= i < |dst| ==> r[i] == if at <= i < at + |src| then src[i - at] else dst[i]
  {
    dst[..at] + src + dst[at + |src|..]
  }

  /** hal_memcpy into a buffer. */
  method MemCpy<T>(dst: array<T>, at: nat, src: seq<T>)
    requires at + |src| <= dst.Length
    modifies dst
    ensures dst[..] == Splice(old(dst[..]), at, src)
  {
    forall i | 0 <= i < |src| {
      dst[at + i] := src[i];
    }
  }

  /** Two copies that touch are one copy. */
  lemma SpliceTwice<T>(dst: seq<T>, at: nat, a: seq<T>, b: seq<T>)
    requires at + |a| + |b| <= |dst|
    ensures Splice(Splice(dst, at, a), at + |a|, b) == Splice(dst, at, a + b)
  {
  }

  lemma SubSlice<T>(s: seq<T>, at: nat, n: nat, off: nat, len: nat)
    requires at + n <= |s| && off + len <= n
    ensures s[at..at + n][off..off + len] == s[at + off..at + off + len]
  {
    var t := s[at..at + n];
    assert forall k :: off <= k < off + len ==> t[k] == s[at + k];
  }

  /** `i` times `n`: where element `i` of size `n` starts. Repeated addition, which keeps proofs linear. */
  function Off(i: nat, n: nat): (r: nat)
  {
    if i == 0 then 0 else Off(i - 1, n) + n
  }

  lemma OffNext(i: nat, n: nat)
    ensures Off(i + 1, n) == Off(i, n) + n
  {
  }

  lemma {:induction false} OffIsProduct(i: nat, n: nat)
    ensures Off(i, n) == i * n
  {
    if i > 0 {
      OffIsProduct(i - 1, n);
      assert i * n == (i - 1) * n + n;
    }
  }

  lemma {:induction false} OffMono(i: nat, j: nat, n: nat)
    requires i <= j
    ensures Off(i, n) <= Off(j, n)
    ensures i < j ==> Off(i, n) + n <= Off(j, n)
    decreases j - i
  {
    if i < j {
      OffMono(i + 1, j, n);
      assert Off(i + 1, n) == Off(i, n) + n;
    }
  }

  /** Division undoes `Off`. */
  lemma OffDiv(x: nat, j: nat, n: nat)
    requires n > 0
    ensures Off(x / n, n) + x % n == x
    ensures x / n < j <==> x < Off(j, n)
  {
    OffIsProduct(x / n, n);
    if x / n < j {
      OffMono(x / n, j, n);
    } else {
      OffMono(j, x / n, n);
    }
  }

  lemma DivModUnique(q: nat, r: nat, n: nat)
    requires r < n
    ensures (q * n + r) / n == q && (q * n + r) % n == r
  {
    OffIsProduct(q, n);
    var x := q * n + r;
    OffDiv(x, q, n);
    OffDiv(x, q + 1, n);
  }

  lemma AddMultiple(k: nat, y: nat, m: nat)
    requires m > 0
    ensures (k * m + y) % m == y % m
  {
    var q, r := y / m, y % m;
    assert k * m + y == (k + q) * m + r;
    DivModUnique(k + q, r, m);
  }
}
