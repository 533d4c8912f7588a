/** Circular buffers: the entries of a window that may wrap, and what copying into it or out of it does. */
module Ring {
  import opened Bytes

  /** Position `x` of a ring of `n`, for positions less than two rounds on. */
  function Wrap(x: nat, n: nat): (r: nat)
    requires x < 2 * n
    ensures r < n
  {
    if x < n then x else x - n
  }

  /** The C code wraps with a remainder. */
  lemma WrapIsRemainder(x: nat, n: nat)
    requires x < 2 * n
    ensures Wrap(x, n) == x % n
  {
    if x >= n {
      DivModUnique(1, x - n, n);
    } else {
      DivModUnique(0, x, n);
    }
  }

  /** `x % n` */
  function Rem(x: nat, n: nat): (r: nat)
    requires x < 2 * n
    ensures r == Wrap(x, n)
  {
    WrapIsRemainder(x, n);
    x % n
  }

  /** The `n` entries from `start` on. */
  function Window<T>(buf: seq<T>, start: nat, n: nat): (w: seq<T>)
    requires start < |buf| && n <= |buf|
    ensures |w| == n
  {
    seq(n, i requires 0 <= i < n => buf[Wrap(start + i, |buf|)])
  }

  lemma At<T>(buf: seq<T>, start: nat, n: nat, i: nat)
    requires start < |buf| && n <= |buf| && i < n
    ensures Window(buf, start, n)[i] == buf[Wrap(start + i, |buf|)]
  {
  }

  lemma First<T>(buf: seq<T>, start: nat, n: nat)
    requires start < |buf| && 0 < n <= |buf|
    ensures Window(buf, start, n)[0] == buf[start]
  {
    At(buf, start, n, 0);
  }

  /** How far `to` is ahead of `from`, less than a round. */
  function Distance(from: nat, to: nat, n: nat): (d: nat)
    requires from < n && to < n
    ensures d < n && Wrap(from + d, n) == to
  {
    if from <= to then to - from else to + n - from
  }

  /** Entries from `head` to `tail`, which meet in a full ring and in an empty one. */
  function Count(head: nat, tail: nat, full: bool, size: nat): (n: nat)
    requires head < size && tail < size
    ensures n <= size && (n == 0 <==> head == tail && !full) && (n == size <==> full)
    ensures !full ==> n == Distance(head, tail, size)
  {
    if full then size else Distance(head, tail, size)
  }

  lemma CountWrite(head: nat, tail: nat, size: nat, n: nat)
    requires head < size && tail < size && 0 < n && Count(head, tail, false, size) + n <= size
    ensures var tail' := Wrap(tail + n, size);
            Count(head, tail', tail' == head, size) == Count(head, tail, false, size) + n
  {
  }

  lemma CountRead(head: nat, tail: nat, full: bool, size: nat, n: nat)
    requires head < size && tail < size && (full ==> head == tail) && 0 < n <= Count(head, tail, full, size)
    ensures Count(Wrap(head + n, size), tail, false, size) == Count(head, tail, full, size) - n
  {
  }

  lemma TwoPieces<T>(buf: seq<T>, at: nat, x: seq<T>, k: nat)
    requires k <= |x| <= |buf| && at + k <= |buf|
    ensures forall p {:trigger Splice(Splice(buf, at, x[..k]), 0, x[k..])[p]} :: 0 <= p < |buf| ==>
              Splice(Splice(buf, at, x[..k]), 0, x[k..])[p]
              == if p < |x| - k then x[k + p] else if at <= p < at + k then x[p - at] else buf[p]
  {
  }

  /** Copying `x` behind the window in up to two pieces appends it. */
  lemma Append<T>(buf: seq<T>, buf': seq<T>, start: nat, n: nat, x: seq<T>)
    requires start < |buf| == |buf'| && n + |x| <= |buf|
    requires var at := Wrap(start + n, |buf|);
             var k := Min(|x|, |buf| - at);
             buf' == Splice(Splice(buf, at, x[..k]), 0, x[k..])
    ensures Window(buf', start, n + |x|) == Window(buf, start, n) + x
  {
    hide Window, Splice;
    var at := Wrap(start + n, |buf|);
    var k := Min(|x|, |buf| - at);
    TwoPieces(buf, at, x, k);
    var l, r := Window(buf', start, n + |x|), Window(buf, start, n) + x;
    forall i | 0 <= i < n + |x| ensures l[i] == r[i] {
      At(buf', start, n + |x|, i);
      if i < n {
        At(buf, start, n, i);
      }
    }
  }

  /** The first `k` entries are a run up to the end of the buffer and a run from its start. */
  lemma Prefix<T>(buf: seq<T>, start: nat, n: nat, k: nat)
    requires start < |buf| && k <= n <= |buf|
    ensures Window(buf, start, n)[..k]
            == if start + k <= |buf| then buf[start..start + k] else buf[start..] + buf[..start + k - |buf|]
  {
    var l := Window(buf, start, n)[..k];
    var r := if start + k <= |buf| then buf[start..start + k] else buf[start..] + buf[..start + k - |buf|];
    forall i | 0 <= i < k ensures l[i] == r[i] {
      assert l[i] == buf[Wrap(start + i, |buf|)];
    }
  }

  /** Dropping the first `k` entries moves the start. */
  lemma Drop<T>(buf: seq<T>, start: nat, n: nat, k: nat)
    requires start < |buf| && k <= n <= |buf|
    ensures Window(buf, Wrap(start + k, |buf|), n - k) == Window(buf, start, n)[k..]
  {
    var at := Wrap(start + k, |buf|);
    var l, r := Window(buf, at, n - k), Window(buf, start, n)[k..];
    forall i | 0 <= i < n - k ensures l[i] == r[i] {
      assert Wrap(at + i, |buf|) == Wrap(start + (k + i), |buf|);
      assert r[i] == Window(buf, start, n)[k + i];
    }
  }

  /** The copying both ring writers do: up to `head`, in two pieces when the free part wraps. */
  method CopyIn<T>(buf: array<T>, head: nat, tail: nat, src: seq<T>) returns (n: nat)
    requires head < buf.Length && tail < buf.Length
    modifies buf
    ensures n == Min(|src|, buf.Length - Distance(head, tail, buf.Length))
    ensures Window(buf[..], head, Distance(head, tail, buf.Length) + n)
            == old(Window(buf[..], head, Distance(head, tail, buf.Length))) + src[..n]
  {
    hide Window, Splice;
    ghost var was := buf[..];
    if head > tail {
      n := Min(|src|, head - tail);
      MemCpy(buf, tail, src[..n]);
      SpliceNothing(buf[..]);
      assert src[..n][n..] == [] && src[..n][..n] == src[..n];
    } else {
      var k := Min(|src|, buf.Length - tail);
      MemCpy(buf, tail, src[..k]);
      SpliceNothing(buf[..]);
      n := k;
      if k < |src| {
        var m := Min(|src| - k, head);
        MemCpy(buf, 0, src[k..k + m]);
        n := k + m;
      }
      assert src[..n][..k] == src[..k] && src[..n][k..] == src[k..n];
    }
    Append(was, buf[..], head, Distance(head, tail, buf.Length), src[..n]);
  }

  lemma SpliceOne<T>(s: seq<T>, at: nat, x: T)
    requires at < |s|
    ensures Splice(s, at, [x]) == s[at := x]
  {
  }

  lemma SpliceNothing<T>(s: seq<T>)
    ensures Splice(s, 0, []) == s
  {
  }

  /** The copying both ring readers do, of up to `sz` entries from `head` to `tail`, which do not meet in an empty ring. */
  method CopyOut<T>(buf: array<T>, head: nat, tail: nat, sz: nat) returns (out: seq<T>)
    requires head < buf.Length && tail < buf.Length
    ensures var count := if head == tail then buf.Length else Distance(head, tail, buf.Length);
            out == Window(buf[..], head, count)[..Min(sz, count)]
  {
    var n;
    if tail > head {
      n := Min(sz, tail - head);
      out := buf[..][head..head + n];
    } else {
      n := Min(sz, buf.Length - head);
      out := buf[..][head..head + n];
      if n < sz {
        var m := Min(sz - n, tail);
        out := out + buf[..][..m];
        n := n + m;
      }
    }
    Prefix(buf[..], head, if head == tail then buf.Length else Distance(head, tail, buf.Length), n);
  }
}
