/** The sequential circular buffer: bulk operations on a queue of bounded length. */
module CBuffer {
  import opened Bytes
  import opened Ring

  // ---- the queue, byte by byte

  /** Pushes bytes until one is refused. */
  function Push(q: seq<Byte>, capacity: nat, data: seq<Byte>): (r: (seq<Byte>, nat))
    decreases |data|
  {
    if data == [] || |q| >= capacity then (q, 0)
    else
      var (q', n) := Push(q + [data[0]], capacity, data[1..]);
      (q', n + 1)
  }

  /** Pops up to `sz` bytes until there are no more. */
  function Pop(q: seq<Byte>, sz: nat): (r: (seq<Byte>, seq<Byte>))
  {
    if sz == 0 || q == [] then (q, [])
    else
      var (q', out) := Pop(q[1..], sz - 1);
      (q', [q[0]] + out)
  }

  lemma {:induction false} PushIsPrefix(q: seq<Byte>, capacity: nat, data: seq<Byte>)
    requires |q| <= capacity
    ensures var n := Min(|data|, capacity - |q|);
            Push(q, capacity, data) == (q + data[..n], n)
    decreases |data|
  {
    if data != [] && |q| < capacity {
      PushIsPrefix(q + [data[0]], capacity, data[1..]);
      var n := Min(|data|, capacity - |q|);
      assert [data[0]] + data[1..][..n - 1] == data[..n];
      assert q + [data[0]] + data[1..][..n - 1] == q + data[..n];
    } else {
      assert q + data[..0] == q;
    }
  }

  lemma {:induction false} PopIsPrefix(q: seq<Byte>, sz: nat)
    ensures var n := Min(sz, |q|);
            Pop(q, sz) == (q[n..], q[..n])
  {
    if sz > 0 && q != [] {
      PopIsPrefix(q[1..], sz - 1);
      var n := Min(sz, |q|);
      assert q[1..][n - 1..] == q[n..] && [q[0]] + q[1..][..n - 1] == q[..n];
    } else {
      assert q[0..] == q;
    }
  }

  class Buffer {
    const capacity: nat
    const data: array<Byte>
    var tail: nat
    var head: nat
    var full: bool

    constructor (data: array<Byte>)
      requires data.Length > 0
      ensures Valid() && Contents() == [] && this.data == data
    {
      this.data, capacity := data, data.Length;
      tail, head, full := 0, 0, false;
    }

    ghost predicate Valid()
      reads this
    {
      && data.Length == capacity > 0
      && tail < capacity && head < capacity
      && (full ==> tail == head)
    }

    /** The bytes in the buffer, oldest first. */
    ghost function Contents(): (q: seq<Byte>)
      requires Valid()
      reads this, data
      ensures |q| <= capacity && (|q| == capacity <==> full)
      ensures |q| == 0 <==> head == tail && !full
    {
      Window(data[..], head, Count(head, tail, full, capacity))
    }

    method Size() returns (n: nat)
      requires Valid()
      ensures n == |Contents()|
    {
      if tail == head {
        return if full then capacity else 0;
      }
      n := Rem(tail + capacity - head, capacity);
    }

    method Empty() returns (r: bool)
      requires Valid()
      ensures r <==> Contents() == []
    {
      r := head == tail && !full;
    }

    method WriteByte(b: Byte) returns (n: nat)
      requires Valid()
      modifies this, data
      ensures Valid()
      ensures (Contents(), n) == Push(old(Contents()), capacity, [b])
    {
      hide Window, Push, Rem, Splice;
      PushIsPrefix(Contents(), capacity, [b]);
      assert [b][..0] == [] && [b][..1] == [b];
      if full {
        assert Contents() + [] == Contents();
        return 0;
      }
      ghost var q := Contents();
      ghost var was := data[..];
      CountWrite(head, tail, capacity, 1);
      data[tail] := b;
      SpliceOne(was, tail, b);
      SpliceNothing(data[..]);
      Append(was, data[..], head, |q|, [b]);
      tail := Rem(tail + 1, capacity);
      full := tail == head;
      n := 1;
    }

    method ReadByte() returns (n: nat, b: Byte)
      requires Valid()
      modifies `head, `full
      ensures Valid()
      ensures (Contents(), if n == 1 then [b] else []) == Pop(old(Contents()), 1) && n == |Pop(old(Contents()), 1).1|
    {
      b := 0;
      PopIsPrefix(Contents(), 1);
      if head == tail && !full {
        return 0, b;
      }
      ghost var q := Contents();
      Drop(data[..], head, |q|, 1);
      b := data[head];
      First(data[..], head, |q|);
      assert q[..1] == [b];
      head := Rem(head + 1, capacity);
      full := false;
      n := 1;
    }

    /** Writes as much as fits, and so does pushing byte by byte. */
    method Write(src: seq<Byte>) returns (n: nat)
      requires Valid()
      modifies this, data
      ensures Valid()
      ensures n == Min(|src|, capacity - |old(Contents())|)
      ensures Contents() == old(Contents()) + src[..n]
      ensures (Contents(), n) == Push(old(Contents()), capacity, src)
    {
      hide Window, Wrap, Push, Rem;
      PushIsPrefix(Contents(), capacity, src);
      if |src| == 0 || full {
        assert src[..0] == [];
        return 0;
      }
      n := CopyIn(data, head, tail, src);
      CountWrite(head, tail, capacity, n);
      tail := Rem(tail + n, capacity);
      full := tail == head;
    }

    /** Reads as much as there is, and so does popping byte by byte. */
    method Read(sz: nat) returns (out: seq<Byte>)
      requires Valid()
      modifies `head, `full
      ensures Valid()
      ensures out == old(Contents())[..Min(sz, |old(Contents())|)]
      ensures (Contents(), out) == Pop(old(Contents()), sz)
    {
      hide Window, Wrap, Pop, Rem;
      PopIsPrefix(Contents(), sz);
      if sz == 0 || (head == tail && !full) {
        return [];
      }
      out := CopyOut(data, head, tail, sz);
      CountRead(head, tail, full, capacity, |out|);
      Drop(data[..], head, |Contents()|, |out|);
      head := Rem(head + |out|, capacity);
      full := false;
    }
  }
}
