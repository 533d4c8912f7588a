/** The 16550 driver's rings: mainline calls with interrupts off, and the interrupt handler in between. */
module Uart {
  import opened Bytes
  import opened Ring

  const SIZE := 0x800 // SIZE_TX and SIZE_RX

  /** What runs next: a mainline call that finished waiting, or an interrupt. */
  datatype Event = WriteCall(buff: seq<Byte>) | TransmitIrq | ReceiveIrq(b: Byte) | ReadCall(len: nat)

  /** The bytes that come in during a run. */
  function Arrivals(events: seq<Event>): (bs: seq<Byte>)
  {
    if events == [] then []
    else
      var before, last := Arrivals(events[..|events| - 1]), events[|events| - 1];
      if last.ReceiveIrq? then before + [last.b] else before
  }

  /**
   The port without its rings: what was accepted for sending and sent, whether the transmitter is
   busy, what is there to read, and what was delivered and given up.
   */
  datatype State = State(accepted: seq<Byte>, sent: seq<Byte>, busy: bool, q: seq<Byte>, received: seq<Byte>, dropped: nat)

  /** How many entries of the transmit ring are taken: the byte in the transmitter and those to follow. */
  function Held(s: State): (n: int)
  {
    if s.busy then |s.accepted| - |s.sent| + 1 else 0
  }

  /** What an event does; a write waits while the ring is full, a read while there is nothing. */
  function Moved(s: State, e: Event): (t: State)
  {
    match e
    case WriteCall(buff) =>
      if buff == [] || Held(s) >= SIZE then s
      else
        var all := s.accepted + buff[..Min(|buff|, SIZE - Held(s))];
        s.(accepted := all, sent := if s.busy then s.sent else s.sent + [buff[0]], busy := true)
    case TransmitIrq =>
      if !s.busy then s
      else if |s.sent| < |s.accepted| then s.(sent := s.sent + [s.accepted[|s.sent|]])
      else s.(busy := false)
    case ReceiveIrq(b) =>
      if |s.q| < SIZE - 1 then s.(q := s.q + [b])
      else s.(q := (s.q + [b])[1..], dropped := s.dropped + 1)
    case ReadCall(len) =>
      var n := Min(len, |s.q|);
      s.(q := s.q[n..], received := s.received + s.q[..n])
  }

  function MovedAll(s: State, events: seq<Event>): (t: State)
  {
    if events == [] then s else Moved(MovedAll(s, events[..|events| - 1]), events[|events| - 1])
  }

  /** `a` is what is left of `b` once some of its bytes are dropped. */
  predicate Kept(a: seq<Byte>, b: seq<Byte>) {
    if b == [] then a == []
    else
      var n, m := |a|, |b| - 1;
      Kept(a, b[..m]) || (n > 0 && a[n - 1] == b[m] && Kept(a[..n - 1], b[..m]))
  }

  lemma {:induction false} KeptLength(a: seq<Byte>, b: seq<Byte>)
    requires Kept(a, b)
    ensures |a| <= |b| && (|a| == |b| ==> a == b)
  {
    if b != [] {
      var n, m := |a|, |b| - 1;
      if Kept(a, b[..m]) {
        KeptLength(a, b[..m]);
      } else {
        KeptLength(a[..n - 1], b[..m]);
      }
    }
  }

  lemma {:induction false} KeptMore(a: seq<Byte>, b: seq<Byte>, x: seq<Byte>)
    requires Kept(a, b)
    ensures Kept(a + x, b + x)
  {
    if x == [] {
      assert a + x == a && b + x == b;
    } else {
      var n := |x| - 1;
      KeptMore(a, b, x[..n]);
      assert (a + x)[..|a| + n] == a + x[..n] && (b + x)[..|b| + n] == b + x[..n];
    }
  }

  /**
   The ring `q` has the latest arrivals; of those before it, all but the `dropped` that it gave
   up have been delivered.
   */
  predicate InOrder(received: seq<Byte>, dropped: nat, q: seq<Byte>, arrived: seq<Byte>) {
    var n := |received| + dropped;
    && n + |q| == |arrived|
    && q == arrived[n..]
    && Kept(received, arrived[..n])
  }

  lemma InOrderArrive(received: seq<Byte>, dropped: nat, q: seq<Byte>, arrived: seq<Byte>, b: Byte)
    requires InOrder(received, dropped, q, arrived)
    ensures InOrder(received, dropped, q + [b], arrived + [b])
  {
    hide Kept;
    var n := |received| + dropped;
    assert (arrived + [b])[..n] == arrived[..n] && (arrived + [b])[n..] == arrived[n..] + [b];
  }

  lemma InOrderDrop(received: seq<Byte>, dropped: nat, q: seq<Byte>, arrived: seq<Byte>)
    requires InOrder(received, dropped, q, arrived) && q != []
    ensures InOrder(received, dropped + 1, q[1..], arrived)
  {
    var n := |received| + dropped;
    assert arrived[..n + 1][..n] == arrived[..n] && arrived[n + 1..] == arrived[n..][1..];
  }

  lemma InOrderRead(received: seq<Byte>, dropped: nat, q: seq<Byte>, arrived: seq<Byte>, k: nat)
    requires InOrder(received, dropped, q, arrived) && k <= |q|
    ensures InOrder(received + q[..k], dropped, q[k..], arrived)
  {
    hide Kept;
    var n := |received| + dropped;
    KeptMore(received, arrived[..n], q[..k]);
    assert arrived[..n + k] == arrived[..n] + q[..k] && arrived[n + k..] == arrived[n..][k..];
  }

  /** What was delivered and what is there to read are the arrivals, in order, but for those given up. */
  lemma ReceivedInOrder(received: seq<Byte>, dropped: nat, q: seq<Byte>, arrived: seq<Byte>)
    requires InOrder(received, dropped, q, arrived)
    ensures Kept(received + q, arrived) && |received + q| + dropped == |arrived|
    ensures dropped == 0 <==> received + q == arrived
  {
    var n := |received| + dropped;
    KeptMore(received, arrived[..n], q);
    assert arrived == arrived[..n] + arrived[n..];
    KeptLength(received + q, arrived);
  }

  /** What appending `x` does to the entries after the first. */
  lemma TailGrows(was: seq<Byte>, tx: seq<Byte>, th: nat, n: nat, x: seq<Byte>)
    requires th < |was| == |tx| && n + |x| <= |tx| && x != []
    requires Window(tx, th, n + |x|) == Window(was, th, n) + x
    ensures var rest := Window(tx, Wrap(th + 1, |tx|), n + |x| - 1);
            if n > 0 then rest == Window(was, Wrap(th + 1, |was|), n - 1) + x
            else tx[th] == x[0] && [x[0]] + rest == x
  {
    Drop(tx, th, n + |x|, 1);
    First(tx, th, n + |x|);
    if n > 0 {
      Drop(was, th, n, 1);
    }
  }

  lemma NextSent(sent: seq<Byte>, q: seq<Byte>)
    requires q != []
    ensures sent + q == sent + [q[0]] + q[1..]
  {
  }

  /** Bytes `x` join those that are unsent; if there was nothing in the ring, the first goes out at once. */
  lemma Queued(thr: seq<Byte>, unsent: seq<Byte>, rest: seq<Byte>, n: nat, x: seq<Byte>)
    requires x != [] && if n > 0 then rest == unsent + x else unsent == [] && [x[0]] + rest == x
    ensures thr + unsent + x == (if n > 0 then thr else thr + [x[0]]) + rest
  {
    if n == 0 {
      assert thr + unsent + x == thr + ([x[0]] + rest);
    }
  }

  class Port {
    // receiver
    const rx: array<Byte>
    var rh: nat
    var rt: nat
    // transmitter
    const tx: array<Byte>
    var th: nat
    var tt: nat
    var tf: bool
    // the device: bytes stored to thr, and whether ier has the transmit interrupt on
    var thr: seq<Byte>
    var txIrq: bool
    // all bytes ever taken by uart_write, and delivered by uart_read
    ghost var accepted: seq<Byte>
    ghost var received: seq<Byte>
    // all bytes that came in, and how many of them the full ring gave up
    ghost var arrived: seq<Byte>
    ghost var dropped: nat

    constructor ()
      ensures Valid() && thr == accepted == received == [] && RxContents() == []
      ensures arrived == [] && dropped == 0 && fresh(rx) && fresh(tx)
    {
      rx, tx := new Byte[SIZE], new Byte[SIZE];
      rh, rt, th, tt, tf, thr, txIrq, accepted, received := 0, 0, 0, 0, false, [], false, [], [];
      arrived, dropped := [], 0;
    }

    ghost predicate RxIndices()
      reads `rh, `rt
    {
      rx.Length == SIZE && rh < SIZE && rt < SIZE
    }

    ghost predicate TxIndices()
      reads `th, `tt, `tf
    {
      tx.Length == SIZE && th < SIZE && tt < SIZE && (tf ==> th == tt)
    }

    /** Entries from `th` to `tt`; the first one is with the transmitter. */
    ghost function TxCount(): (n: nat)
      requires TxIndices()
      reads `th, `tt, `tf
      ensures n <= SIZE
    {
      Count(th, tt, tf, SIZE)
    }

    /** The ring entries after `th` up to `tt`. */
    ghost function Unsent(): (q: seq<Byte>)
      requires TxIndices()
      reads `th, `tt, `tf, tx
    {
      if TxCount() == 0 then [] else Window(tx[..], Wrap(th + 1, SIZE), TxCount() - 1)
    }

    ghost function RxContents(): (q: seq<Byte>)
      requires RxIndices()
      reads `rh, `rt, rx
      ensures |q| < SIZE
    {
      Window(rx[..], rt, Distance(rt, rh, SIZE))
    }

    ghost predicate Receiving()
      reads `rh, `rt, `received, `arrived, `dropped, rx
    {
      RxIndices() && InOrder(received, dropped, RxContents(), arrived)
    }

    ghost predicate Sending()
      reads `th, `tt, `tf, `thr, `txIrq, `accepted, tx
    {
      && TxIndices()
      && accepted == thr + Unsent()
      && (txIrq <==> TxCount() > 0)
    }

    ghost function Abstract(): (s: State)
      requires RxIndices()
      reads this, rx
    {
      State(accepted, thr, txIrq, RxContents(), received, dropped)
    }

    ghost predicate Valid()
      reads this, tx, rx
    {
      rx != tx && Receiving() && Sending()
    }

    /** The flag says "full" exactly when every entry is taken: one in the transmitter, all others unsent. */
    lemma FullFlag()
      requires Valid()
      ensures tf <==> |accepted| == |thr| + SIZE - 1
      ensures thr <= accepted
    {
    }

    /** Copies into the ring what fits. The first byte is for the transmitter if there was nothing in the ring. */
    method Enqueue(buff: seq<Byte>) returns (l: nat, ghost rest: seq<Byte>)
      requires TxIndices() && !tf && buff != []
      modifies tx
      ensures 0 < l <= |buff| && l == Min(|buff|, SIZE - TxCount())
      ensures rest == Window(tx[..], Wrap(th + 1, SIZE), TxCount() + l - 1)
      ensures TxCount() == 0 ==> tx[th] == buff[0]
      ensures thr + old(Unsent()) + buff[..l] == (if TxCount() > 0 then thr else thr + [buff[0]]) + rest
    {
      hide Window, Rem, Wrap, Count, Distance;
      ghost var n, was := TxCount(), tx[..];
      l := CopyIn(tx, th, tt, buff);
      CountWrite(th, tt, SIZE, l);
      ghost var x := buff[..l];
      TailGrows(was, tx[..], th, n, x);
      rest := Window(tx[..], Wrap(th + 1, SIZE), n + l - 1);
      Queued(thr, old(Unsent()), rest, n, x);
    }

    lemma Counts()
      requires Valid()
      ensures TxCount() == Held(Abstract()) && (Unsent() == [] <==> |thr| == |accepted|)
      ensures |thr| < |accepted| ==> accepted[|thr|] == Unsent()[0]
      ensures rh == rt <==> RxContents() == []
      ensures tf <==> TxCount() == SIZE
    {
    }

    /** uart_write, once `tf` is clear. */
    method Write(buff: seq<Byte>) returns (l: nat)
      requires Valid() && (buff != [] ==> !tf)
      modifies `tt, `tf, `thr, `txIrq, `accepted, tx
      ensures Valid()
      ensures l == Min(|buff|, SIZE - old(TxCount()))
      ensures accepted == old(accepted) + buff[..l]
      ensures (|buff| > 0 ==> l > 0) && txIrq == (old(txIrq) || buff != [])
      ensures thr == if old(TxCount()) == 0 && |buff| > 0 then old(thr) + [buff[0]] else old(thr)
    {
      hide Window, Rem, Wrap, Count, Distance, Receiving;
      if |buff| == 0 {
        assert buff[..0] == [];
        return 0;
      }
      ghost var n, rest := TxCount(), [];
      l, rest := Enqueue(buff);
      CountWrite(th, tt, SIZE, l);
      accepted := accepted + buff[..l];
      // start sending if the ring was empty
      if tt == th {
        thr := thr + [tx[th]];
        txIrq := true;
      }
      assert accepted == thr + rest;
      tt := Rem(tt + l, SIZE);
      if tt == th {
        tf := true;
      }
      assert TxCount() == n + l && Unsent() == rest;
    }

    /** The transmit half of uart_isr. It runs only while the transmit interrupt is on. */
    method Transmit()
      requires Valid() && txIrq
      modifies `th, `tf, `thr, `txIrq
      ensures Valid()
      ensures if old(Unsent()) == [] then thr == old(thr) && !txIrq
              else thr == old(thr) + [old(Unsent())[0]] && Unsent() == old(Unsent())[1..] && txIrq
    {
      hide Window, Rem, Wrap, Count, Distance, Receiving;
      ghost var n := TxCount();
      CountRead(th, tt, tf, SIZE, 1);
      if n > 1 {
        Drop(tx[..], Wrap(th + 1, SIZE), n - 1, 1);
        First(tx[..], Wrap(th + 1, SIZE), n - 1);
      }
      th := Rem(th + 1, SIZE);
      if th != tt {
        thr := thr + [tx[th]];
      } else {
        txIrq := false;
      }
      tf := false;
      assert TxCount() == n - 1;
      if n > 1 {
        NextSent(old(thr), old(Unsent()));
      }
    }

    /** The receive half of uart_isr: a full ring gives up its oldest byte. */
    method Receive(b: Byte)
      requires Valid()
      modifies `rh, `rt, `arrived, `dropped, rx
      ensures Valid()
      ensures arrived == old(arrived) + [b]
      ensures var q := old(RxContents()) + [b];
              if |q| < SIZE then RxContents() == q && dropped == old(dropped)
              else RxContents() == q[1..] && dropped == old(dropped) + 1
    {
      hide Window, Rem, Splice, InOrder, Sending;
      InOrderArrive(received, dropped, RxContents(), arrived, b);
      arrived := arrived + [b];
      ghost var n, was := Distance(rt, rh, SIZE), rx[..];
      rx[rh] := b;
      SpliceOne(was, rh, b);
      SpliceNothing(rx[..]);
      Append(was, rx[..], rt, n, [b]);
      rh := Rem(rh + 1, SIZE);
      if rh == rt {
        Drop(rx[..], rt, SIZE, 1);
        InOrderDrop(received, dropped, Window(rx[..], rt, SIZE), arrived);
        dropped := dropped + 1;
        rt := Rem(rt + 1, SIZE);
      }
    }

    /** uart_read, once there is a byte. */
    method Read(len: nat) returns (out: seq<Byte>)
      requires Valid() && (len > 0 ==> rh != rt)
      modifies `rt, `received
      ensures Valid()
      ensures out == old(RxContents())[..Min(len, |old(RxContents())|)]
      ensures RxContents() == old(RxContents())[|out|..] && received == old(received) + out
    {
      hide InOrder, Window, Sending;
      if len == 0 {
        return [];
      }
      out := CopyOut(rx, rt, rh, len);
      Drop(rx[..], rt, Distance(rt, rh, SIZE), |out|);
      rt := Rem(rt + |out|, SIZE);
      InOrderRead(received, dropped, old(RxContents()), arrived, |out|);
      received := received + out;
    }

    /** Calls that have to wait and interrupts that are off do not happen. */
    method Step(e: Event)
      requires Valid()
      modifies this, rx, tx
      ensures Valid()
      ensures old(thr) <= thr <= accepted && old(accepted) <= accepted && old(received) <= received
      ensures arrived == if e.ReceiveIrq? then old(arrived) + [e.b] else old(arrived)
      ensures old(dropped) <= dropped
      ensures Abstract() == Moved(old(Abstract()), e)
    {
      hide Window, Rem, Wrap, InOrder;
      FullFlag();
      Counts();
      match e {
        case WriteCall(buff) =>
          if !tf || buff == [] {
            var l := Write(buff);
            assert buff == [] ==> buff[..l] == [];
          }
        case TransmitIrq =>
          if txIrq {
            Transmit();
          }
        case ReceiveIrq(b) => Receive(b);
        case ReadCall(len) =>
          if rh != rt {
            var _ := Read(len);
          }
      }
    }

    /**
     Every interleaving of calls and interrupts does what it would do to the bytes alone. It keeps the bytes sent and the bytes received in order.
     Of those received none is missing unless a full ring gave it up.
     */
    method Run(events: seq<Event>)
      requires Valid()
      modifies this, rx, tx
      ensures Valid()
      ensures old(thr) <= thr <= accepted && old(accepted) <= accepted && old(received) <= received
      ensures tf <==> |accepted| == |thr| + SIZE - 1
      ensures Abstract() == MovedAll(old(Abstract()), events)
      ensures arrived == old(arrived) + Arrivals(events) && old(dropped) <= dropped
      ensures Kept(received + RxContents(), arrived)
      ensures |received + RxContents()| + dropped == |arrived|
      ensures dropped == 0 <==> received + RxContents() == arrived
    {
      hide Kept, InOrder, Window, Count, Unsent, Moved;
      for i := 0 to |events|
        invariant Valid()
        invariant old(thr) <= thr && old(accepted) <= accepted && old(received) <= received
        invariant arrived == old(arrived) + Arrivals(events[..i]) && old(dropped) <= dropped
        invariant Abstract() == MovedAll(old(Abstract()), events[..i])
      {
        assert events[..i + 1][..i] == events[..i];
        Step(events[i]);
      }
      assert events[..|events|] == events;
      FullFlag();
      ReceivedInOrder(received, dropped, RxContents(), arrived);
    }
  }
}
