/**
 An RTT pipe: a ring shared by a writer and a reader that run at the same time, each owning one
 index. A call takes a snapshot of the other side's index, copies byte by byte, and publishes
 its own index at the end; the other side may run between any two of these steps.
 */
module Rtt {
  import opened Bytes

  // ---- slots

  /** The ring slot of the `i`-th byte of the stream. */
  function Slot(i: nat, sz: nat): (s: nat)
    requires sz > 0
    ensures s < sz
  {
    i % sz
  }

  lemma SlotOf(i: nat, sz: nat)
    requires sz > 0
    ensures Slot(i, sz) == i % sz && i == i / sz * sz + Slot(i, sz)
  {
  }

  lemma SlotAdd(i: nat, k: nat, sz: nat)
    requires sz > 0
    ensures (Slot(i, sz) + k) % sz == Slot(i + k, sz)
  {
    hide Slot;
    SlotOf(i, sz);
    SlotOf(i + k, sz);
    ghost var q: nat := i / sz;
    AddMultiple(q, Slot(i, sz) + k, sz);
  }

  function Next(s: nat, sz: nat): (n: nat)
    requires sz > 0
  {
    (s + 1) % sz
  }

  lemma SlotNext(i: nat, sz: nat)
    requires sz > 0
    ensures Next(Slot(i, sz), sz) == Slot(i + 1, sz)
  {
    SlotAdd(i, 1, sz);
  }

  /** Less than a round apart, bytes share a slot only if they are the same byte. */
  lemma SlotDistinct(i: nat, j: nat, sz: nat)
    requires i <= j < i + sz
    ensures Slot(i, sz) == Slot(j, sz) ==> i == j
  {
    var d := j - i;
    SlotAdd(i, d, sz);
    var x := Slot(i, sz) + d;
    if x < sz {
      DivModUnique(0, x, sz);
    } else {
      DivModUnique(1, x - sz, sz);
    }
  }

  datatype Step = WriteStart(src: seq<Byte>) | WriteCopy | WritePublish | ReadStart(count: nat) | ReadCopy | ReadPublish

  /**
   The pipe without its ring: both sides of an unbounded stream, of which the writer runs at most
   `sz - 1` bytes ahead of what it saw the reader give back.
   */
  datatype Stream = Stream(copied: seq<Byte>, wPub: nat, writing: bool, rSeen: nat, wTodo: seq<Byte>,
                           taken: nat, rPub: nat, reading: bool, wSeen: nat, rTodo: nat)

  /** What a step does, if the side can take it. */
  function Moved(s: Stream, step: Step, sz: nat): (t: Stream)
  {
    var room, more := |s.copied| < s.rSeen + sz - 1, s.taken < s.wSeen;
    match step
    case WriteStart(src) => if s.writing then s else s.(writing := true, rSeen := s.rPub, wTodo := src)
    case WriteCopy =>
      if s.writing && room && s.wTodo != [] then s.(copied := s.copied + [s.wTodo[0]], wTodo := s.wTodo[1..]) else s
    case WritePublish => if s.writing && !(room && s.wTodo != []) then s.(writing := false, wPub := |s.copied|) else s
    case ReadStart(count) => if s.reading then s else s.(reading := true, wSeen := s.wPub, rTodo := count)
    case ReadCopy => if s.reading && more && s.rTodo > 0 then s.(taken := s.taken + 1, rTodo := s.rTodo - 1) else s
    case ReadPublish => if s.reading && !(more && s.rTodo > 0) then s.(reading := false, rPub := s.taken) else s
  }

  function MovedAll(s: Stream, schedule: seq<Step>, sz: nat): (t: Stream)
  {
    if schedule == [] then s
    else Moved(MovedAll(s, schedule[..|schedule| - 1], sz), schedule[|schedule| - 1], sz)
  }

  class Pipe {
    const sz: nat
    const ptr: array<Byte>
    // the shared indices
    var wr: nat
    var rd: nat
    // the locals of a running rtt_write
    var writing: bool
    var wLimit: nat
    var wPos: nat
    var wTodo: seq<Byte>
    // the locals of a running rtt_read
    var reading: bool
    var rLimit: nat
    var rPos: nat
    var rTodo: nat
    // all bytes ever copied in and out, how many each side has published, and what it saw published
    ghost var copied: seq<Byte>
    ghost var taken: seq<Byte>
    ghost var wPub: nat
    ghost var rPub: nat
    ghost var rSeen: nat
    ghost var wSeen: nat

    constructor (ptr: array<Byte>)
      requires ptr.Length > 0
      ensures Valid() && copied == taken == [] && !writing && !reading && this.ptr == ptr
    {
      this.ptr, sz := ptr, ptr.Length;
      wr, rd, writing, reading, wLimit, wPos, wTodo, rLimit, rPos, rTodo := 0, 0, false, false, 0, 0, [], 0, 0, 0;
      copied, taken, wPub, rPub, rSeen, wSeen := [], [], 0, 0, 0, 0;
    }

    /** The order of all positions in the stream, published, local and seen. */
    ghost predicate Ordered()
      reads this
    {
      && rPub <= |taken| <= wPub <= |copied| < rPub + sz
      && (writing ==> rSeen <= rPub && |copied| < rSeen + sz)
      && (!writing ==> wPub == |copied|)
      && (reading ==> |taken| <= wSeen <= wPub)
      && (!reading ==> rPub == |taken|)
    }

    ghost predicate Indices()
      reads this
    {
      && sz > 0 && ptr.Length == sz
      && wr == Slot(wPub, sz) && rd == Slot(rPub, sz)
      && (writing ==> wPos == Slot(|copied|, sz) && wLimit == Slot(rSeen + sz - 1, sz))
      && (reading ==> rPos == Slot(|taken|, sz) && rLimit == Slot(wSeen, sz))
    }

    /** Every byte the reader has not published yet still is in its slot. */
    ghost predicate Stored()
      requires Ordered() && Indices()
      reads this, ptr
    {
      forall i: nat :: rPub <= i < |copied| ==> ptr[Slot(i, sz)] == copied[i]
    }

    ghost predicate Valid()
      reads this, ptr
    {
      Ordered() && Indices() && Stored() && taken == copied[..|taken|]
    }

    /** The state in true positions; what a side does not use while it is at rest is left as it was. */
    ghost function Abstract(): (s: Stream)
      reads this
    {
      Stream(copied, wPub, writing, rSeen, wTodo, |taken|, rPub, reading, wSeen, rTodo)
    }

    /** What a writer may rely on: accepted bytes come out in order, and the ring never holds `sz` bytes. */
    lemma Safety()
      requires Valid()
      ensures taken <= copied[..wPub] && |copied| - rPub <= sz - 1
      ensures wPub <= |copied| && rPub <= |taken|
    {
    }

    method WriteStart(src: seq<Byte>)
      requires Valid() && !writing
      modifies `writing, `wLimit, `wPos, `wTodo, `rSeen
      ensures Valid() && writing && wTodo == src && rSeen == rPub
    {
      hide Slot;
      SlotAdd(rPub, sz - 1, sz);
      wLimit := (rd + sz - 1) % sz;
      wPos := wr;
      wTodo := src;
      writing := true;
      rSeen := rPub;
    }

    /** The loop guard of rtt_write. */
    predicate WriteMore()
      reads this
    {
      wTodo != [] && wLimit != wPos
    }

    /** It stops the writer exactly when all is copied or the ring is full as far as the writer saw. */
    lemma WriteGuard()
      requires Valid() && writing
      ensures WriteMore() <==> wTodo != [] && |copied| < rSeen + sz - 1
    {
      SlotDistinct(|copied|, rSeen + sz - 1, sz);
    }

    method WriteCopy()
      requires Valid() && writing && WriteMore()
      modifies `wPos, `wTodo, `copied, ptr
      ensures Valid()
      ensures copied == old(copied) + [old(wTodo)[0]] && wTodo == old(wTodo)[1..]
    {
      hide Slot, Next;
      WriteGuard();
      SlotNext(|copied|, sz);
      forall i: nat | rPub <= i < |copied| ensures Slot(i, sz) != Slot(|copied|, sz) {
        SlotDistinct(i, |copied|, sz);
      }
      ptr[wPos] := wTodo[0];
      copied := copied + [wTodo[0]];
      wPos := Next(wPos, sz);
      wTodo := wTodo[1..];
    }

    method WritePublish()
      requires Valid() && writing && !WriteMore()
      modifies `wr, `writing, `wPub
      ensures Valid() && !writing && wPub == |copied|
    {
      hide Slot;
      wr := wPos;
      writing := false;
      wPub := |copied|;
    }

    method ReadStart(count: nat)
      requires Valid() && !reading
      modifies `reading, `rLimit, `rPos, `rTodo, `wSeen
      ensures Valid() && reading && rTodo == count && wSeen == wPub
    {
      hide Slot;
      rLimit := wr;
      rPos := rd;
      rTodo := count;
      reading := true;
      wSeen := wPub;
    }

    predicate ReadMore()
      reads this
    {
      rTodo != 0 && rPos != rLimit
    }

    lemma ReadGuard()
      requires Valid() && reading
      ensures ReadMore() <==> rTodo != 0 && |taken| < wSeen
    {
      SlotDistinct(|taken|, wSeen, sz);
    }

    method ReadCopy() returns (b: Byte)
      requires Valid() && reading && ReadMore()
      modifies `rPos, `rTodo, `taken
      ensures Valid()
      ensures taken == old(taken) + [b] && rTodo == old(rTodo) - 1
    {
      hide Slot, Next;
      ReadGuard();
      SlotNext(|taken|, sz);
      b := ptr[rPos];
      assert b == copied[|taken|];
      taken := taken + [b];
      rPos := Next(rPos, sz);
      rTodo := rTodo - 1;
    }

    method ReadPublish()
      requires Valid() && reading && !ReadMore()
      modifies `rd, `reading, `rPub
      ensures Valid() && !reading && rPub == |taken|
    {
      hide Slot;
      rd := rPos;
      reading := false;
      rPub := |taken|;
    }

    // ---- whole calls, and every interleaving of their steps

    /** rtt_write with the reader at rest or stopped anywhere: appends as much as fits. */
    method Write(src: seq<Byte>) returns (n: nat)
      requires Valid() && !writing
      modifies `wr, `writing, `wLimit, `wPos, `wTodo, `copied, `wPub, `rSeen, ptr
      ensures Valid() && !writing
      ensures n == Min(|src|, sz - 1 - (|old(copied)| - rPub))
      ensures copied == old(copied) + src[..n] && wPub == |copied|
    {
      hide Slot, Stored, Next;
      WriteStart(src);
      while WriteMore()
        invariant Valid() && writing && rSeen == rPub == old(rPub)
        invariant |wTodo| <= |src| && wTodo == src[|src| - |wTodo|..]
        invariant copied == old(copied) + src[..|src| - |wTodo|]
        decreases |wTodo|
      {
        WriteCopy();
      }
      WriteGuard();
      n := |src| - |wTodo|;
      WritePublish();
    }

    /** rtt_read with the writer at rest or stopped anywhere: delivers as much as is published. */
    method Read(count: nat) returns (out: seq<Byte>)
      requires Valid() && !reading
      modifies `rd, `reading, `rLimit, `rPos, `rTodo, `taken, `rPub, `wSeen
      ensures Valid() && !reading
      ensures |out| == Min(count, wPub - |old(taken)|)
      ensures taken == old(taken) + out && rPub == |taken|
    {
      hide Slot, Stored, Next;
      ReadStart(count);
      out := [];
      while ReadMore()
        invariant Valid() && reading && wSeen == wPub
        invariant rTodo + |out| == count && taken == old(taken) + out
        decreases rTodo
      {
        var b := ReadCopy();
        out := out + [b];
      }
      ReadGuard();
      ReadPublish();
    }

    /** One step of either side, if that side can take it now. */
    method Take(step: Step)
      requires Valid()
      modifies this, ptr
      ensures Valid() && old(copied) <= copied && old(taken) <= taken && old(wPub) <= wPub && old(rPub) <= rPub
      ensures Abstract() == Moved(old(Abstract()), step, sz)
    {
      hide Slot, Stored, Next, Ordered, Indices;
      Safety();
      if writing {
        WriteGuard();
      }
      if reading {
        ReadGuard();
      }
      match step {
        case WriteStart(src) => if !writing { WriteStart(src); }
        case WriteCopy => if writing && WriteMore() { WriteCopy(); }
        case WritePublish => if writing && !WriteMore() { WritePublish(); }
        case ReadStart(count) => if !reading { ReadStart(count); }
        case ReadCopy => if reading && ReadMore() { var _ := ReadCopy(); }
        case ReadPublish => if reading && !ReadMore() { ReadPublish(); }
      }
    }

    /**
     In every interleaving the indices do what positions in an unbounded stream would: the bytes
     read are a prefix of the bytes accepted, and at most `sz - 1` are pending.
     */
    method Run(schedule: seq<Step>)
      requires Valid()
      modifies this, ptr
      ensures Valid() && old(copied) <= copied && old(taken) <= taken
      ensures taken <= copied[..wPub] && |copied| - rPub <= sz - 1
      ensures forall i: nat :: rPub <= i < |copied| ==> ptr[Slot(i, sz)] == copied[i]
      ensures Abstract() == MovedAll(old(Abstract()), schedule, sz)
    {
      hide Moved, Slot;
      for i := 0 to |schedule|
        invariant Valid() && old(copied) <= copied && old(taken) <= taken
        invariant Abstract() == MovedAll(old(Abstract()), schedule[..i], sz)
      {
        assert schedule[..i + 1][..i] == schedule[..i];
        Take(schedule[i]);
      }
      assert schedule[..|schedule|] == schedule;
      Safety();
    }
  }
}
