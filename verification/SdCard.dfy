/**
 Byte access to an SD card that transfers whole blocks, at most two at a time, through one
 buffer: what is written is spliced into the card, what is read is cut out of it.
 */
module SdCard {
  import opened Bytes
  import opened Words

  const BLOCKLEN := 512
  const MAX_TRANSFER := 1024

  /** The range check of readwrite, with its 32-bit sum. */
  predicate Accepts(sizeBl: U32, offs: U32, len: U32) {
    var offsBlock := offs / BLOCKLEN;
    var lenBlocks := (len + offs % BLOCKLEN + BLOCKLEN - 1) % W32 / BLOCKLEN;
    offsBlock <= sizeBl && offsBlock + lenBlocks <= sizeBl
  }

  predicate InRange(sizeBl: U32, offs: U32, len: U32) {
    offs + len <= sizeBl * 512
  }

  /** The sum that rounds the length up to blocks stays below 2^32. */
  predicate NoWrap(offs: U32, len: U32) {
    len + offs % BLOCKLEN + BLOCKLEN - 1 < W32
  }

  /** Where the sum does not wrap the check is exact; where it does, any card with a block left passes. */
  lemma CheckIsExact(sizeBl: U32, offs: U32, len: U32)
    ensures NoWrap(offs, len) ==> (Accepts(sizeBl, offs, len) <==> InRange(sizeBl, offs, len))
    ensures !NoWrap(offs, len) && offs / BLOCKLEN < sizeBl ==> Accepts(sizeBl, offs, len)
  {
  }

  lemma WrappedCheckPasses()
    ensures Accepts(1, 0, 0xffff_ffff) && !InRange(1, 0, 0xffff_ffff)
  {
  }

  /** `done` bytes are across: spliced into the card by a write, into the buffer by a read. */
  ghost predicate Progress(write: bool, offs: nat, done: nat, card0: seq<Byte>, buff0: seq<Byte>, card: seq<Byte>, buff: seq<Byte>) {
    && done <= |buff0| && (done > 0 ==> offs + done <= |card0|)
    && if write then buff == buff0 && card == (if done == 0 then card0 else Splice(card0, offs, buff0[..done]))
       else card == card0 && buff == (if done == 0 then buff0 else Splice(buff0, 0, card0[offs..offs + done]))
  }

  lemma ProgressStarts(write: bool, offs: nat, card0: seq<Byte>, buff0: seq<Byte>)
    ensures Progress(write, offs, 0, card0, buff0, card0, buff0)
  {
  }

  lemma ProgressEnds(write: bool, offs: nat, done: nat, card0: seq<Byte>, buff0: seq<Byte>, card: seq<Byte>, buff: seq<Byte>)
    requires Progress(write, offs, done, card0, buff0, card, buff)
    ensures if write then buff == buff0 else card == card0
    ensures done == 0 ==> card == card0 && buff == buff0
    ensures done > 0 ==> offs + done <= |card0| && done <= |buff0|
    ensures done > 0 ==> if write then card == Splice(card0, offs, buff0[..done]) else buff == Splice(buff0, 0, card0[offs..offs + done])
  {
  }

  lemma ProgressWrite(offs: nat, done: nat, n: nat, card0: seq<Byte>, buff0: seq<Byte>, card: seq<Byte>, card': seq<Byte>)
    requires Progress(true, offs, done, card0, buff0, card, buff0) && done + n <= |buff0| && offs + done + n <= |card| == |card0|
    requires card' == Splice(card, offs + done, buff0[done..done + n])
    ensures Progress(true, offs, done + n, card0, buff0, card', buff0)
  {
    hide Splice;
    assert buff0[..done] + buff0[done..done + n] == buff0[..done + n];
    SpliceTwice(card0, offs, buff0[..done], buff0[done..done + n]);
  }

  lemma ProgressRead(offs: nat, done: nat, n: nat, card0: seq<Byte>, buff0: seq<Byte>, buff: seq<Byte>)
    requires Progress(false, offs, done, card0, buff0, card0, buff) && done + n <= |buff0| == |buff| && offs + done + n <= |card0|
    ensures Progress(false, offs, done + n, card0, buff0, card0, Splice(buff, done, card0[offs + done..offs + done + n]))
  {
    hide Splice;
    assert card0[offs..offs + done] + card0[offs + done..offs + done + n] == card0[offs..offs + done + n];
    SpliceTwice(buff0, 0, card0[offs..offs + done], card0[offs + done..offs + done + n]);
  }

  /** A block copy with a part replaced, put back, replaces that part on the card. */
  lemma SpliceBack(card: seq<Byte>, at: nat, n: nat, off: nat, part: seq<Byte>)
    requires at + n <= |card| && off + |part| <= n
    ensures Splice(card, at, Splice(card[at..at + n], off, part)) == Splice(card, at + off, part)
  {
  }

  lemma SpliceFront(s: seq<Byte>, part: seq<Byte>)
    requires |part| <= |s|
    ensures Splice(s, 0, part)[..|part|] == part
  {
  }

  lemma PutInFront(s: seq<Byte>, n: nat, off: nat, part: seq<Byte>)
    requires off + |part| <= n <= |s|
    ensures Splice(s, off, part)[..n] == Splice(s[..n], off, part)
    ensures |part| == n ==> Splice(s, off, part)[..n] == part
  {
  }

  class Card {
    const sizeBl: U32
    var card: seq<Byte>
    var initialized: bool
    const dataBuffer: array<Byte>
    ghost var transfers: seq<(nat, nat)> // first block and block count of every transfer
    ghost var failures: nat              // how many of them failed

    constructor (sizeBl: U32, card: seq<Byte>)
      requires |card| == sizeBl * BLOCKLEN
      ensures Valid() && this.sizeBl == sizeBl && this.card == card && fresh(dataBuffer) && transfers == [] && failures == 0
    {
      this.sizeBl, this.card, initialized, transfers, failures := sizeBl, card, true, [], 0;
      dataBuffer := new Byte[MAX_TRANSFER];
    }

    ghost predicate Valid()
      reads this
    {
      |card| == sizeBl * BLOCKLEN && dataBuffer.Length == MAX_TRANSFER
    }

    /** All transfers were of one or two blocks of the card. */
    ghost predicate Tame()
      reads this
    {
      forall t :: t in transfers ==> 1 <= t.1 <= 2 && t.0 + t.1 <= sizeBl
    }

    /** The same, but for the last transfer, which may have gone past the card. */
    ghost predicate TameBefore()
      reads this
    {
      && (forall t :: t in transfers ==> 1 <= t.1 <= 2)
      && forall i :: 0 <= i < |transfers| - 1 ==> transfers[i].0 + transfers[i].1 <= sizeBl
    }

    /** sdcard_transferBlocks: any transfer may fail, and one beyond the card does. */
    method ReadBlocks(blk: nat, n: nat) returns (err: int)
      requires Valid()
      modifies `transfers, `failures, dataBuffer
      ensures failures == old(failures) + if err < 0 then 1 else 0
      ensures transfers == old(transfers) + [(blk, n)]
      ensures err >= 0 ==> n * BLOCKLEN <= MAX_TRANSFER && blk + n <= sizeBl
      ensures err >= 0 ==> dataBuffer[..] == Splice(old(dataBuffer[..]), 0, card[blk * BLOCKLEN..(blk + n) * BLOCKLEN])
    {
      transfers := transfers + [(blk, n)];
      err := *;
      if n * BLOCKLEN > MAX_TRANSFER || blk + n > sizeBl {
        err := -1;
      }
      failures := failures + if err < 0 then 1 else 0;
      if err >= 0 {
        MemCpy(dataBuffer, 0, card[blk * BLOCKLEN..(blk + n) * BLOCKLEN]);
      }
    }

    method WriteBlocks(blk: nat, n: nat) returns (err: int)
      requires Valid()
      modifies `transfers, `failures, `card
      ensures failures == old(failures) + if err < 0 then 1 else 0
      ensures Valid() && transfers == old(transfers) + [(blk, n)]
      ensures err >= 0 ==> n * BLOCKLEN <= MAX_TRANSFER && blk + n <= sizeBl
      ensures err >= 0 ==> card == Splice(old(card), blk * BLOCKLEN, dataBuffer[..n * BLOCKLEN])
      ensures forall i :: 0 <= i < |card| && !(blk * BLOCKLEN <= i < (blk + n) * BLOCKLEN) ==> card[i] == old(card)[i]
    {
      transfers := transfers + [(blk, n)];
      err := *;
      if n * BLOCKLEN > MAX_TRANSFER || blk + n > sizeBl {
        err := -1;
      }
      failures := failures + if err < 0 then 1 else 0;
      if n * BLOCKLEN > MAX_TRANSFER || blk + n > sizeBl {
        return;
      }
      var content: seq<Byte> := *;
      if err >= 0 || |content| != n * BLOCKLEN {
        content := dataBuffer[..n * BLOCKLEN];
      }
      card := Splice(card, blk * BLOCKLEN, content);
    }

    /** Writes `part` at `off` of block `blk`: whole blocks as they are, anything else into a copy read first. */
    method Modify(blk: nat, off: nat, part: seq<Byte>) returns (err: int)
      requires Valid() && off < BLOCKLEN && (off == 0 ==> part != [])
      requires off + |part| <= BLOCKLEN || (off == 0 && |part| == MAX_TRANSFER)
      modifies `transfers, `failures, `card, dataBuffer
      ensures failures == old(failures) + if err < 0 then 1 else 0
      ensures Valid()
      ensures old(Tame()) ==> TameBefore() && (err >= 0 || blk * BLOCKLEN + off + |part| <= |card| ==> Tame())
      ensures err >= 0 ==> blk * BLOCKLEN + off + |part| <= |card| && card == Splice(old(card), blk * BLOCKLEN + off, part)
      ensures forall i :: 0 <= i < |card| && !(blk * BLOCKLEN <= i < blk * BLOCKLEN + MAX_TRANSFER) ==> card[i] == old(card)[i]
    {
      hide Splice;
      if off != 0 || |part| % BLOCKLEN != 0 {
        err := ModifyPart(blk, off, part);
      } else {
        ghost var buffer := dataBuffer[..];
        MemCpy(dataBuffer, 0, part);
        PutInFront(buffer, |part|, 0, part);
        assert dataBuffer[..|part|] == dataBuffer[..][..|part|];
        err := WriteBlocks(blk, |part| / BLOCKLEN);
      }
    }

    /** Reads the block, changes it and writes it back. */
    method ModifyPart(blk: nat, off: nat, part: seq<Byte>) returns (err: int)
      requires Valid() && off + |part| <= BLOCKLEN
      modifies `transfers, `failures, `card, dataBuffer
      ensures failures == old(failures) + if err < 0 then 1 else 0
      ensures Valid()
      ensures old(Tame()) ==> TameBefore() && (err >= 0 || (blk + 1) * BLOCKLEN <= |card| ==> Tame())
      ensures err >= 0 ==> (blk + 1) * BLOCKLEN <= |card| && card == Splice(old(card), blk * BLOCKLEN + off, part)
      ensures forall i :: 0 <= i < |card| && !(blk * BLOCKLEN <= i < (blk + 1) * BLOCKLEN) ==> card[i] == old(card)[i]
    {
      hide Splice;
      ghost var at, buffer := blk * BLOCKLEN, dataBuffer[..];
      err := ReadBlocks(blk, 1);
      if err < 0 {
        return;
      }
      SpliceFront(buffer, card[at..at + BLOCKLEN]);
      SpliceBack(card, at, BLOCKLEN, off, part);
      PutInFront(dataBuffer[..], BLOCKLEN, off, part);
      MemCpy(dataBuffer, off, part);
      assert dataBuffer[..BLOCKLEN] == dataBuffer[..][..BLOCKLEN];
      err := WriteBlocks(blk, 1);
    }

    /** Reads `n` bytes at `off` of block `blk`, which lie in one transfer. */
    method Cut(blk: nat, off: nat, n: nat) returns (err: int, part: seq<Byte>)
      requires Valid() && off < BLOCKLEN && (off == 0 ==> 0 < n <= MAX_TRANSFER) && (off != 0 ==> off + n <= BLOCKLEN)
      modifies `transfers, `failures, dataBuffer
      ensures failures == old(failures) + if err < 0 then 1 else 0
      ensures Valid()
      ensures old(Tame()) ==> TameBefore() && (err >= 0 || blk * BLOCKLEN + off + n <= |card| ==> Tame())
      ensures err >= 0 ==> blk * BLOCKLEN + off + n <= |card| && part == card[blk * BLOCKLEN + off..blk * BLOCKLEN + off + n]
    {
      hide Splice;
      part := [];
      var blocks := if off != 0 then 1 else if n % BLOCKLEN != 0 then n / BLOCKLEN + 1 else n / BLOCKLEN;
      ghost var buffer := dataBuffer[..];
      err := ReadBlocks(blk, blocks);
      if err >= 0 {
        ghost var at, len := blk * BLOCKLEN, blocks * BLOCKLEN;
        SpliceFront(buffer, card[at..at + len]);
        SubSlice(card, at, len, off, n);
        SubSlice(dataBuffer[..], 0, len, off, n);
        part := dataBuffer[..][off..off + n];
      }
    }

    /** One transfer of readwrite, from or to `buff` at `done`. */
    method Round(write: bool, blk: nat, off: nat, buff: array<Byte>, done: nat, n: nat, ghost card0: seq<Byte>, ghost buff0: seq<Byte>)
      returns (err: int)
      requires Valid() && buff != dataBuffer && done + n <= buff.Length && |buff0| == buff.Length && |card0| == |card| && blk * BLOCKLEN + off >= done
      requires off < BLOCKLEN && (off == 0 ==> n > 0) && (off + n <= BLOCKLEN || (off == 0 && n <= MAX_TRANSFER && (write ==> n == MAX_TRANSFER)))
      requires Progress(write, blk * BLOCKLEN + off - done, done, card0, buff0, card, buff[..])
      modifies `transfers, `failures, `card, dataBuffer, buff
      ensures failures == old(failures) + if err < 0 then 1 else 0
      ensures Valid()
      ensures old(Tame()) ==> TameBefore() && (err >= 0 || blk * BLOCKLEN + off + n <= |card| ==> Tame())
      ensures write ==> buff[..] == buff0
      ensures !write ==> card == card0
      ensures err >= 0 ==> Progress(write, blk * BLOCKLEN + off - done, done + n, card0, buff0, card, buff[..])
      ensures err >= 0 ==> blk * BLOCKLEN + off + n <= |card|
    {
      hide Tame, TameBefore, Progress, Splice;
      ghost var offs := blk * BLOCKLEN + off - done;
      ProgressEnds(write, offs, done, card0, buff0, card, buff[..]);
      if write {
        ghost var card1 := card;
        err := Modify(blk, off, buff[..][done..done + n]);
        if err >= 0 {
          ProgressWrite(offs, done, n, card0, buff0, card1, card);
        }
      } else {
        var part;
        err, part := Cut(blk, off, n);
        if err >= 0 {
          ProgressRead(offs, done, n, card0, buff0, buff[..]);
          MemCpy(buff, done, part);
        }
      }
    }

    /** The loop of readwrite over the blocks that start at a block boundary. */
    method Rounds(write: bool, blk0: nat, buff: array<Byte>, done0: nat, len: nat, ghost card0: seq<Byte>, ghost buff0: seq<Byte>)
      returns (err: int)
      requires Valid() && buff != dataBuffer && done0 <= len <= buff.Length && |buff0| == buff.Length && |card0| == |card|
      requires done0 < len ==> blk0 * BLOCKLEN >= done0
      requires done0 < len ==> Progress(write, blk0 * BLOCKLEN - done0, done0, card0, buff0, card, buff[..])
      modifies `transfers, `failures, `card, dataBuffer, buff
      ensures failures == old(failures) + if err < 0 then 1 else 0
      ensures Valid()
      ensures old(Tame()) ==> TameBefore() && (err >= 0 || blk0 * BLOCKLEN - done0 + len <= |card| ==> Tame())
      ensures if write then buff[..] == old(buff[..]) else card == old(card)
      ensures err >= 0 && done0 < len ==> Progress(write, blk0 * BLOCKLEN - done0, len, card0, buff0, card, buff[..])
      ensures done0 == len ==> err >= 0 && card == old(card) && buff[..] == old(buff[..])
    {
      hide Progress, Splice;
      ghost var offs := blk0 * BLOCKLEN - done0;
      if done0 < len {
        ProgressEnds(write, offs, done0, card0, buff0, card, buff[..]);
      }
      var done, blk := done0, blk0;
      err := 0;
      while done < len
        invariant done0 <= done <= len && (done < len ==> blk * BLOCKLEN == offs + done)
        invariant Valid() && (old(Tame()) ==> Tame()) && err >= 0 && failures == old(failures)
        invariant done0 < len ==> Progress(write, offs, done, card0, buff0, card, buff[..])
        invariant if write then buff[..] == old(buff[..]) else card == old(card)
        invariant done0 == len ==> card == old(card) && buff[..] == old(buff[..])
      {
        var n := Min(MAX_TRANSFER, len - done);
        if write && n / BLOCKLEN > 0 {
          n := n / BLOCKLEN * BLOCKLEN;
        }
        err := Round(write, blk, 0, buff, done, n, card0, buff0);
        if err < 0 {
          return;
        }
        done, blk := done + n, blk + (n + BLOCKLEN - 1) / BLOCKLEN;
      }
    }

    method ReadWrite(offs: U32, buff: array<Byte>, len: U32, write: bool) returns (r: int)
      requires Valid() && buff != dataBuffer && len <= buff.Length
      modifies `transfers, `failures, `card, dataBuffer, buff
      ensures Valid()
      // the call fails exactly if it is refused or a transfer fails, and moves all bytes if not
      ensures r < 0 <==> !initialized || !Accepts(sizeBl, offs, len) || failures > old(failures)
      ensures failures <= old(failures) + 1
      ensures r >= 0 ==> r == len && (len > 0 ==> InRange(sizeBl, offs, len))
      ensures !initialized || !Accepts(sizeBl, offs, len) ==> r == EINVAL && transfers == old(transfers) && failures == old(failures) && card == old(card)
      // every transfer is one of blocks of the card, if the range is or the check is exact; else the first one past the card ends the call
      ensures old(Tame()) && (NoWrap(offs, len) || InRange(sizeBl, offs, len)) ==> Tame()
      ensures old(Tame()) ==> Tame() || (r < 0 && TameBefore())
      // a write changes exactly its bytes of the card, a read exactly its bytes of the buffer
      ensures if write then buff[..] == old(buff[..]) else card == old(card)
      ensures r >= 0 && len > 0 ==>
                if write then card == Splice(old(card), offs, buff[..][..len])
                else buff[..] == Splice(old(buff[..]), 0, card[offs..offs + len])
      ensures r >= 0 && len == 0 ==> card == old(card) && buff[..] == old(buff[..])
    {
      hide Accepts, NoWrap, Tame, TameBefore, Progress, Splice;
      if !initialized || !Accepts(sizeBl, offs, len) {
        return EINVAL;
      }
      CheckIsExact(sizeBl, offs, len);
      ghost var card0, buff0 := card, buff[..];
      ProgressStarts(write, offs, card0, buff0);
      var done, blk := 0, offs / BLOCKLEN;
      if offs % BLOCKLEN != 0 {
        var n := Min(len, BLOCKLEN - offs % BLOCKLEN);
        r := Round(write, blk, offs % BLOCKLEN, buff, 0, n, card0, buff0);
        if r < 0 {
          return;
        }
        done, blk := n, blk + 1;
      }
      r := Rounds(write, blk, buff, done, len, card0, buff0);
      if r >= 0 {
        ProgressEnds(write, offs, len, card0, buff0, card, buff[..]);
        r := len;
      }
    }
  }
}
