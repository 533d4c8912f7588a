/**
 An uncached device of eraseblocks, some of them bad: what reading and writing over the good
 blocks means, and what moving one block forward does to it.
 */
module NandWalk {
  import opened Bytes

  type Block = seq<Byte>

  /** What an erased byte reads as. */
  const ERASED: Byte := 0xff

  ghost predicate Shaped(disk: seq<Block>, es: nat) {
    forall b :: 0 <= b < |disk| ==> |disk[b]| == es
  }

  // ---------------------------------------------------------------------------------------
  // The uncached device: an array of blocks walked over good blocks only.

  function WalkRead(disk: seq<Block>, bad: set<nat>, es: nat, block: nat, boffs: nat, len: nat): (r: seq<Byte>)
    requires Shaped(disk, es) && boffs < es
    decreases |disk| - block
  {
    if block >= |disk| || len == 0 then []
    else if block in bad then WalkRead(disk, bad, es, block + 1, boffs, len)
    else
      var size := Min(len, es - boffs);
      disk[block][boffs..boffs + size] + WalkRead(disk, bad, es, block + 1, 0, len - size)
  }

  function WalkWrite(disk: seq<Block>, bad: set<nat>, es: nat, block: nat, boffs: nat, data: seq<Byte>): (r: seq<Block>)
    requires Shaped(disk, es) && boffs < es
    ensures |r| == |disk| && Shaped(r, es)
    decreases |disk| - block
  {
    if block >= |disk| || data == [] then disk
    else if block in bad then WalkWrite(disk, bad, es, block + 1, boffs, data)
    else
      var size := Min(|data|, es - boffs);
      var disk' := disk[block := Splice(disk[block], boffs, data[..size])];
      WalkWrite(disk', bad, es, block + 1, 0, data[size..])
  }

  /** How many of `len` bytes a walk from `block`, `boffs` finds room for. */
  function WalkSize(n: nat, bad: set<nat>, es: nat, block: nat, boffs: nat, len: nat): (r: nat)
    requires boffs < es
    decreases n - block
  {
    if block >= n || len == 0 then 0
    else if block in bad then WalkSize(n, bad, es, block + 1, boffs, len)
    else
      var size := Min(len, es - boffs);
      size + WalkSize(n, bad, es, block + 1, 0, len - size)
  }

  /** One step of a reader that has `data` already. */
  lemma ReadStep(disk: seq<Block>, bad: set<nat>, es: nat, block: nat, boffs: nat, len: nat, data: seq<Byte>)
    requires Shaped(disk, es) && boffs < es && block < |disk| && block !in bad && len > 0
    ensures var part := Clip(disk[block], boffs, len);
            && |part| == Min(len, es - boffs)
            && data + WalkRead(disk, bad, es, block, boffs, len)
               == data + part + WalkRead(disk, bad, es, block + 1, 0, len - |part|)
  {
  }

  // ---------------------------------------------------------------------------------------
  // What the walks mean: the good blocks from `lo` up to `hi`, joined, are one byte stream.

  function Stream(disk: seq<Block>, bad: set<nat>, lo: nat, hi: nat): (s: seq<Byte>)
    requires hi <= |disk|
    decreases hi - lo
  {
    if lo >= hi then []
    else (if lo in bad then [] else disk[lo]) + Stream(disk, bad, lo + 1, hi)
  }

  /** The part of `s` a read of `len` bytes at `at` sees. */
  function Clip(s: seq<Byte>, at: nat, len: nat): (r: seq<Byte>) {
    s[Min(at, |s|)..Min(at + len, |s|)]
  }

  lemma ClipStep(s: seq<Byte>, at: nat, size: nat, next: nat, len: nat, data: seq<Byte>)
    requires size <= len && at + size <= |s| && (size < len ==> next == at + size)
    ensures data + Clip(s, at, len) == (data + s[at..at + size]) + Clip(s, next, len - size)
  {
  }

  lemma ClipEnds(s: seq<Byte>, at: nat, len: nat)
    requires len == 0 || at >= |s|
    ensures Clip(s, at, len) == []
  {
  }

  lemma {:induction false} ReadIsStream(disk: seq<Block>, bad: set<nat>, es: nat, block: nat, boffs: nat, len: nat)
    requires Shaped(disk, es) && boffs < es
    ensures WalkRead(disk, bad, es, block, boffs, len) == Clip(Stream(disk, bad, block, |disk|), boffs, len)
    decreases |disk| - block
  {
    hide WalkRead, Stream, Clip;
    ReadUnfold(disk, bad, es, block, boffs, len);
    if block >= |disk| || len == 0 {
      ClipEnds(Stream(disk, bad, block, |disk|), boffs, len);
    } else if block in bad {
      ReadIsStream(disk, bad, es, block + 1, boffs, len);
    } else {
      ReadIsStream(disk, bad, es, block + 1, 0, len - Min(len, es - boffs));
      ClipAcross(disk[block], Stream(disk, bad, block + 1, |disk|), boffs, len);
    }
  }

  /** The first step of a walk, and of what it walks over. */
  lemma ReadUnfold(disk: seq<Block>, bad: set<nat>, es: nat, block: nat, boffs: nat, len: nat)
    requires Shaped(disk, es) && boffs < es
    ensures if block >= |disk| || len == 0 then
              WalkRead(disk, bad, es, block, boffs, len) == [] && (block >= |disk| ==> Stream(disk, bad, block, |disk|) == [])
            else if block in bad then
              && WalkRead(disk, bad, es, block, boffs, len) == WalkRead(disk, bad, es, block + 1, boffs, len)
              && Stream(disk, bad, block, |disk|) == Stream(disk, bad, block + 1, |disk|)
            else
              var size := Min(len, es - boffs);
              && WalkRead(disk, bad, es, block, boffs, len)
                 == disk[block][boffs..boffs + size] + WalkRead(disk, bad, es, block + 1, 0, len - size)
              && Stream(disk, bad, block, |disk|) == disk[block] + Stream(disk, bad, block + 1, |disk|)
  {
  }

  lemma ClipAcross(a: seq<Byte>, t: seq<Byte>, at: nat, len: nat)
    requires at < |a|
    ensures var size := Min(len, |a| - at);
            Clip(a + t, at, len) == a[at..at + size] + Clip(t, 0, len - size)
  {
  }

  lemma {:induction false} StreamFrame(d1: seq<Block>, bad1: set<nat>, d2: seq<Block>, bad2: set<nat>, lo: nat, hi: nat)
    requires hi <= |d1| && hi <= |d2|
    requires forall b: nat :: lo <= b < hi ==> (b in bad1 <==> b in bad2) && (b !in bad1 ==> d1[b] == d2[b])
    ensures Stream(d1, bad1, lo, hi) == Stream(d2, bad2, lo, hi)
    decreases hi - lo
  {
    if lo < hi {
      StreamFrame(d1, bad1, d2, bad2, lo + 1, hi);
    }
  }

  lemma {:induction false} StreamJoin(disk: seq<Block>, bad: set<nat>, lo: nat, mid: nat, hi: nat)
    requires lo <= mid <= hi <= |disk|
    ensures Stream(disk, bad, lo, hi) == Stream(disk, bad, lo, mid) + Stream(disk, bad, mid, hi)
    decreases mid - lo
  {
    if lo < mid {
      StreamJoin(disk, bad, lo + 1, mid, hi);
    }
  }

  lemma {:induction false} StreamAllBad(disk: seq<Block>, bad: set<nat>, lo: nat, hi: nat)
    requires lo <= hi <= |disk|
    requires forall b: nat :: lo <= b < hi ==> b in bad
    ensures Stream(disk, bad, lo, hi) == []
    decreases hi - lo
  {
    if lo < hi {
      StreamAllBad(disk, bad, lo + 1, hi);
    }
  }

  lemma StreamLast(disk: seq<Block>, bad: set<nat>, lo: nat, b: nat)
    requires lo <= b < |disk|
    ensures Stream(disk, bad, lo, b + 1) == Stream(disk, bad, lo, b) + if b in bad then [] else disk[b]
  {
    StreamJoin(disk, bad, lo, b, b + 1);
  }

  /** A walk finds room for exactly what a read of the same range would see. */
  lemma {:induction false} SizeIsClip(disk: seq<Block>, bad: set<nat>, es: nat, block: nat, boffs: nat, len: nat)
    requires Shaped(disk, es) && boffs < es
    ensures WalkSize(|disk|, bad, es, block, boffs, len) == |Clip(Stream(disk, bad, block, |disk|), boffs, len)| <= len
    decreases |disk| - block
  {
    if block < |disk| && len > 0 {
      if block in bad {
        SizeIsClip(disk, bad, es, block + 1, boffs, len);
      } else {
        SizeIsClip(disk, bad, es, block + 1, 0, len - Min(len, es - boffs));
      }
    }
  }

  lemma {:induction false} WriteFrame(disk: seq<Block>, bad: set<nat>, es: nat, block: nat, boffs: nat, data: seq<Byte>)
    requires Shaped(disk, es) && boffs < es
    ensures forall b: nat :: b < |disk| && (b < block || b in bad) ==> WalkWrite(disk, bad, es, block, boffs, data)[b] == disk[b]
    decreases |disk| - block
  {
    if block < |disk| && data != [] {
      if block in bad {
        WriteFrame(disk, bad, es, block + 1, boffs, data);
      } else {
        var size := Min(|data|, es - boffs);
        WriteFrame(disk[block := Splice(disk[block], boffs, data[..size])], bad, es, block + 1, 0, data[size..]);
      }
    }
  }

  /** `s` with as much of `data` as fits written over it from `at` on. */
  function Overwrite(s: seq<Byte>, at: nat, data: seq<Byte>): (r: seq<Byte>) {
    seq(|s|, i requires 0 <= i < |s| => if at <= i < at + |data| then data[i - at] else s[i])
  }

  lemma OverwriteAcross(a: seq<Byte>, t: seq<Byte>, at: nat, data: seq<Byte>)
    requires at < |a|
    ensures var size := Min(|data|, |a| - at);
            Overwrite(a + t, at, data) == Splice(a, at, data[..size]) + Overwrite(t, 0, data[size..])
  {
    var size := Min(|data|, |a| - at);
    var l, r := Overwrite(a + t, at, data), Splice(a, at, data[..size]) + Overwrite(t, 0, data[size..]);
    forall i | 0 <= i < |a + t| ensures l[i] == r[i] {
      if i < |a| {
        assert r[i] == Splice(a, at, data[..size])[i];
      } else {
        assert r[i] == Overwrite(t, 0, data[size..])[i - |a|];
      }
    }
  }

  /** A walk writes one contiguous stretch of the stream, clipped at its end. */
  lemma {:induction false} WriteIsOverwrite(disk: seq<Block>, bad: set<nat>, es: nat, block: nat, boffs: nat, data: seq<Byte>)
    requires Shaped(disk, es) && boffs < es
    ensures Stream(WalkWrite(disk, bad, es, block, boffs, data), bad, block, |disk|)
            == Overwrite(Stream(disk, bad, block, |disk|), boffs, data)
    decreases |disk| - block
  {
    if block < |disk| && data != [] {
      var w := WalkWrite(disk, bad, es, block, boffs, data);
      var t := Stream(disk, bad, block + 1, |disk|);
      if block in bad {
        WriteIsOverwrite(disk, bad, es, block + 1, boffs, data);
        assert Stream(w, bad, block, |disk|) == Stream(w, bad, block + 1, |disk|);
        assert Stream(disk, bad, block, |disk|) == t;
      } else {
        var size := Min(|data|, es - boffs);
        var disk' := disk[block := Splice(disk[block], boffs, data[..size])];
        WriteIsOverwrite(disk', bad, es, block + 1, 0, data[size..]);
        StreamFrame(disk, bad, disk', bad, block + 1, |disk|);
        WriteFrame(disk', bad, es, block + 1, 0, data[size..]);
        OverwriteAcross(disk[block], t, boffs, data);
        assert Stream(w, bad, block, |disk|) == w[block] + Stream(w, bad, block + 1, |disk|);
      }
    }
  }

  /** Reading back what was written, without any cache in between. */
  lemma ReadAfterWrite(disk: seq<Block>, bad: set<nat>, es: nat, block: nat, boffs: nat, data: seq<Byte>)
    requires Shaped(disk, es) && boffs < es
    ensures var n := WalkSize(|disk|, bad, es, block, boffs, |data|);
            n <= |data| &&
            WalkRead(WalkWrite(disk, bad, es, block, boffs, data), bad, es, block, boffs, n) == data[..n]
  {
    var s := Stream(disk, bad, block, |disk|);
    var n := WalkSize(|disk|, bad, es, block, boffs, |data|);
    SizeIsClip(disk, bad, es, block, boffs, |data|);
    WriteIsOverwrite(disk, bad, es, block, boffs, data);
    ReadIsStream(WalkWrite(disk, bad, es, block, boffs, data), bad, es, block, boffs, n);
    ClipOverwrite(s, boffs, data);
  }

  lemma ClipOverwrite(s: seq<Byte>, at: nat, data: seq<Byte>)
    ensures var n := |Clip(s, at, |data|)|;
            n <= |data| && Clip(Overwrite(s, at, data), at, n) == data[..n]
  {
  }

  // ---------------------------------------------------------------------------------------
  // Moving the cached block forward.

  /** A sync on behalf of an access to block `at` took the cached block from one block to another. */
  datatype SyncTo = SyncTo(at: nat, from: nat, to: nat) {
    /** From below the block accessed onto it or past it. */
    predicate Overtakes() {
      from < at <= to
    }
  }

  /** Every sync that overtook its access ended right there. */
  predicate Landed(syncs: seq<SyncTo>) {
    forall e :: e in syncs && e.Overtakes() ==> e.to == e.at
  }

  predicate NoneOvertakes(syncs: seq<SyncTo>) {
    forall e :: e in syncs ==> !e.Overtakes()
  }

  /** How many overtook and came from block `lo` on. */
  function Behind(syncs: seq<SyncTo>, lo: nat): (n: nat)
  {
    if syncs == [] then 0
    else
      var e := syncs[|syncs| - 1];
      Behind(syncs[..|syncs| - 1], lo) + if e.Overtakes() && lo <= e.from then 1 else 0
  }

  lemma BehindNext(syncs: seq<SyncTo>, e: SyncTo, lo: nat)
    ensures Behind(syncs + [e], lo) == Behind(syncs, lo) + if e.Overtakes() && lo <= e.from then 1 else 0
    ensures Landed(syncs + [e]) <==> Landed(syncs) && (e.Overtakes() ==> e.to == e.at)
    ensures NoneOvertakes(syncs + [e]) <==> NoneOvertakes(syncs) && !e.Overtakes()
  {
    assert (syncs + [e])[..|syncs|] == syncs;
    assert e in syncs + [e] && forall d :: d in syncs ==> d in syncs + [e];
  }

  lemma {:induction false} NoneBehind(syncs: seq<SyncTo>, lo: nat)
    requires NoneOvertakes(syncs)
    ensures Landed(syncs) && Behind(syncs, lo) == 0
  {
    if syncs != [] {
      var n := |syncs| - 1;
      assert syncs[n] in syncs && forall d :: d in syncs[..n] ==> d in syncs;
      NoneBehind(syncs[..n], lo);
    }
  }

  /** Those that overtook ended right there, and if there are any, all pages could be read. */
  predicate KnownFrom(syncs: seq<SyncTo>, allRead: bool) {
    Landed(syncs) && (allRead || NoneOvertakes(syncs))
  }

  /** Each that overtook and came from block `lo` on cost a block of the count, or the last piece. */
  predicate CostOf(lost: nat, syncs: seq<SyncTo>, es: nat, lo: nat, more: bool) {
    var all := Off(Behind(syncs, lo), es);
    lost <= all && if more || all == 0 then lost == all else all < lost + es
  }

  lemma OneIs(moved: seq<SyncTo>)
    requires |moved| <= 1
    ensures NoneOvertakes(moved) <==> moved == [] || !moved[0].Overtakes()
    ensures Landed(moved) <==> moved == [] || !moved[0].Overtakes() || moved[0].to == moved[0].at
  {
    assert moved != [] ==> moved == [moved[0]];
  }

  lemma NoneNext(syncs: seq<SyncTo>, moved: seq<SyncTo>)
    requires |moved| <= 1
    ensures NoneOvertakes(syncs + moved) <==> NoneOvertakes(syncs) && NoneOvertakes(moved)
  {
    if moved == [] {
      assert syncs + moved == syncs;
    } else {
      assert moved == [moved[0]];
      BehindNext(syncs, moved[0], 0);
    }
  }

  lemma KnownBefore(syncs: seq<SyncTo>, moved: seq<SyncTo>, read: bool, readNow: bool)
    requires |moved| <= 1 && KnownFrom(syncs + moved, read && readNow)
    ensures KnownFrom(syncs, read) && KnownFrom(moved, readNow)
  {
    if moved == [] {
      assert syncs + moved == syncs;
    } else {
      assert moved == [moved[0]];
      BehindNext(syncs, moved[0], 0);
    }
  }

  lemma CostNext(syncs: seq<SyncTo>, moved: seq<SyncTo>, lost: nat, cost: nat, es: nat, lo: nat, more: bool)
    requires |moved| <= 1 && es > 0 && CostOf(lost, syncs, es, lo, true)
    requires if moved != [] && moved[0].Overtakes() && lo <= moved[0].from then 0 < cost <= es && (more ==> cost == es) else cost == 0
    ensures CostOf(lost + cost, syncs + moved, es, lo, more)
  {
    hide Behind, Off, Landed, NoneOvertakes;
    if moved == [] {
      assert syncs + moved == syncs;
    } else {
      assert moved == [moved[0]];
      BehindNext(syncs, moved[0], lo);
      OffNext(Behind(syncs, lo), es);
      OffMono(0, Behind(syncs, lo), es);
    }
  }

  /** The image of block `c` now sits in the good block `c1`; every block from `c` up to it is bad. */
  ghost predicate Moved(flash0: seq<Block>, bad0: set<nat>, c: nat, image: Block, flash1: seq<Block>, bad1: set<nat>, c1: nat) {
    && c <= c1 < |flash0| == |flash1|
    && c1 !in bad1 && flash1[c1] == image
    && (forall b: nat :: b in bad1 <==> b in bad0 || c <= b < c1)
    && (forall b: nat :: b < |flash0| && (b < c || b > c1) ==> flash1[b] == flash0[b])
  }

  /** Relocation does not disturb the stream that ends with the cached block. */
  lemma MovedStream(flash0: seq<Block>, bad0: set<nat>, c: nat, image: Block, flash1: seq<Block>, bad1: set<nat>, c1: nat, lo: nat)
    requires Moved(flash0, bad0, c, image, flash1, bad1, c1) && lo <= c && c !in bad0
    ensures Stream(flash0[c := image], bad0, lo, c + 1) == Stream(flash1, bad1, lo, c1 + 1)
  {
    var view := flash0[c := image];
    StreamFrame(view, bad0, flash1, bad1, lo, c);
    StreamLast(view, bad0, lo, c);
    StreamLast(flash1, bad1, lo, c1);
    StreamJoin(flash1, bad1, lo, c, c1);
    StreamAllBad(flash1, bad1, c, c1);
  }

  /** A walk from the start writes what the walk from here, with the rest of the data, still has to write. */
  ghost predicate Remains(disk0: seq<Block>, bad: set<nat>, es: nat, block0: nat, boffs0: nat, data: seq<Byte>,
                          disk: seq<Block>, block: nat, boffs: nat, done: nat)
  {
    && Shaped(disk0, es) && Shaped(disk, es) && |disk| == |disk0| && boffs0 < es && boffs < es && done <= |data|
    && WalkWrite(disk0, bad, es, block0, boffs0, data) == WalkWrite(disk, bad, es, block, boffs, data[done..])
    && WalkSize(|disk|, bad, es, block0, boffs0, |data|) == done + WalkSize(|disk|, bad, es, block, boffs, |data| - done)
  }

  lemma RemainsEnds(disk0: seq<Block>, bad: set<nat>, es: nat, block0: nat, boffs0: nat, data: seq<Byte>,
                    disk: seq<Block>, block: nat, boffs: nat, done: nat)
    requires Shaped(disk0, es) && boffs0 < es
    ensures Remains(disk0, bad, es, block0, boffs0, data, disk0, block0, boffs0, 0)
    ensures Remains(disk0, bad, es, block0, boffs0, data, disk, block, boffs, done) && (block >= |disk| || done == |data|) ==>
              disk == WalkWrite(disk0, bad, es, block0, boffs0, data) && done == WalkSize(|disk0|, bad, es, block0, boffs0, |data|)
    ensures Remains(disk0, bad, es, block0, boffs0, data, disk, block, boffs, done) && block in bad ==>
              Remains(disk0, bad, es, block0, boffs0, data, disk, block + 1, boffs, done)
  {
    assert data[0..] == data;
  }

  lemma RemainsStep(disk0: seq<Block>, bad: set<nat>, es: nat, block0: nat, boffs0: nat, data: seq<Byte>,
                    disk: seq<Block>, block: nat, boffs: nat, done: nat)
    requires Remains(disk0, bad, es, block0, boffs0, data, disk, block, boffs, done)
    requires block < |disk| && block !in bad && done < |data|
    ensures var n := Min(|data| - done, es - boffs);
            Remains(disk0, bad, es, block0, boffs0, data,
              disk[block := Splice(disk[block], boffs, data[done..][..n])], block + 1, 0, done + n)
  {
    var n := Min(|data| - done, es - boffs);
    assert data[done..][n..] == data[done + n..];
  }

  // ---------------------------------------------------------------------------------------
  // What a writer has achieved so far, whatever fails around it.

  /**
   A writer that started at block `lo`, offset `o`, and is now at `block` has written `data`:
   the bytes are in the stream before `block`, and a cached block `wb` (if `wc`) is the last
   good block there, so that moving it forward moves the end of the data only.
   Before the first byte every block is bad and the cached one is not behind the writer.
   */
  ghost predicate Written(view: seq<Block>, bad: set<nat>, wc: bool, wb: nat, lo: nat, o: nat, block: nat, data: seq<Byte>, more: bool) {
    && lo <= block <= |view|
    && (wc ==> wb !in bad)
    && if data == [] then
         (forall b: nat :: lo <= b < block ==> b in bad) && (wc ==> wb >= block)
       else
         && (wc ==> lo <= wb < block && forall b: nat :: wb < b < block ==> b in bad)
         && (var s := Stream(view, bad, lo, block);
             && o + |data| <= |s| && s[o..o + |data|] == data
             && (more ==> |s| == o + |data|))
  }

  lemma WrittenEnds(view: seq<Block>, bad: set<nat>, wc: bool, wb: nat, lo: nat, o: nat, block: nat, data: seq<Byte>, more: bool)
    requires lo <= |view|
    ensures wc && wb >= lo && wb !in bad ==> Written(view, bad, wc, wb, lo, o, lo, [], true)
    ensures !wc ==> Written(view, bad, wc, wb, lo, o, lo, [], true)
    ensures Written(view, bad, wc, wb, lo, o, block, data, more) ==> Written(view, bad, wc, wb, lo, o, block, data, false)
  {
  }

  /** With nothing cached, the number of the cached block does not matter. */
  lemma WrittenUncached(view: seq<Block>, bad: set<nat>, wb: nat, wb': nat, lo: nat, o: nat, block: nat, data: seq<Byte>, more: bool)
    ensures Written(view, bad, false, wb, lo, o, block, data, more) <==> Written(view, bad, false, wb', lo, o, block, data, more)
  {
  }

  /** Before the first byte, with nothing cached, all that counts is that nothing good lies in front. */
  lemma WrittenFresh(view: seq<Block>, bad: set<nat>, lo: nat, o: nat, block: nat)
    requires lo <= block <= |view|
    ensures Written(view, bad, false, 0, lo, o, block, [], true) <==> forall b: nat :: lo <= b < block ==> b in bad
  {
  }

  /** Nor does it matter if the block here is cached already. */
  lemma WrittenAt(view: seq<Block>, bad: set<nat>, lo: nat, o: nat, block: nat)
    requires lo <= block < |view| && block !in bad && forall b: nat :: lo <= b < block ==> b in bad
    ensures Written(view, bad, true, block, lo, o, block, [], true)
  {
  }

  lemma SkipBad(view: seq<Block>, bad: set<nat>, bad': set<nat>, wc: bool, wb: nat, lo: nat, o: nat, block: nat, data: seq<Byte>)
    requires Written(view, bad, wc, wb, lo, o, block, data, true) && block < |view|
    requires bad' == bad + {block} && (wc ==> wb != block || block in bad)
    ensures Written(view, bad', wc, wb, lo, o, block + 1, data, true)
  {
    StreamFrame(view, bad, view, bad', lo, block);
    StreamLast(view, bad', lo, block);
  }

  /** A sync on the way: the writer goes on behind the cached block if that moved onto or past it. */
  lemma SyncKeeps(flash0: seq<Block>, bad0: set<nat>, c: nat, image: Block, flash1: seq<Block>, bad1: set<nat>, c1: nat,
                  lo: nat, o: nat, block: nat, data: seq<Byte>)
    requires Moved(flash0, bad0, c, image, flash1, bad1, c1)
    requires Written(flash0[c := image], bad0, true, c, lo, o, block, data, true)
    requires block < |flash0| && block !in bad0 && block != c
    ensures Written(flash1, bad1, false, 0, lo, o, if c < block <= c1 then c1 + 1 else block, data, true)
  {
    if data != [] {
      var view := flash0[c := image];
      StreamJoin(view, bad0, lo, c + 1, block);
      StreamAllBad(view, bad0, c + 1, block);
      MovedStream(flash0, bad0, c, image, flash1, bad1, c1, lo);
      if c1 < block {
        assert c1 == c;
        StreamJoin(flash1, bad1, lo, c + 1, block);
        StreamAllBad(flash1, bad1, c + 1, block);
      }
    }
  }

  /** A sync after the last byte: the data still is in the stream, up to where the cached block went. */
  lemma SyncEnds(flash0: seq<Block>, bad0: set<nat>, c: nat, image: Block, flash1: seq<Block>, bad1: set<nat>, c1: nat,
                 lo: nat, o: nat, block: nat, data: seq<Byte>)
    requires Moved(flash0, bad0, c, image, flash1, bad1, c1) && data != []
    requires Written(flash0[c := image], bad0, true, c, lo, o, block, data, false)
    ensures Written(flash1, bad1, false, 0, lo, o, c1 + 1, data, false)
  {
    StreamJoin(flash0[c := image], bad0, lo, c + 1, block);
    StreamAllBad(flash0[c := image], bad0, c + 1, block);
    MovedStream(flash0, bad0, c, image, flash1, bad1, c1, lo);
  }

  /** Filling the next block, which then is the cached one. */
  lemma CopyKeeps(view: seq<Block>, bad: set<nat>, wc: bool, lo: nat, o: nat, block: nat, data: seq<Byte>,
                  image: Block, boffs: nat, part: seq<Byte>, more: bool)
    requires Written(view, bad, wc, block, lo, o, block, data, true) && block < |view| && block !in bad
    requires boffs == (if data == [] then o else 0) && boffs + |part| <= |image| && part != []
    requires image[boffs..boffs + |part|] == part && (more ==> boffs + |part| == |image|)
    ensures Written(view[block := image], bad, true, block, lo, o, block + 1, data + part, more)
  {
    var view' := view[block := image];
    StreamFrame(view, bad, view', bad, lo, block);
    StreamLast(view', bad, lo, block);
    if data == [] {
      StreamAllBad(view, bad, lo, block);
    }
  }

  /** What is cached matters only for later syncs. */
  lemma WrittenForgets(view: seq<Block>, bad: set<nat>, wc: bool, wb: nat, lo: nat, o: nat, block: nat, data: seq<Byte>, more: bool)
    requires Written(view, bad, wc, wb, lo, o, block, data, more)
    ensures Written(view, bad, false, 0, lo, o, block, data, more)
  {
  }

  /** A completed write, once synced, is what a reader of the same range sees. */
  lemma WrittenIsRead(view: seq<Block>, bad: set<nat>, es: nat, lo: nat, o: nat, block: nat, data: seq<Byte>)
    requires Shaped(view, es) && o < es && Written(view, bad, false, 0, lo, o, block, data, false)
    ensures WalkRead(view, bad, es, lo, o, |data|) == data
  {
    ReadIsStream(view, bad, es, lo, o, |data|);
    StreamJoin(view, bad, lo, block, |view|);
  }

  /** A reader that starts in front of one more good block gets that block first. */
  lemma BlockInFront(disk: seq<Block>, bad: set<nat>, es: nat, lo: nat, to: nat, boffs: nat, len: nat)
    requires Shaped(disk, es) && boffs < es && lo <= to < |disk| && to !in bad
    requires forall b: nat :: lo <= b < to ==> b in bad
    ensures WalkRead(disk, bad, es, lo, boffs, len) == Clip(disk[to] + Stream(disk, bad, to + 1, |disk|), boffs, len)
  {
    ReadIsStream(disk, bad, es, lo, boffs, len);
    StreamJoin(disk, bad, lo, to, |disk|);
    StreamAllBad(disk, bad, lo, to);
  }

  /**
   What becomes of a write behind a cached block that a sync moves from below the start onto or
   past it: the writer goes on behind the moved block at the same offset, and a reader of the
   range gets the moved image first and the data one block late.
   */
  lemma BehindIsLost(flash0: seq<Block>, bad0: set<nat>, c: nat, image: Block, flash1: seq<Block>, bad1: set<nat>, c1: nat,
                     es: nat, block: nat, boffs: nat, data: seq<Byte>)
    requires Moved(flash0, bad0, c, image, flash1, bad1, c1) && c < block <= c1
    requires Shaped(flash1, es) && boffs < es
    ensures WalkRead(WalkWrite(flash1, bad1, es, c1 + 1, boffs, data), bad1, es, block, boffs, |data|)
            == Clip(image + Overwrite(Stream(flash1, bad1, c1 + 1, |flash1|), boffs, data), boffs, |data|)
  {
    var w := WalkWrite(flash1, bad1, es, c1 + 1, boffs, data);
    WriteFrame(flash1, bad1, es, c1 + 1, boffs, data);
    WriteIsOverwrite(flash1, bad1, es, c1 + 1, boffs, data);
    BlockInFront(w, bad1, es, block, c1, boffs, |data|);
  }

  /** A sync leaves everything below the cached block as it is. */
  lemma SyncBehind(flash0: seq<Block>, bad0: set<nat>, wc: bool, c: nat, image: Block, flash1: seq<Block>, bad1: set<nat>, c1: nat, base: nat)
    requires if wc then Moved(flash0, bad0, c, image, flash1, bad1, c1) && base <= c else flash1 == flash0 && bad1 == bad0
    requires base <= |flash0|
    ensures |flash1| == |flash0| && forall b: nat :: b < base ==> flash1[b] == flash0[b] && (b in bad1 <==> b in bad0)
  {
  }

  lemma ReadNothing(disk: seq<Block>, bad: set<nat>, es: nat, block: nat, boffs: nat)
    requires Shaped(disk, es) && boffs < es
    ensures WalkRead(disk, bad, es, block, boffs, 0) == []
    decreases |disk| - block
  {
  }

  // ---------------------------------------------------------------------------------------
  // Erasing: writing erased bytes, with a block cached ahead of the eraser, or behind it, or none.

  /** `n` bytes are erased before `block`; a block cached at or ahead of it does not matter to that. */
  ghost predicate Erasing(view: seq<Block>, bad: set<nat>, wc: bool, wb: nat, lo: nat, o: nat, block: nat, n: nat, more: bool) {
    && lo <= block <= |view|
    && if n == 0 then forall b: nat :: lo <= b < block ==> b in bad
       else Written(view, bad, wc && wb < block, wb, lo, o, block, Fill(n, ERASED), more)
  }

  lemma ErasingSkip(view: seq<Block>, bad: set<nat>, wc: bool, wb: nat, lo: nat, o: nat, block: nat, n: nat)
    requires Erasing(view, bad, wc, wb, lo, o, block, n, true) && block < |view| && (wc ==> wb != block)
    ensures Erasing(view, bad + {block}, wc, wb, lo, o, block + 1, n, true)
  {
    if n > 0 {
      SkipBad(view, bad, bad + {block}, wc && wb < block, wb, lo, o, block, Fill(n, ERASED));
    }
  }

  /** A sync on the way keeps what is erased, unless the cached block comes to the eraser's block from below, or past it. */
  lemma ErasingSync(flash0: seq<Block>, bad0: set<nat>, c: nat, image: Block, flash1: seq<Block>, bad1: set<nat>, c1: nat,
                    lo: nat, o: nat, block: nat, n: nat)
    requires Moved(flash0, bad0, c, image, flash1, bad1, c1) && !(c < block <= c1)
    requires Erasing(flash0[c := image], bad0, true, c, lo, o, block, n, true) && block < |flash0| && block !in bad0 && block != c
    ensures Erasing(flash1, bad1, false, 0, lo, o, block, n, true) && block !in bad1
  {
    if n > 0 {
      if c < block {
        SyncKeeps(flash0, bad0, c, image, flash1, bad1, c1, lo, o, block, Fill(n, ERASED));
      } else {
        WrittenUncached(flash0[c := image], bad0, c, 0, lo, o, block, Fill(n, ERASED), true);
        StreamFrame(flash0[c := image], bad0, flash1, bad1, lo, block);
      }
    }
  }

  /**
   A sync that takes the block with the last erased bytes from below the eraser onto the very
   block that is erased next, which then is erased over: nothing more is erased than before.
   */
  lemma ErasingLanded(flash0: seq<Block>, bad0: set<nat>, c: nat, image: Block, flash1: seq<Block>, bad1: set<nat>, block: nat,
                      lo: nat, o: nat, n: nat, k: nat)
    requires Moved(flash0, bad0, c, image, flash1, bad1, block) && c < block && block !in bad0 && k <= |image| && n > 0
    requires Erasing(flash0[c := image], bad0, true, c, lo, o, block, n, true)
    ensures Erasing(flash1[block := Splice(image, 0, Fill(k, ERASED))], bad1, true, block, lo, o, block + 1, n, true)
  {
    var v := flash1[block := Splice(image, 0, Fill(k, ERASED))];
    SyncKeeps(flash0, bad0, c, image, flash1, bad1, block, lo, o, block, Fill(n, ERASED));
    StreamLast(flash1, bad1, lo, block);
    StreamFrame(flash1, bad1, v, bad1, lo, block);
    StreamLast(v, bad1, lo, block);
    WrittenCached(flash0[c := image], bad0, c, lo, o, block, Fill(n, ERASED));
    assert forall b: nat :: c <= b < block ==> b in bad1;
  }

  /** All that is written before the cached block, and the cached block itself, lie from the start on. */
  lemma WrittenCached(view: seq<Block>, bad: set<nat>, c: nat, lo: nat, o: nat, block: nat, data: seq<Byte>)
    requires Written(view, bad, true, c, lo, o, block, data, true) && data != []
    ensures lo <= c < block
  {
  }

  /** Before anything is erased, a block moved onto the next one changes nothing to what is in front of that. */
  lemma ErasingFresh(flash0: seq<Block>, bad0: set<nat>, c: nat, image: Block, flash1: seq<Block>, bad1: set<nat>, block: nat, lo: nat, o: nat)
    requires Moved(flash0, bad0, c, image, flash1, bad1, block)
    requires Erasing(flash0[c := image], bad0, true, c, lo, o, block, 0, true)
    ensures Erasing(flash1, bad1, false, block, lo, o, block, 0, true)
  {
  }

  /** A good block cached below the eraser comes from the range exactly if some of that is erased. */
  lemma ErasingFrom(view: seq<Block>, bad: set<nat>, c: nat, lo: nat, o: nat, block: nat, n: nat)
    requires Erasing(view, bad, true, c, lo, o, block, n, true) && c < block && c !in bad
    ensures lo <= c <==> n > 0
  {
    if n > 0 {
      assert |Fill(n, ERASED)| > 0;
    }
  }

  lemma ErasingInside(view: seq<Block>, bad: set<nat>, wc: bool, wb: nat, lo: nat, o: nat, block: nat, n: nat, more: bool)
    requires Erasing(view, bad, wc, wb, lo, o, block, n, more)
    ensures lo <= block <= |view|
  {
  }

  /** What is read then: as many bytes as were erased, and then bytes behind the block erased over. */
  lemma LandedReads(view: seq<Block>, bad: set<nat>, es: nat, wc: bool, wb: nat, lo: nat, o: nat, block: nat, n: nat, k: nat)
    requires Shaped(view, es) && o < es && n > 0 && Erasing(view, bad, wc, wb, lo, o, block, n, true)
    ensures WalkRead(view, bad, es, lo, o, n + k) == Fill(n, ERASED) + Clip(Stream(view, bad, block, |view|), 0, k)
  {
    ReadIsStream(view, bad, es, lo, o, n + k);
    StreamJoin(view, bad, lo, block, |view|);
  }

  /** In the stream of any reader the block moved is replaced by the block erased over: its bytes there are gone. */
  lemma LandedErases(flash0: seq<Block>, bad0: set<nat>, c: nat, image: Block, flash1: seq<Block>, bad1: set<nat>, block: nat,
                     lo: nat, boffs: nat, k: nat)
    requires Moved(flash0, bad0, c, image, flash1, bad1, block) && lo <= c && c !in bad0 && boffs + k <= |image|
    ensures Stream(flash0[c := image], bad0, lo, c + 1) == Stream(flash0, bad0, lo, c) + image
    ensures var v := flash1[block := Splice(image, boffs, Fill(k, ERASED))];
            Stream(v, bad1, lo, block + 1) == Stream(flash0, bad0, lo, c) + Splice(image, boffs, Fill(k, ERASED))
  {
    var v := flash1[block := Splice(image, boffs, Fill(k, ERASED))];
    StreamLast(flash0[c := image], bad0, lo, c);
    StreamFrame(flash0, bad0, flash0[c := image], bad0, lo, c);
    StreamFrame(flash0, bad0, v, bad1, lo, c);
    StreamJoin(v, bad1, lo, c, block);
    StreamAllBad(v, bad1, c, block);
    StreamLast(v, bad1, lo, block);
  }

  /**
   If the sync takes the cached block past the one to be erased, that one is bad. It is loaded and
   erased all the same, and the next sync puts it in place of the block moved, of which nothing
   is left.
   */
  lemma PassedIsReplaced(flash0: seq<Block>, bad0: set<nat>, c: nat, image: Block, flash1: seq<Block>, bad1: set<nat>, to: nat,
                         block: nat, next: Block, flash2: seq<Block>, bad2: set<nat>, to2: nat, lo: nat)
    requires Moved(flash0, bad0, c, image, flash1, bad1, to) && c < block < to && lo <= c
    requires Moved(flash1, bad1, block, next, flash2, bad2, to2)
    ensures block in bad1 && to <= to2
    ensures Stream(flash2, bad2, lo, to2 + 1) == Stream(flash0, bad0, lo, c) + next
  {
    StreamFrame(flash0, bad0, flash2, bad2, lo, c);
    StreamJoin(flash2, bad2, lo, c, to2);
    StreamAllBad(flash2, bad2, c, to2);
    StreamLast(flash2, bad2, lo, to2);
  }

  lemma FillMore(n: nat, k: nat)
    ensures Fill(n, ERASED) + Fill(k, ERASED) == Fill(n + k, ERASED)
  {
  }

  /** A block of which the rest, or a part from where the eraser started, is erased in the cache or on the device. */
  lemma ErasingCopy(view: seq<Block>, bad: set<nat>, wc: bool, wb: nat, lo: nat, o: nat, block: nat, n: nat,
                    image: Block, boffs: nat, k: nat, more: bool)
    requires Erasing(view, bad, wc, wb, lo, o, block, n, true) && block < |view| && block !in bad && (wc ==> wb >= block)
    requires boffs == (if n == 0 then o else 0) && boffs + k <= |image| && k > 0
    requires image[boffs..boffs + k] == Fill(k, ERASED) && (more ==> boffs + k == |image|)
    ensures Erasing(view[block := image], bad, true, block, lo, o, block + 1, n + k, more)
    ensures wc && wb > block ==> Erasing(view[block := image], bad, true, wb, lo, o, block + 1, n + k, more)
    ensures Erasing(view[block := image], bad, false, wb, lo, o, block + 1, n + k, more)
  {
    var data := Fill(n, ERASED);
    if n == 0 {
      WrittenFresh(view, bad, lo, o, block);
      assert data == [];
    } else {
      WrittenUncached(view, bad, wb, 0, lo, o, block, data, true);
    }
    WrittenUncached(view, bad, 0, block, lo, o, block, data, true);
    CopyKeeps(view, bad, false, lo, o, block, data, image, boffs, Fill(k, ERASED), more);
    FillMore(n, k);
    WrittenForgets(view[block := image], bad, true, block, lo, o, block + 1, Fill(n + k, ERASED), more);
    WrittenUncached(view[block := image], bad, 0, wb, lo, o, block + 1, Fill(n + k, ERASED), more);
  }

  /** What is cached here, or ahead, may be dropped. */
  lemma ErasingDrop(view0: seq<Block>, view1: seq<Block>, bad: set<nat>, lo: nat, o: nat, block: nat, n: nat)
    requires Erasing(view0, bad, true, block, lo, o, block, n, true) && |view1| == |view0|
    requires forall b: nat :: b < block ==> view1[b] == view0[b]
    ensures Erasing(view1, bad, false, block, lo, o, block, n, true)
  {
    if n > 0 {
      StreamFrame(view0, bad, view1, bad, lo, block);
    }
  }

  lemma ErasingFrame(view0: seq<Block>, view1: seq<Block>, bad: set<nat>, wc: bool, wb: nat, lo: nat, o: nat, block: nat, n: nat)
    requires Erasing(view0, bad, wc, wb, lo, o, block, n, true) && |view1| == |view0|
    requires forall b: nat :: b < block ==> view1[b] == view0[b]
    ensures Erasing(view1, bad, wc, wb, lo, o, block, n, true)
  {
    if n > 0 {
      StreamFrame(view0, bad, view1, bad, lo, block);
    }
  }

  lemma ErasingUncached(view: seq<Block>, bad: set<nat>, wb: nat, wb': nat, lo: nat, o: nat, block: nat, n: nat, more: bool)
    ensures Erasing(view, bad, false, wb, lo, o, block, n, more) <==> Erasing(view, bad, false, wb', lo, o, block, n, more)
  {
  }

  lemma ErasingStart(view: seq<Block>, bad: set<nat>, wc: bool, wb: nat, lo: nat, o: nat, more: bool)
    requires lo <= |view|
    ensures Erasing(view, bad, wc, wb, lo, o, lo, 0, more)
  {
  }

  lemma MovedOver(flash0: seq<Block>, bad0: set<nat>, c: nat, image: Block, flash1: seq<Block>, bad1: set<nat>, block: nat, to: nat)
    requires Moved(flash0, bad0, c, image, flash1, bad1, to) && c < block <= to
    ensures if to == block then block < |flash1| && block !in bad1 && flash1[block] == image else block in bad1
  {
  }

  lemma MovedWithin(flash0: seq<Block>, bad0: set<nat>, c: nat, image: Block, flash1: seq<Block>, bad1: set<nat>, c1: nat)
    requires Moved(flash0, bad0, c, image, flash1, bad1, c1)
    ensures c <= c1 < |flash0| == |flash1|
  {
  }

  /** What is erased reads as erased. */
  lemma ErasingReads(view: seq<Block>, bad: set<nat>, es: nat, wc: bool, wb: nat, lo: nat, o: nat, block: nat, n: nat, more: bool)
    requires Shaped(view, es) && o < es && Erasing(view, bad, wc, wb, lo, o, block, n, more)
    ensures WalkRead(view, bad, es, lo, o, n) == Fill(n, ERASED)
  {
    if n > 0 {
      WrittenForgets(view, bad, wc && wb < block, wb, lo, o, block, Fill(n, ERASED), more);
      WrittenEnds(view, bad, false, 0, lo, o, block, Fill(n, ERASED), more);
      WrittenIsRead(view, bad, es, lo, o, block, Fill(n, ERASED));
    } else {
      ReadNothing(view, bad, es, lo, o);
    }
  }

  /** The blocks below `hi` are as they were. */
  ghost predicate KeptIn(hi: nat, flash0: seq<Block>, bad0: set<nat>, flash1: seq<Block>, bad1: set<nat>) {
    && |flash1| == |flash0|
    && forall b: nat :: b < hi && b < |flash0| ==> flash1[b] == flash0[b] && (b in bad1 <==> b in bad0)
  }

  lemma KeptThrough(hi: nat, flash0: seq<Block>, bad0: set<nat>, hi1: nat, flash1: seq<Block>, bad1: set<nat>, flash2: seq<Block>, bad2: set<nat>)
    requires KeptIn(hi, flash0, bad0, flash1, bad1) && hi <= hi1 && KeptIn(hi1, flash1, bad1, flash2, bad2)
    ensures KeptIn(hi, flash0, bad0, flash2, bad2)
  {
  }

  // ---------------------------------------------------------------------------------------
  // Which blocks became bad for a failure of their own.

  /** The blocks that became bad are those at which something failed. */
  ghost predicate Accounted(bad0: set<nat>, failed0: set<nat>, bad1: set<nat>, failed1: set<nat>) {
    && bad0 <= bad1 && failed0 <= failed1
    && (forall b: nat :: b in bad1 && b !in bad0 ==> b in failed1)
    && (forall b: nat :: b in failed1 && b !in failed0 ==> b in bad1)
  }

  lemma AccountedThrough(bad0: set<nat>, failed0: set<nat>, bad1: set<nat>, failed1: set<nat>, bad2: set<nat>, failed2: set<nat>)
    requires Accounted(bad0, failed0, bad1, failed1) && Accounted(bad1, failed1, bad2, failed2)
    ensures Accounted(bad0, failed0, bad2, failed2)
  {
  }

  lemma AccountedOne(bad: set<nat>, failed: set<nat>, b: nat)
    ensures Accounted(bad, failed, bad + {b}, failed + {b})
  {
  }

  lemma AccountedFor(bad0: set<nat>, bad1: set<nat>, failed1: set<nat>, b: nat)
    requires Accounted(bad0, {}, bad1, failed1) && b !in bad1
    ensures b !in bad0 && b !in failed1
  {
  }

  lemma AccountedAll(bad0: set<nat>, bad1: set<nat>, failed1: set<nat>)
    requires Accounted(bad0, {}, bad1, failed1)
    ensures forall b: nat :: b in bad1 && b !in bad0 ==> b in failed1
  {
  }

  lemma AccountedNothing(bad: set<nat>, failed: set<nat>)
    ensures Accounted(bad, failed, bad, failed)
  {
  }

  lemma SyncedIsRead(flash0: seq<Block>, bad0: set<nat>, wc: bool, c: nat, image: Block, flash1: seq<Block>, bad1: set<nat>, c1: nat,
                     es: nat, lo: nat, o: nat, block: nat, data: seq<Byte>)
    requires Shaped(flash1, es) && o < es
    requires if wc then Moved(flash0, bad0, c, image, flash1, bad1, c1) else flash1 == flash0 && bad1 == bad0
    requires Written(if wc then flash0[c := image] else flash0, bad0, wc, c, lo, o, block, data, false)
    ensures WalkRead(flash1, bad1, es, lo, o, |data|) == data
  {
    if data != [] {
      if wc {
        SyncEnds(flash0, bad0, c, image, flash1, bad1, c1, lo, o, block, data);
        WrittenIsRead(flash1, bad1, es, lo, o, c1 + 1, data);
      } else {
        WrittenUncached(flash0, bad0, c, 0, lo, o, block, data, false);
        WrittenIsRead(flash1, bad1, es, lo, o, block, data);
      }
    }
  }

  // ---------------------------------------------------------------------------------------
  // The uncached device as a whole.

  /** The block, or page, that byte `offs` lies in. */
  function BlockNo(offs: nat, es: nat): (block: nat)
    requires es > 0
  {
    offs / es
  }

  lemma BlockInside(offs: nat, n: nat, es: nat)
    requires es > 0
    ensures BlockNo(offs, es) < n <==> offs < Off(n, es)
  {
    OffDiv(offs, n, es);
  }

  lemma BlockStart(es: nat)
    requires es > 0
    ensures BlockNo(0, es) == 0 && BlockOff(0, es) == 0
  {
  }

  lemma StartsBelow(offs: nat, es: nat)
    requires es > 0
    ensures Off(BlockNo(offs, es), es) <= offs
  {
    OffDiv(offs, 0, es);
  }

  function BlockOff(offs: nat, es: nat): (boffs: nat)
    requires es > 0
    ensures boffs < es
  {
    offs % es
  }

  datatype Request = Read(offs: nat, len: nat) | Write(offs: nat, buff: seq<Byte>) | Erase(offs: nat, len: nat) | Sync
  datatype Reply = Reply(code: int, data: seq<Byte>)

  function Serve(disk: seq<Block>, bad: set<nat>, es: nat, q: Request): (r: (seq<Block>, Reply))
    requires Shaped(disk, es) && es > 0
    ensures |r.0| == |disk| && Shaped(r.0, es)
  {
    var size := Off(|disk|, es);
    if q.Sync? then (disk, Reply(EOK, []))
    else if q.offs >= size then (disk, Reply(EINVAL, []))
    else
      var block, boffs := BlockNo(q.offs, es), BlockOff(q.offs, es);
      match q
      case Read(offs, len) =>
        var data := WalkRead(disk, bad, es, block, boffs, Min(len, size - offs));
        (disk, Reply(|data|, data))
      case Write(offs, buff) =>
        var data := buff[..Min(|buff|, size - offs)];
        (WalkWrite(disk, bad, es, block, boffs, data), Reply(WalkSize(|disk|, bad, es, block, boffs, |data|), []))
      case Erase(offs, len) =>
        var data := Fill(Min(len, size - offs), ERASED);
        (WalkWrite(disk, bad, es, block, boffs, data), Reply(WalkSize(|disk|, bad, es, block, boffs, |data|), []))
  }

  lemma ServeRead(disk: seq<Block>, bad: set<nat>, es: nat, offs: nat, n: nat)
    requires Shaped(disk, es) && es > 0 && offs < Off(|disk|, es) && offs + n <= Off(|disk|, es)
    ensures Serve(disk, bad, es, Read(offs, n)).1.data == WalkRead(disk, bad, es, BlockNo(offs, es), BlockOff(offs, es), n)
  {
  }

  // ---------------------------------------------------------------------------------------
  // The same in true byte positions: byte `k` of block `b` is byte b * es + k of the device.

  lemma BlockPosition(es: nat, b: nat, k: nat)
    requires k < es
    ensures BlockNo(b * es + k, es) == b && BlockOff(b * es + k, es) == k
  {
    DivModUnique(b, k, es);
  }

  lemma TimesNext(n: nat, es: nat)
    ensures (n + 1) * es == n * es + es
  {
  }

  lemma {:induction false} StreamLength(disk: seq<Block>, es: nat, lo: nat, hi: nat)
    requires Shaped(disk, es) && lo <= hi <= |disk|
    ensures |Stream(disk, {}, lo, hi)| == (hi - lo) * es
    decreases hi - lo
  {
    if lo < hi {
      StreamLength(disk, es, lo + 1, hi);
      TimesNext(hi - lo - 1, es);
    }
  }

  /** Without bad blocks, the stream has every byte of the device at its position. */
  lemma StreamAt(disk: seq<Block>, es: nat, b: nat, k: nat)
    requires Shaped(disk, es) && b < |disk| && k < es
    ensures b * es + k < |Stream(disk, {}, 0, |disk|)| && Stream(disk, {}, 0, |disk|)[b * es + k] == disk[b][k]
  {
    StreamJoin(disk, {}, 0, b, |disk|);
    StreamLength(disk, es, 0, b);
    assert Stream(disk, {}, b, |disk|) == disk[b] + Stream(disk, {}, b + 1, |disk|);
  }

  /** A block number and what is left of the device from there. */
  lemma InDevice(n: nat, es: nat, b: nat, k: nat)
    requires b < n && k < es
    ensures b * es + k < n * es == Off(n, es)
    ensures n * es - (b * es + k) == (n - b) * es - k
  {
    OffIsProduct(n, es);
    OffIsProduct(b, es);
    OffIsProduct(n - b, es);
    OffMono(b, n, es);
    assert n * es == b * es + (n - b) * es;
  }

  lemma {:induction false} StreamBound(disk: seq<Block>, bad: set<nat>, es: nat, lo: nat, hi: nat)
    requires Shaped(disk, es) && lo <= hi <= |disk|
    ensures |Stream(disk, bad, lo, hi)| <= (hi - lo) * es
    decreases hi - lo
  {
    if lo < hi {
      StreamBound(disk, bad, es, lo + 1, hi);
      TimesNext(hi - lo - 1, es);
    }
  }

  /** A longer read sees no more than there is. */
  lemma ClipAll(s: seq<Byte>, at: nat, len: nat, room: nat)
    requires |s| <= at + room
    ensures Clip(s, at, Min(len, room)) == Clip(s, at, len)
    ensures forall data: seq<Byte> | |data| == len :: Overwrite(s, at, data[..Min(len, room)]) == Overwrite(s, at, data)
  {
    forall data: seq<Byte> | |data| == len
      ensures Overwrite(s, at, data[..Min(len, room)]) == Overwrite(s, at, data)
    {
      var l, r := Overwrite(s, at, data[..Min(len, room)]), Overwrite(s, at, data);
      assert forall i :: 0 <= i < |s| ==> l[i] == r[i];
    }
  }

  /**
   An access to byte `k` of block `b`: a read delivers, a write or erase changes, the stretch of the
   good blocks' bytes that starts there, or at the next good block; in front of it, and in bad
   blocks, nothing changes. The reply is the number of those bytes.
   */
  lemma ServeAt(disk: seq<Block>, bad: set<nat>, es: nat, b: nat, k: nat, len: nat, buff: seq<Byte>)
    requires Shaped(disk, es) && b < |disk| && k < es
    ensures var s := Stream(disk, bad, b, |disk|);
            && Serve(disk, bad, es, Read(b * es + k, len)) == (disk, Reply(|Clip(s, k, len)|, Clip(s, k, len)))
            && Altered(disk, bad, b, k, buff, Serve(disk, bad, es, Write(b * es + k, buff)))
            && Altered(disk, bad, b, k, Fill(len, 0xff), Serve(disk, bad, es, Erase(b * es + k, len)))
  {
    hide Overwrite, Clip, Stream, WalkRead, WalkWrite, WalkSize, Altered, BlockNo, BlockOff;
    var s, n := Stream(disk, bad, b, |disk|), |disk|;
    var room := Off(n, es) - (b * es + k);
    InDevice(n, es, b, k);
    BlockPosition(es, b, k);
    StreamBound(disk, bad, es, b, n);
    ClipAll(s, k, len, room);
    ReadIsStream(disk, bad, es, b, k, Min(len, room));
    WriteAt(disk, bad, es, b, k, buff, room);
    WriteAt(disk, bad, es, b, k, Fill(len, ERASED), room);
    assert Fill(len, ERASED)[..Min(len, room)] == Fill(Min(len, room), ERASED);
  }

  predicate Altered(disk: seq<Block>, bad: set<nat>, b: nat, k: nat, data: seq<Byte>, r: (seq<Block>, Reply)) {
    && |r.0| == |disk|
    && (forall c: nat :: c < |disk| && (c < b || c in bad) ==> r.0[c] == disk[c])
    && Stream(r.0, bad, b, |disk|) == Overwrite(Stream(disk, bad, b, |disk|), k, data)
    && r.1 == Reply(|Clip(Stream(disk, bad, b, |disk|), k, |data|)|, [])
  }

  lemma WriteAt(disk: seq<Block>, bad: set<nat>, es: nat, b: nat, k: nat, data: seq<Byte>, room: nat)
    requires Shaped(disk, es) && b < |disk| && k < es && |Stream(disk, bad, b, |disk|)| <= k + room
    ensures var part := data[..Min(|data|, room)];
            Altered(disk, bad, b, k, data, (WalkWrite(disk, bad, es, b, k, part), Reply(WalkSize(|disk|, bad, es, b, k, |part|), [])))
  {
    var part := data[..Min(|data|, room)];
    WriteIsOverwrite(disk, bad, es, b, k, part);
    WriteFrame(disk, bad, es, b, k, part);
    SizeIsClip(disk, bad, es, b, k, |part|);
    ClipAll(Stream(disk, bad, b, |disk|), k, |data|, room);
  }

  /** On a device without bad blocks that is the flat array of its bytes, read and written at the offset asked for. */
  lemma ServeFlat(disk: seq<Block>, es: nat, offs: nat, len: nat, buff: seq<Byte>)
    requires Shaped(disk, es) && es > 0
    ensures var s := Stream(disk, {}, 0, |disk|);
            && |s| == |disk| * es
            && if offs >= |s| then
                 && Serve(disk, {}, es, Read(offs, len)) == Serve(disk, {}, es, Erase(offs, len)) == (disk, Reply(EINVAL, []))
                 && Serve(disk, {}, es, Write(offs, buff)) == (disk, Reply(EINVAL, []))
               else
                 && Serve(disk, {}, es, Read(offs, len)) == (disk, Reply(|Clip(s, offs, len)|, Clip(s, offs, len)))
                 && Altered(disk, {}, 0, offs, buff, Serve(disk, {}, es, Write(offs, buff)))
                 && Altered(disk, {}, 0, offs, Fill(len, 0xff), Serve(disk, {}, es, Erase(offs, len)))
  {
    hide Serve, Overwrite, Clip, Altered;
    var n, s := |disk|, Stream(disk, {}, 0, |disk|);
    StreamLength(disk, es, 0, n);
    OffIsProduct(n, es);
    if offs >= |s| {
      ServeOutside(disk, es, offs, len, buff);
    } else {
      OffDiv(offs, n, es);
      OffIsProduct(offs / es, es);
      FlatAt(disk, es, offs / es, offs % es, len, buff);
    }
  }

  lemma FlatAt(disk: seq<Block>, es: nat, b: nat, k: nat, len: nat, buff: seq<Byte>)
    requires Shaped(disk, es) && b < |disk| && k < es
    ensures var s, offs := Stream(disk, {}, 0, |disk|), b * es + k;
            && Serve(disk, {}, es, Read(offs, len)) == (disk, Reply(|Clip(s, offs, len)|, Clip(s, offs, len)))
            && Altered(disk, {}, 0, offs, buff, Serve(disk, {}, es, Write(offs, buff)))
            && Altered(disk, {}, 0, offs, Fill(len, 0xff), Serve(disk, {}, es, Erase(offs, len)))
  {
    hide Serve, Overwrite, Clip, Altered, Stream;
    var offs := b * es + k;
    ServeAt(disk, {}, es, b, k, len, buff);
    StreamJoin(disk, {}, 0, b, |disk|);
    StreamLength(disk, es, 0, b);
    BehindFront(Stream(disk, {}, 0, b), Stream(disk, {}, b, |disk|), k, len, []);
    AlteredFromStart(disk, b, k, offs, buff, Serve(disk, {}, es, Write(offs, buff)));
    AlteredFromStart(disk, b, k, offs, Fill(len, 0xff), Serve(disk, {}, es, Erase(offs, len)));
  }

  /** Byte by byte: byte `k` of block `b` is read, written or erased exactly if its position is in the range asked for. */
  lemma ServeBytes(disk: seq<Block>, es: nat, offs: nat, len: nat, buff: seq<Byte>, b: nat, k: nat)
    requires Shaped(disk, es) && b < |disk| && k < es && offs < |disk| * es
    ensures var x, data := b * es + k, Serve(disk, {}, es, Read(offs, len)).1.data;
            && |data| == Min(len, |disk| * es - offs)
            && (offs <= x < offs + len ==> x - offs < |data| && data[x - offs] == disk[b][k])
            && Serve(disk, {}, es, Write(offs, buff)).0[b][k] == (if offs <= x < offs + |buff| then buff[x - offs] else disk[b][k])
            && Serve(disk, {}, es, Erase(offs, len)).0[b][k] == (if offs <= x < offs + len then 0xff else disk[b][k])
  {
    hide Serve, Stream;
    ServeFlat(disk, es, offs, len, buff);
    StreamAt(disk, es, b, k);
    StreamAt(Serve(disk, {}, es, Write(offs, buff)).0, es, b, k);
    StreamAt(Serve(disk, {}, es, Erase(offs, len)).0, es, b, k);
  }

  lemma ServeOutside(disk: seq<Block>, es: nat, offs: nat, len: nat, buff: seq<Byte>)
    requires Shaped(disk, es) && es > 0 && offs >= Off(|disk|, es)
    ensures Serve(disk, {}, es, Read(offs, len)) == Serve(disk, {}, es, Erase(offs, len)) == (disk, Reply(EINVAL, []))
    ensures Serve(disk, {}, es, Write(offs, buff)) == (disk, Reply(EINVAL, []))
  {
  }

  lemma BehindFront(a: seq<Byte>, t: seq<Byte>, k: nat, len: nat, data: seq<Byte>)
    ensures Clip(a + t, |a| + k, len) == Clip(t, k, len)
    ensures Clip(a + t, |a| + k, |data|) == Clip(t, k, |data|)
    ensures Overwrite(a + t, |a| + k, data) == a + Overwrite(t, k, data)
  {
  }

  lemma AlteredFromStart(disk: seq<Block>, b: nat, k: nat, offs: nat, data: seq<Byte>, r: (seq<Block>, Reply))
    requires b <= |disk| && Altered(disk, {}, b, k, data, r) && offs == |Stream(disk, {}, 0, b)| + k
    ensures Altered(disk, {}, 0, offs, data, r)
  {
    hide Overwrite, Clip;
    StreamJoin(disk, {}, 0, b, |disk|);
    StreamJoin(r.0, {}, 0, b, |disk|);
    StreamFrame(disk, {}, r.0, {}, 0, b);
    BehindFront(Stream(disk, {}, 0, b), Stream(disk, {}, b, |disk|), k, 0, data);
  }

  function ServeAll(disk: seq<Block>, bad: set<nat>, es: nat, qs: seq<Request>): (r: (seq<Block>, seq<Reply>))
    requires Shaped(disk, es) && es > 0
    ensures |r.0| == |disk| && Shaped(r.0, es) && |r.1| == |qs|
  {
    if qs == [] then (disk, [])
    else
      var last := |qs| - 1;
      var (disk1, replies) := ServeAll(disk, bad, es, qs[..last]);
      var (disk2, reply) := Serve(disk1, bad, es, qs[last]);
      (disk2, replies + [reply])
  }

  // ---------------------------------------------------------------------------------------
  // Three blocks of two bytes, and a sync that takes block 0 onto block 1.

  /** One byte written to block 1, with block 0 cached: what is read back is the image of block 0. */
  lemma BehindExample()
    ensures var flash, image, data := [[0, 0], [1, 2], [3, 4]], [7, 8], [9];
            var flash1 := [[0, 0], image, [3, 4]];
            && Moved(flash, {}, 0, image, flash1, {0}, 1)
            && WalkWrite(flash1, {0}, 2, 2, 0, data) == [[0, 0], image, [9, 4]]
            && WalkRead(WalkWrite(flash1, {0}, 2, 2, 0, data), {0}, 2, 1, 0, 1) == [7]
  {
    var flash, image: Block, data: seq<Byte> := [[0, 0], [1, 2], [3, 4]], [7, 8], [9];
    var flash1: seq<Block> := [[0, 0], image, [3, 4]];
    assert Splice([3, 4], 0, data[..1]) == [9, 4];
    assert WalkWrite([[0, 0], image, [9, 4]], {0}, 2, 3, 0, data[1..]) == [[0, 0], image, [9, 4]];
    assert flash1[2 := [9, 4]] == [[0, 0], image, [9, 4]];
  }

  /**
   Two bytes erased from the second one of block 0 on: one byte of two is erased, and the byte in
   front of the range, which was 9, is erased too.
   */
  lemma EraseExample()
    ensures var flash, image := [[9, 5], [1, 2], [3, 4]], [9, ERASED];
            var flash1 := [[9, 5], image, [3, 4]];
            var v := flash1[1 := Splice(image, 0, Fill(1, ERASED))];
            && Erasing(flash[0 := image], {}, true, 0, 0, 1, 1, 1, true)
            && Moved(flash, {}, 0, image, flash1, {0}, 1)
            && WalkRead(flash[0 := image], {}, 2, 0, 0, 4) == [9, ERASED, 1, 2]
            && WalkRead(v, {0}, 2, 0, 0, 3) == [ERASED, ERASED, 3]
            && WalkRead(v, {0}, 2, 0, 1, 2) == [ERASED, 3]
  {
    var flash, image: Block := [[9, 5], [1, 2], [3, 4]], [9, ERASED];
    var flash1: seq<Block> := [[9, 5], image, [3, 4]];
    var v := flash1[1 := Splice(image, 0, Fill(1, ERASED))];
    assert Splice(image, 0, Fill(1, ERASED)) == [ERASED, ERASED];
    assert v == [[9, 5], [ERASED, ERASED], [3, 4]];
    assert Stream(v, {0}, 2, 3) == [3, 4];
    BlockInFront(v, {0}, 2, 0, 1, 0, 3);
    BlockInFront(v, {0}, 2, 0, 1, 1, 2);
    var view: seq<Block> := [image, [1, 2], [3, 4]];
    assert flash[0 := image] == view;
    assert Stream(view, {}, 1, 3) == [1, 2] + Stream(view, {}, 2, 3) == [1, 2] + [3, 4];
    BlockInFront(view, {}, 2, 0, 0, 0, 4);
    assert Stream(view, {}, 0, 1) == image + Stream(view, {}, 1, 1) == image;
    assert Fill(1, ERASED) == [ERASED];
  }
}
