/**
 The i.MX 6ULL NAND data interface: a write-back cache of one eraseblock and a read cache of
 one page in front of a flash whose blocks can go bad at any moment.
 */
module NandData {
  import opened Bytes
  import opened NandWalk

  /** A page number `block * npages + page`, kept as the pair it stands for. */
  datatype Paddr = Paddr(block: nat, page: nat)

  /** Page numbers and pairs are the same thing. */
  lemma PageNumber(p: Paddr, q: Paddr, npages: nat)
    requires p.page < npages && q.page < npages
    ensures p.block * npages + p.page == q.block * npages + q.page <==> p == q
  {
    OffIsProduct(p.block, npages);
    OffIsProduct(q.block, npages);
    if p.block < q.block {
      OffMono(p.block, q.block, npages);
    } else if p.block > q.block {
      OffMono(q.block, p.block, npages);
    }
  }

  datatype Cached = CachedBlock(block: nat, image: Block) | CachedNothing

  datatype Fetch = Ready | Skip(to: nat) | Fatal(code: int)

  class Nand {
    // the configuration; erasesz is npages * writesz
    const nblocks: nat
    const npages: nat
    const writesz: nat
    const erasesz: nat

    // the device: every erase, program, read and mark may fail, which `faults` counts
    var flash: seq<Block>
    var bad: set<nat>
    ghost var faults: nat
    // where something failed since the last write began
    ghost var failed: set<nat>
    // how many page reads failed, and all syncs that succeeded
    ghost var unread: nat
    ghost var syncs: seq<SyncTo>

    // the two caches
    const nandBlock: array<Byte>
    const nandPage: array<Byte>
    var rcached: bool
    var rpage: Paddr
    var wcached: bool
    var wblock: nat

    constructor (nblocks: nat, npages: nat, writesz: nat, flash: seq<Block>, bad: set<nat>)
      requires npages > 0 && writesz > 0 && |flash| == nblocks && Shaped(flash, Off(npages, writesz))
      ensures Valid() && !wcached && !rcached && this.flash == flash && this.bad == bad && faults == 0 && failed == {} && unread == 0 && syncs == []
      ensures this.nblocks == nblocks && this.npages == npages && this.writesz == writesz
      ensures fresh(nandBlock) && fresh(nandPage)
    {
      this.nblocks, this.npages, this.writesz, this.flash, this.bad := nblocks, npages, writesz, flash, bad;
      erasesz := Off(npages, writesz);
      nandBlock := new Byte[Off(npages, writesz)];
      nandPage := new Byte[writesz];
      rcached, rpage, wcached, wblock, faults, failed, unread, syncs := false, Paddr(0, 0), false, 0, 0, {}, 0, [];
      OffMono(0, npages, writesz);
    }

    // ---- invariants

    ghost predicate Geometry()
      reads `flash
    {
      && npages > 0 && writesz > 0 && erasesz > 0 && erasesz == Off(npages, writesz)
      && nandBlock.Length == erasesz && nandPage.Length == writesz && nandBlock != nandPage
      && |flash| == nblocks && Shaped(flash, erasesz)
    }

    ghost predicate Valid()
      reads `flash, `rcached, `rpage, nandPage
    {
      && Geometry()
      && (rcached ==> InRange(rpage) && nandPage[..] == PageOf(flash[rpage.block], rpage.page))
    }

    /**
     The cached block is a good block. False only after failures: a sync that ran out of blocks
     leaves its data nowhere to go, and an erase may load a block that a sync just found bad.
     */
    ghost predicate Healthy()
      reads `wcached, `wblock, `bad
    {
      wcached ==> wblock < nblocks && wblock !in bad
    }

    /** Nothing is cached that a failing sync could move from below `block` into a write that starts there. */
    ghost predicate ClearFrom(block: nat)
      reads `wcached, `wblock, `bad
    {
      wcached ==> wblock >= block && wblock !in bad
    }

    /** The flash as a reader should see it: with the cached block in its place. */
    ghost function View(): seq<Block>
      reads `flash, `wcached, `wblock, nandBlock
    {
      if wcached && wblock < |flash| then flash[wblock := nandBlock[..]] else flash
    }

    ghost predicate InRange(p: Paddr) {
      p.block < nblocks && p.page < npages
    }

    ghost function PageOf(block: Block, i: nat): (p: seq<Byte>)
      requires erasesz == Off(npages, writesz) && |block| == erasesz && i < npages
      ensures |p| == writesz
    {
      OffMono(i, npages, writesz);
      block[Off(i, writesz)..Off(i, writesz) + writesz]
    }

    // ---- nanddrv

    predicate IsBad(p: Paddr)
      reads `bad
    {
      p.block in bad
    }

    method MarkBad(p: Paddr) returns (err: int)
      modifies `bad, `faults, `failed
      ensures err >= 0 ==> bad == old(bad) + {p.block} && faults == old(faults) && failed == old(failed)
      ensures err < 0 ==> bad == old(bad) && faults == old(faults) + 1 && failed == old(failed) + {p.block}
    {
      err := *;
      if err >= 0 {
        bad := bad + {p.block};
      } else {
        faults, failed := faults + 1, failed + {p.block};
      }
    }

    method EraseBlock(p: Paddr) returns (err: int)
      requires Geometry() && p.block < nblocks
      modifies `flash, `faults, `failed
      ensures |flash| == nblocks && Shaped(flash, erasesz)
      ensures forall b: nat :: b < nblocks && b != p.block ==> flash[b] == old(flash)[b]
      ensures err >= 0 ==> flash[p.block] == Fill(erasesz, ERASED) && faults == old(faults) && failed == old(failed)
      ensures err < 0 ==> faults == old(faults) + 1 && failed == old(failed) + {p.block}
    {
      err := *;
      var content: Block := *;
      if err >= 0 || |content| != erasesz {
        content := Fill(erasesz, ERASED);
      }
      flash := flash[p.block := content];
      if err < 0 {
        faults, failed := faults + 1, failed + {p.block};
      }
    }

    /** Programming sets an erased page; what it makes of any other page is unknown. */
    method ProgramPage(p: Paddr, data: seq<Byte>) returns (err: int)
      requires Geometry() && InRange(p) && |data| == writesz
      modifies `flash, `faults, `failed
      ensures |flash| == nblocks && Shaped(flash, erasesz)
      ensures forall b: nat :: b < nblocks && b != p.block ==> flash[b] == old(flash)[b]
      ensures err >= 0 && PageOf(old(flash[p.block]), p.page) == Fill(writesz, ERASED) ==>
                Off(p.page, writesz) + writesz <= erasesz &&
                flash[p.block] == Splice(old(flash)[p.block], Off(p.page, writesz), data)
      ensures err >= 0 ==> faults == old(faults) && failed == old(failed)
      ensures err < 0 ==> faults == old(faults) + 1 && failed == old(failed) + {p.block}
    {
      OffMono(p.page, npages, writesz);
      err := *;
      var at := Off(p.page, writesz);
      var content: Block := *;
      if |content| != erasesz {
        content := Fill(erasesz, ERASED);
      }
      if err >= 0 && flash[p.block][at..at + writesz] == Fill(writesz, ERASED) {
        content := Splice(flash[p.block], at, data);
      }
      flash := flash[p.block := content];
      if err < 0 {
        faults, failed := faults + 1, failed + {p.block};
      }
    }

    method ReadPage(p: Paddr) returns (err: int, data: seq<Byte>)
      requires Geometry() && InRange(p)
      modifies `faults, `failed, `unread
      ensures |data| == writesz
      ensures err >= 0 ==> data == PageOf(flash[p.block], p.page) && faults == old(faults) && failed == old(failed) && unread == old(unread)
      ensures err < 0 ==> faults == old(faults) + 1 && failed == old(failed) + {p.block} && unread == old(unread) + 1
    {
      OffMono(p.page, npages, writesz);
      err := *;
      data := flash[p.block][Off(p.page, writesz)..Off(p.page, writesz) + writesz];
      if err < 0 {
        faults, failed, unread := faults + 1, failed + {p.block}, unread + 1;
        data := *;
        if |data| != writesz {
          data := Fill(writesz, ERASED);
        }
      }
    }

    // ---- data_doSync

    /** Erases block `wblock` and programs the cached image into it, page by page. */
    method SyncBlock() returns (err: int)
      requires Geometry() && wblock < nblocks
      modifies `flash, `faults, `failed
      ensures |flash| == nblocks && Shaped(flash, erasesz)
      ensures forall b: nat :: b < nblocks && b != wblock ==> flash[b] == old(flash)[b]
      ensures err >= 0 ==> flash[wblock] == nandBlock[..] && faults == old(faults) && failed == old(failed)
      ensures err < 0 ==> faults > old(faults) && failed == old(failed) + {wblock}
    {
      err := EraseBlock(Paddr(wblock, 0));
      if err >= 0 {
        var i := 0;
        while i < npages
          invariant 0 <= i <= npages && Off(i, writesz) <= erasesz
          invariant err >= 0 && faults == old(faults) && failed == old(failed)
          invariant |flash| == nblocks && Shaped(flash, erasesz)
          invariant forall b: nat :: b < nblocks && b != wblock ==> flash[b] == old(flash)[b]
          invariant flash[wblock] == nandBlock[..Off(i, writesz)] + Fill(erasesz - Off(i, writesz), ERASED)
        {
          OffMono(i, npages, writesz);
          err := ProgramPage(Paddr(wblock, i), nandBlock[Off(i, writesz)..Off(i, writesz) + writesz]);
          if err < 0 {
            return;
          }
          i := i + 1;
        }
        assert nandBlock[..erasesz] == nandBlock[..];
      }
    }

    method DoSync(ghost at: nat) returns (err: int)
      requires Valid()
      modifies this
      ensures unread == old(unread)
      ensures syncs == if err == EOK && old(wcached) then old(syncs) + [SyncTo(at, old(wblock), wblock)] else old(syncs)
      ensures Valid() && !rcached && faults >= old(faults)
      ensures err == EOK || err == ENOSPC || err == EIO
      ensures !old(wcached) ==> err == EOK && flash == old(flash) && bad == old(bad) && wblock == old(wblock) && failed == old(failed)
      ensures err == EOK ==> !wcached && Accounted(old(bad), old(failed), bad, failed)
      ensures err == EOK && old(wcached) ==> Moved(old(flash), old(bad), old(wblock), nandBlock[..], flash, bad, wblock)
      // out of blocks: everything from the cached block on is bad, nothing before it was touched
      ensures err == ENOSPC ==> wcached && wblock >= nblocks && forall b: nat :: old(wblock) <= b < nblocks ==> b in bad
      ensures err != EOK ==> forall b: nat :: b < nblocks && b < old(wblock) ==> flash[b] == old(flash)[b] && (b in bad <==> b in old(bad))
      // without device failures there is nothing to move
      ensures faults == old(faults) && old(Healthy()) ==> err == EOK && wblock == old(wblock)
    {
      ghost var healthy := Healthy();
      rcached := false;
      if wcached {
        while true
          invariant Valid() && wcached && !rcached && faults >= old(faults)
          invariant unread == old(unread) && syncs == old(syncs)
          invariant Accounted(old(bad), old(failed), bad, failed)
          invariant wblock == old(wblock) && healthy ==> wblock < nblocks && wblock !in bad
          invariant wblock >= old(wblock) && (wblock > old(wblock) && healthy ==> faults > old(faults))
          invariant forall b: nat :: b < nblocks ==> (b in bad <==> b in old(bad) || old(wblock) <= b < wblock)
          invariant forall b: nat :: b >= nblocks ==> (b in bad <==> b in old(bad))
          invariant forall b: nat :: b < nblocks && (b < old(wblock) || b >= wblock) ==> flash[b] == old(flash)[b]
          decreases nblocks - wblock
        {
          // the cached block might have become bad: find the first good one
          while wblock < nblocks && IsBad(Paddr(wblock, 0))
            invariant wblock >= old(wblock) && (wblock > old(wblock) && healthy ==> faults > old(faults))
            invariant wblock == old(wblock) && healthy ==> wblock < nblocks && wblock !in bad
            invariant forall b: nat :: old(wblock) <= b < wblock && b < nblocks ==> b in bad
            modifies `wblock
          {
            wblock := wblock + 1;
          }
          if wblock >= nblocks {
            return ENOSPC;
          }
          err := SyncBlock();
          if err >= 0 {
            break;
          }
          // block sync failed: mark it as bad and try again on the next block
          var marked := MarkBad(Paddr(wblock, 0));
          if marked < 0 {
            return EIO;
          }
          wblock := wblock + 1;
        }
        wcached := false;
        syncs := syncs + [SyncTo(at, old(wblock), wblock)];
      }
      err := EOK;
    }

    // ---- data_read

    /** Fills the page cache, unless it has the page. */
    method CachePage(p: Paddr) returns (err: int)
      requires Valid() && InRange(p)
      modifies `rcached, `rpage, `faults, `failed, `unread, nandPage
      ensures Valid()
      ensures err >= 0 ==> faults == old(faults) && nandPage[..] == PageOf(flash[p.block], p.page)
      ensures err < 0 ==> faults > old(faults)
    {
      err := 0;
      if !rcached || p != rpage {
        var content;
        err, content := ReadPage(p);
        MemCpy(nandPage, 0, content);
        rcached := err >= 0;
        rpage := p;
      }
    }

    /** Reads `n` bytes at `poffs` of a page. */
    method ReadPiece(p: Paddr, poffs: nat, n: nat) returns (err: int, piece: seq<Byte>)
      requires Valid() && InRange(p) && poffs + n <= writesz
      modifies `rcached, `rpage, `faults, `failed, `unread, nandPage
      ensures Valid() && Off(p.page, writesz) + writesz <= Off(npages, writesz) == erasesz
      ensures err >= 0 ==> faults == old(faults)
      ensures err >= 0 ==> piece == flash[p.block][Off(p.page, writesz) + poffs..Off(p.page, writesz) + poffs + n]
      ensures err < 0 ==> faults > old(faults)
    {
      OffMono(p.page, npages, writesz);
      err := CachePage(p);
      piece := [];
      if err >= 0 {
        SubSlice(flash[p.block], Off(p.page, writesz), writesz, poffs, n);
        piece := nandPage[poffs..poffs + n];
      }
    }

    /** Reads up to `want` bytes of a block that is not cached, from page `i0` at `poffs0` on. */
    method ReadPages(block: nat, i0: nat, poffs0: nat, want: nat) returns (err: int, data: seq<Byte>)
      requires Valid() && block < nblocks && i0 < npages && poffs0 < writesz && want > 0
      modifies `rcached, `rpage, `faults, `failed, `unread, nandPage
      ensures Valid()
      ensures err >= 0 ==> faults == old(faults)
      ensures err >= 0 ==> data == Clip(flash[block], Off(i0, writesz) + poffs0, want)
      ensures err < 0 ==> faults > old(faults)
    {
      hide PageOf, Clip, Off;
      err, data := 0, [];
      var i, poffs := i0, poffs0;
      ghost var content, all := flash[block], Clip(flash[block], Off(i0, writesz) + poffs0, want);
      while i < npages && |data| < want
        invariant Valid() && err >= 0 && faults == old(faults)
        invariant i <= npages && 0 <= poffs < writesz && |data| <= want && (i == npages ==> poffs == 0)
        invariant flash[block] == content && data + Clip(content, Off(i, writesz) + poffs, want - |data|) == all
      {
        var size := Min(want - |data|, writesz - poffs);
        var piece;
        err, piece := ReadPiece(Paddr(block, i), poffs, size);
        if err < 0 {
          return;
        }
        ghost var at := Off(i, writesz) + poffs;
        assert piece == content[at..at + size];
        OffNext(i, writesz);
        ClipStep(content, at, size, Off(i + 1, writesz), want - |data|, data);
        data := data + piece;
        poffs := 0;
        i := i + 1;
      }
      ClipEnds(content, Off(i, writesz) + poffs, want - |data|);
    }

    /** Reads from one good block, out of the cache when it is the cached one. */
    method ReadBlock(block: nat, boffs: nat, want: nat) returns (err: int, data: seq<Byte>)
      requires Valid() && block < nblocks && boffs < erasesz && want > 0
      modifies `rcached, `rpage, `bad, `faults, `failed, `unread, nandPage
      ensures Valid()
      ensures err >= 0 ==> faults == old(faults) && bad == old(bad) && data == Clip(View()[block], boffs, want)
      ensures err < 0 ==> faults > old(faults)
    {
      if wcached && block == wblock {
        return 0, Clip(nandBlock[..], boffs, want);
      }
      OffDiv(boffs, npages, writesz);
      err, data := ReadPages(block, boffs / writesz, boffs % writesz, want);
      if err < 0 {
        // block read failed (block data is lost): mark it as bad
        rcached := false;
        var _ := MarkBad(Paddr(block, 0));
      }
    }

    /** The walk of data_read over the blocks. */
    method ReadBlocks(block0: nat, boffs0: nat, want: nat) returns (r: int, data: seq<Byte>)
      requires Valid() && boffs0 < erasesz
      modifies `rcached, `rpage, `bad, `faults, `failed, `unread, nandPage
      ensures Valid()
      ensures faults >= old(faults)
      ensures r >= 0 ==> r == |data| && bad == old(bad) && faults == old(faults)
      ensures r >= 0 ==> data == WalkRead(View(), bad, erasesz, block0, boffs0, want)
      ensures r < 0 ==> r == EIO && faults > old(faults)
    {
      hide PageOf, Off, Clip;
      data := [];
      var block, boffs := block0, boffs0;
      ghost var view, badNow := View(), bad;
      while block < nblocks && |data| < want
        invariant Valid() && faults == old(faults) && bad == badNow
        invariant 0 <= boffs < erasesz && |data| <= want
        invariant data + WalkRead(view, badNow, erasesz, block, boffs, want - |data|)
                  == WalkRead(view, badNow, erasesz, block0, boffs0, want)
      {
        if IsBad(Paddr(block, 0)) {
          block := block + 1;
          continue;
        }
        var err, part := ReadBlock(block, boffs, want - |data|);
        if err < 0 {
          return EIO, [];
        }
        ReadStep(view, badNow, erasesz, block, boffs, want - |data|, data);
        data := data + part;
        boffs := 0;
        block := block + 1;
      }
      r := |data|;
    }

    // ---- data_write

    ghost predicate Matches(block: nat, lo: nat, hi: nat)
      requires Geometry() && block < nblocks
      reads `flash, nandBlock
    {
      forall j :: lo <= j < hi && j < erasesz ==> nandBlock[j] == flash[block][j]
    }

    method LoadPage(block: nat, i: nat) returns (err: int)
      requires Valid() && !rcached && block < nblocks && i < npages
      modifies `faults, `failed, `unread, nandBlock
      ensures Valid() && faults >= old(faults) && (faults == old(faults) ==> err >= 0)
      ensures Off(i, writesz) + writesz == Off(i + 1, writesz) <= erasesz
      ensures err >= 0 ==> faults == old(faults) && Matches(block, Off(i, writesz), Off(i + 1, writesz))
      ensures failed == if err >= 0 then old(failed) else old(failed) + {block}
      ensures unread == if err >= 0 then old(unread) else old(unread) + 1
      ensures forall j :: 0 <= j < erasesz && !(Off(i, writesz) <= j < Off(i + 1, writesz)) ==> nandBlock[j] == old(nandBlock[j])
    {
      OffMono(i, npages, writesz);
      var content;
      err, content := ReadPage(Paddr(block, i));
      MemCpy(nandBlock, Off(i, writesz), content);
      assert forall j :: 0 <= j < erasesz ==> nandBlock[j] == nandBlock[..][j];
    }

    /** An error code is left from the block before, and no page in front of the data resets it. */
    predicate Carried(err0: int, boffs: nat) {
      err0 < 0 && boffs == 0
    }

    /** Loads the pages in front of `boffs`, the one it points into included. */
    method LoadFront(block: nat, boffs: nat, err0: int) returns (err: int, i: nat)
      requires Valid() && !rcached && block < nblocks && boffs < erasesz
      modifies `faults, `failed, `unread, nandBlock
      ensures Valid() && faults >= old(faults) && (faults == old(faults) && !Carried(err0, boffs) ==> err >= 0)
      ensures i <= npages && (boffs == 0 ==> err == err0 && faults == old(faults))
      ensures err >= 0 ==> boffs <= Off(i, writesz) && Matches(block, 0, Off(i, writesz))
      ensures failed == if err >= 0 || Carried(err0, boffs) then old(failed) else old(failed) + {block}
    {
      err, i := err0, 0;
      while Off(i, writesz) < boffs
        invariant i <= npages && Valid() && faults == old(faults) && failed == old(failed)
        invariant err0 >= 0 || i > 0 ==> err >= 0
        invariant boffs == 0 ==> err == err0
        invariant Matches(block, 0, Off(i, writesz))
        decreases npages - i
      {
        err := LoadPage(block, i);
        if err < 0 {
          break;
        }
        i := i + 1;
      }
    }

    /** Loads pages [lo, npages), keeping what matched before them. */
    method LoadBehind(block: nat, lo: nat, ghost keep: nat) returns (err: int)
      requires Valid() && !rcached && block < nblocks && keep <= Off(lo, writesz) && Matches(block, 0, keep)
      modifies `faults, `failed, `unread, nandBlock
      ensures Valid() && faults >= old(faults) && (faults == old(faults) ==> err >= 0)
      ensures err >= 0 ==> Matches(block, 0, keep) && Matches(block, Off(lo, writesz), erasesz)
      ensures failed == if err >= 0 then old(failed) else old(failed) + {block}
      ensures unread == if err >= 0 then old(unread) else old(unread) + 1
    {
      err := 0;
      var i := lo;
      OffMono(Min(lo, npages), Max(lo, npages), writesz);
      while i < npages
        invariant lo <= i && (i <= npages || i == lo) && Valid() && faults == old(faults) && failed == old(failed) && unread == old(unread) && err >= 0
        invariant Off(lo, writesz) <= Off(i, writesz)
        invariant Matches(block, 0, keep) && Matches(block, Off(lo, writesz), Off(i, writesz))
      {
        err := LoadPage(block, i);
        if err < 0 {
          return;
        }
        i := i + 1;
      }
    }

    /** Loads what a write of `rem` bytes at `boffs` leaves of a block. A failure of the block before carries over in `err0`. */
    method LoadAround(block: nat, boffs: nat, rem: nat, err0: int) returns (err: int)
      requires Valid() && !rcached && block < nblocks && boffs < erasesz
      modifies `faults, `failed, `unread, nandBlock
      ensures Valid() && faults >= old(faults) && (faults == old(faults) && !Carried(err0, boffs) ==> err >= 0)
      ensures err >= 0 ==> Matches(block, 0, boffs) && Matches(block, boffs + rem, erasesz)
      ensures Carried(err0, boffs) ==> err < 0 && faults == old(faults)
      ensures failed == if err >= 0 || Carried(err0, boffs) then old(failed) else old(failed) + {block}
    {
      hide BlockNo;
      var i;
      err, i := LoadFront(block, boffs, err0);
      if err >= 0 {
        var k := BlockNo(boffs + rem, writesz);
        StartsBelow(boffs + rem, writesz);
        OffMono(Min(i, k), Max(i, k), writesz);
        err := LoadBehind(block, Max(i, k), Off(i, writesz));
      }
    }

    /** The block is marked bad though nothing failed there, and the code is left for the next one. */
    ghost predicate GivenUp(f: Fetch, err: int, block: nat, bad0: set<nat>, failed0: set<nat>)
      reads `wcached, `bad, `failed
    {
      err < 0 && !wcached && if f.Skip? then f.to == block && bad == bad0 + {block} && failed == failed0 else f.Fatal?
    }

    /** Blocks below `lo`, and below the cached one, are as they were. */
    twostate predicate KeptBelow(lo: nat)
      reads `flash, `bad
    {
      KeptIn(if old(wcached) then Min(lo, old(wblock)) else lo, old(flash), old(bad), flash, bad)
    }

    /**
     "New cached block": syncs the cached block if there is one and loads this one in its place.
     `moved` says that, before anything was written, the sync took the cached block from below
     the writer onto its block or past it.
     */
    method Fetch(block: nat, boffs: nat, rem: nat, err0: int, ghost lo: nat, ghost o: nat, ghost data: seq<Byte>)
      returns (f: Fetch, err: int, ghost moved: bool)
      requires Valid() && !rcached && block < nblocks && block !in bad && !(wcached && wblock == block) && boffs < erasesz
      requires lo <= block && (data == [] ==> forall b: nat :: lo <= b < block ==> b in bad)
      modifies this, nandBlock
      ensures Valid() && !rcached && faults >= old(faults)
      ensures f.Ready? ==> err >= 0 && wcached && wblock == block && block !in bad && Matches(block, 0, boffs) && Matches(block, boffs + rem, erasesz)
      ensures f.Skip? ==> !wcached && block <= f.to < nblocks
      ensures f.Fatal? ==> f.code < 0
      ensures !f.Fatal? ==> KeptBelow(lo)
      // whatever fails, the bytes written so far are still there, and nothing is in front of the next ones unless `moved`
      ensures data == [] || old(Written(View(), bad, wcached, wblock, lo, o, block, data, true)) ==>
                (f.Ready? ==> Written(flash, bad, false, 0, lo, o, block, data, true)) &&
                (f.Skip? && !moved ==> Written(flash, bad, false, 0, lo, o, f.to + 1, data, true))
      ensures moved ==>
                && f.Skip? && data == [] && old(wcached) && old(wblock) < block <= f.to
                && Moved(old(flash), old(bad), old(wblock), old(nandBlock[..]), flash, bad, f.to)
      // if nothing fails, the block is loaded and the device shows what it showed before - unless a code was left
      ensures faults == old(faults) && old(Healthy()) ==> !moved && (f.Ready? <==> !(Carried(err0, boffs) && !old(wcached)))
      ensures faults == old(faults) && old(Healthy()) && f.Ready? ==> err >= 0 && bad == old(bad) && flash == old(View())
      ensures Carried(err0, boffs) && !old(wcached) ==> GivenUp(f, err, block, old(bad), old(failed)) && flash == old(flash)
      ensures !(Carried(err0, boffs) && !old(wcached)) && !f.Fatal? ==> Accounted(old(bad), old(failed), bad, failed)
      ensures !old(wcached) && f.Skip? ==>
                && err < 0 && f.to == block && bad == old(bad) + {block}
                && failed == if Carried(err0, boffs) then old(failed) else old(failed) + {block}
    {
      hide Written, Accounted, Off, PageOf;
      err, moved := err0, false;
      WrittenUncached(flash, bad, wblock, 0, lo, o, block, data, true);
      AccountedNothing(bad, failed);
      if wcached {
        var cblock := wblock;
        ghost var image := nandBlock[..];
        err := DoSync(block);
        if err < 0 {
          return Fatal(err), err, false;
        }
        ghost var flash0, bad0 := old(flash), old(bad);
        if data == [] {
          WrittenFresh(flash, bad, lo, o, block);
        } else if Written(flash0[cblock := image], bad0, true, cblock, lo, o, block, data, true) {
          SyncKeeps(flash0, bad0, cblock, image, flash, bad, wblock, lo, o, block, data);
        }
        // the cached data got synced at our block: find the next good one
        if block > cblock && block <= wblock {
          return Skip(wblock), err, data == [];
        }
      } else if data == [] {
        WrittenFresh(flash, bad, lo, o, block);
      }
      ghost var bad1, failed1, carried := bad, failed, err;
      f, err := Load(block, boffs, rem, err);
      if f.Skip? {
        if Written(flash, bad1, false, 0, lo, o, block, data, true) {
          SkipBad(flash, bad1, bad, false, 0, lo, o, block, data);
        }
        if !Carried(carried, boffs) {
          AccountedOne(bad1, failed1, block);
          AccountedThrough(old(bad), old(failed), bad1, failed1, bad, failed);
        }
      }
    }

    /** Its part after the sync. */
    method Load(block: nat, boffs: nat, rem: nat, err0: int) returns (f: Fetch, err: int)
      requires Valid() && !rcached && !wcached && block < nblocks && block !in bad && boffs < erasesz
      modifies `wcached, `wblock, `bad, `faults, `failed, `unread, nandBlock
      ensures Valid() && faults >= old(faults)
      ensures f.Ready? ==>
                && err >= 0 && wcached && wblock == block && bad == old(bad) && failed == old(failed)
                && Matches(block, 0, boffs) && Matches(block, boffs + rem, erasesz)
      ensures f.Skip? ==>
                && err < 0 && !wcached && f.to == block && bad == old(bad) + {block}
                && failed == if Carried(err0, boffs) then old(failed) else old(failed) + {block}
      ensures f.Fatal? ==> err < 0 && !wcached && f.code < 0
      ensures Carried(err0, boffs) ==> !f.Ready?
      ensures faults == old(faults) ==> (f.Ready? <==> !Carried(err0, boffs))
    {
      err := LoadAround(block, boffs, rem, err0);
      if err < 0 {
        // block read failed (block data is lost): mark it as bad and find the next good one
        var marked := MarkBad(Paddr(block, 0));
        return if marked < 0 then Fatal(EIO) else Skip(block), err;
      }
      wcached, wblock := true, block;
      f := Ready;
    }

    /** Puts `part` into the cached block, and says what that makes of the device. */
    method CopyToCache(boffs: nat, part: seq<Byte>, rem: nat, ghost disk: seq<Block>)
      requires Valid() && wcached && wblock < nblocks && boffs + |part| <= erasesz && part != []
      requires |part| == Min(rem, erasesz - boffs)
      requires |disk| == nblocks && Shaped(disk, erasesz) && forall b: nat :: b < nblocks && b != wblock ==> disk[b] == flash[b]
      requires forall j :: 0 <= j < erasesz && !(boffs <= j < boffs + rem) ==> nandBlock[j] == disk[wblock][j]
      modifies nandBlock
      ensures Valid()
      ensures View() == disk[wblock := Splice(disk[wblock], boffs, part)]
      ensures View() == flash[wblock := nandBlock[..]] && nandBlock[..][boffs..boffs + |part|] == part
    {
      ghost var before := nandBlock[..];
      assert forall j :: 0 <= j < erasesz ==> before[j] == nandBlock[j];
      MemCpy(nandBlock, boffs, part);
      assert nandBlock[..] == Splice(disk[wblock], boffs, part);
    }

    /**
     Writes what fits of `rest` into one good block, unless that block has to be given up. A code
     left by the block before, with nothing cached, always gives up a block entered at its start.
     */
    method WriteBlock(block: nat, boffs: nat, rest: seq<Byte>, err0: int, ghost lo: nat, ghost o: nat, ghost data: seq<Byte>)
      returns (f: Fetch, err: int, n: nat, ghost moved: bool)
      requires Valid() && !rcached && block < nblocks && block !in bad && boffs < erasesz && rest != []
      requires boffs == if data == [] then o else 0
      requires lo <= block && (data == [] ==> forall b: nat :: lo <= b < block ==> b in bad)
      modifies this, nandBlock
      ensures Valid() && !rcached && faults >= old(faults)
      ensures n == Min(|rest|, erasesz - boffs)
      ensures f.Ready? ==> wcached && wblock == block && (err >= 0 || (err == err0 && old(wcached)))
      ensures f.Skip? ==> !wcached && block <= f.to < nblocks
      ensures f.Fatal? ==> f.code < 0
      ensures !f.Fatal? ==> KeptBelow(lo)
      ensures data == [] || old(Written(View(), bad, wcached, wblock, lo, o, block, data, true)) ==>
                (f.Ready? ==> Written(View(), bad, wcached, wblock, lo, o, block + 1, data + rest[..n], n < |rest|)) &&
                (f.Skip? && !moved ==> Written(View(), bad, wcached, wblock, lo, o, f.to + 1, data, true))
      ensures moved ==>
                && f.Skip? && data == [] && old(wcached) && old(wblock) < block <= f.to
                && Moved(old(flash), old(bad), old(wblock), old(nandBlock[..]), flash, bad, f.to)
      ensures faults == old(faults) && old(Healthy()) ==> !moved && (f.Ready? <==> !(Carried(err0, boffs) && !old(wcached)))
      ensures faults == old(faults) && old(Healthy()) && f.Ready? ==>
                && bad == old(bad) && Healthy()
                && View() == old(View())[block := Splice(old(View())[block], boffs, rest[..n])]
      ensures Carried(err0, boffs) && !old(wcached) ==> GivenUp(f, err, block, old(bad), old(failed)) && flash == old(flash)
      ensures !(Carried(err0, boffs) && !old(wcached)) && !f.Fatal? ==> Accounted(old(bad), old(failed), bad, failed)
      ensures !old(wcached) && f.Skip? ==>
                && err < 0 && f.to == block && bad == old(bad) + {block}
                && failed == if Carried(err0, boffs) then old(failed) else old(failed) + {block}
    {
      hide Written, Accounted, Moved, Off, PageOf;
      err, f, moved := err0, Ready, false;
      n := Min(|rest|, erasesz - boffs);
      ghost var disk := View();
      ghost var wc := wcached;
      AccountedNothing(bad, failed);
      if !wcached || block != wblock {
        f, err, moved := Fetch(block, boffs, |rest|, err, lo, o, data);
        if !f.Ready? {
          if f.Skip? {
            WrittenUncached(flash, bad, wblock, 0, lo, o, f.to + 1, data, true);
          }
          return;
        }
        WrittenUncached(flash, bad, wblock, block, lo, o, block, data, true);
        WrittenUncached(flash, bad, block, 0, lo, o, block, data, true);
        disk, wc := flash, false;
      } else if data == [] {
        WrittenAt(disk, bad, lo, o, block);
      }
      CopyWritten(boffs, rest, disk, wc, lo, o, data);
    }

    /** Puts what fits of `rest` into the cached block, which extends what is written. */
    method CopyWritten(boffs: nat, rest: seq<Byte>, ghost disk: seq<Block>, ghost wc: bool, ghost lo: nat, ghost o: nat, ghost data: seq<Byte>)
      requires Valid() && wcached && wblock < nblocks && wblock !in bad && boffs < erasesz && rest != []
      requires boffs == if data == [] then o else 0
      requires |disk| == nblocks && Shaped(disk, erasesz) && forall b: nat :: b < nblocks && b != wblock ==> disk[b] == flash[b]
      requires forall j :: 0 <= j < erasesz && !(boffs <= j < boffs + |rest|) ==> nandBlock[j] == disk[wblock][j]
      modifies nandBlock
      ensures Valid()
      ensures var n := Min(|rest|, erasesz - boffs);
              && View() == disk[wblock := Splice(disk[wblock], boffs, rest[..n])]
              && (Written(disk, bad, wc, wblock, lo, o, wblock, data, true) ==>
                    Written(View(), bad, wcached, wblock, lo, o, wblock + 1, data + rest[..n], n < |rest|))
    {
      hide Written;
      var n := Min(|rest|, erasesz - boffs);
      CopyToCache(boffs, rest[..n], |rest|, disk);
      assert View() == disk[wblock := nandBlock[..]];
      if Written(disk, bad, wc, wblock, lo, o, wblock, data, true) {
        CopyKeeps(disk, bad, wc, lo, o, wblock, data, nandBlock[..], boffs, rest[..n], n < |rest|);
      }
    }

    /**
     The first sync of the write took the cached block `c` onto or past the start: its image is in
     block `base - 1`, in front of all that was written, and every block from `c` up to it is bad.
     */
    ghost predicate Overtaken(block0: nat, base: nat, c: nat, image: Block)
      reads `flash, `bad, `wcached, `wblock, nandBlock
    {
      && block0 < base <= |flash| && c < base - 1
      && base - 1 !in bad && View()[base - 1] == flash[base - 1] == image && (wcached ==> wblock >= base)
      && forall b: nat :: (c <= b || block0 <= b) && b < base - 1 ==> b in bad
    }

    /**
     What is known of a write that started at `block0` and is at `block`: `data` is in the stream
     from `base` on. `clear` says that nothing cached was in front when it started, and `was` what
     was cached then.
     */
    ghost predicate Tracked(block0: nat, base: nat, o: nat, block: nat, data: seq<Byte>, more: bool, clear: bool, was: Cached)
      reads `flash, `bad, `wcached, `wblock, nandBlock
    {
      && block0 <= base <= block <= |flash| && (clear ==> base == block0)
      && (data != [] || clear ==> Written(View(), bad, wcached, wblock, base, o, block, data, more))
      && (data == [] ==>
            && (forall b: nat :: base <= b < block ==> b in bad)
            && (wcached ==> was == CachedBlock(wblock, nandBlock[..]) && base == block0)
            && (clear && wcached ==> wblock >= block && wblock !in bad))
      && (base != block0 ==> was.CachedBlock? && Overtaken(block0, base, was.block, was.image))
    }

    lemma TrackedSkip(block0: nat, base: nat, o: nat, block: nat, data: seq<Byte>, clear: bool, was: Cached)
      requires Tracked(block0, base, o, block, data, true, clear, was) && block < |flash| && block in bad
      ensures Tracked(block0, base, o, block + 1, data, true, clear, was)
    {
      hide Written, Overtaken;
      assert bad == bad + {block};
      if data != [] || clear {
        SkipBad(View(), bad, bad, wcached, wblock, base, o, block, data);
      }
    }

    /** Whatever happens to a block, what is known of the write goes on being known. */
    method TrackedBlock(block0: nat, block: nat, boffs: nat, rest: seq<Byte>, err0: int,
                        ghost base0: nat, ghost o: nat, ghost data: seq<Byte>, ghost clear: bool, ghost was: Cached,
                        ghost lost0: nat, ghost bad0: set<nat>, ghost flash0: seq<Block>)
      returns (f: Fetch, err: int, n: nat, ghost base: nat, ghost lost: nat)
      requires Valid() && !rcached && block < nblocks && block !in bad && boffs < erasesz && rest != []
      requires boffs == if data == [] then o else 0
      requires Tracked(block0, base0, o, block, data, true, clear, was) && Lost(lost0, bad0, block, err0, boffs)
      requires Kept(block0, was, flash0, bad0)
      modifies this, nandBlock
      ensures Valid() && !rcached && faults >= old(faults)
      ensures n == Min(|rest|, erasesz - boffs)
      ensures f.Skip? ==> !wcached && block <= f.to < nblocks
      ensures f.Fatal? ==> f.code < 0
      ensures f.Ready? ==> Lost(lost, bad0, block + 1, err, 0) && lost == nblocks
      ensures f.Skip? ==> Lost(lost, bad0, f.to + 1, err, boffs)
      ensures f.Ready? ==> base == base0 && Tracked(block0, base, o, block + 1, data + rest[..n], n < |rest|, clear, was)
      ensures f.Skip? ==> Tracked(block0, base, o, f.to + 1, data, true, clear, was)
      ensures !f.Fatal? ==> Kept(block0, was, flash0, bad0)
      ensures clear ==> base == base0
      ensures faults == old(faults) && old(Healthy()) && err0 >= 0 ==>
                && f.Ready? && base == base0 && bad == old(bad) && Healthy() && err >= 0
                && View() == old(View())[block := Splice(old(View())[block], boffs, rest[..n])]
    {
      hide Written, Accounted, Moved, LostIn, KeptIn;
      ghost var bad1, failed1, wcached1, wblock1, flash1 := bad, failed, wcached, wblock, flash;
      if wcached {
        TrackedCached(block0, base0, o, block, data, true, clear, was);
      }
      base, lost := base0, lost0;
      LostErr(lost0, bad0, block, err0, boffs);
      ghost var moved;
      f, err, n, moved := WriteBlock(block, boffs, rest, err0, base0, o, data);
      if !f.Fatal? {
        ghost var hi := if was.CachedBlock? then Min(block0, was.block) else block0;
        KeptThrough(hi, flash0, bad0, if wcached1 then Min(base0, wblock1) else base0, flash1, bad1, flash, bad);
        if base0 != block0 {
          OvertakenKept(block0, base0, was.block, was.image, flash1, bad1);
        }
      }
      if moved {
        base := f.to + 1;
        OvertakenNow(old(flash), old(bad), was.block, was.image, block0, block, f.to);
        WrittenFresh(View(), bad, base, o, base);
      } else if f.Skip? && data == [] {
        WrittenUncached(View(), bad, wblock, 0, base, o, f.to + 1, data, true);
        WrittenFresh(View(), bad, base, o, f.to + 1);
      }
      if !f.Fatal? {
        LostStep(lost0, bad0, block, err0, boffs, f, err, if f.Ready? then 0 else boffs, bad1, failed1, wcached1);
        if lost0 == nblocks && Carried(err0, boffs) {
          lost := block;
        }
      }
    }

    /** What is cached is what was, or lies from `base` on. */
    lemma TrackedCached(block0: nat, base: nat, o: nat, block: nat, data: seq<Byte>, more: bool, clear: bool, was: Cached)
      requires Tracked(block0, base, o, block, data, more, clear, was) && wcached
      ensures block0 <= base && (wblock >= base || (was.CachedBlock? && was.block == wblock))
    {
    }


    /** Blocks below `lo` that lie below the one cached, if `was` is one, are as given. */
    ghost predicate Kept(lo: nat, was: Cached, flash0: seq<Block>, bad0: set<nat>)
      reads `flash, `bad
    {
      KeptIn(if was.CachedBlock? then Min(lo, was.block) else lo, flash0, bad0, flash, bad)
    }

    lemma OvertakenKept(block0: nat, base: nat, c: nat, image: Block, flash1: seq<Block>, bad1: set<nat>)
      requires KeptIn(base, flash1, bad1, flash, bad) && (wcached ==> wblock >= base)
      requires block0 < base <= |flash1| && c < base - 1 && base - 1 !in bad1 && flash1[base - 1] == image
      requires forall b: nat :: (c <= b || block0 <= b) && b < base - 1 ==> b in bad1
      ensures Overtaken(block0, base, c, image)
    {
    }

    lemma OvertakenNow(flash0: seq<Block>, bad0: set<nat>, c: nat, image: Block, block0: nat, block: nat, to: nat)
      requires Moved(flash0, bad0, c, image, flash, bad, to) && c < block <= to && block0 <= block && !wcached
      requires forall b: nat :: block0 <= b < block ==> b in bad0
      ensures Overtaken(block0, to + 1, c, image)
    {
    }

    /** Either every bad block is accounted for, or all blocks from `lost` on were given up for a failure before them. */
    ghost predicate Lost(lost: nat, bad0: set<nat>, block: nat, err: int, boffs: nat)
      reads `bad, `failed, `wcached
    {
      LostIn(lost, bad0, block, err, boffs, bad, failed, wcached)
    }

    ghost predicate LostIn(lost: nat, bad0: set<nat>, block: nat, err: int, boffs: nat, bad1: set<nat>, failed1: set<nat>, wcached1: bool)
    {
      && lost <= nblocks && (err < 0 ==> !wcached1)
      && (lost == nblocks ==> Accounted(bad0, {}, bad1, failed1))
      && (lost < nblocks ==>
            && Carried(err, boffs) && lost in bad1 && lost !in bad0 && lost !in failed1
            && forall b: nat :: lost <= b < block ==> b in bad1)
    }

    lemma LostErr(lost: nat, bad0: set<nat>, block: nat, err: int, boffs: nat)
      requires Lost(lost, bad0, block, err, boffs)
      ensures lost <= nblocks && (err < 0 ==> !wcached) && (lost < nblocks ==> Carried(err, boffs))
    {
    }

    lemma LostStep(lost: nat, bad0: set<nat>, block: nat, err0: int, boffs: nat, f: Fetch, err: int, boffs': nat,
                   bad1: set<nat>, failed1: set<nat>, wcached1: bool)
      requires LostIn(lost, bad0, block, err0, boffs, bad1, failed1, wcached1) && block < nblocks && block !in bad1 && !f.Fatal?
      requires f.Skip? ==> !wcached && block <= f.to && boffs' == boffs
      requires f.Ready? ==> wcached && (err >= 0 || (err == err0 && wcached1))
      requires Carried(err0, boffs) && !wcached1 ==> GivenUp(f, err, block, bad1, failed1)
      requires !(Carried(err0, boffs) && !wcached1) ==> Accounted(bad1, failed1, bad, failed)
      ensures var lost' := if lost == nblocks && Carried(err0, boffs) then block else lost;
              Lost(lost', bad0, if f.Skip? then f.to + 1 else block + 1, err, boffs')
    {
      hide Accounted;
      if lost == nblocks {
        if Carried(err0, boffs) {
          AccountedFor(bad0, bad1, failed1, block);
        } else {
          AccountedThrough(bad0, {}, bad1, failed1, bad, failed);
        }
      }
    }

    /**
     The walk of data_write over the blocks; `end` is where it stops, and `base` the block from
     which on the bytes written are found: `block0`, unless the cached block was moved there.
     `lost` is the first block given up for a failure that was not its own.
     */
    method WriteBlocks(block0: nat, boffs0: nat, buff: seq<Byte>)
      returns (r: int, ghost end: nat, ghost base: nat, ghost lost: nat)
      requires Valid() && !rcached && boffs0 < erasesz && block0 <= nblocks
      modifies this, nandBlock
      ensures Valid() && !rcached && faults >= old(faults) && r <= |buff|
      // if nothing fails, this is the walk over the uncached device
      ensures faults == old(faults) && old(Healthy()) ==>
                && bad == old(bad) && Healthy() && base == block0
                && View() == WalkWrite(old(View()), bad, erasesz, block0, boffs0, buff)
                && r == WalkSize(nblocks, bad, erasesz, block0, boffs0, |buff|)
      // whatever fails, the bytes reported as written are there
      ensures r > 0 || (r == 0 && old(ClearFrom(block0))) ==>
                Written(View(), bad, wcached, wblock, base, boffs0, end, buff[..r], false)
      ensures r >= 0 && base != block0 ==> old(wcached) && Overtaken(block0, base, old(wblock), old(nandBlock[..]))
      ensures r >= 0 ==> KeptBelow(block0)
      ensures old(ClearFrom(block0)) ==> base == block0
      // a block was given up without a failure of its own exactly if `lost` is one; then all behind it are bad
      ensures r >= 0 ==> (lost < nblocks <==> exists b: nat :: b < nblocks && b in bad && b !in old(bad) && b !in failed)
      ensures r >= 0 && lost < nblocks ==>
                && r < |buff| && lost in bad && lost !in old(bad) && lost !in failed
                && forall b: nat :: lost <= b < nblocks ==> b in bad
    {
      hide Written, Remains, Accounted, Moved, Tracked, Overtaken, Lost;
      failed := {};
      ghost var clear, disk, bad0 := ClearFrom(block0), View(), bad;
      ghost var was := if wcached then CachedBlock(wblock, nandBlock[..]) else CachedNothing;
      RemainsEnds(disk, bad, erasesz, block0, boffs0, buff, disk, block0, boffs0, 0);
      TrackedStart(block0, boffs0, |buff| > 0);
      LostStart(block0, boffs0);
      ghost var err, boffs;
      r, end, base, lost, err, boffs := WriteLoop(block0, boffs0, buff, clear, was, bad0, disk);
      if r >= 0 {
        RemainsEnds(disk, bad, erasesz, block0, boffs0, buff, View(), end, boffs, r);
        TrackedEnd(block0, base, boffs0, end, buff[..r], r < |buff|, clear, was);
        LostEnd(lost, bad0, end, err, boffs, r < |buff|);
      }
    }

    /** Its loop. */
    method WriteLoop(block0: nat, boffs0: nat, buff: seq<Byte>,
                     ghost clear: bool, ghost was: Cached, ghost bad0: set<nat>, ghost disk: seq<Block>)
      returns (r: int, ghost end: nat, ghost base: nat, ghost lost: nat, ghost err': int, ghost boffs': nat)
      requires Valid() && !rcached && boffs0 < erasesz && block0 <= nblocks
      requires Tracked(block0, block0, boffs0, block0, [], |buff| > 0, clear, was) && Lost(nblocks, bad0, block0, 0, boffs0)
      requires Kept(block0, was, flash, bad0)
      requires Shaped(disk, erasesz) && Remains(disk, bad, erasesz, block0, boffs0, buff, View(), block0, boffs0, 0)
      modifies this, nandBlock
      ensures Valid() && !rcached && faults >= old(faults) && r <= |buff|
      ensures r >= 0 ==>
                && end <= nblocks && (r < |buff| ==> end == nblocks) && (lost < nblocks ==> r < |buff|)
                && Tracked(block0, base, boffs0, end, buff[..r], r < |buff|, clear, was)
                && Lost(lost, bad0, end, err', boffs')
      ensures r >= 0 ==> Kept(block0, was, old(flash), bad0)
      ensures clear ==> base == block0
      ensures faults == old(faults) && old(Healthy()) ==>
                && r >= 0 && bad == old(bad) && Healthy() && base == block0
                && Remains(disk, bad, erasesz, block0, boffs0, buff, View(), end, boffs', r)
    {
      hide Written, Remains, Accounted, Moved, Tracked, Overtaken, Lost, WalkWrite, WalkSize, Kept;
      ghost var flash0 := flash;
      var ret, err := 0, 0;
      var block, boffs := block0, boffs0;
      base, lost := block0, nblocks;
      ghost var healthy := Healthy();
      assert buff[..0] == [];
      while block < nblocks && ret < |buff|
        invariant Valid() && !rcached && faults >= old(faults)
        invariant 0 <= ret <= |buff| && block <= nblocks
        invariant boffs == (if ret == 0 then boffs0 else 0)
        invariant Tracked(block0, base, boffs0, block, buff[..ret], ret < |buff|, clear, was)
        invariant Lost(lost, bad0, block, err, boffs) && (lost < nblocks ==> ret < |buff|)
        invariant Kept(block0, was, flash0, bad0)
        invariant clear ==> base == block0
        invariant faults == old(faults) && healthy ==>
                    && bad == old(bad) && Healthy() && err >= 0 && base == block0
                    && Remains(disk, bad, erasesz, block0, boffs0, buff, View(), block, boffs, ret)
        decreases nblocks - block
      {
        if IsBad(Paddr(block, 0)) {
          RemainsEnds(disk, bad, erasesz, block0, boffs0, buff, View(), block, boffs, ret);
          TrackedSkip(block0, base, boffs0, block, buff[..ret], clear, was);
          LostSkip(lost, bad0, block, err, boffs);
          block := block + 1;
          continue;
        }
        var f, n;
        ghost var view := View();
        f, err, n, base, lost := TrackedBlock(block0, block, boffs, buff[ret..], err, base, boffs0, buff[..ret], clear, was, lost, bad0, flash0);
        if f.Fatal? {
          return f.code, block, base, lost, err, boffs;
        }
        if f.Ready? {
          NextPiece(buff, ret, n);
          if faults == old(faults) && healthy {
            RemainsStep(disk, bad, erasesz, block0, boffs0, buff, view, block, boffs, ret);
          }
          ret := ret + n;
          boffs := 0;
          block := block + 1;
        } else {
          block := f.to + 1;
        }
      }
      r, end, err', boffs' := ret, block, err, boffs;
    }

    lemma NextPiece(buff: seq<Byte>, done: nat, n: nat)
      requires done + n <= |buff|
      ensures buff[..done] + buff[done..][..n] == buff[..done + n]
    {
    }

    lemma TrackedStart(block0: nat, o: nat, more: bool)
      requires block0 <= |flash|
      ensures Tracked(block0, block0, o, block0, [], more, ClearFrom(block0), if wcached then CachedBlock(wblock, nandBlock[..]) else CachedNothing)
    {
      WrittenEnds(View(), bad, wcached, wblock, block0, o, block0, [], true);
    }

    lemma TrackedEnd(block0: nat, base: nat, o: nat, block: nat, data: seq<Byte>, more: bool, clear: bool, was: Cached)
      requires Tracked(block0, base, o, block, data, more, clear, was)
      ensures data != [] || clear ==> Written(View(), bad, wcached, wblock, base, o, block, data, false)
      ensures base != block0 ==> was.CachedBlock? && Overtaken(block0, base, was.block, was.image)
    {
      WrittenEnds(View(), bad, wcached, wblock, base, o, block, data, more);
    }

    lemma LostStart(block: nat, boffs: nat)
      requires failed == {}
      ensures Lost(nblocks, bad, block, 0, boffs)
    {
    }

    lemma LostSkip(lost: nat, bad0: set<nat>, block: nat, err: int, boffs: nat)
      requires Lost(lost, bad0, block, err, boffs) && block in bad
      ensures Lost(lost, bad0, block + 1, err, boffs)
    {
    }

    lemma LostEnd(lost: nat, bad0: set<nat>, block: nat, err: int, boffs: nat, more: bool)
      requires Lost(lost, bad0, block, err, boffs) && (lost < nblocks ==> more) && (more ==> block >= nblocks)
      ensures lost < nblocks <==> exists b: nat :: b < nblocks && b in bad && b !in bad0 && b !in failed
      ensures lost < nblocks ==>
                lost in bad && lost !in bad0 && lost !in failed && forall b: nat :: lost <= b < nblocks ==> b in bad
    {
      if lost == nblocks {
        AccountedAll(bad0, bad, failed);
      }
    }

    // ---- data_erase

    ghost predicate Erased(lo: nat, o: nat, block: nat, n: nat, more: bool)
      reads `flash, `bad, `wcached, `wblock, nandBlock
    {
      Erasing(View(), bad, wcached, wblock, lo, o, block, n, more)
    }

    /** What the sync before an access to `block` did, if there was one: `moved` has it. */
    twostate predicate Synced(block: nat, moved: seq<SyncTo>, bad1: set<nat>)
      reads `flash, `syncs
    {
      && syncs == old(syncs) + moved
      && if old(wcached && wblock != block) then
           && |moved| == 1 && moved[0].at == block && moved[0].from == old(wblock)
           && Moved(old(flash), old(bad), old(wblock), old(nandBlock[..]), flash, bad1, moved[0].to)
         else
           moved == [] && flash == old(flash) && bad1 == old(bad)
    }

    /**
     Makes `block` the cached block. The source does not look where the sync before that took the
     block cached until then.
     */
    method EraseFetch(block: nat, ghost lo: nat, ghost o: nat, ghost got: nat)
      returns (f: Fetch, ghost moved: seq<SyncTo>, ghost bad1: set<nat>)
      requires Valid() && !rcached && block < nblocks && block !in bad && !(wcached && wblock == block)
      modifies this, nandBlock
      ensures Valid() && !rcached && faults >= old(faults) && unread >= old(unread)
      ensures syncs == old(syncs) + moved && (!f.Fatal? ==> Synced(block, moved, bad1))
      ensures f.Ready? ==> wcached && wblock == block && nandBlock[..] == flash[block] && bad == bad1
      ensures f.Skip? ==> f.to == block && !wcached && unread > old(unread) && bad == bad1 + {block}
      ensures f.Fatal? ==> f.code < 0
      ensures faults == old(faults) && old(Healthy()) ==> f.Ready? && NoneOvertakes(moved) && bad == old(bad) && flash == old(View())
      ensures old(Erased(lo, o, block, got, true)) && NoneOvertakes(moved) ==>
                (f.Ready? ==> block !in bad && Erasing(flash, bad, false, 0, lo, o, block, got, true)) &&
                (f.Skip? ==> Erased(lo, o, block + 1, got, true))
    {
      hide Erasing, Moved, Off, PageOf;
      var err;
      err, moved, bad1 := EraseSync(block, lo, o, got);
      if err < 0 {
        return Fatal(err), moved, bad1;
      }
      OffNone(writesz);
      err := LoadBehind(block, 0, 0);
      if err < 0 {
        var marked := MarkBad(Paddr(block, 0));
        if marked < 0 {
          return Fatal(EIO), moved, bad1;
        }
        if Erasing(flash, bad1, false, 0, lo, o, block, got, true) {
          ErasingSkip(flash, bad1, false, 0, lo, o, block, got);
        }
        ErasingUncached(flash, bad, wblock, 0, lo, o, block + 1, got, true);
        return Skip(block), moved, bad1;
      }
      wcached, wblock := true, block;
      f := Ready;
    }

    /** Its sync. */
    method EraseSync(block: nat, ghost lo: nat, ghost o: nat, ghost got: nat)
      returns (err: int, ghost moved: seq<SyncTo>, ghost bad1: set<nat>)
      requires Valid() && !rcached && block < nblocks && block !in bad && !(wcached && wblock == block)
      modifies this
      ensures Valid() && !rcached && faults >= old(faults) && unread == old(unread) && bad1 == bad
      ensures syncs == old(syncs) + moved && (err >= 0 ==> !wcached && Synced(block, moved, bad1))
      ensures faults == old(faults) && old(Healthy()) ==> err >= 0 && NoneOvertakes(moved) && bad == old(bad) && flash == old(View())
      ensures old(Erased(lo, o, block, got, true)) && NoneOvertakes(moved) && err >= 0 ==>
                block !in bad && Erasing(flash, bad, false, 0, lo, o, block, got, true)
    {
      hide Erasing, Moved;
      err, moved, bad1 := EOK, [], bad;
      ghost var held, c := Erased(lo, o, block, got, true), wblock;
      if wcached {
        ghost var flash0, bad0, image := flash, bad, nandBlock[..];
        err := DoSync(block);
        bad1 := bad;
        if err < 0 {
          return;
        }
        ghost var e := SyncTo(block, c, wblock);
        moved := [e];
        BehindNext([], e, 0);
        assert [] + [e] == [e];
        if held && !e.Overtakes() {
          MovedWithin(flash0, bad0, c, image, flash, bad, wblock);
          ErasingSync(flash0, bad0, c, image, flash, bad, wblock, lo, o, block, got);
        }
      } else {
        ErasingUncached(flash, bad, wblock, 0, lo, o, block, got, true);
      }
    }

    /**
     Erases `n` bytes of a good block in the cache, which is loaded first unless it has the block.
     If the sync before that took the cached block onto this one, its image is erased over; if it
     took it past, a bad block is.
     */
    method ErasePart(block: nat, boffs: nat, n: nat, ghost lo: nat, ghost o: nat, ghost got: nat, ghost more: bool)
      returns (f: Fetch, ghost moved: seq<SyncTo>, ghost bad1: set<nat>)
      requires Valid() && !rcached && block < nblocks && block !in bad && boffs + n <= erasesz && n > 0
      requires more ==> boffs + n == erasesz
      modifies this, nandBlock
      ensures Valid() && !rcached && faults >= old(faults) && unread >= old(unread)
      ensures syncs == old(syncs) + moved && (!f.Fatal? ==> Synced(block, moved, bad1))
      ensures f.Skip? ==> f.to == block && !wcached && unread > old(unread) && bad == bad1 + {block}
      ensures f.Fatal? ==> f.code < 0
      ensures f.Ready? ==> wcached && wblock == block && bad == bad1
      ensures faults == old(faults) && old(Healthy()) ==>
                && f.Ready? && NoneOvertakes(moved) && bad == old(bad) && Healthy()
                && View() == old(View())[block := Splice(old(View())[block], boffs, Fill(n, ERASED))]
      // what is erased over if a sync overtook the access
      ensures f.Ready? && moved != [] && moved[0].Overtakes() ==>
                if moved[0].to == block then block !in bad && View()[block] == Splice(old(nandBlock[..]), boffs, Fill(n, ERASED))
                else block in bad
      // how much is erased then
      ensures old(Erased(lo, o, block, got, true)) && boffs == (if got == 0 then o else 0) && Landed(moved) ==>
                && (f.Ready? ==>
                      && block !in bad
                      && if NoneOvertakes(moved) || got == 0 then Erased(lo, o, block + 1, got + n, more)
                         else Erased(lo, o, block + 1, got, true))
                && (f.Skip? && NoneOvertakes(moved) ==> Erased(lo, o, block + 1, got, true))
    {
      hide Erasing, Off, PageOf, Moved, Landed, NoneOvertakes;
      OneIs([]);
      f, moved, bad1 := Ready, [], bad;
      ghost var disk, wc := View(), wcached;
      if !wcached || wblock != block {
        ghost var held, flash0, bad0, c, image := Erased(lo, o, block, got, true), flash, bad, wblock, nandBlock[..];
        f, moved, bad1 := EraseFetch(block, lo, o, got);
        if !f.Ready? {
          return;
        }
        disk, wc := flash, false;
        ErasingUncached(flash, bad, 0, block, lo, o, block, got, true);
        OneIs(moved);
        if moved != [] && moved[0].Overtakes() {
          MovedOver(flash0, bad0, c, image, flash, bad, block, moved[0].to);
        }
        if held && !NoneOvertakes(moved) && Landed(moved) && boffs == if got == 0 then o else 0 {
          LandedHere(flash0, bad0, c, image, flash, bad, block, lo, o, got);
          if got > 0 {
            ErasingLanded(flash0, bad0, c, image, flash, bad, block, lo, o, got, n);
          }
        }
      }
      EraseOver(block, boffs, n, lo, o, got, more, disk, wc);
    }

    /** Erases a part of the cached block. */
    method EraseOver(block: nat, boffs: nat, n: nat, ghost lo: nat, ghost o: nat, ghost got: nat, ghost more: bool,
                     ghost disk: seq<Block>, ghost wc: bool)
      requires Valid() && wcached && wblock == block && block < nblocks && boffs + n <= erasesz && n > 0
      requires disk == View() && (more ==> boffs + n == erasesz)
      modifies nandBlock
      ensures Valid() && View() == disk[block := Splice(disk[block], boffs, Fill(n, ERASED))]
      ensures Erasing(disk, bad, wc, block, lo, o, block, got, true) && block !in bad && boffs == (if got == 0 then o else 0) ==>
                Erased(lo, o, block + 1, got + n, more)
    {
      hide Erasing, Off, PageOf;
      CopyToCache(boffs, Fill(n, ERASED), n, disk);
      assert View() == disk[block := nandBlock[..]];
      if Erasing(disk, bad, wc, block, lo, o, block, got, true) && block !in bad && boffs == if got == 0 then o else 0 {
        ErasingCopy(disk, bad, wc, block, lo, o, block, got, nandBlock[..], boffs, n, more);
      }
    }

    /** A block that comes to the eraser's block, with nothing erased before. */
    lemma LandedHere(flash0: seq<Block>, bad0: set<nat>, c: nat, image: Block, flash1: seq<Block>, bad1: set<nat>, block: nat,
                     lo: nat, o: nat, got: nat)
      requires Moved(flash0, bad0, c, image, flash1, bad1, block)
      ensures block !in bad1 && block < |flash1| && flash1[block] == image
      ensures got == 0 && Erasing(flash0[c := image], bad0, true, c, lo, o, block, 0, true) ==>
                Erasing(flash1, bad1, false, block, lo, o, block, 0, true)
    {
      if got == 0 && Erasing(flash0[c := image], bad0, true, c, lo, o, block, 0, true) {
        ErasingFresh(flash0, bad0, c, image, flash1, bad1, block, lo, o);
      }
    }

    /** Erases one good block on the device; a cached image of it is dropped. */
    method EraseWhole(block: nat, ghost lo: nat, ghost done: nat) returns (f: Fetch)
      requires Valid() && !rcached && block < nblocks && block !in bad
      modifies `flash, `bad, `faults, `failed, `wcached
      ensures Valid() && !rcached && faults >= old(faults)
      ensures f.Skip? ==> f.to == block
      ensures f.Fatal? ==> f.code < 0
      ensures faults == old(faults) && old(Healthy()) ==>
                && f.Ready? && bad == old(bad) && Healthy()
                && View() == old(View())[block := Fill(erasesz, ERASED)]
      ensures old(Erased(lo, 0, block, done, true)) && old(wcached ==> wblock >= block && wblock < nblocks && wblock !in bad) ==>
                && (wcached ==> block < wblock < nblocks && wblock !in bad)
                && (f.Ready? ==> Erased(lo, 0, block + 1, done + erasesz, true))
                && (f.Skip? ==> Erased(lo, 0, block + 1, done, true))
    {
      hide Erasing, Off, PageOf;
      if wcached && wblock == block {
        ghost var view := View();
        wcached := false;
        if Erasing(view, bad, true, block, lo, 0, block, done, true) {
          ErasingDrop(view, flash, bad, lo, 0, block, done);
        }
      }
      f := EraseDevice(block, lo, done);
    }

    /** Its part after that. */
    method EraseDevice(block: nat, ghost lo: nat, ghost done: nat) returns (f: Fetch)
      requires Valid() && !rcached && block < nblocks && block !in bad && !(wcached && wblock == block)
      modifies `flash, `bad, `faults, `failed
      ensures Valid() && faults >= old(faults)
      ensures f.Skip? ==> f.to == block && bad == old(bad) + {block}
      ensures !f.Skip? ==> bad == old(bad)
      ensures f.Fatal? ==> f.code < 0
      ensures faults == old(faults) ==> f.Ready? && View() == old(View())[block := Fill(erasesz, ERASED)]
      ensures old(Erased(lo, 0, block, done, true)) && (wcached ==> block < wblock) ==>
                && (f.Ready? ==> Erased(lo, 0, block + 1, done + erasesz, true))
                && (f.Skip? ==> Erased(lo, 0, block + 1, done, true))
    {
      hide Erasing, Off, PageOf;
      ghost var view, held := View(), Erased(lo, 0, block, done, true) && (wcached ==> block < wblock);
      var err := EraseBlock(Paddr(block, 0));
      if err >= 0 {
        if held {
          ErasingCopy(view, bad, wcached, wblock, lo, 0, block, done, Fill(erasesz, ERASED), 0, erasesz, true);
        }
        assert View() == view[block := Fill(erasesz, ERASED)];
        return Ready;
      }
      ghost var bad1 := bad;
      if held {
        ErasingFrame(view, View(), bad, wcached, wblock, lo, 0, block, done);
      }
      var marked := MarkBad(Paddr(block, 0));
      if marked >= 0 && held {
        ErasingSkip(View(), bad1, wcached, wblock, lo, 0, block, done);
      }
      f := if marked < 0 then Fatal(EIO) else Skip(block);
    }

    /** How much a round that went well erased: nothing more if a sync overtook it and brought erased bytes. */
    function Gain(moved: seq<SyncTo>, got: nat, n: nat): (k: nat)
    {
      if NoneOvertakes(moved) || got == 0 then n else 0
    }

    /** One round of data_erase: only whole blocks of an erase from the very start bypass the cache. */
    method EraseRound(offs: nat, block: nat, boffs: nat, len: nat, ghost lo: nat, ghost o: nat, done: nat, ghost got: nat)
      returns (f: Fetch, ghost moved: seq<SyncTo>)
      requires Valid() && !rcached && block < nblocks && block !in bad && done < len
      requires boffs == (if done == 0 then o else 0) < erasesz && (offs == 0 ==> o == 0)
      modifies this, nandBlock
      ensures Valid() && !rcached && faults >= old(faults) && unread >= old(unread)
      ensures f.Skip? ==> f.to == block
      ensures f.Fatal? ==> f.code < 0
      ensures syncs == old(syncs) + moved && (!f.Fatal? && moved != [] ==> |moved| == 1 && moved[0].at == block && moved[0].from == old(wblock) && old(wcached))
      ensures var n := Min(len - done, erasesz - boffs);
              faults == old(faults) && old(Healthy()) ==>
                && f.Ready? && NoneOvertakes(moved) && bad == old(bad) && Healthy()
                && View() == old(View())[block := Splice(old(View())[block], boffs, Fill(n, ERASED))]
      // the image of the block moved is erased over, or a bad block is
      ensures f.Ready? && moved != [] && moved[0].Overtakes() ==>
                if moved[0].to == block
                then block !in bad && View()[block] == Splice(old(nandBlock[..]), boffs, Fill(Min(len - done, erasesz - boffs), ERASED))
                else block in bad
      ensures var n := Min(len - done, erasesz - boffs);
              && old(Healthy() && Erased(lo, o, block, got, true) && EraseAhead(offs, block)) && (got == 0 <==> done == 0)
              && KnownFrom(moved, unread == old(unread)) && !f.Fatal? ==>
                && Healthy()
                && Erased(lo, o, block + 1, if f.Ready? then got + Gain(moved, got, n) else got,
                          f.Skip? || boffs + n == erasesz || Gain(moved, got, n) == 0)
                && (f.Skip? || done + n < len ==> EraseAhead(offs, block + 1))
                && (moved != [] && moved[0].Overtakes() ==> f.Ready? && (lo <= moved[0].from <==> got > 0))
    {
      hide Erasing, Off, PageOf, Moved;
      var n := Min(len - done, erasesz - boffs);
      moved := [];
      if offs != 0 || done + erasesz > len {
        ghost var bad1;
        ghost var view0, bad0, wc, c := View(), bad, wcached, wblock;
        f, moved, bad1 := ErasePart(block, boffs, n, lo, o, got, boffs + n == erasesz);
        if !f.Fatal? && moved != [] && Erasing(view0, bad0, wc, c, lo, o, block, got, true) && moved[0].Overtakes() && c !in bad0 {
          ErasingFrom(view0, bad0, c, lo, o, block, got);
        }
      } else {
        ghost var view := View();
        f := EraseWhole(block, lo, got);
        SpliceAll(view[block]);
      }
    }

    /** As long as whole blocks are erased, nothing cached is behind. */
    ghost predicate EraseAhead(offs: nat, block: nat)
      reads `wcached, `wblock
    {
      offs == 0 && wcached ==> wblock >= block
    }

    /** The syncs of this erase. */
    ghost function Since(syncs0: seq<SyncTo>): (s: seq<SyncTo>)
      reads `syncs
    {
      if |syncs0| <= |syncs| then syncs[|syncs0|..] else []
    }

    /**
     When it is known how much an erase erased: no sync overtook it, or those that did ended on the
     block to be erased next, and no page read failed.
     */
    ghost predicate Known(syncs0: seq<SyncTo>, unread0: nat)
      reads `syncs, `unread
    {
      KnownFrom(Since(syncs0), unread == unread0)
    }

    /** Each sync that overtook, but for one before the first byte, cost a block of the count, or the last piece. */
    ghost predicate Cost(lost: nat, syncs0: seq<SyncTo>, lo: nat, more: bool)
      reads `syncs
    {
      CostOf(lost, Since(syncs0), erasesz, lo, more)
    }

    /**
     What is known of an erase at `block`, as long as it is known how much was erased: `full` says
     that what is erased ends with the last good block, `exact` that no part of a block was lost.
     */
    ghost predicate EraseTracked(healthy: bool, syncs0: seq<SyncTo>, unread0: nat, offs: nat, lo: nat, o: nat,
                                 block: nat, done: nat, lost: nat, full: bool, exact: bool, more: bool)
      reads this, nandBlock
    {
      healthy && Known(syncs0, unread0) ==>
        && Healthy() && lost <= done && (lost == done <==> done == 0) && Cost(lost, syncs0, lo, exact) && (full || exact)
        && Erased(lo, o, block, done - lost, full) && (more ==> full && exact && EraseAhead(offs, block))
    }

    lemma EraseTrackedSkip(healthy: bool, syncs0: seq<SyncTo>, unread0: nat, offs: nat, lo: nat, o: nat, block: nat, done: nat, lost: nat)
      requires EraseTracked(healthy, syncs0, unread0, offs, lo, o, block, done, lost, true, true, true)
      requires block < |flash| && block in bad
      ensures EraseTracked(healthy, syncs0, unread0, offs, lo, o, block + 1, done, lost, true, true, true)
    {
      hide Erasing, KnownFrom, CostOf;
      if healthy && Known(syncs0, unread0) {
        ErasingSkip(View(), bad, wcached, wblock, lo, o, block, done - lost);
        assert bad + {block} == bad;
      }
    }

    /** A round keeps it. */
    method EraseStep(offs: nat, block: nat, boffs: nat, len: nat, done: nat,
                     ghost healthy: bool, ghost syncs0: seq<SyncTo>, ghost unread0: nat, ghost lo: nat, ghost o: nat, ghost lost0: nat)
      returns (f: Fetch, ghost lost: nat, ghost full: bool, ghost exact: bool)
      requires Valid() && !rcached && block < nblocks && block !in bad && done < len
      requires boffs == (if done == 0 then o else 0) < erasesz && (offs == 0 ==> o == 0)
      requires syncs0 <= syncs && unread0 <= unread
      requires EraseTracked(healthy, syncs0, unread0, offs, lo, o, block, done, lost0, true, true, true)
      modifies this, nandBlock
      ensures Valid() && !rcached && faults >= old(faults) && syncs0 <= syncs && unread0 <= unread
      ensures f.Skip? ==> f.to == block && full && exact
      ensures f.Fatal? ==> f.code < 0
      ensures var n := Min(len - done, erasesz - boffs);
              && (boffs + n == erasesz ==> full && exact)
              && (f.Ready? ==> EraseTracked(healthy, syncs0, unread0, offs, lo, o, block + 1, done + n, lost, full, exact, done + n < len))
              && (f.Skip? ==> EraseTracked(healthy, syncs0, unread0, offs, lo, o, block + 1, done, lost, true, true, true))
      ensures var n := Min(len - done, erasesz - boffs);
              faults == old(faults) && old(Healthy()) ==>
                && f.Ready? && bad == old(bad) && Healthy() && (old(NoneOvertakes(Since(syncs0))) ==> NoneOvertakes(Since(syncs0)))
                && View() == old(View())[block := Splice(old(View())[block], boffs, Fill(n, ERASED))]
    {
      hide Erasing, Off, PageOf, CostOf, KnownFrom, Behind, Landed, NoneOvertakes;
      var n := Min(len - done, erasesz - boffs);
      ghost var syncs1, unread1, known := syncs, unread, Known(syncs0, unread0);
      assert known == KnownFrom(syncs1[|syncs0|..], unread1 == unread0);
      ghost var got, moved := if lost0 <= done then done - lost0 else 0, [];
      f, moved := EraseRound(offs, block, boffs, len, lo, o, done, got);
      ghost var cost := if f.Ready? then n - Gain(moved, got, n) else 0;
      lost := lost0 + cost;
      full := f.Skip? || boffs + n == erasesz || cost > 0;
      exact := f.Skip? || boffs + n == erasesz || cost == 0;
      if !f.Fatal? {
        SinceNext(syncs0, syncs1, moved);
        OneIs(moved);
        NoneNext(syncs1[|syncs0|..], moved);
        if healthy && Known(syncs0, unread0) {
          KnownBefore(syncs1[|syncs0|..], moved, unread1 == unread0, unread == unread1);
          CostNext(syncs1[|syncs0|..], moved, lost0, cost, erasesz, lo, exact);
        }
      }
    }

    /** The bytes [o, o + r) end inside a block. */
    ghost predicate EndsInside(o: nat, r: nat) {
      forall q: nat :: Off(q, erasesz) != o + r
    }

    lemma InsideBlock(q: nat, boffs: nat, o: nat, r: nat)
      requires Off(q, erasesz) + boffs == o + r && 0 < boffs < erasesz
      ensures EndsInside(o, r)
    {
      forall p: nat
        ensures Off(p, erasesz) != o + r
      {
        OffMono(Min(p, q), Max(p, q), erasesz);
      }
    }

    /**
     The walk of data_erase over the blocks. Only an erase from the very start may bypass the
     cache. All but `lost` of the bytes reported read as erased, and what is read after them lies
     behind the blocks erased, unless the last one was erased in part only.
     */
    method EraseBlocks(offs: nat, block0: nat, boffs0: nat, len: nat) returns (r: int, ghost lost: nat, ghost exact: bool, ghost end: nat)
      requires Valid() && !rcached && boffs0 < erasesz && block0 <= nblocks && (offs == 0 ==> boffs0 == 0 && block0 == 0)
      modifies this, nandBlock
      ensures Valid() && !rcached && faults >= old(faults) && old(syncs) <= syncs
      ensures faults == old(faults) && old(Healthy()) ==>
                && bad == old(bad) && Healthy() && NoneOvertakes(Since(old(syncs)))
                && View() == WalkWrite(old(View()), bad, erasesz, block0, boffs0, Fill(len, ERASED))
                && r == WalkSize(nblocks, bad, erasesz, block0, boffs0, len)
      ensures r >= 0 && old(Healthy()) && Known(old(syncs), old(unread)) ==>
                && lost <= r && Cost(lost, old(syncs), block0, exact) && (r < len ==> exact) && (exact || EndsInside(boffs0, r))
                && WalkRead(View(), bad, erasesz, block0, boffs0, r - lost) == Fill(r - lost, ERASED)
                && (!exact || r < len || !EndsInside(boffs0, r) ==>
                      && end <= nblocks
                      && WalkRead(View(), bad, erasesz, block0, boffs0, r)
                         == Fill(r - lost, ERASED) + Clip(Stream(View(), bad, end, nblocks), if r == lost then boffs0 else 0, lost))
    {
      hide Remains, Erasing, WalkWrite, WalkSize, WalkRead, Off, PageOf, EraseTracked, CostOf, KnownFrom, Behind, EndsInside, Clip;
      var ret := 0;
      lost := 0;
      exact := true;
      var block: nat, boffs: nat := block0, boffs0;
      ghost var healthy, syncs0, unread0, full, q: nat := Healthy(), syncs, unread, true, 0;
      ghost var disk, data := View(), Fill(len, ERASED);
      RemainsEnds(disk, bad, erasesz, block0, boffs0, data, disk, block0, boffs0, 0);
      EraseTrackedStart(offs, block0, boffs0, len > 0);
      OffNext(0, erasesz);
      OffNone(erasesz);
      while block < nblocks && ret < len
        invariant Valid() && !rcached && faults >= old(faults) && syncs0 <= syncs && unread0 <= unread
        invariant 0 <= ret <= len && block <= nblocks && boffs == (if ret == 0 then boffs0 else 0)
        invariant EraseTracked(healthy, syncs0, unread0, offs, block0, boffs0, block, ret, lost, full, exact, ret < len)
        invariant ret < len ==> full && exact && Off(q, erasesz) + boffs == boffs0 + ret
        invariant !full || !exact ==> EndsInside(boffs0, ret)
        invariant faults == old(faults) && healthy ==>
                    && bad == old(bad) && Healthy() && NoneOvertakes(Since(syncs0))
                    && Remains(disk, bad, erasesz, block0, boffs0, data, View(), block, boffs, ret)
        decreases nblocks - block
      {
        ghost var view := View();
        RemainsEnds(disk, bad, erasesz, block0, boffs0, data, view, block, boffs, ret);
        if IsBad(Paddr(block, 0)) {
          EraseTrackedSkip(healthy, syncs0, unread0, offs, block0, boffs0, block, ret, lost);
          block := block + 1;
          continue;
        }
        var f;
        var n := Min(len - ret, erasesz - boffs);
        f, lost, full, exact := EraseStep(offs, block, boffs, len, ret, healthy, syncs0, unread0, block0, boffs0, lost);
        match f {
          case Fatal(code) => return code, lost, exact, block;
          case Skip(_) =>
          case Ready =>
            if faults == old(faults) && healthy {
              FillMiddle(len, ret, n);
              RemainsStep(disk, bad, erasesz, block0, boffs0, data, view, block, boffs, ret);
            }
            OffNext(q, erasesz);
            if boffs + n < erasesz {
              InsideBlock(q, boffs + n, boffs0, ret + n);
            }
            q := q + 1;
            ret := ret + n;
            boffs := 0;
        }
        block := block + 1;
      }
      RemainsEnds(disk, bad, erasesz, block0, boffs0, data, View(), block, boffs, ret);
      EraseTrackedEnd(healthy, syncs0, unread0, offs, block0, boffs0, block, ret, lost, full, exact, ret < len);
      r, end := ret, block;
    }

    lemma EraseTrackedStart(offs: nat, lo: nat, o: nat, more: bool)
      requires lo <= |flash| && (offs == 0 ==> lo == 0)
      ensures EraseTracked(Healthy(), syncs, unread, offs, lo, o, lo, 0, 0, true, true, more) && NoneOvertakes(Since(syncs))
    {
      KnownStart(lo, true);
      ErasingStart(View(), bad, wcached, wblock, lo, o, true);
    }

    lemma EraseTrackedEnd(healthy: bool, syncs0: seq<SyncTo>, unread0: nat, offs: nat, lo: nat, o: nat,
                          block: nat, done: nat, lost: nat, full: bool, exact: bool, more: bool)
      requires Geometry() && o < erasesz && EraseTracked(healthy, syncs0, unread0, offs, lo, o, block, done, lost, full, exact, more)
      ensures healthy && Known(syncs0, unread0) ==>
                && lost <= done && Cost(lost, syncs0, lo, exact) && (full || exact)
                && WalkRead(View(), bad, erasesz, lo, o, done - lost) == Fill(done - lost, ERASED)
                && (full ==>
                      && block <= nblocks
                      && WalkRead(View(), bad, erasesz, lo, o, done)
                         == Fill(done - lost, ERASED) + Clip(Stream(View(), bad, block, nblocks), if done == lost then o else 0, lost))
    {
      hide Erasing, KnownFrom, CostOf, WalkRead, Clip;
      if healthy && Known(syncs0, unread0) {
        ErasingReads(View(), bad, erasesz, wcached, wblock, lo, o, block, done - lost, full);
        ErasingInside(View(), bad, wcached, wblock, lo, o, block, done - lost, full);
        if full && lost < done {
          LandedReads(View(), bad, erasesz, wcached, wblock, lo, o, block, done - lost, lost);
        } else if full {
          ReadNothing(View(), bad, erasesz, lo, o);
          ClipEnds(Stream(View(), bad, block, nblocks), o, 0);
        }
      }
    }

    lemma OffNone(n: nat)
      ensures Off(0, n) == 0
    {
    }

    lemma SinceNext(syncs0: seq<SyncTo>, syncs1: seq<SyncTo>, moved: seq<SyncTo>)
      requires syncs0 <= syncs1 && syncs == syncs1 + moved
      ensures Since(syncs0) == syncs1[|syncs0|..] + moved
    {
    }

    lemma KnownStart(lo: nat, more: bool)
      ensures Known(syncs, unread) && Cost(0, syncs, lo, more) && NoneOvertakes(Since(syncs))
    {
      assert syncs[|syncs|..] == [];
    }

    lemma FillMiddle(len: nat, at: nat, n: nat)
      requires at + n <= len
      ensures Fill(len, ERASED)[at..][..n] == Fill(n, ERASED)
    {
    }

    lemma SpliceAll(content: Block)
      requires |content| == erasesz
      ensures Splice(content, 0, Fill(erasesz, ERASED)) == Fill(erasesz, ERASED)
    {
    }

    // ---- the device interface

    method Read(minor: nat, offs: nat, len: nat) returns (r: int, data: seq<Byte>)
      requires Valid()
      modifies `rcached, `rpage, `bad, `faults, `failed, `unread, nandPage
      ensures Valid() && faults >= old(faults)
      ensures minor != 0 ==> r == ENODEV
      ensures minor == 0 && r < 0 ==> (r == EINVAL && offs >= Off(nblocks, erasesz)) || faults > old(faults)
      ensures r >= 0 || faults == old(faults) ==> bad == old(bad) && faults == old(faults)
      ensures minor == 0 && (r >= 0 || faults == old(faults)) ==>
                Serve(View(), bad, erasesz, Request.Read(offs, len)) == (View(), Reply(r, data))
    {
      data := [];
      if minor != 0 {
        return ENODEV, data;
      }
      var size := Off(nblocks, erasesz);
      if offs >= size {
        return EINVAL, data;
      }
      var want := Min(len, size - offs);
      if want == 0 {
        return 0, data;
      }
      r, data := ReadBlocks(BlockNo(offs, erasesz), BlockOff(offs, erasesz), want);
    }

    /** `base` is the block from which on the bytes written are found. */
    method Write(minor: nat, offs: nat, buff: seq<Byte>) returns (r: int, ghost end: nat, ghost base: nat)
      requires Valid()
      modifies this, nandBlock
      ensures Valid() && faults >= old(faults) && r <= |buff|
      ensures r >= 0 ==> offs < Off(nblocks, erasesz) && offs + r <= Off(nblocks, erasesz)
      ensures minor != 0 ==> r == ENODEV
      ensures minor == 0 && faults == old(faults) && old(Healthy()) ==>
                && bad == old(bad) && Healthy()
                && Serve(old(View()), bad, erasesz, Request.Write(offs, buff)) == (View(), Reply(r, []))
      ensures r > 0 || (r == 0 && old(ClearFrom(BlockNo(offs, erasesz)))) ==>
                Written(View(), bad, wcached, wblock, base, BlockOff(offs, erasesz), end, buff[..r], false)
      ensures r >= 0 ==> KeptBelow(BlockNo(offs, erasesz))
      ensures r >= 0 && base != BlockNo(offs, erasesz) ==>
                old(wcached) && Overtaken(BlockNo(offs, erasesz), base, old(wblock), old(nandBlock[..]))
      ensures old(ClearFrom(BlockNo(offs, erasesz))) || (faults == old(faults) && old(Healthy())) ==> base == BlockNo(offs, erasesz)
    {
      hide PageOf, Written, BlockNo, BlockOff, Overtaken;
      end, base := 0, BlockNo(offs, erasesz);
      if minor != 0 {
        return ENODEV, end, base;
      }
      var size := Off(nblocks, erasesz);
      if offs >= size {
        return EINVAL, end, base;
      }
      var len := Min(|buff|, size - offs);
      BlockInside(offs, nblocks, erasesz);
      if len == 0 {
        WrittenEnds(View(), bad, wcached, wblock, base, BlockOff(offs, erasesz), base, [], true);
        assert buff[..0] == [];
        return 0, base, base;
      }
      rcached := false;
      ghost var lost;
      r, end, base, lost := WriteBlocks(BlockNo(offs, erasesz), BlockOff(offs, erasesz), buff[..len]);
      assert r >= 0 ==> buff[..len][..r] == buff[..r];
    }

    method Erase(minor: nat, offs: nat, len: nat) returns (r: int, ghost lost: nat, ghost exact: bool, ghost end: nat)
      requires Valid()
      modifies this, nandBlock
      ensures Valid() && faults >= old(faults) && old(syncs) <= syncs
      ensures minor != 0 ==> r == ENODEV
      ensures minor == 0 && faults == old(faults) && old(Healthy()) ==>
                && bad == old(bad) && Healthy() && NoneOvertakes(Since(old(syncs)))
                && Serve(old(View()), bad, erasesz, Request.Erase(offs, len)) == (View(), Reply(r, []))
      // how many of the bytes reported read as erased, and what is read after those
      ensures r >= 0 && old(Healthy()) && Known(old(syncs), old(unread)) ==>
                var block, boffs := BlockNo(offs, erasesz), BlockOff(offs, erasesz);
                && lost <= r && (NoneOvertakes(Since(old(syncs))) ==> lost == 0)
                && Cost(lost, old(syncs), block, exact) && (exact || EndsInside(boffs, r))
                && WalkRead(View(), bad, erasesz, block, boffs, r - lost) == Fill(r - lost, ERASED)
                && (lost > 0 && (!exact || !EndsInside(boffs, r)) ==>
                      && end <= nblocks
                      && WalkRead(View(), bad, erasesz, block, boffs, r)
                         == Fill(r - lost, ERASED) + Clip(Stream(View(), bad, end, nblocks), if r == lost then boffs else 0, lost))
    {
      hide KnownFrom, CostOf, NoneOvertakes, EndsInside, Clip, WalkRead, BlockNo, BlockOff;
      lost, exact, end := 0, true, 0;
      KnownStart(BlockNo(offs, erasesz), true);
      if minor != 0 {
        return ENODEV, 0, true, 0;
      }
      var size := Off(nblocks, erasesz);
      if offs >= size {
        return EINVAL, 0, true, 0;
      }
      var want := Min(len, size - offs);
      if want == 0 {
        ReadNothing(View(), bad, erasesz, BlockNo(offs, erasesz), BlockOff(offs, erasesz));
        return 0, 0, true, 0;
      }
      rcached := false;
      BlockInside(offs, nblocks, erasesz);
      BlockStart(erasesz);
      r, lost, exact, end := EraseBlocks(offs, BlockNo(offs, erasesz), BlockOff(offs, erasesz), want);
      NoCost(lost, old(syncs), BlockNo(offs, erasesz), exact);
    }

    lemma NoCost(lost: nat, syncs0: seq<SyncTo>, lo: nat, more: bool)
      ensures Cost(lost, syncs0, lo, more) && NoneOvertakes(Since(syncs0)) ==> lost == 0
    {
      if NoneOvertakes(Since(syncs0)) {
        NoneBehind(Since(syncs0), lo);
      }
    }

    method Sync(minor: nat) returns (r: int)
      requires Valid()
      modifies this
      ensures Valid() && faults >= old(faults)
      ensures minor != 0 ==> r == ENODEV
      ensures minor == 0 && r == EOK ==> !wcached && View() == flash
      ensures minor == 0 && r == EOK && old(wcached) ==> Moved(old(flash), old(bad), old(wblock), nandBlock[..], flash, bad, wblock)
      ensures minor == 0 && r == EOK && !old(wcached) ==> flash == old(flash) && bad == old(bad)
      ensures minor == 0 && faults == old(faults) && old(Healthy()) ==>
                r == EOK && bad == old(bad) && flash == old(View())
    {
      if minor != 0 {
        return ENODEV;
      }
      r := DoSync(0);
    }

    // ---- main results

    /** Both caches are invisible: without failures, any run answers as the uncached device does. */
    method Run(qs: seq<Request>) returns (replies: seq<Reply>)
      requires Valid() && Healthy()
      modifies this, nandBlock, nandPage
      ensures Valid() && faults >= old(faults)
      ensures faults == old(faults) ==>
                && bad == old(bad) && Healthy()
                && ServeAll(old(View()), bad, erasesz, qs) == (View(), replies)
                && (qs != [] && qs[|qs| - 1].Sync? ==> flash == View())
    {
      replies := [];
      ghost var disk := View();
      for i := 0 to |qs|
        invariant Valid() && faults >= old(faults)
        invariant faults == old(faults) ==>
                    && bad == old(bad) && Healthy()
                    && ServeAll(disk, bad, erasesz, qs[..i]) == (View(), replies)
                    && (i > 0 && qs[i - 1].Sync? ==> flash == View())
      {
        var r, data := 0, [];
        match qs[i] {
          case Read(offs, len) => r, data := Read(0, offs, len);
          case Write(offs, buff) => ghost var end, base; r, end, base := Write(0, offs, buff);
          case Erase(offs, len) => ghost var lost, exact, end; r, lost, exact, end := Erase(0, offs, len);
          case Sync => r := Sync(0);
        }
        replies := replies + [Reply(r, data)];
        assert qs[..i + 1][..i] == qs[..i];
      }
      assert qs[..|qs|] == qs;
    }

    /**
     What data_write reported as written and data_sync as flushed, data_read returns, whatever
     failed in between and wherever the blocks went - unless the first sync of the write took the
     block that was cached before from below the start onto or past it. Then every block from
     that one up to the start is bad, and what comes back is its image, followed by the data one
     block late: `rest` is what is behind the image, and has the data at the offset written to.
     */
    method WriteSyncRead(offs: nat, buff: seq<Byte>)
      returns (n: int, synced: int, m: int, back: seq<Byte>, ghost base: nat, ghost rest: seq<Byte>)
      requires Valid()
      modifies this, nandBlock, nandPage
      ensures n >= 0 && synced == EOK && m >= 0 ==>
                var block, boffs := BlockNo(offs, erasesz), BlockOff(offs, erasesz);
                && n <= |buff|
                && (base == block ==> back == buff[..n])
                && (base != block ==>
                      && old(wcached) && block < base && (forall b: nat :: old(wblock) <= b < base - 1 ==> b in bad)
                      && back == Clip(old(nandBlock[..]) + rest, boffs, n) && Clip(rest, boffs, n) == buff[..n])
      ensures old(ClearFrom(BlockNo(offs, erasesz))) ==> base == BlockNo(offs, erasesz)
    {
      hide Written, Moved, Serve, WalkRead, BlockNo, BlockOff, Clip;
      ghost var c0, image0, block, boffs := wblock, nandBlock[..], BlockNo(offs, erasesz), BlockOff(offs, erasesz);
      ghost var end;
      rest := [];
      n, end, base := Write(0, offs, buff);
      synced, m, back := EOK, 0, [];
      if n < 0 {
        return;
      }
      ghost var flash0, bad0, c, image, cached := flash, bad, wblock, nandBlock[..], wcached;
      ghost var overtaken := base != block;
      synced := Sync(0);
      if synced != EOK {
        return;
      }
      m, back := Read(0, offs, n);
      if m >= 0 {
        ServeRead(flash, bad, erasesz, offs, n);
        ReadNothing(flash, bad, erasesz, block, boffs);
        if n > 0 {
          SyncedIsRead(flash0, bad0, cached, c, image, flash, bad, wblock, erasesz, base, boffs, end, buff[..n]);
        } else {
          ReadNothing(flash, bad, erasesz, base, boffs);
        }
        if overtaken {
          rest := Stream(flash, bad, base, nblocks);
          SyncBehind(flash0, bad0, cached, c, image, flash, bad, wblock, base);
          BlockInFront(flash, bad, erasesz, block, base - 1, boffs, n);
          ReadIsStream(flash, bad, erasesz, base, boffs, n);
        }
      }
    }
  }

  /**
   Two good blocks of two bytes, one byte to write: if the one read that this needs fails, no
   block is left. The second one is given up with no failure of its own.
   */
  method OneFailure() returns (c: Nand, f: Fetch, g: Fetch)
    ensures c.Valid() && c.nblocks == 2 && (f.Skip? ==> !g.Ready?)
    ensures f.Skip? && !g.Fatal? ==> c.bad == {0, 1} && c.failed == {0}
  {
    hide Written, Accounted, Moved;
    assert Off(2, 1) == 2;
    c := new Nand(2, 2, 1, [[1, 2], [3, 4]], {});
    var err, n;
    ghost var moved;
    f, err, n, moved := c.WriteBlock(0, 0, [7], 0, 0, 0, []);
    g := f;
    if f.Skip? {
      g, err, n, moved := c.WriteBlock(1, 0, [7], err, 0, 0, []);
    }
  }
}
