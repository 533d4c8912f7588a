/**
 The BIOS disk driver's write cache: a segment of one track, grown block by block and written
 back when a block does not touch it. Block addresses go to the BIOS as cylinder, head, sector.
 */
module DiskBios {
  import opened Bytes

  const BLOCK := 512
  const BLOCKS := 32 // SIZE_WCACHE / SIZE_BLOCK

  type Sector = s: seq<Byte> | |s| == BLOCK witness Fill(BLOCK, 0 as Byte)

  datatype Geometry = Geometry(heads: nat, secs: nat) {
    predicate Valid() {
      heads > 0 && secs > 0
    }
  }

  // ---------------------------------------------------------------------------------------
  // Cylinder, head, sector

  function Cyl(g: Geometry, sb: nat): (c: nat)
    requires g.Valid()
  {
    sb / g.secs / g.heads
  }

  function Head(g: Geometry, sb: nat): (h: nat)
    requires g.Valid()
  {
    sb / g.secs % g.heads
  }

  function Sec(g: Geometry, sb: nat): (s: nat)
    requires g.Valid()
    ensures s < g.secs
  {
    sb % g.secs
  }

  /** The sector a disk address packet names; `s` counts from 0. */
  function Lba(g: Geometry, c: nat, h: nat, s: nat): (lba: nat)
  {
    (c * g.heads + h) * g.secs + s
  }

  lemma LbaLinear(g: Geometry, c: nat, h: nat, s: nat, k: nat)
    ensures Lba(g, c, h, s + k) == Lba(g, c, h, s) + k
  {
  }

  /** The packet names the block it was computed from. */
  lemma ChsRoundTrip(g: Geometry, sb: nat)
    requires g.Valid()
    ensures Lba(g, Cyl(g, sb), Head(g, sb), Sec(g, sb)) == sb
  {
    var t := sb / g.secs;
    assert t == t / g.heads * g.heads + t % g.heads;
    assert sb == t * g.secs + sb % g.secs;
  }

  /** Blocks are counted along a track, then over the heads, then over the cylinders. */
  lemma Odometer(g: Geometry, c: nat, h: nat, s: nat)
    requires g.Valid()
    ensures Lba(g, 0, 0, 0) == 0
    ensures Lba(g, c, h, s + 1) == Lba(g, c, h, s) + 1
    ensures Lba(g, c, h + 1, 0) == Lba(g, c, h, g.secs - 1) + 1
    ensures Lba(g, c + 1, 0, 0) == Lba(g, c, g.heads - 1, g.secs - 1) + 1
  {
    var t := c * g.heads + h;
    assert (t + 1) * g.secs == t * g.secs + g.secs;
    var u := c * g.heads + g.heads - 1;
    assert (c + 1) * g.heads == u + 1;
    assert (u + 1) * g.secs == u * g.secs + g.secs;
  }

  /** No two places on a track, and no two tracks, share a sector. */
  lemma LbaInjective(g: Geometry, c: nat, h: nat, s: nat)
    requires g.Valid() && h < g.heads && s < g.secs
    ensures var sb := Lba(g, c, h, s); Cyl(g, sb) == c && Head(g, sb) == h && Sec(g, sb) == s
  {
    var t := c * g.heads + h;
    DivModUnique(t, s, g.secs);
    DivModUnique(c, h, g.heads);
  }

  // ---------------------------------------------------------------------------------------
  // The flat sector array

  /** A write of `data` at byte `offs`, as far as it is a write of whole sectors. */
  function Overwritten(v: seq<Sector>, offs: nat, data: seq<Byte>): (r: seq<Sector>)
    requires offs % BLOCK == 0 && |data| % BLOCK == 0
    ensures |r| == |v|
  {
    seq<Sector>(|v|, i requires 0 <= i < |v| =>
      if offs / BLOCK <= i < (offs + |data|) / BLOCK then data[i * BLOCK - offs..(i + 1) * BLOCK - offs] else v[i])
  }

  /** `data` is there at byte `offs` and every sector it does not touch is as before. */
  ghost predicate Applied(v0: seq<Sector>, v1: seq<Sector>, offs: nat, data: seq<Byte>) {
    && |v1| == |v0|
    && (forall i :: 0 <= i < |v0| && (i < offs / BLOCK || i * BLOCK >= offs + |data|) ==> v1[i] == v0[i])
    && (forall x :: offs <= x < offs + |data| && x / BLOCK < |v1| ==> v1[x / BLOCK][x % BLOCK] == data[x - offs])
  }

  lemma AppliedIsOverwritten(v0: seq<Sector>, v1: seq<Sector>, offs: nat, data: seq<Byte>)
    requires offs % BLOCK == 0 && |data| % BLOCK == 0
    ensures Applied(v0, v1, offs, data) <==> v1 == Overwritten(v0, offs, data)
  {
    var w := Overwritten(v0, offs, data);
    if Applied(v0, v1, offs, data) {
      forall i | 0 <= i < |v0| ensures v1[i] == w[i] {
        if offs / BLOCK <= i < (offs + |data|) / BLOCK {
          forall k | 0 <= k < BLOCK ensures v1[i][k] == w[i][k] {
            var x := i * BLOCK + k;
            assert x / BLOCK == i && x % BLOCK == k;
          }
        }
      }
    }
  }

  lemma AppliedNothing(v: seq<Sector>, offs: nat)
    ensures Applied(v, v, offs, [])
  {
  }

  /** One more piece, in the sector where the data so far ends. */
  lemma ApplyStep(v0: seq<Sector>, v1: seq<Sector>, offs: nat, data: seq<Byte>, piece: seq<Byte>, x: Sector)
    requires Applied(v0, v1, offs, data)
    requires piece != [] && (offs + |data|) % BLOCK + |piece| <= BLOCK && (data != [] ==> (offs + |data|) % BLOCK == 0)
    ensures var at := offs + |data|;
            Applied(v0, Put(v1, at / BLOCK, Splice(x, at % BLOCK, piece)), offs, data + piece)
  {
    var at := offs + |data|;
    var sb, off := at / BLOCK, at % BLOCK;
    var v2 := Put(v1, sb, Splice(x, off, piece));
    forall y | offs <= y < at + |piece| && y / BLOCK < |v2|
      ensures v2[y / BLOCK][y % BLOCK] == (data + piece)[y - offs]
    {
      if y < at {
        assert y / BLOCK < sb;
      } else {
        assert y / BLOCK == sb && y % BLOCK == off + (y - at);
      }
    }
  }

  function Put(v: seq<Sector>, sb: nat, x: Sector): (r: seq<Sector>)
    ensures |r| == |v|
  {
    if sb < |v| then v[sb := x] else v
  }

  // ---------------------------------------------------------------------------------------

  /** `disk` with `count` sectors from `base + lo` on shown as the cache blocks `lo`, `lo + 1`, ... */
  ghost function Overlay(disk: seq<Sector>, base: nat, lo: nat, hi: nat, cache: seq<Byte>): (v: seq<Sector>)
    requires |cache| == BLOCKS * BLOCK && hi <= BLOCKS
    ensures |v| == |disk|
  {
    seq<Sector>(|disk|, i requires 0 <= i < |disk| =>
      Shown(disk, base, lo, hi, cache, i))
  }

  function Shown(disk: seq<Sector>, base: nat, lo: nat, hi: nat, cache: seq<Byte>, i: nat): (s: Sector)
    requires |cache| == BLOCKS * BLOCK && hi <= BLOCKS && i < |disk|
  {
    if base + lo <= i < base + hi then CacheBlock(cache, i - base) else disk[i]
  }

  function CacheBlock(cache: seq<Byte>, b: nat): (s: Sector)
    requires |cache| == BLOCKS * BLOCK && b < BLOCKS
  {
    cache[b * BLOCK..(b + 1) * BLOCK]
  }

  /** A write of one block into the cache touches that block only. */
  lemma CacheSplice(cache: seq<Byte>, b: nat, off: nat, data: seq<Byte>, k: nat)
    requires |cache| == BLOCKS * BLOCK && b < BLOCKS && k < BLOCKS && off + |data| <= BLOCK
    ensures CacheBlock(Splice(cache, b * BLOCK + off, data), k)
            == if k == b then Splice(CacheBlock(cache, b), off, data) else CacheBlock(cache, k)
  {
  }

  /** Growing the segment by block `b`, which it has, touches, or is empty for. */
  lemma OverlayPut(disk: seq<Sector>, base: nat, lo: nat, hi: nat, cache: seq<Byte>, b: nat, off: nat, data: seq<Byte>)
    requires |cache| == BLOCKS * BLOCK && b < BLOCKS && lo <= hi <= BLOCKS && off + |data| <= BLOCK
    requires lo < hi ==> lo <= b + 1 && b <= hi
    ensures var cache' := Splice(cache, b * BLOCK + off, data);
            var lo' := if lo == hi then b else Min(lo, b);
            var hi' := if lo == hi then b + 1 else Max(hi, b + 1);
            Overlay(disk, base, lo', hi', cache')
            == Put(if lo == hi then disk else Overlay(disk, base, lo, hi, cache), base + b, Splice(CacheBlock(cache, b), off, data))
  {
    forall k: nat | k < BLOCKS {
      CacheSplice(cache, b, off, data, k);
    }
  }

  // ---------------------------------------------------------------------------------------
  // Writes at any offset and of any length

  /** Where sector `sb` is in wcache. */
  function Slot(g: Geometry, sb: nat): (b: nat)
    requires g.Valid()
    ensures b < BLOCKS
  {
    Sec(g, sb) % BLOCKS
  }

  /** How many of `n` bytes from `offs` on come before the last sector that they touch. */
  function Before(offs: nat, n: nat): (s: nat)
    requires n > 0
    ensures s < n && offs / BLOCK <= (offs + s) / BLOCK == (offs + n - 1) / BLOCK
    ensures s > 0 ==> (offs + s) % BLOCK == 0 && offs / BLOCK < (offs + n - 1) / BLOCK
    ensures (offs + s) % BLOCK + (n - s) <= BLOCK
  {
    var last := (offs + n - 1) / BLOCK * BLOCK;
    if last > offs then last - offs else 0
  }

  /** wcache after all of `data` was copied to it. */
  function Filled(cache: seq<Byte>, g: Geometry, offs: nat, data: seq<Byte>): (r: seq<Byte>)
    requires |cache| == BLOCKS * BLOCK && g.Valid()
    ensures |r| == |cache|
    decreases |data|
  {
    if data == [] then cache
    else
      var s := Before(offs, |data|);
      var at := offs + s;
      Splice(Filled(cache, g, offs, data[..s]), Slot(g, at / BLOCK) * BLOCK + at % BLOCK, data[s..])
  }

  /** The flat disk after it: what a sector that is written in part gets around that part is whatever its cache block holds. */
  function Taken(v: seq<Sector>, cache: seq<Byte>, g: Geometry, offs: nat, data: seq<Byte>): (r: seq<Sector>)
    requires |cache| == BLOCKS * BLOCK && g.Valid()
    ensures |r| == |v|
    decreases |data|
  {
    if data == [] then v
    else
      var s := Before(offs, |data|);
      var at := offs + s;
      var stale := CacheBlock(Filled(cache, g, offs, data[..s]), Slot(g, at / BLOCK));
      Put(Taken(v, cache, g, offs, data[..s]), at / BLOCK, Splice(stale, at % BLOCK, data[s..]))
  }

  /** `data` at byte `offs`, and every other byte of the disk as before. */
  ghost predicate Flat(v0: seq<Sector>, v1: seq<Sector>, offs: nat, data: seq<Byte>) {
    && |v1| == |v0|
    && forall i, k :: 0 <= i < |v0| && 0 <= k < BLOCK ==>
         v1[i][k] == if offs <= i * 512 + k < offs + |data| then data[i * 512 + k - offs] else v0[i][k]
  }

  /** The cache block of the first sector agrees with the disk in front of the data. */
  ghost predicate FrontAgrees(v: seq<Sector>, cache: seq<Byte>, g: Geometry, offs: nat)
    requires |cache| == BLOCKS * BLOCK && g.Valid()
  {
    var sb := offs / BLOCK;
    sb < |v| ==> CacheBlock(cache, Slot(g, sb))[..offs % BLOCK] == v[sb][..offs % BLOCK]
  }

  /** The cache block of the last sector, when its turn comes, agrees with the disk behind the data. */
  ghost predicate BackAgrees(v: seq<Sector>, cache: seq<Byte>, g: Geometry, offs: nat, data: seq<Byte>)
    requires |cache| == BLOCKS * BLOCK && g.Valid() && data != []
  {
    var s := Before(offs, |data|);
    var eb, end := (offs + s) / BLOCK, (offs + s) % BLOCK + |data| - s;
    eb < |v| ==> CacheBlock(Filled(cache, g, offs, data[..s]), Slot(g, eb))[end..] == v[eb][end..]
  }

  lemma {:induction false} TakenIsApplied(v: seq<Sector>, cache: seq<Byte>, g: Geometry, offs: nat, data: seq<Byte>)
    requires |cache| == BLOCKS * BLOCK && g.Valid()
    ensures Applied(v, Taken(v, cache, g, offs, data), offs, data)
    decreases |data|
  {
    hide Applied, Put, CacheBlock, Filled;
    if data == [] {
      AppliedNothing(v, offs);
    } else {
      var s := Before(offs, |data|);
      TakenIsApplied(v, cache, g, offs, data[..s]);
      var stale := CacheBlock(Filled(cache, g, offs, data[..s]), Slot(g, (offs + s) / BLOCK));
      assert data == data[..s] + data[s..];
      ApplyStep(v, Taken(v, cache, g, offs, data[..s]), offs, data[..s], data[s..], stale);
    }
  }

  lemma TakenNothing(v: seq<Sector>, cache: seq<Byte>, g: Geometry, offs: nat)
    requires |cache| == BLOCKS * BLOCK && g.Valid()
    ensures Taken(v, cache, g, offs, []) == v && Filled(cache, g, offs, []) == cache
  {
  }

  /** One more piece, which lies in one sector. */
  lemma TakenNext(v: seq<Sector>, cache: seq<Byte>, g: Geometry, offs: nat, data: seq<Byte>, n: nat)
    requires |cache| == BLOCKS * BLOCK && g.Valid() && n < |data|
    requires (offs + n) % BLOCK + |data| - n <= BLOCK && (n > 0 ==> (offs + n) % BLOCK == 0)
    ensures var at, c := offs + n, Filled(cache, g, offs, data[..n]);
            && Filled(cache, g, offs, data) == Splice(c, Slot(g, at / BLOCK) * BLOCK + at % BLOCK, data[n..])
            && Taken(v, cache, g, offs, data)
               == Put(Taken(v, cache, g, offs, data[..n]), at / BLOCK, Splice(CacheBlock(c, Slot(g, at / BLOCK)), at % BLOCK, data[n..]))
  {
    hide CacheBlock, Slot, Put, Before, Splice, Lba, Cyl, Head, Sec;
    BeforeIs(offs, |data|, n);
  }

  lemma BeforeIs(offs: nat, total: nat, n: nat)
    requires n < total && (offs + n) % BLOCK + total - n <= BLOCK && (n > 0 ==> (offs + n) % BLOCK == 0)
    ensures Before(offs, total) == n
  {
    var last := offs + total - 1;
    assert last / BLOCK == (offs + n) / BLOCK;
  }

  /** The pieces of the loop: `n` bytes are done of `total`. */
  lemma Piece(offs: nat, total: nat, n: nat)
    requires n < total && (n > 0 ==> (offs + n) % BLOCK == 0)
    ensures var sb, eb := (offs + n) / BLOCK, (offs + total - 1) / BLOCK;
            var size := if sb == eb then total - n else BLOCK - (offs + n) % BLOCK;
            && 0 < size && n + size <= total && (offs + n) % BLOCK + size <= BLOCK && sb <= eb
            && (offs + n + size - 1) / BLOCK == sb
            && if n + size < total then (offs + n + size) % BLOCK == 0 && (offs + n + size) / BLOCK == sb + 1 else sb == eb
  {
  }

  /** In front of the data, the first sector gets what its cache block held. */
  lemma {:induction false} FrontIsStale(v: seq<Sector>, cache: seq<Byte>, g: Geometry, offs: nat, data: seq<Byte>, k: nat)
    requires |cache| == BLOCKS * BLOCK && g.Valid() && data != [] && k < offs % BLOCK && offs / BLOCK < |v|
    ensures Taken(v, cache, g, offs, data)[offs / BLOCK][k] == CacheBlock(cache, Slot(g, offs / BLOCK))[k]
    decreases |data|
  {
    hide CacheBlock;
    var s := Before(offs, |data|);
    if s > 0 {
      FrontIsStale(v, cache, g, offs, data[..s], k);
    } else {
      assert data[..0] == [];
    }
  }

  /** Behind it, so does the last one. */
  lemma BackIsStale(v: seq<Sector>, cache: seq<Byte>, g: Geometry, offs: nat, data: seq<Byte>, k: nat)
    requires |cache| == BLOCKS * BLOCK && g.Valid() && data != []
    requires var s := Before(offs, |data|); (offs + s) / BLOCK < |v| && (offs + s) % BLOCK + |data| - s <= k < BLOCK
    ensures var s := Before(offs, |data|);
            Taken(v, cache, g, offs, data)[(offs + s) / BLOCK][k]
            == CacheBlock(Filled(cache, g, offs, data[..s]), Slot(g, (offs + s) / BLOCK))[k]
  {
    hide CacheBlock, Filled;
  }

  ghost predicate FrontKept(v0: seq<Sector>, v1: seq<Sector>, offs: nat)
    requires |v1| == |v0|
  {
    forall k :: 0 <= k < offs % BLOCK && offs / BLOCK < |v0| ==> v1[offs / BLOCK][k] == v0[offs / BLOCK][k]
  }

  ghost predicate BackKept(v0: seq<Sector>, v1: seq<Sector>, last: nat)
    requires |v1| == |v0|
  {
    forall k :: last % BLOCK < k < BLOCK && last / BLOCK < |v0| ==> v1[last / BLOCK][k] == v0[last / BLOCK][k]
  }

  /** The sectors that a write of `n` bytes does not touch. */
  ghost predicate SameAround(v0: seq<Sector>, v: seq<Sector>, offs: nat, n: nat)
    requires |v| == |v0| && n > 0
  {
    forall i :: 0 <= i < |v0| && (i < offs / BLOCK || (offs + n - 1) / BLOCK < i) ==> v[i] == v0[i]
  }

  lemma FlatInParts(v0: seq<Sector>, v: seq<Sector>, v1: seq<Sector>, offs: nat, data: seq<Byte>)
    requires |v| == |v0| && Applied(v, v1, offs, data) && data != []
    ensures Flat(v0, v1, offs, data) <==>
            FrontKept(v0, v1, offs) && BackKept(v0, v1, offs + |data| - 1) && SameAround(v0, v, offs, |data|)
  {
    var last := offs + |data| - 1;
    if FrontKept(v0, v1, offs) && BackKept(v0, v1, last) && SameAround(v0, v, offs, |data|) {
      forall i, k | 0 <= i < |v0| && 0 <= k < BLOCK
        ensures v1[i][k] == if offs <= i * BLOCK + k < offs + |data| then data[i * BLOCK + k - offs] else v0[i][k]
      {
        var x := i * BLOCK + k;
        assert x / BLOCK == i && x % BLOCK == k;
        if x < offs {
          assert i < offs / BLOCK || (i == offs / BLOCK && k < offs % BLOCK);
        } else if x > last {
          assert i > last / BLOCK || (i == last / BLOCK && k > last % BLOCK);
        }
      }
    }
    if Flat(v0, v1, offs, data) {
      assert offs == offs / BLOCK * BLOCK + offs % BLOCK && last == last / BLOCK * BLOCK + last % BLOCK;
      forall i | 0 <= i < |v0| && (i < offs / BLOCK || last / BLOCK < i)
        ensures v[i] == v0[i]
      {
        assert v1[i] == v[i];
        assert forall k :: 0 <= k < BLOCK ==> v1[i][k] == v0[i][k];
      }
    }
  }

  /**
   A write of any bytes is a flat one over `v0` if and only if the cache blocks of its first and
   last sector agree with `v0` around it, and the sectors it does not touch are those of `v0`.
   */
  lemma TakenIsFlat(v0: seq<Sector>, v: seq<Sector>, cache: seq<Byte>, g: Geometry, offs: nat, data: seq<Byte>)
    requires |v| == |v0| && |cache| == BLOCKS * BLOCK && g.Valid() && data != []
    ensures Flat(v0, Taken(v, cache, g, offs, data), offs, data)
            <==> FrontAgrees(v0, cache, g, offs) && BackAgrees(v0, cache, g, offs, data) && SameAround(v0, v, offs, |data|)
  {
    hide Flat, Applied, Taken, Filled, CacheBlock, SameAround;
    var v1 := Taken(v, cache, g, offs, data);
    TakenIsApplied(v, cache, g, offs, data);
    FlatInParts(v0, v, v1, offs, data);
    FrontAgreesIs(v0, v, cache, g, offs, data);
    BackAgreesIs(v0, v, cache, g, offs, data);
  }

  lemma FrontAgreesIs(v0: seq<Sector>, v: seq<Sector>, cache: seq<Byte>, g: Geometry, offs: nat, data: seq<Byte>)
    requires |v| == |v0| && |cache| == BLOCKS * BLOCK && g.Valid() && data != []
    ensures FrontAgrees(v0, cache, g, offs) <==> FrontKept(v0, Taken(v, cache, g, offs, data), offs)
  {
    hide Taken, CacheBlock;
    var sb, v1 := offs / BLOCK, Taken(v, cache, g, offs, data);
    if sb < |v| {
      var stale := CacheBlock(cache, Slot(g, sb));
      forall k: nat | k < offs % BLOCK
        ensures v1[sb][k] == stale[k]
      {
        FrontIsStale(v, cache, g, offs, data, k);
      }
      SameSlice(stale, v0[sb], 0, offs % BLOCK);
      assert stale[..offs % BLOCK] == stale[0..offs % BLOCK] && v0[sb][..offs % BLOCK] == v0[sb][0..offs % BLOCK];
    }
  }

  lemma BackAgreesIs(v0: seq<Sector>, v: seq<Sector>, cache: seq<Byte>, g: Geometry, offs: nat, data: seq<Byte>)
    requires |v| == |v0| && |cache| == BLOCKS * BLOCK && g.Valid() && data != []
    ensures BackAgrees(v0, cache, g, offs, data) <==> BackKept(v0, Taken(v, cache, g, offs, data), offs + |data| - 1)
  {
    hide Taken, CacheBlock, Filled;
    var s, last, v1 := Before(offs, |data|), offs + |data| - 1, Taken(v, cache, g, offs, data);
    var eb, end := (offs + s) / BLOCK, (offs + s) % BLOCK + |data| - s;
    assert eb == last / BLOCK && end == last % BLOCK + 1;
    if eb < |v| {
      var stale := CacheBlock(Filled(cache, g, offs, data[..s]), Slot(g, eb));
      forall k: nat | end <= k < BLOCK
        ensures v1[eb][k] == stale[k]
      {
        BackIsStale(v, cache, g, offs, data, k);
      }
      SameSlice(stale, v0[eb], end, BLOCK);
      assert stale[end..] == stale[end..BLOCK] && v0[eb][end..] == v0[eb][end..BLOCK];
    }
  }

  lemma SameSlice(a: Sector, b: Sector, lo: nat, hi: nat)
    requires lo <= hi <= BLOCK
    ensures a[lo..hi] == b[lo..hi] <==> forall k :: lo <= k < hi ==> a[k] == b[k]
  {
    if a[lo..hi] == b[lo..hi] {
      forall k | lo <= k < hi
        ensures a[k] == b[k]
      {
        assert a[lo..hi][k - lo] == a[k] && b[lo..hi][k - lo] == b[k];
      }
    }
  }

  datatype Op = Write(offs: nat, data: seq<Byte>) | Sync {
    predicate Aligned() {
      Write? ==> offs % BLOCK == 0 && |data| % BLOCK == 0
    }
  }

  /** What a run of whole-sector writes makes of the flat array. */
  function Replay(v: seq<Sector>, ops: seq<Op>): (r: seq<Sector>)
    requires forall op :: op in ops ==> op.Aligned()
  {
    if ops == [] then v
    else
      var before, last := Replay(v, ops[..|ops| - 1]), ops[|ops| - 1];
      assert last in ops && last.Aligned();
      match last
      case Write(offs, data) => Overwritten(before, offs, data)
      case Sync => before
  }

  class DiskCache {
    // the disks; `geo` and `disks` are indexed by the minor number, which also stands for `dn`
    const geo: seq<Geometry>
    var disks: seq<seq<Sector>>

    const wcache: array<Byte>
    var lwdn: int
    var lwc: nat
    var lwh: nat
    var lwp: nat
    var lwb: nat
    var lwe: nat

    // the accesses that failed so far
    ghost var failures: nat

    constructor (geo: seq<Geometry>, disks: seq<seq<Sector>>)
      requires |geo| == |disks| && forall g :: g in geo ==> g.Valid()
      ensures Valid() && lwb == lwe && this.disks == disks && this.geo == geo && fresh(wcache) && failures == 0
    {
      this.geo, this.disks := geo, disks;
      wcache := new Byte[BLOCKS * BLOCK];
      lwdn, lwc, lwh, lwp, lwb, lwe := -1, 0, 0, 0, 0, 0;
      failures := 0;
    }

    /** A pending segment lies inside one track of its disk and inside wcache. */
    ghost predicate Valid()
      reads this
    {
      && wcache.Length == BLOCKS * BLOCK
      && |geo| == |disks| && (forall g :: g in geo ==> g.Valid())
      && lwb <= lwe <= BLOCKS
      && (lwb < lwe ==> 0 <= lwdn < |disks| && lwp + lwe <= geo[lwdn].secs)
    }

    ghost predicate Pending(d: nat)
      reads this
    {
      lwb < lwe && lwdn == d
    }

    ghost function Base(d: nat): nat
      requires d < |geo|
      reads this
    {
      Lba(geo[d], lwc, lwh, lwp)
    }

    /** Disk `d` as it is once the pending segment is on it. */
    ghost function View(d: nat): (v: seq<Sector>)
      requires Valid() && d < |disks|
      reads this, wcache
      ensures |v| == |disks[d]|
    {
      if Pending(d) then Overlay(disks[d], Base(d), lwb, lwe, wcache[..]) else disks[d]
    }

    /** Disk `d` after a flush to it: the pending segment is on it, whether it belongs there or not. */
    ghost function Flushed(d: nat): (v: seq<Sector>)
      requires Valid() && d < |disks|
      reads this, wcache
      ensures |v| == |disks[d]| && (OneDisk(d) ==> v == View(d))
    {
      if lwb < lwe then Overlay(disks[d], Base(d), lwb, lwe, wcache[..]) else disks[d]
    }

    /** Writes `n` cache blocks from `b` on. A failed access may leave anything in the sectors it names. */
    method Access(d: nat, c: nat, h: nat, s: nat, n: nat, b: nat) returns (err: int)
      requires Valid() && d < |disks| && s > 0 && b + n <= BLOCKS
      modifies `disks, `failures
      ensures failures == old(failures) + if err == 0 then 0 else 1
      ensures |disks| == |old(disks)| && forall e: nat :: e < |disks| && e != d ==> disks[e] == old(disks)[e]
      ensures |disks[d]| == |old(disks)[d]|
      ensures var at := Lba(geo[d], c, h, s - 1);
              && (err == 0 ==> at + n <= |disks[d]|)
              && forall i: nat :: i < |disks[d]| ==>
                   (!(at <= i < at + n) ==> disks[d][i] == old(disks)[d][i]) &&
                   (at <= i < at + n && err == 0 ==> disks[d][i] == CacheBlock(wcache[..], b + i - at))
    {
      var at := Lba(geo[d], c, h, s - 1);
      err := *;
      var junk: seq<Sector> := *;
      var disk := disks[d];
      if at + n > |disk| {
        err := 1;
      }
      if err == 0 {
        var cache := wcache[..];
        junk := seq<Sector>(n, i requires 0 <= i < n => CacheBlock(cache, b + i));
      }
      if at + n <= |disk| && |junk| == n {
        disks := disks[d := disk[..at] + junk + disk[at + n..]];
      }
      if err != 0 {
        failures := failures + 1;
      }
    }

    /** Writes the pending segment, addressed on disk `d`, whichever disk it belongs to. */
    method Flush(d: nat) returns (err: int)
      requires Valid() && d < |disks| && lwb < lwe
      modifies `disks, `lwb, `lwe, `failures
      ensures failures == old(failures) + if err == 0 then 0 else 1
      ensures Valid() && |disks| == |old(disks)| && |disks[d]| == |old(disks)[d]|
      ensures forall e: nat :: e < |disks| && e != d ==> disks[e] == old(disks)[e]
      ensures if err == 0 then lwb == lwe else lwb == old(lwb) && lwe == old(lwe)
      ensures lwdn == d ==> View(d) == old(View(d))
      // on whichever disk: if it is the wrong one, the segment is on that one and not on its own
      ensures err == 0 ==> disks[d] == old(Flushed(d))
    {
      LbaLinear(geo[d], lwc, lwh, lwp, lwb);
      err := Access(d, lwc, lwh, lwp + lwb + 1, lwe - lwb, lwb);
      if err == 0 {
        lwb, lwe := 0, 0;
      }
    }

    /** Nothing is pending for another disk: the next write flushes to the disk it should. */
    ghost predicate OneDisk(d: nat)
      reads this
    {
      lwb < lwe ==> lwdn == d
    }

    /** Whether the cache block of sector `sb` is part of the pending segment. */
    predicate Cached(d: nat, sb: nat)
      requires d < |geo| && geo[d].Valid()
      reads this
    {
      var s := Sec(geo[d], sb);
      lwdn == d && lwc == Cyl(geo[d], sb) && lwh == Head(geo[d], sb) && lwp == s / BLOCKS * BLOCKS && lwb <= s % BLOCKS < lwe
    }

    /** Its cache block then holds the sector; otherwise the block is left from whatever was there before. */
    lemma CachedIsCurrent(d: nat, sb: nat)
      requires Valid() && d < |disks| && sb < |disks[d]| && Cached(d, sb)
      ensures CacheBlock(wcache[..], Sec(geo[d], sb) % BLOCKS) == View(d)[sb]
    {
      var s := Sec(geo[d], sb);
      ChsRoundTrip(geo[d], sb);
      LbaLinear(geo[d], lwc, lwh, lwp, s % BLOCKS);
    }

    /** For a sector that is pending, a write of part of it has the disk around that part. */
    lemma CachedAgrees(d: nat, offs: nat, data: seq<Byte>)
      requires Valid() && d < |disks| && offs / BLOCK < |disks[d]| && Cached(d, offs / BLOCK) && data != []
      ensures FrontAgrees(View(d), wcache[..], geo[d], offs)
      ensures offs % BLOCK + |data| <= BLOCK ==> BackAgrees(View(d), wcache[..], geo[d], offs, data)
    {
      hide CacheBlock;
      CachedIsCurrent(d, offs / BLOCK);
      if offs % BLOCK + |data| <= BLOCK {
        assert Before(offs, |data|) == 0 && data[..0] == [];
      }
    }

    /** Copies into cache block `b`, which the segment has, touches, or is empty for. */
    method Grow(d: nat, b: nat, off: nat, data: seq<Byte>)
      requires Valid() && d < |disks| && b < BLOCKS && off + |data| <= BLOCK && lwdn == d && lwp + b < geo[d].secs
      requires lwb < lwe ==> lwb <= b + 1 && b <= lwe
      modifies `lwb, `lwe, wcache
      ensures Valid() && lwb < lwe
      ensures View(d) == Put(old(View(d)), Base(d) + b, Splice(CacheBlock(old(wcache[..]), b), off, data))
      ensures wcache[..] == Splice(old(wcache[..]), b * BLOCK + off, data) && lwb <= b < lwe
    {
      hide Overlay, CacheBlock, Put, Lba;
      OverlayPut(disks[d], Base(d), lwb, lwe, wcache[..], b, off, data);
      MemCpy(wcache, b * BLOCK + off, data);
      if lwb == lwe {
        lwb, lwe := b, b + 1;
      } else if b + 1 == lwb {
        lwb := lwb - 1;
      } else if b == lwe {
        lwe := lwe + 1;
      }
    }

    /** One round of diskbios_write: the part of block `sb` at `off` becomes `data`. */
    method PutBlock(d: nat, sb: nat, off: nat, data: seq<Byte>) returns (err: int)
      requires Valid() && d < |disks| && off + |data| <= BLOCK
      modifies this, wcache
      ensures failures == old(failures) + if err == EOK then 0 else 1
      ensures Valid() && |disks| == |old(disks)| && |disks[d]| == |old(disks)[d]| && (err == EOK || err == EIO)
      ensures forall e: nat :: e < |disks| && e != d ==> disks[e] == old(disks)[e]
      ensures err == EOK ==> OneDisk(d) && Cached(d, sb)
      ensures err == EOK ==> wcache[..] == Splice(old(wcache[..]), Slot(geo[d], sb) * BLOCK + off, data)
      ensures err == EOK ==>
                View(d) == Put(old(Flushed(d)), sb, Splice(CacheBlock(old(wcache[..]), Slot(geo[d], sb)), off, data))
      ensures err != EOK ==> wcache[..] == old(wcache[..]) && (old(OneDisk(d)) ==> OneDisk(d) && View(d) == old(View(d)))
    {
      var c, h, s := Cyl(geo[d], sb), Head(geo[d], sb), Sec(geo[d], sb);
      var b, p := s % BLOCKS, s / BLOCKS * BLOCKS;
      ChsRoundTrip(geo[d], sb);
      LbaLinear(geo[d], c, h, p, b);
      hide Cyl, Head, Sec, Lba, Overlay, CacheBlock, Flushed, View, Put;
      err := Turn(d, c, h, p, b);
      if err == EOK {
        Grow(d, b, off, data);
      }
    }

    /** Writes the segment back unless block `b` of the segment of this track has it, or touches it. */
    method Turn(d: nat, c: nat, h: nat, p: nat, b: nat) returns (err: int)
      requires Valid() && d < |disks| && b < BLOCKS && p + b < geo[d].secs
      modifies this
      ensures failures == old(failures) + if err == EOK then 0 else 1
      ensures Valid() && |disks| == |old(disks)| && |disks[d]| == |old(disks)[d]| && (err == EOK || err == EIO)
      ensures forall e: nat :: e < |disks| && e != d ==> disks[e] == old(disks)[e]
      ensures err == EOK ==>
                && (lwdn, lwc, lwh, lwp) == (d, c, h, p) && (lwb < lwe ==> lwb <= b + 1 && b <= lwe)
                && View(d) == old(Flushed(d))
      ensures err != EOK && old(OneDisk(d)) ==> OneDisk(d) && View(d) == old(View(d))
    {
      hide Lba, Overlay;
      if lwb != lwe && (d != lwdn || c != lwc || h != lwh || p != lwp || b + 1 < lwb || b > lwe) {
        err := Flush(d);
        if err != 0 {
          return EIO;
        }
      }
      lwdn, lwc, lwh, lwp := d, c, h, p;
      err := EOK;
    }

    /**
     `done` bytes were taken; all of them unless an access failed. The disk then shows what is
     pending for it, or was pending for another disk, and the bytes taken over that.
     */
    method Write(minor: nat, offs: nat, buff: seq<Byte>) returns (r: int, ghost done: nat)
      requires Valid()
      modifies this, wcache
      ensures Valid() && |disks| == |old(disks)| && done <= |buff|
      ensures minor >= |disks| ==> r == EINVAL && disks == old(disks)
      ensures minor < |disks| ==> if r >= 0 then r == |buff| == done else r == EIO
      ensures failures == old(failures) + if r == EIO then 1 else 0
      ensures minor < |disks| ==> forall e: nat :: e < |disks| && e != minor ==> disks[e] == old(disks)[e]
      ensures minor < |disks| && (done > 0 || old(OneDisk(minor))) ==>
                && OneDisk(minor)
                && View(minor) == Taken(old(Flushed(minor)), old(wcache[..]), geo[minor], offs, buff[..done])
                && Applied(old(Flushed(minor)), View(minor), offs, buff[..done])
      // exactly when that is what a caller wants: the bytes taken, over what the disk showed before
      ensures minor < |disks| && done > 0 ==>
                (Flat(old(View(minor)), View(minor), offs, buff[..done]) <==>
                  && old(FrontAgrees(View(minor), wcache[..], geo[minor], offs))
                  && old(BackAgrees(View(minor), wcache[..], geo[minor], offs, buff[..done]))
                  && old(SameAround(View(minor), Flushed(minor), offs, done)))
      ensures minor < |disks| ==> wcache[..] == Filled(old(wcache[..]), geo[minor], offs, buff[..done])
      // what was pending for another disk is lost
      ensures minor < |disks| && r > 0 ==> Cached(minor, (offs + r - 1) / BLOCK)
    {
      hide Taken, Filled, Applied, FrontAgrees, BackAgrees, SameAround, Flushed, View, Flat, Cached;
      done := 0;
      assert buff[..0] == [];
      if minor >= |disks| {
        return EINVAL, 0;
      }
      ghost var view0, view, cache, one := View(minor), Flushed(minor), wcache[..], OneDisk(minor);
      r, done := WriteRounds(minor, offs, buff);
      if done > 0 || one {
        TakenIsApplied(view, cache, geo[minor], offs, buff[..done]);
      }
      if done > 0 {
        TakenIsFlat(view0, view, cache, geo[minor], offs, buff[..done]);
      }
    }

    /** One round of it, after `n` bytes. */
    method Round(minor: nat, offs: nat, buff: seq<Byte>, n: nat, size: nat, ghost view: seq<Sector>, ghost cache: seq<Byte>)
      returns (err: int)
      requires Valid() && minor < |disks| && 0 < size && n + size <= |buff| && |cache| == BLOCKS * BLOCK
      requires (offs + n) % BLOCK + size <= BLOCK && (n > 0 ==> (offs + n) % BLOCK == 0)
      requires Flushed(minor) == Taken(view, cache, geo[minor], offs, buff[..n])
      requires wcache[..] == Filled(cache, geo[minor], offs, buff[..n])
      modifies this, wcache
      ensures failures == old(failures) + if err == EOK then 0 else 1
      ensures Valid() && |disks| == |old(disks)| && (err == EOK || err == EIO)
      ensures forall e: nat :: e < |disks| && e != minor ==> disks[e] == old(disks)[e]
      ensures err == EOK ==> OneDisk(minor) && Cached(minor, (offs + n) / BLOCK)
      ensures err == EOK ==> View(minor) == Taken(view, cache, geo[minor], offs, buff[..n + size])
      ensures err == EOK ==> wcache[..] == Filled(cache, geo[minor], offs, buff[..n + size])
      ensures err != EOK ==> wcache[..] == old(wcache[..]) && (old(OneDisk(minor)) ==> OneDisk(minor) && View(minor) == old(View(minor)))
    {
      hide CacheBlock, Slot, Sec, Put, Taken, Filled, Cached, Flushed, View;
      TakenNext(view, cache, geo[minor], offs, buff[..n + size], n);
      assert buff[..n + size][..n] == buff[..n] && buff[..n + size][n..] == buff[n..n + size];
      err := PutBlock(minor, (offs + n) / BLOCK, (offs + n) % BLOCK, buff[n..n + size]);
    }

    /** The loop of diskbios_write. */
    method WriteRounds(minor: nat, offs: nat, buff: seq<Byte>) returns (r: int, ghost done: nat)
      requires Valid() && minor < |disks|
      modifies this, wcache
      ensures Valid() && |disks| == |old(disks)| && done <= |buff|
      ensures if r >= 0 then r == |buff| == done else r == EIO
      ensures failures == old(failures) + if r == EIO then 1 else 0
      ensures forall e: nat :: e < |disks| && e != minor ==> disks[e] == old(disks)[e]
      ensures done > 0 || old(OneDisk(minor)) ==>
                OneDisk(minor) && View(minor) == Taken(old(Flushed(minor)), old(wcache[..]), geo[minor], offs, buff[..done])
      ensures wcache[..] == Filled(old(wcache[..]), geo[minor], offs, buff[..done])
      ensures r > 0 ==> Cached(minor, (offs + r - 1) / BLOCK)
    {
      hide CacheBlock, Slot, Sec, Put, Taken, Filled, Cached, Flushed, View;
      ghost var g, view, cache := geo[minor], Flushed(minor), wcache[..];
      assert buff[..0] == [];
      TakenNothing(view, cache, g, offs);
      if |buff| == 0 {
        return 0, 0;
      }
      var n := 0;
      var sb, eb := offs / BLOCK, (offs + |buff| - 1) / BLOCK;
      while sb <= eb
        invariant Valid() && |disks| == |old(disks)| && g == geo[minor] && failures == old(failures)
        invariant 0 <= n <= |buff| && sb == (if n < |buff| then (offs + n) / BLOCK else eb + 1)
        invariant 0 < n < |buff| ==> (offs + n) % BLOCK == 0
        invariant forall e: nat :: e < |disks| && e != minor ==> disks[e] == old(disks)[e]
        invariant if n > 0 then OneDisk(minor) && Cached(minor, (offs + n - 1) / BLOCK)
                  else (OneDisk(minor) <==> old(OneDisk(minor))) && Flushed(minor) == view
        invariant n > 0 ==> Flushed(minor) == Taken(view, cache, g, offs, buff[..n])
        invariant wcache[..] == Filled(cache, g, offs, buff[..n])
        decreases eb + 1 - sb
      {
        var size := if sb == eb then |buff| - n else BLOCK - (offs + n) % BLOCK;
        Piece(offs, |buff|, n);
        var err := Round(minor, offs, buff, n, size, view, cache);
        if err != EOK {
          return EIO, n;
        }
        n := n + size;
        sb := sb + 1;
      }
      assert buff[..n] == buff;
      r, done := n, n;
    }

    method Sync(minor: nat) returns (r: int)
      requires Valid()
      modifies `disks, `lwb, `lwe, `failures
      ensures failures == old(failures) + if r == EIO then 1 else 0
      ensures Valid() && |disks| == |old(disks)|
      ensures minor >= |disks| ==> r == EINVAL && disks == old(disks)
      ensures minor < |disks| ==> (r == EOK || r == EIO) && View(minor) == old(View(minor)) && (r == EOK ==> disks[minor] == View(minor))
      ensures minor < |disks| && old(OneDisk(minor)) ==> OneDisk(minor)
      ensures minor < |disks| ==> forall e: nat :: e < |disks| && e != minor ==> View(e) == old(View(e))
    {
      if minor >= |disks| {
        return EINVAL;
      }
      if lwb != lwe && minor == lwdn {
        var err := Flush(minor);
        if err != 0 {
          return EIO;
        }
      }
      r := EOK;
    }

    /** On one disk, the overlay always is the flat array with every write applied. */
    method Run(d: nat, ops: seq<Op>) returns (ok: bool)
      requires Valid() && d < |disks| && OneDisk(d) && forall op :: op in ops ==> op.Aligned()
      modifies this, wcache
      ensures Valid() && |disks| == |old(disks)| && OneDisk(d)
      ensures ok <==> failures == old(failures)
      ensures ok ==> View(d) == Replay(old(View(d)), ops)
      ensures ok && ops != [] && ops[|ops| - 1].Sync? ==> disks[d] == View(d)
    {
      hide Taken, Filled, Applied, FrontAgrees, BackAgrees, Flushed, View, Overwritten;
      ok := true;
      ghost var view := View(d);
      for i := 0 to |ops|
        invariant Valid() && |disks| == |old(disks)| && OneDisk(d) && ok && failures == old(failures)
        invariant View(d) == Replay(view, ops[..i])
        invariant i > 0 && ops[i - 1].Sync? ==> disks[d] == View(d)
      {
        var r;
        ghost var v1 := View(d);
        assert ops[i] in ops && ops[..i + 1][..i] == ops[..i];
        match ops[i] {
          case Write(offs, data) =>
            ghost var done;
            r, done := Write(d, offs, data);
            if r >= 0 {
              assert data[..done] == data;
              AppliedIsOverwritten(v1, View(d), offs, data);
            }
          case Sync => r := Sync(d);
        }
        if r < 0 {
          return false;
        }
      }
      assert ops[..|ops|] == ops;
    }
  }

  // ---------------------------------------------------------------------------------------
  // Writes that go wrong

  const ONES: Sector := Fill(BLOCK, 1)
  const ZEROS: Sector := Fill(BLOCK, 0)

  /** One byte written to a disk of ones, with nothing but zeros in the cache: the rest of the sector becomes zero. */
  lemma PartialIsLost()
    ensures var g, v, cache := Geometry(1, 2), [ONES, ONES], Fill(BLOCKS * BLOCK, 0 as Byte);
            && !Flat(v, Taken(v, cache, g, 0, [2]), 0, [2])
            && Taken(v, cache, g, 0, [2]) == [ZEROS[0 := 2], ONES]
  {
    var g, v, cache := Geometry(1, 2), [ONES, ONES], Fill(BLOCKS * BLOCK, 0 as Byte);
    var data: seq<Byte> := [2];
    hide Taken, Filled, Flat, Before;
    TakenNext(v, cache, g, 0, data, 0);
    assert data[..0] == [] && data[0..] == data;
    TakenNothing(v, cache, g, 0);
    assert CacheBlock(cache, 0) == ZEROS && Slot(g, 0) == 0;
    assert Splice(ZEROS, 0, data) == ZEROS[0 := 2];
    NotFlat(v, Taken(v, cache, g, 0, data), 0, data, 0, 1);
  }

  lemma NotFlat(v0: seq<Sector>, v1: seq<Sector>, offs: nat, data: seq<Byte>, i: nat, k: nat)
    requires |v1| == |v0| && i < |v0| && k < BLOCK && v1[i][k] != v0[i][k]
    requires !(offs <= i * BLOCK + k < offs + |data|)
    ensures !Flat(v0, v1, offs, data)
  {
  }

  /** Two disks of ones, and a sector of zeros written to the first. */
  method OneDiskWritten() returns (c: DiskCache)
    ensures c.Valid() && fresh(c) && fresh(c.wcache)
    ensures |c.disks| == 2 && c.geo == [Geometry(1, 1), Geometry(1, 1)] && |c.disks[1]| == 2
    ensures c.failures == 0 ==> c.Cached(0, 0) && CacheBlock(c.wcache[..], 0) == ZEROS && c.disks[1] == [ONES, ONES]
  {
    hide Taken, Filled, Flat, FrontAgrees, BackAgrees, SameAround, Applied, CacheBlock;
    var g := Geometry(1, 1);
    c := new DiskCache([g, g], [[ONES, ONES], [ONES, ONES]]);
    ghost var cache := c.wcache[..];
    ghost var done;
    var r: int;
    r, done := c.Write(0, 0, ZEROS);
    OneSector(c.disks[0], cache, g, 0);
    assert ZEROS[..|ZEROS|] == ZEROS;
  }

  /** Then one for the second track of the other disk: unless an access fails, its first track becomes zero as well. */
  method TwoDisks() returns (c: DiskCache)
    ensures c.Valid() && |c.disks| == 2
    ensures c.failures == 0 ==> c.View(1) == [ZEROS, ZEROS]
  {
    hide Taken, Filled, Flat, FrontAgrees, BackAgrees, SameAround, Applied;
    c := OneDiskWritten();
    ghost var flushed, cache := c.Flushed(1), c.wcache[..];
    if c.failures == 0 {
      StrayZeros(c);
    }
    ghost var done;
    var r: int;
    r, done := c.Write(1, BLOCK, ZEROS);
    OneSector(flushed, cache, Geometry(1, 1), 1);
    assert ZEROS[..|ZEROS|] == ZEROS;
  }

  lemma StrayZeros(c: DiskCache)
    requires c.Valid() && |c.disks| == 2 && c.geo == [Geometry(1, 1), Geometry(1, 1)]
    requires c.Cached(0, 0) && CacheBlock(c.wcache[..], 0) == ZEROS && c.disks[1] == [ONES, ONES]
    ensures c.Flushed(1) == [ZEROS, ONES]
  {
    hide CacheBlock;
    assert c.Base(1) == 0 && c.lwb == 0 && c.lwe == 1;
  }

  /** A whole sector of zeros, on a disk of one sector a track. */
  lemma OneSector(v: seq<Sector>, cache: seq<Byte>, g: Geometry, sb: nat)
    requires g == Geometry(1, 1) && |cache| == BLOCKS * BLOCK
    ensures CacheBlock(Filled(cache, g, sb * BLOCK, ZEROS), 0) == ZEROS
    ensures Taken(v, cache, g, sb * BLOCK, ZEROS) == Put(v, sb, ZEROS)
  {
    TakenNext(v, cache, g, sb * BLOCK, ZEROS, 0);
    assert ZEROS[..0] == [] && ZEROS[0..] == ZEROS;
    TakenNothing(v, cache, g, sb * BLOCK);
    assert Slot(g, sb) == 0;
    CacheSplice(cache, 0, 0, ZEROS, 0);
    assert Splice(CacheBlock(cache, 0), 0, ZEROS) == ZEROS;
  }
}
