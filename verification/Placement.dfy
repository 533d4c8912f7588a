/** Where the syspage code puts things: 32-bit address rounding and best-fit search over sorted entries. */
module Placement {
  import opened Bytes
  import opened Words

  type Addr = U32

  const NOADDR: Addr := 0xffff_ffff // (addr_t)-1

  function Wrap32(x: int): (a: Addr)
  {
    x % W32
  }

  // ---- alignment

  /** x & ~m */
  function AndNot(x: nat, m: nat): (r: nat)
    ensures r <= x
  {
    if x == 0 then 0
    else 2 * AndNot(x / 2, m / 2) + if x % 2 == 1 && m % 2 == 0 then 1 else 0
  }

  /** ALIGN_ADDR */
  function Align(a: Addr, align: Addr): (r: Addr)
  {
    if align == 0 then a else AndNot(Wrap32(a + align - 1), align - 1)
  }

  function Pow2(k: nat): (p: nat)
    ensures p > 0
  {
    if k == 0 then 1 else 2 * Pow2(k - 1)
  }

  /** A multiple of Pow2(k): the lower `k` bits are zero. */
  predicate Aligned(x: nat, k: nat) {
    k == 0 || (x % 2 == 0 && Aligned(x / 2, k - 1))
  }

  lemma {:induction false} AlignedIsMultiple(x: nat, k: nat)
    ensures Aligned(x, k) <==> x % Pow2(k) == 0
  {
    if k > 0 {
      AlignedIsMultiple(x / 2, k - 1);
      HalfMod(x, Pow2(k - 1));
    }
  }

  lemma HalfMod(x: nat, p: nat)
    requires p > 0
    ensures x % (2 * p) == 2 * (x / 2 % p) + x % 2
  {
    var q, r := x / 2 / p, x / 2 % p;
    assert x / 2 == q * p + r;
    assert q * (2 * p) == 2 * (q * p);
    DivModUnique(q, 2 * r + x % 2, 2 * p);
  }

  lemma {:induction false} AlignedPow(n: nat, k: nat)
    requires k <= n
    ensures Aligned(Pow2(n), k)
  {
    if k > 0 {
      AlignedPow(n - 1, k - 1);
    }
  }

  lemma {:induction false} AlignedGap(x: nat, y: nat, k: nat)
    requires Aligned(x, k) && Aligned(y, k) && x < y
    ensures x + Pow2(k) <= y
  {
    if k > 0 {
      AlignedGap(x / 2, y / 2, k - 1);
    }
  }

  lemma {:induction false} ClearNothing(x: nat)
    ensures AndNot(x, 0) == x
  {
    if x > 0 {
      ClearNothing(x / 2);
    }
  }

  lemma {:induction false} ClearLow(x: nat, k: nat)
    ensures Aligned(AndNot(x, Pow2(k) - 1), k)
    ensures x < AndNot(x, Pow2(k) - 1) + Pow2(k)
    decreases k
  {
    if k == 0 {
      ClearNothing(x);
    } else if x == 0 {
      AlignedZero(k);
    } else {
      ClearLow(x / 2, k - 1);
    }
  }

  lemma {:induction false} AlignedZero(k: nat)
    ensures Aligned(0, k)
  {
    if k > 0 {
      AlignedZero(k - 1);
    }
  }

  lemma {:induction false} Pow2Mono(k: nat, n: nat)
    requires k <= n
    ensures Pow2(k) <= Pow2(n)
    decreases n
  {
    if k < n {
      Pow2Mono(k, n - 1);
    }
  }

  lemma Pow32()
    ensures Pow2(32) == W32
  {
    assert Pow2(8) == 0x100;
    assert Pow2(16) == 0x1_0000;
    assert Pow2(24) == 0x100_0000;
  }

  lemma AlignIsClear(a: Addr, k: nat)
    requires k < 32
    ensures Pow2(k) < W32 && Align(a, Pow2(k)) == AndNot(Wrap32(a + Pow2(k) - 1), Pow2(k) - 1)
    ensures Aligned(W32, k)
  {
    Pow2Mono(k + 1, 32);
    Pow32();
    AlignedPow(32, k);
  }

  /** Rounds up to a multiple; past the last multiple below 2^32 it wraps to zero. */
  lemma AlignUp(a: Addr, k: nat)
    requires k < 32
    ensures Pow2(k) < W32
    ensures var z, p := Align(a, Pow2(k)), Pow2(k);
            Aligned(z, k) && if a + p - 1 < W32 then a <= z < a + p else z == 0
  {
    hide Align, AndNot, Aligned, Pow2;
    AlignIsClear(a, k);
    var z, p := Align(a, Pow2(k)), Pow2(k);
    ClearLow(Wrap32(a + p - 1), k);
    if a + p - 1 >= W32 {
      AlignedZero(k);
      if z > 0 {
        AlignedGap(0, z, k);
      }
    }
  }

  /** It is the least multiple from `a` on, if there is one at all. */
  lemma AlignLeast(a: Addr, k: nat, y: nat)
    requires k < 32 && Aligned(y, k) && a <= y < W32
    ensures Pow2(k) < W32 && a <= Align(a, Pow2(k)) <= y && a + Pow2(k) - 1 < W32
  {
    hide Align, AndNot, Aligned, Pow2;
    AlignIsClear(a, k);
    AlignUp(a, k);
    AlignedGap(y, W32, k);
    var z := Align(a, Pow2(k));
    if y < z {
      AlignedGap(y, z, k);
    }
  }

  /** The highest multiple of Pow2(k): an end up to here can be rounded up. */
  function Top(k: nat): (a: Addr)
    requires k < 32
  {
    Pow2Mono(k + 1, 32);
    Pow32();
    W32 - Pow2(k)
  }

  lemma TopAligned(k: nat)
    requires k < 32
    ensures Aligned(Top(k), k) && Pow2(k) == W32 - Top(k) < W32
  {
    AlignedPow(32, k);
    Pow32();
    TopOf(32, k);
  }

  lemma {:induction false} TopOf(n: nat, k: nat)
    requires k < n
    ensures Pow2(n) > Pow2(k) && Aligned(Pow2(n) - Pow2(k), k)
  {
    Pow2Mono(k + 1, n);
    if k > 0 {
      TopOf(n - 1, k - 1);
    }
  }

  // ---- entries

  datatype Range = Range(start: Addr, end: Addr)

  /** No entry is empty, and each ends before the next starts: sorted by start and disjoint. */
  predicate Tidy(rs: seq<Range>) {
    && (forall i :: 0 <= i < |rs| ==> rs[i].start < rs[i].end)
    && forall i, j :: 0 <= i < j < |rs| ==> rs[i].end <= rs[j].start
  }

  predicate Within(rs: seq<Range>, low: Addr, high: Addr) {
    forall i :: 0 <= i < |rs| ==> low <= rs[i].start && rs[i].end <= high
  }

  predicate StartsAligned(rs: seq<Range>, k: nat) {
    forall i :: 0 <= i < |rs| ==> Aligned(rs[i].start, k)
  }

  /** The block at `a` overlaps no entry. */
  predicate Free(rs: seq<Range>, a: Addr, size: nat) {
    forall i :: 0 <= i < |rs| ==> a + size <= rs[i].start || rs[i].end <= a
  }

  /** Where entry `r` goes: before the first one that starts later. */
  predicate Slot(rs: seq<Range>, r: Range, k: nat) {
    && k <= |rs|
    && (forall i :: 0 <= i < k ==> rs[i].start <= r.start)
    && forall i :: k <= i < |rs| ==> r.start < rs[i].start
  }

  function Inserted<T>(s: seq<T>, x: T, k: nat): (r: seq<T>)
    requires k <= |s|
  {
    s[..k] + [x] + s[k..]
  }

  predicate SortedByStart(rs: seq<Range>) {
    forall i, j :: 0 <= i < j < |rs| ==> rs[i].start <= rs[j].start
  }

  lemma InsertSorted(rs: seq<Range>, r: Range, k: nat)
    requires SortedByStart(rs) && Slot(rs, r, k)
    ensures SortedByStart(Inserted(rs, r, k))
  {
    var s := Inserted(rs, r, k);
    assert forall i :: 0 <= i < k ==> s[i] == rs[i];
    assert forall i :: k < i < |s| ==> s[i] == rs[i - 1];
  }

  lemma InsertTidy(rs: seq<Range>, r: Range, k: nat)
    requires Tidy(rs) && Slot(rs, r, k) && r.start < r.end && Free(rs, r.start, r.end - r.start)
    ensures Tidy(Inserted(rs, r, k))
  {
    assert forall i :: 0 <= i < k ==> rs[i].end <= r.start;
    assert forall i :: k <= i < |rs| ==> r.end <= rs[i].start;
  }

  // ---- best fit

  /** Where the `i`-th gap begins. */
  function GapFrom(ms: Addr, rs: seq<Range>, i: nat): (a: Addr)
    requires i <= |rs|
  {
    if i == 0 then ms else rs[i - 1].end
  }

  /** Its start, aligned. */
  function GapStart(ms: Addr, rs: seq<Range>, align: Addr, i: nat): (a: Addr)
    requires i <= |rs|
  {
    Align(GapFrom(ms, rs, i), align)
  }

  function GapEnd(me: Addr, rs: seq<Range>, i: nat): (a: Addr)
    requires i <= |rs|
  {
    if i < |rs| then rs[i].start else me
  }

  datatype Best = Best(start: Addr, size: Addr)

  /** The search after the first `n` entries. */
  function Search(ms: Addr, rs: seq<Range>, size: Addr, align: Addr, n: nat): (b: Best)
    requires n <= |rs|
  {
    if n == 0 then Best(NOADDR, NOADDR)
    else
      var b := Search(ms, rs, size, align, n - 1);
      var temp, e := GapStart(ms, rs, align, n - 1), rs[n - 1];
      if e.start < Wrap32(temp + size) && e.end > temp then b
      else Better(b, temp, Wrap32(e.start - temp), size)
  }

  lemma SearchNothing(ms: Addr, rs: seq<Range>, size: Addr, align: Addr)
    ensures Search(ms, rs, size, align, 0) == Best(NOADDR, NOADDR)
  {
  }

  lemma SearchNext(ms: Addr, rs: seq<Range>, size: Addr, align: Addr, n: nat)
    requires n < |rs|
    ensures var b, temp, e := Search(ms, rs, size, align, n), GapStart(ms, rs, align, n), rs[n];
            Search(ms, rs, size, align, n + 1)
            == if e.start < Wrap32(temp + size) && e.end > temp then b else Better(b, temp, Wrap32(e.start - temp), size)
  {
  }

  function Better(b: Best, temp: Addr, gap: Addr, size: Addr): (b': Best)
  {
    if size <= gap < b.size then Best(temp, gap) else b
  }

  datatype Option<T> = None | Some(value: T)

  /** syspage_bestFit */
  function BestFit(ms: Addr, me: Addr, rs: seq<Range>, size: Addr, align: Addr): (r: Option<Addr>)
  {
    if rs == [] then Some(Align(ms, align))
    else
      var temp := GapStart(ms, rs, align, |rs|);
      var b := Better(Search(ms, rs, size, align, |rs|), temp, Wrap32(me - temp), size);
      if b.size == NOADDR || b.start == NOADDR then None else Some(b.start)
  }

  /** What the search needs of a map: entries tidy and inside, starts aligned. */
  predicate Orderly(ms: Addr, me: Addr, rs: seq<Range>, k: nat) {
    && k < 32 && Tidy(rs) && StartsAligned(rs, k) && Within(rs, ms, me) && Aligned(me, k)
  }

  /** True sizes of the gaps. */
  function Gap(ms: Addr, me: Addr, rs: seq<Range>, k: nat, i: nat): (n: int)
    requires i <= |rs| && Pow2(k) < W32
  {
    GapEnd(me, rs, i) - GapStart(ms, rs, Pow2(k), i)
  }

  /** An aligned place inside the map that overlaps no entry. */
  predicate Fits(ms: Addr, me: Addr, rs: seq<Range>, size: Addr, k: nat, a: Addr) {
    Aligned(a, k) && ms <= a && a + size <= me && Free(rs, a, size)
  }

  /** There is a multiple from where the gap begins, and from there the gap holds the block. */
  predicate Room(ms: Addr, me: Addr, rs: seq<Range>, size: Addr, k: nat, i: nat)
    requires i <= |rs| && k < 32 && Pow2(k) < W32
  {
    GapFrom(ms, rs, i) <= Top(k) && size <= Gap(ms, me, rs, k, i)
  }

  /** The overlap test of the loop. */
  predicate Skipped(ms: Addr, rs: seq<Range>, size: Addr, align: Addr, i: nat)
    requires i <= |rs|
  {
    var temp := GapStart(ms, rs, align, i);
    i < |rs| && rs[i].start < Wrap32(temp + size) && rs[i].end > temp
  }

  /** The size the code sees, in 32 bits. */
  function Seen(ms: Addr, me: Addr, rs: seq<Range>, k: nat, i: nat): (n: Addr)
    requires i <= |rs| && Pow2(k) < W32
  {
    Wrap32(Gap(ms, me, rs, k, i))
  }

  predicate Taken(ms: Addr, me: Addr, rs: seq<Range>, size: Addr, k: nat, i: nat)
    requires i <= |rs| && Pow2(k) < W32
  {
    size <= Seen(ms, me, rs, k, i) < NOADDR && !Skipped(ms, rs, size, Pow2(k), i)
  }

  /**
   Rounding carried the start of the gap past its end, or past 2^32 to zero, yet the code takes
   it: the wrapped size is large enough and the overlap test lets it through.
   */
  predicate Astray(ms: Addr, me: Addr, rs: seq<Range>, size: Addr, k: nat, i: nat)
    requires i <= |rs| && k < 32 && Pow2(k) < W32
  {
    (GapFrom(ms, rs, i) > Top(k) || Gap(ms, me, rs, k, i) < 0) && Taken(ms, me, rs, size, k, i)
  }

  /** Entries as they are in every map, aligned or not. */
  predicate Inside(ms: Addr, me: Addr, rs: seq<Range>) {
    rs != [] && Tidy(rs) && Within(rs, ms, me)
  }

  lemma StartFacts(ms: Addr, rs: seq<Range>, k: nat, i: nat)
    requires i <= |rs| && k < 32
    ensures Pow2(k) == W32 - Top(k) < W32 && Aligned(GapStart(ms, rs, Pow2(k), i), k)
    ensures var from, temp := GapFrom(ms, rs, i), GapStart(ms, rs, Pow2(k), i);
            if from <= Top(k) then from <= temp < from + Pow2(k) else temp == 0
  {
    hide Aligned, Align, Pow2, Top;
    TopAligned(k);
    AlignUp(GapFrom(ms, rs, i), k);
  }

  lemma EndFacts(ms: Addr, me: Addr, rs: seq<Range>, i: nat, j: nat)
    requires Inside(ms, me, rs) && i <= j <= |rs|
    ensures GapFrom(ms, rs, i) <= GapEnd(me, rs, i)
    ensures i < j ==> GapEnd(me, rs, i) < GapFrom(ms, rs, j)
    ensures i < |rs| ==> GapEnd(me, rs, i) < NOADDR
    ensures |rs| > 0 && (i > 0 ==> 0 < GapFrom(ms, rs, i))
  {
  }

  /** What the code takes is room, or has gone astray; never both. */
  lemma TakenIs(ms: Addr, me: Addr, rs: seq<Range>, size: Addr, k: nat, i: nat)
    requires Inside(ms, me, rs) && size > 0 && i <= |rs| && k < 32 && Pow2(k) < W32
    ensures Taken(ms, me, rs, size, k, i) <==> Room(ms, me, rs, size, k, i) || Astray(ms, me, rs, size, k, i)
    ensures Room(ms, me, rs, size, k, i) ==>
              !Astray(ms, me, rs, size, k, i) && Seen(ms, me, rs, k, i) == Gap(ms, me, rs, k, i)
  {
    hide Aligned, Align, Pow2, Top, GapFrom, GapEnd, Inside;
    StartFacts(ms, rs, k, i);
    EndFacts(ms, me, rs, i, i);
    if Room(ms, me, rs, size, k, i) {
      RoomIsOpen(ms, me, rs, size, k, i);
    }
  }

  lemma RoomIsOpen(ms: Addr, me: Addr, rs: seq<Range>, size: Addr, k: nat, i: nat)
    requires Inside(ms, me, rs) && size > 0 && i <= |rs| && k < 32 && Pow2(k) < W32 && Room(ms, me, rs, size, k, i)
    ensures Seen(ms, me, rs, k, i) == Gap(ms, me, rs, k, i) < NOADDR && !Skipped(ms, rs, size, Pow2(k), i)
  {
    hide Aligned, Align, Pow2, Top, GapFrom, Inside;
    StartFacts(ms, rs, k, i);
    EndFacts(ms, me, rs, i, i);
    var temp := GapStart(ms, rs, Pow2(k), i);
    assert temp + size <= GapEnd(me, rs, i) < W32;
    SmallSum(temp, size);
    SmallSum(GapEnd(me, rs, i), -1 * temp);
  }

  lemma SmallSum(x: int, y: int)
    requires 0 <= x + y < W32
    ensures Wrap32(x + y) == x + y
  {
  }

  /** Room, however large, is smaller than what any gap gone astray seems to be. */
  lemma RoomWins(ms: Addr, me: Addr, rs: seq<Range>, size: Addr, k: nat, i: nat, j: nat)
    requires Inside(ms, me, rs) && size > 0 && i <= |rs| && j <= |rs| && k < 32 && Pow2(k) < W32
    requires Astray(ms, me, rs, size, k, i) && Room(ms, me, rs, size, k, j)
    ensures Gap(ms, me, rs, k, j) < Seen(ms, me, rs, k, i)
  {
    hide Aligned, Align, Pow2, Top, GapFrom, GapEnd, Inside, Skipped;
    StartFacts(ms, rs, k, i);
    StartFacts(ms, rs, k, j);
    EndFacts(ms, me, rs, Min(i, j), Max(i, j));
    EndFacts(ms, me, rs, i, i);
    EndFacts(ms, me, rs, j, j);
    if i < j && GapFrom(ms, rs, i) <= Top(k) {
      AlignLeast(GapFrom(ms, rs, i), k, GapStart(ms, rs, Pow2(k), j));
    }
  }

  // ---- the search

  /** Of the first `n` gaps, `j` is the earliest of those the code takes that seem smallest. */
  predicate FirstSmallest(ms: Addr, me: Addr, rs: seq<Range>, size: Addr, k: nat, n: nat, j: nat)
    requires n <= |rs| + 1 && Pow2(k) < W32
  {
    && j < n && Taken(ms, me, rs, size, k, j)
    && (forall i :: 0 <= i < n && Taken(ms, me, rs, size, k, i) ==> Seen(ms, me, rs, k, j) <= Seen(ms, me, rs, k, i))
    && forall i :: 0 <= i < j && Taken(ms, me, rs, size, k, i) ==> Seen(ms, me, rs, k, j) < Seen(ms, me, rs, k, i)
  }

  ghost predicate FoundAt(ms: Addr, me: Addr, rs: seq<Range>, size: Addr, k: nat, n: nat, b: Best)
    requires n <= |rs| + 1 && Pow2(k) < W32
  {
    exists j: nat ::
      && j < n && FirstSmallest(ms, me, rs, size, k, n, j)
      && b.start == GapStart(ms, rs, Pow2(k), j) && b.size == Seen(ms, me, rs, k, j)
  }

  ghost predicate IsBest(ms: Addr, me: Addr, rs: seq<Range>, size: Addr, k: nat, n: nat, b: Best)
    requires n <= |rs| + 1 && Pow2(k) < W32
  {
    || (b == Best(NOADDR, NOADDR) && forall i :: 0 <= i < n ==> !Taken(ms, me, rs, size, k, i))
    || (b.size < NOADDR && FoundAt(ms, me, rs, size, k, n, b))
  }

  /** One round, with the overlap test or, after the last entry, without. */
  lemma BetterIsBest(ms: Addr, me: Addr, rs: seq<Range>, size: Addr, k: nat, n: nat, b: Best)
    requires n <= |rs| && Pow2(k) < W32 && IsBest(ms, me, rs, size, k, n, b)
    ensures IsBest(ms, me, rs, size, k, n + 1,
              if Skipped(ms, rs, size, Pow2(k), n) then b
              else Better(b, GapStart(ms, rs, Pow2(k), n), Seen(ms, me, rs, k, n), size))
  {
    hide GapStart, Pow2, Skipped, Seen, FirstSmallest;
    if b == Best(NOADDR, NOADDR) {
      if Taken(ms, me, rs, size, k, n) {
        SmallestIsNew(ms, me, rs, size, k, n);
      }
    } else {
      var j: nat :| j < n && FirstSmallest(ms, me, rs, size, k, n, j)
        && b.start == GapStart(ms, rs, Pow2(k), j) && b.size == Seen(ms, me, rs, k, j);
      SmallestNext(ms, me, rs, size, k, n, j);
    }
  }

  lemma SmallestIsNew(ms: Addr, me: Addr, rs: seq<Range>, size: Addr, k: nat, n: nat)
    requires n <= |rs| && Pow2(k) < W32 && Taken(ms, me, rs, size, k, n)
    requires forall i :: 0 <= i < n ==> !Taken(ms, me, rs, size, k, i)
    ensures FirstSmallest(ms, me, rs, size, k, n + 1, n)
  {
    hide Taken, Seen, Pow2;
  }

  lemma SmallestNext(ms: Addr, me: Addr, rs: seq<Range>, size: Addr, k: nat, n: nat, j: nat)
    requires n <= |rs| && Pow2(k) < W32 && j < n && FirstSmallest(ms, me, rs, size, k, n, j)
    ensures Taken(ms, me, rs, size, k, j)
    ensures if Taken(ms, me, rs, size, k, n) && Seen(ms, me, rs, k, n) < Seen(ms, me, rs, k, j)
            then FirstSmallest(ms, me, rs, size, k, n + 1, n)
            else FirstSmallest(ms, me, rs, size, k, n + 1, j)
  {
    hide Taken, Seen, Pow2;
  }

  lemma {:induction false} SearchIsBest(ms: Addr, me: Addr, rs: seq<Range>, size: Addr, k: nat, n: nat)
    requires n <= |rs| && Pow2(k) < W32
    ensures IsBest(ms, me, rs, size, k, n, Search(ms, rs, size, Pow2(k), n))
  {
    hide GapStart, Pow2, Better, FoundAt;
    if n > 0 {
      SearchIsBest(ms, me, rs, size, k, n - 1);
      BetterIsBest(ms, me, rs, size, k, n - 1, Search(ms, rs, size, Pow2(k), n - 1));
    }
  }

  // ---- what best fit finds

  /** Of all gaps with room, gap `j` is the earliest of the smallest ones. */
  predicate BestGap(ms: Addr, me: Addr, rs: seq<Range>, size: Addr, k: nat, j: nat)
    requires k < 32 && Pow2(k) < W32
  {
    && j <= |rs| && Room(ms, me, rs, size, k, j)
    && (forall i :: 0 <= i <= |rs| && Room(ms, me, rs, size, k, i) ==> Gap(ms, me, rs, k, j) <= Gap(ms, me, rs, k, i))
    && forall i :: 0 <= i < j && Room(ms, me, rs, size, k, i) ==> Gap(ms, me, rs, k, j) < Gap(ms, me, rs, k, i)
  }

  /** A block that fits anywhere fits at the start of some gap. */
  lemma FitsInGap(ms: Addr, me: Addr, rs: seq<Range>, size: Addr, k: nat, a: Addr) returns (i: nat)
    requires Inside(ms, me, rs) && size > 0 && k < 32 && Fits(ms, me, rs, size, k, a)
    ensures Pow2(k) < W32 && i <= |rs| && Room(ms, me, rs, size, k, i)
  {
    hide Aligned, Align, Pow2, Top;
    i := |rs|;
    while i > 0 && a + size <= rs[i - 1].start
      invariant i <= |rs| && a + size <= GapEnd(me, rs, i)
    {
      i := i - 1;
    }
    TopAligned(k);
    AlignLeast(GapFrom(ms, rs, i), k, a);
  }

  lemma RoomFits(ms: Addr, me: Addr, rs: seq<Range>, size: Addr, k: nat, j: nat)
    requires Inside(ms, me, rs) && size > 0 && j <= |rs| && k < 32 && Pow2(k) < W32 && Room(ms, me, rs, size, k, j)
    ensures Fits(ms, me, rs, size, k, GapStart(ms, rs, Pow2(k), j))
  {
    hide Aligned, Align, Pow2, Top;
    StartFacts(ms, rs, k, j);
    var a := GapStart(ms, rs, Pow2(k), j);
    forall i | 0 <= i < |rs|
      ensures a + size <= rs[i].start || rs[i].end <= a
    {
      if i < j {
        EndFacts(ms, me, rs, i + 1, j);
      } else {
        EndFacts(ms, me, rs, j, i);
      }
    }
  }

  /** What a caller wants: a place exactly if there is one, and the earliest of the smallest. */
  ghost predicate Right(ms: Addr, me: Addr, rs: seq<Range>, size: Addr, k: nat, r: Option<Addr>)
    requires k < 32 && Pow2(k) < W32
  {
    match r
    case None => forall a: Addr :: !Fits(ms, me, rs, size, k, a)
    case Some(a) =>
      && Fits(ms, me, rs, size, k, a)
      && exists j :: BestGap(ms, me, rs, size, k, j) && a == GapStart(ms, rs, Pow2(k), j)
  }

  ghost predicate HasRoom(ms: Addr, me: Addr, rs: seq<Range>, size: Addr, k: nat)
    requires k < 32 && Pow2(k) < W32
  {
    exists j: nat :: j <= |rs| && Room(ms, me, rs, size, k, j)
  }

  ghost predicate HasStray(ms: Addr, me: Addr, rs: seq<Range>, size: Addr, k: nat)
    requires k < 32 && Pow2(k) < W32
  {
    exists j: nat :: j <= |rs| && Astray(ms, me, rs, size, k, j)
  }

  lemma RoomIsPlace(ms: Addr, me: Addr, rs: seq<Range>, size: Addr, k: nat)
    requires Inside(ms, me, rs) && size > 0 && k < 32
    ensures Pow2(k) < W32 && (HasRoom(ms, me, rs, size, k) <==> exists a: Addr :: Fits(ms, me, rs, size, k, a))
  {
    hide Fits, Room, Inside, Pow2;
    StartFacts(ms, rs, k, 0);
    if a: Addr :| Fits(ms, me, rs, size, k, a) {
      var i := FitsInGap(ms, me, rs, size, k, a);
    }
    if HasRoom(ms, me, rs, size, k) {
      var j: nat :| j <= |rs| && Room(ms, me, rs, size, k, j);
      RoomFits(ms, me, rs, size, k, j);
    }
  }

  /** The gap found has room if any has, and then is the best. */
  lemma FoundIsBest(ms: Addr, me: Addr, rs: seq<Range>, size: Addr, k: nat, j: nat)
    requires Inside(ms, me, rs) && size > 0 && k < 32 && Pow2(k) < W32
    requires FirstSmallest(ms, me, rs, size, k, |rs| + 1, j)
    ensures j <= |rs| && GapStart(ms, rs, Pow2(k), j) != NOADDR
    ensures if HasRoom(ms, me, rs, size, k) then BestGap(ms, me, rs, size, k, j) else Astray(ms, me, rs, size, k, j)
  {
    hide Room, Astray, Taken, Inside, Pow2, Seen, Gap, GapStart;
    forall i: nat | i <= |rs|
      ensures Taken(ms, me, rs, size, k, i) <==> Room(ms, me, rs, size, k, i) || Astray(ms, me, rs, size, k, i)
      ensures Room(ms, me, rs, size, k, i) ==> Seen(ms, me, rs, k, i) == Gap(ms, me, rs, k, i)
    {
      TakenIs(ms, me, rs, size, k, i);
    }
    if HasRoom(ms, me, rs, size, k) {
      var i: nat :| i <= |rs| && Room(ms, me, rs, size, k, i);
      if Astray(ms, me, rs, size, k, j) {
        RoomWins(ms, me, rs, size, k, j, i);
      }
    }
    TakenStart(ms, me, rs, size, k, j);
  }

  /** No gap that is taken starts at the code's mark for "none". */
  lemma TakenStart(ms: Addr, me: Addr, rs: seq<Range>, size: Addr, k: nat, j: nat)
    requires Inside(ms, me, rs) && size > 0 && k < 32 && Pow2(k) < W32 && j <= |rs| && Taken(ms, me, rs, size, k, j)
    ensures GapStart(ms, rs, Pow2(k), j) != NOADDR
  {
    hide Align, Pow2, Top, GapFrom, GapEnd, Inside, Skipped;
    StartFacts(ms, rs, k, j);
    EndFacts(ms, me, rs, j, j);
    TakenIs(ms, me, rs, size, k, j);
    if k == 0 {
      OneIsPow2();
    }
  }

  lemma OneIsPow2()
    ensures Pow2(0) == 1 && Top(0) == NOADDR
  {
  }

  lemma BestFitIs(ms: Addr, me: Addr, rs: seq<Range>, size: Addr, k: nat)
    requires Inside(ms, me, rs) && size > 0 && k < 32
    ensures Pow2(k) < W32
    ensures match BestFit(ms, me, rs, size, Pow2(k))
            case None => !HasRoom(ms, me, rs, size, k) && !HasStray(ms, me, rs, size, k)
            case Some(a) => exists j: nat ::
              && j <= |rs| && a == GapStart(ms, rs, Pow2(k), j)
              && if HasRoom(ms, me, rs, size, k) then BestGap(ms, me, rs, size, k, j) else Astray(ms, me, rs, size, k, j)
  {
    hide Inside, Pow2, GapStart, Search, Better, Room, Astray, BestGap, Taken, FirstSmallest, Seen;
    StartFacts(ms, rs, k, 0);
    var n := |rs|;
    NonEmpty(ms, me, rs);
    var b := Search(ms, rs, size, Pow2(k), n);
    SearchIsBest(ms, me, rs, size, k, n);
    BetterIsBest(ms, me, rs, size, k, n, b);
    LastSeen(ms, me, rs, size, k);
    var b' := Better(b, GapStart(ms, rs, Pow2(k), n), Seen(ms, me, rs, k, n), size);
    if b'.size < NOADDR {
      var j: nat :| j < n + 1 && FirstSmallest(ms, me, rs, size, k, n + 1, j)
        && b'.start == GapStart(ms, rs, Pow2(k), j) && b'.size == Seen(ms, me, rs, k, j);
      FoundIsBest(ms, me, rs, size, k, j);
    } else {
      forall i: nat | i <= n
        ensures !Room(ms, me, rs, size, k, i) && !Astray(ms, me, rs, size, k, i)
      {
        TakenIs(ms, me, rs, size, k, i);
      }
    }
  }

  lemma NonEmpty(ms: Addr, me: Addr, rs: seq<Range>)
    requires Inside(ms, me, rs)
    ensures rs != []
  {
  }

  lemma LastSeen(ms: Addr, me: Addr, rs: seq<Range>, size: Addr, k: nat)
    requires Pow2(k) < W32
    ensures Seen(ms, me, rs, k, |rs|) == Wrap32(me - GapStart(ms, rs, Pow2(k), |rs|))
    ensures !Skipped(ms, rs, size, Pow2(k), |rs|)
  {
  }

  /**
   Best fit on any map with entries, aligned or not. It does what a caller wants if and only if
   some gap has room or none goes astray. Otherwise it returns a place that is no place: the
   start of a gap gone astray, where the block overlaps an entry or leaves the map.
   */
  lemma BestFitExact(ms: Addr, me: Addr, rs: seq<Range>, size: Addr, k: nat)
    requires Inside(ms, me, rs) && size > 0 && k < 32
    ensures Pow2(k) < W32
    ensures var r := BestFit(ms, me, rs, size, Pow2(k));
            && (Right(ms, me, rs, size, k, r) <==> HasRoom(ms, me, rs, size, k) || !HasStray(ms, me, rs, size, k))
            && (!Right(ms, me, rs, size, k, r) ==>
                  && r.Some? && !Fits(ms, me, rs, size, k, r.value)
                  && exists j: nat :: j <= |rs| && Astray(ms, me, rs, size, k, j) && r.value == GapStart(ms, rs, Pow2(k), j))
  {
    hide Inside, Pow2, GapStart, Room, Astray, BestGap, Fits, BestFit;
    BestFitIs(ms, me, rs, size, k);
    RoomIsPlace(ms, me, rs, size, k);
    var r := BestFit(ms, me, rs, size, Pow2(k));
    if r.Some? {
      var j: nat :| && j <= |rs| && r.value == GapStart(ms, rs, Pow2(k), j)
        && if HasRoom(ms, me, rs, size, k) then BestGap(ms, me, rs, size, k, j) else Astray(ms, me, rs, size, k, j);
      if HasRoom(ms, me, rs, size, k) {
        BestGapRoom(ms, me, rs, size, k, j);
        RoomFits(ms, me, rs, size, k, j);
      }
    }
  }

  lemma BestGapRoom(ms: Addr, me: Addr, rs: seq<Range>, size: Addr, k: nat, j: nat)
    requires k < 32 && Pow2(k) < W32 && BestGap(ms, me, rs, size, k, j)
    ensures j <= |rs| && Room(ms, me, rs, size, k, j)
  {
  }

  /** In an orderly map no gap goes astray. */
  lemma OrderlyIsSafe(ms: Addr, me: Addr, rs: seq<Range>, size: Addr, k: nat)
    requires Orderly(ms, me, rs, k) && rs != [] && size > 0
    ensures k < 32 && Pow2(k) < W32 && Inside(ms, me, rs) && !HasStray(ms, me, rs, size, k)
  {
    hide Aligned, Align, Pow2, Top, Taken;
    TopAligned(k);
    forall i: nat | i <= |rs|
      ensures !Astray(ms, me, rs, size, k, i)
    {
      StartFacts(ms, rs, k, i);
      AlignLeast(GapFrom(ms, rs, i), k, GapEnd(me, rs, i));
    }
  }

  /** So on an orderly map with entries, best fit always does what a caller wants. */
  lemma BestFitFits(ms: Addr, me: Addr, rs: seq<Range>, size: Addr, k: nat)
    requires Orderly(ms, me, rs, k) && rs != [] && size > 0
    ensures Pow2(k) < W32 && Right(ms, me, rs, size, k, BestFit(ms, me, rs, size, Pow2(k)))
  {
    hide Orderly, Right, Pow2, HasStray, HasRoom;
    OrderlyIsSafe(ms, me, rs, size, k);
    BestFitExact(ms, me, rs, size, k);
  }

  // ---- what best fit does outside those conditions

  /**
   On a map without entries nothing is checked: best fit always returns the start of the map,
   rounded up. That place fits if any does; otherwise the block sticks out of the map, and when
   the rounding wraps the place is address zero, in front of the map.
   */
  lemma EmptyMapNotChecked(ms: Addr, me: Addr, size: Addr, k: nat)
    requires k < 32
    ensures Pow2(k) < W32 && BestFit(ms, me, [], size, Pow2(k)).Some?
    ensures var a := BestFit(ms, me, [], size, Pow2(k)).value;
            && Aligned(a, k)
            && (if ms <= Top(k) then ms <= a < ms + Pow2(k) else a == 0 < ms)
            && (Fits(ms, me, [], size, k, a) <==> exists b: Addr :: Fits(ms, me, [], size, k, b))
            && (ms > Top(k) ==> forall b: Addr :: Aligned(b, k) ==> b < ms)
  {
    hide Aligned, Align, Pow2, Top, Free;
    TopAligned(k);
    AlignUp(ms, k);
    forall b: Addr | Aligned(b, k) && ms <= b
      ensures ms <= Align(ms, Pow2(k)) <= b && ms + Pow2(k) - 1 < W32
    {
      AlignLeast(ms, k, b);
    }
    EmptyFit(ms, me, size, k);
  }

  /** A block that sticks out of the map, and one that is in front of it. */
  lemma EmptyMapOverruns()
    ensures BestFit(0x80, 0x180, [], 0x100, 0x100) == Some(0x100)
    ensures BestFit(0xffff_ff80, 0xffff_fff0, [], 8, 0x100) == Some(0)
  {
    hide Align;
    assert Pow2(8) == 0x100;
    AlignPage(0x80);
    AlignUp(0xffff_ff80, 8);
  }

  lemma AlignEight(a: Addr)
    ensures Align(a, 8) == if a + 7 < W32 then (a + 7) / 8 * 8 else 0
  {
    hide Align, Aligned;
    assert Pow2(3) == 8;
    AlignUp(a, 3);
    AlignedIsMultiple(Align(a, 8), 3);
  }

  lemma AlignPage(a: Addr)
    requires a + 0xff < W32
    ensures Align(a, 0x100) == (a + 0xff) / 0x100 * 0x100
  {
    hide Align, Aligned;
    assert Pow2(8) == 0x100;
    AlignUp(a, 8);
    AlignedIsMultiple(Align(a, 0x100), 8);
  }

  /** An entry swallowed by rounding makes a gap size wrap, and the block lands on another entry. */
  lemma UnalignedEntryOverlaps()
    ensures var rs := [Range(0, 0x10), Range(0x20, 0x30), Range(0x100, 0x200)];
            && Tidy(rs) && Within(rs, 0, 0x200)
            && BestFit(0, 0x200, rs, 8, 0x100) == Some(0x100) && !Free(rs, 0x100, 8)
            && Pow2(8) == 0x100 && Astray(0, 0x200, rs, 8, 8, 1)
  {
    hide Align;
    var rs := [Range(0, 0x10), Range(0x20, 0x30), Range(0x100, 0x200)];
    AlignPage(0);
    AlignPage(0x10);
    AlignPage(0x30);
    AlignPage(0x200);
    assert Search(0, rs, 8, 0x100, 1) == Best(NOADDR, NOADDR);
    assert Search(0, rs, 8, 0x100, 2) == Best(0x100, 0xffff_ff20);
    assert Search(0, rs, 8, 0x100, 3) == Best(0x100, 0xffff_ff20);
    assert rs[2] == Range(0x100, 0x200);
  }

  /** Rounding past an unaligned end of the map makes the last gap wrap, and the block lands outside. */
  lemma UnalignedEndOverruns()
    ensures var rs := [Range(0, 0x101)];
            && Tidy(rs) && Within(rs, 0, 0x180) && StartsAligned(rs, 8)
            && BestFit(0, 0x180, rs, 8, 0x100) == Some(0x200)
            && Pow2(8) == 0x100 && Astray(0, 0x180, rs, 8, 8, 1)
  {
    hide Align;
    var rs := [Range(0, 0x101)];
    AlignPage(0);
    AlignPage(0x101);
    AlignedZero(8);
    assert Search(0, rs, 8, 0x100, 1) == Best(NOADDR, NOADDR);
  }

  /** An entry that ends above the last multiple rounds to zero, and the block lands on the first entry. */
  lemma RoundingWraps()
    ensures var rs := [Range(0, 0xffff_ff80)];
            && Tidy(rs) && Within(rs, 0, 0xffff_fff0) && StartsAligned(rs, 8)
            && BestFit(0, 0xffff_fff0, rs, 8, 0x100) == Some(0) && !Free(rs, 0, 8)
            && Pow2(8) == 0x100 && Astray(0, 0xffff_fff0, rs, 8, 8, 1)
  {
    hide Align;
    var rs := [Range(0, 0xffff_ff80)];
    AlignPage(0);
    assert Pow2(8) == 0x100;
    AlignUp(0xffff_ff80, 8);
    AlignedZero(8);
    assert Search(0, rs, 8, 0x100, 1) == Best(NOADDR, NOADDR);
    assert rs[0] == Range(0, 0xffff_ff80);
  }

  // ---- all ways to place an entry

  /** A request: anywhere in a map, at an offset into it, or at an address that lies in it. */
  datatype Place = Anywhere | Offset(offs: Addr) | Absolute(at: Addr)

  /** The overlap test of syspage_entryAdd, with its 32-bit sum. */
  predicate Clash(rs: seq<Range>, a: Addr, size: Addr) {
    exists i :: 0 <= i < |rs| && rs[i].start < Wrap32(a + size) && rs[i].end > a
  }

  function Wanted(ms: Addr, place: Place): (a: Addr)
    requires !place.Anywhere?
  {
    if place.Offset? then Wrap32(ms + place.offs) else place.at
  }

  function Placed(ms: Addr, me: Addr, rs: seq<Range>, place: Place, size: Addr, align: Addr): (r: Option<Addr>)
  {
    if place.Anywhere? then BestFit(ms, me, rs, size, align)
    else
      var a := Align(Wanted(ms, place), align);
      if Clash(rs, a, size) then None else Some(a)
  }

  /**
   A block asked for at `x` - an address, or an offset into the map, counted modulo 2^32 - goes to
   the least multiple of the alignment not below `x`, or nowhere if it clashes there.
   */
  lemma PlacedAsAsked(ms: Addr, me: Addr, rs: seq<Range>, place: Place, size: Addr, k: nat, x: Addr)
    requires k < 32 && !place.Anywhere?
    requires match place case Absolute(at) => at == x case Offset(offs) => (ms + offs - x) % W32 == 0
    ensures Pow2(k) < W32
    ensures match Placed(ms, me, rs, place, size, Pow2(k))
            case Some(a) => Aligned(a, k) && !Clash(rs, a, size) && (if x <= Top(k) then x <= a else a == 0)
            case None => exists a: Addr :: Aligned(a, k) && Clash(rs, a, size) && if x <= Top(k) then x <= a < x + Pow2(k) else a == 0
    ensures forall a: Addr :: Aligned(a, k) && x <= a < x + Pow2(k) ==>
              Placed(ms, me, rs, place, size, Pow2(k)) == if Clash(rs, a, size) then None else Some(a)
    ensures forall a: Addr :: Aligned(a, k) && x <= a && Placed(ms, me, rs, place, size, Pow2(k)).Some? ==>
              Placed(ms, me, rs, place, size, Pow2(k)).value <= a
  {
    hide Aligned, Align, Pow2, Clash, Top;
    TopAligned(k);
    AlignUp(x, k);
    var z := Align(x, Pow2(k));
    assert Wanted(ms, place) == x;
    forall a: Addr | Aligned(a, k) && x <= a
      ensures z <= a && x + Pow2(k) - 1 < W32 && (a < x + Pow2(k) ==> a == z)
    {
      AlignLeast(x, k, a);
      if z < a {
        AlignedGap(z, a, k);
      }
    }
  }

  /** As long as the block does not run past the address space, the test finds exactly the overlaps. */
  lemma ClashIsOverlap(rs: seq<Range>, a: Addr, size: Addr)
    requires Tidy(rs) && 0 < size && a + size < W32
    ensures Clash(rs, a, size) <==> !Free(rs, a, size)
  {
  }

  /** A block that runs past the address space goes unnoticed. */
  lemma WrappedBlockClashes()
    ensures var rs := [Range(0xffff_f000, 0xffff_f800)];
            Tidy(rs) && !Clash(rs, 0xffff_f000, 0x2000) && !Free(rs, 0xffff_f000, 0x2000)
  {
    var rs := [Range(0xffff_f000, 0xffff_f800)];
    assert rs[0].start < rs[0].end;
  }

  /**
   What a caller can see before the call: an address or offset whose block, rounded, ends by
   `limit`; or any place, if the block would fit by `limit` behind the last entry, or that
   entry, rounded, ends inside the map.
   */
  predicate Admissible(ms: Addr, me: Addr, rs: seq<Range>, place: Place, size: Addr, k: nat, limit: Addr)
    requires Pow2(k) < W32
  {
    && size > 0
    && match place
       case Anywhere =>
         var temp := GapStart(ms, rs, Pow2(k), |rs|);
         ms <= limit && (temp + size <= limit || (rs != [] && temp <= me))
       case Offset(offs) => ms + offs <= limit && Align(ms + offs, Pow2(k)) + size <= limit
       case Absolute(at) => ms <= at <= limit && Align(at, Pow2(k)) + size <= limit
  }

  /** In an orderly map with entries any request to place a block anywhere is admissible. */
  lemma AnywhereIsAdmissible(ms: Addr, me: Addr, rs: seq<Range>, size: Addr, k: nat)
    requires Orderly(ms, me, rs, k) && rs != [] && size > 0
    ensures Pow2(k) < W32 && Admissible(ms, me, rs, Anywhere, size, k, me)
  {
    hide Aligned, Align, Pow2;
    StartFacts(ms, rs, k, |rs|);
    AlignLeast(GapFrom(ms, rs, |rs|), k, me);
  }

  /** Entries may lie past the end of the map, up to `limit`: best fit still overlaps none. */
  lemma BestFitIsFree(ms: Addr, me: Addr, rs: seq<Range>, size: Addr, k: nat, limit: Addr)
    requires Orderly(ms, limit, rs, k) && rs != [] && size > 0 && me <= limit
    ensures Pow2(k) < W32
    ensures match BestFit(ms, me, rs, size, Pow2(k))
            case None => true
            case Some(a) =>
              && Aligned(a, k) && ms <= a && Free(rs, a, size)
              && (a + size <= limit || a == GapStart(ms, rs, Pow2(k), |rs|) > me)
  {
    hide Aligned, Align, Pow2, Search, GapStart, Inside, Room, Astray, Taken, FirstSmallest, Free, Seen, Better;
    var n := |rs|;
    OrderlyIsSafe(ms, limit, rs, size, k);
    var b := Search(ms, rs, size, Pow2(k), n);
    SearchIsBest(ms, limit, rs, size, k, n);
    if b.size < NOADDR {
      var j: nat :| j < n && FirstSmallest(ms, limit, rs, size, k, n, j)
        && b.start == GapStart(ms, rs, Pow2(k), j) && b.size == Seen(ms, limit, rs, k, j);
      SmallestIsTaken(ms, limit, rs, size, k, n, j);
      TakenIs(ms, limit, rs, size, k, j);
      RoomFits(ms, limit, rs, size, k, j);
    }
    LastIsFree(ms, me, rs, size, k, limit, b);
  }

  lemma SmallestIsTaken(ms: Addr, me: Addr, rs: seq<Range>, size: Addr, k: nat, n: nat, j: nat)
    requires n <= |rs| + 1 && Pow2(k) < W32 && FirstSmallest(ms, me, rs, size, k, n, j)
    ensures j < n && Taken(ms, me, rs, size, k, j)
  {
  }

  /** What comes after the last entry overlaps none. */
  lemma LastIsFree(ms: Addr, me: Addr, rs: seq<Range>, size: Addr, k: nat, limit: Addr, b: Best)
    requires Orderly(ms, limit, rs, k) && rs != [] && size > 0 && me <= limit && Pow2(k) < W32
    ensures var temp := GapStart(ms, rs, Pow2(k), |rs|);
            && Aligned(temp, k) && ms <= temp && Free(rs, temp, size)
            && var b' := Better(b, temp, Wrap32(me - temp), size);
               b' == b || (b'.start == temp && (temp + size <= limit || temp > me))
  {
    hide Aligned, Align, Pow2, Top;
    TopAligned(k);
    StartFacts(ms, rs, k, |rs|);
    AlignLeast(GapFrom(ms, rs, |rs|), k, limit);
    var temp := GapStart(ms, rs, Pow2(k), |rs|);
    if temp <= me {
      SmallSum(me, -1 * temp);
    }
  }

  /** A placed block overlaps no entry and ends by `limit`. */
  lemma PlacedIsFree(ms: Addr, me: Addr, rs: seq<Range>, place: Place, size: Addr, k: nat, limit: Addr)
    requires Orderly(ms, limit, rs, k) && me <= limit && Pow2(k) < W32
    requires Admissible(ms, me, rs, place, size, k, limit)
    ensures match Placed(ms, me, rs, place, size, Pow2(k))
            case None => true
            case Some(a) => Fits(ms, limit, rs, size, k, a)
  {
    hide Aligned, Align, Pow2, Search, StartsAligned, Clash, Free, Top, BestFit;
    TopAligned(k);
    if !place.Anywhere? {
      AlignUp(Wanted(ms, place), k);
      AlignLeast(Wanted(ms, place), k, limit);
      ClashIsOverlap(rs, Align(Wanted(ms, place), Pow2(k)), size);
    } else if rs != [] {
      BestFitIsFree(ms, me, rs, size, k, limit);
    } else {
      EmptyFit(ms, me, size, k);
      AlignLeast(ms, k, limit);
    }
  }

  lemma EmptyFit(ms: Addr, me: Addr, size: Addr, k: nat)
    requires k < 32
    ensures Pow2(k) < W32 && BestFit(ms, me, [], size, Pow2(k)) == Some(Align(ms, Pow2(k)))
    ensures var a := Align(ms, Pow2(k)); Aligned(a, k) && Free([], a, size)
  {
    hide Align, Aligned, Pow2;
    AlignUp(ms, k);
  }

  /** Adding an entry keeps the map orderly. */
  lemma AddKeepsOrder(ms: Addr, me: Addr, rs: seq<Range>, place: Place, size: Addr, k: nat, limit: Addr, at: nat)
    requires Orderly(ms, limit, rs, k) && me <= limit && Pow2(k) < W32
    requires Admissible(ms, me, rs, place, size, k, limit)
    requires Placed(ms, me, rs, place, size, Pow2(k)).Some?
    requires var a := Placed(ms, me, rs, place, size, Pow2(k)).value;
             Slot(rs, Range(a, Wrap32(a + size)), at)
    ensures var a := Placed(ms, me, rs, place, size, Pow2(k)).value;
            Wrap32(a + size) == a + size && Orderly(ms, limit, Inserted(rs, Range(a, a + size), at), k)
  {
    hide Aligned, Pow2, Placed, Free;
    PlacedIsFree(ms, me, rs, place, size, k, limit);
    var a := Placed(ms, me, rs, place, size, Pow2(k)).value;
    SmallSum(a, size);
    InsertTidy(rs, Range(a, a + size), at);
  }

  // ---- memory the loader itself uses

  predicate Covers(rs: seq<Range>, x: int) {
    exists i :: 0 <= i < |rs| && rs[i].start <= x < rs[i].end
  }

  /** The first of `hal` that overlaps [start, end), clipped: hal_memoryGetNextEntry after `n` ranges. */
  function FirstOverlap(hal: seq<Range>, start: Addr, end: Addr, n: nat): (r: Option<Range>)
    requires n <= |hal|
  {
    if n == 0 then None
    else
      var best, e := FirstOverlap(hal, start, end, n - 1), hal[n - 1];
      if start < e.end && end > e.start && (best.None? || Max(start, e.start) < best.value.start)
      then Some(Range(Max(start, e.start), Min(end, e.end)))
      else best
  }

  function NextEntry(hal: seq<Range>, start: Addr, end: Addr): (r: Option<Range>)
  {
    if start == end then None else FirstOverlap(hal, start, end, |hal|)
  }

  lemma {:induction false} FirstIsFirst(hal: seq<Range>, start: Addr, end: Addr, n: nat)
    requires n <= |hal| && start < end && forall i :: 0 <= i < |hal| ==> hal[i].start < hal[i].end
    ensures match FirstOverlap(hal, start, end, n)
            case None => forall x :: start <= x < end ==> !Covers(hal[..n], x)
            case Some(r) =>
              && start <= r.start < r.end <= end
              && (forall x :: start <= x < r.start ==> !Covers(hal[..n], x))
              && forall x :: r.start <= x < r.end ==> Covers(hal[..n], x)
  {
    if n > 0 {
      FirstIsFirst(hal, start, end, n - 1);
      assert hal[..n] == hal[..n - 1] + [hal[n - 1]];
      forall x
        ensures Covers(hal[..n], x) <==> Covers(hal[..n - 1], x) || hal[n - 1].start <= x < hal[n - 1].end
      {
        CoversOne(hal[..n - 1], hal[n - 1], x);
      }
    }
  }

  lemma CoversOne(rs: seq<Range>, r: Range, x: int)
    ensures Covers(rs + [r], x) <==> Covers(rs, x) || r.start <= x < r.end
  {
    var all := rs + [r];
    if Covers(rs, x) {
      var i :| 0 <= i < |rs| && rs[i].start <= x < rs[i].end;
      assert all[i].start <= x < all[i].end;
    }
    assert all[|rs|] == r;
  }
}
