/** The system page's memory maps: entries in a sorted circular doubly linked list, taken from a bump heap. */
module Syspage {
  import opened Bytes
  import opened Words
  import opened Placement

  const ENTRYSZ: Addr := 20 // sizeof(mapent_t)

  class Entry {
    var start: Addr
    var end: Addr
    var prev: Entry?
    var next: Entry?

    constructor (start: Addr, end: Addr)
      ensures this.start == start && this.end == end
    {
      this.start, this.end, prev, next := start, end, null, null;
    }
  }

  /** syspage_alloc */
  class Heap {
    var top: Addr
    const end: Addr

    constructor (top: Addr, end: Addr)
      ensures this.top == top && this.end == end
    {
      this.top, this.end := top, end;
    }

    predicate Full(size: Addr)
      reads `top
    {
      Align(Wrap32(top + size), 8) >= end
    }

    /** Blocks lie one after another below the end of the heap if and only if the rounded sum does not wrap. */
    method Alloc(size: Addr) returns (addr: Option<Addr>)
      modifies `top
      ensures addr.None? <==> old(Full(size))
      ensures addr.None? ==> top == old(top)
      ensures addr.Some? ==> addr.value == old(top) && top < end && Aligned(top, 3)
      ensures addr.Some? ==> (old(top) + size <= top <==> old(top) + size + 7 < W32)
      ensures addr.Some? ==> top == Align(Wrap32(old(top) + size), 8)
      // in numbers: the next multiple of eight, unless the sum wraps
      ensures old(top) + size + 7 < W32 ==>
                var next := (old(top) + size + 7) / 8 * 8;
                if next < end then addr.Some? && top == next else addr.None?
    {
      hide Align;
      AlignEight(Wrap32(top + size));
      EightIsPow2();
      ghost var to := Wrap32(top + size);
      if top + size < W32 {
        SmallSum(top, size);
      }
      AlignUp(to, 3);
      var newTop := Align(Wrap32(top + size), 8);
      if newTop >= end {
        return None;
      }
      addr := Some(top);
      top := newTop;
    }
  }

  lemma EightIsPow2()
    ensures Pow2(3) == 8
  {
  }

  ghost function RangesOf(nodes: seq<Entry>): (rs: seq<Range>)
    reads nodes`start, nodes`end
    ensures |rs| == |nodes|
    ensures forall i {:trigger rs[i]} :: 0 <= i < |nodes| ==> rs[i] == Range(nodes[i].start, nodes[i].end)
  {
    if nodes == [] then [] else RangesOf(nodes[..|nodes| - 1]) + [Range(nodes[|nodes| - 1].start, nodes[|nodes| - 1].end)]
  }

  /** Entries and heap between two requests. */
  datatype Snapshot = Snapshot(rs: seq<Range>, top: Addr)

  /** `t` comes of `s` by a request: nothing, or one entry more, where the request puts it, and the memory for it. */
  ghost predicate Stepped(ms: Addr, me: Addr, heapEnd: Addr, place: Place, size: Addr, align: Addr, s: Snapshot, t: Snapshot) {
    var p := Placed(ms, me, s.rs, place, size, align);
    var top := Align(Wrap32(s.top + ENTRYSZ), 8);
    if p.None? || top >= heapEnd then t == s
    else t.top == top && OneMore(s.rs, Range(p.value, Wrap32(p.value + size)), t.rs)
  }

  /** `r` in front of the first entry that starts later. */
  ghost predicate OneMore(rs: seq<Range>, r: Range, rs': seq<Range>) {
    exists j: nat :: Slot(rs, r, j) && rs' == Inserted(rs, r, j)
  }

  class Map {
    const start: Addr
    const end: Addr
    var entries: Entry?
    ghost var nodes: seq<Entry> // the entries in order

    constructor (start: Addr, end: Addr)
      ensures Valid() && nodes == []
      ensures this.start == start && this.end == end
    {
      this.start, this.end, entries, nodes := start, end, null, [];
    }

    ghost predicate Distinct()
      reads `nodes
    {
      forall i, j :: 0 <= i < j < |nodes| ==> nodes[i] != nodes[j]
    }

    /** A circular doubly linked list. */
    ghost predicate Circle()
      reads `nodes, nodes`next, nodes`prev
    {
      && (forall i :: 0 <= i < |nodes| - 1 ==> nodes[i].next == nodes[i + 1])
      && (forall i :: 0 < i < |nodes| ==> nodes[i].prev == nodes[i - 1])
      && (nodes != [] ==> nodes[|nodes| - 1].next == nodes[0] && nodes[0].prev == nodes[|nodes| - 1])
    }

    ghost predicate Valid()
      reads `nodes, `entries, nodes
    {
      Distinct() && Circle() && SortedByStart(Ranges()) && entries == if nodes == [] then null else nodes[0]
    }

    ghost function Ranges(): (rs: seq<Range>)
      reads `nodes, nodes`start, nodes`end
      ensures |rs| == |nodes|
    {
      RangesOf(nodes)
    }

    /** Puts `x` before node `k`, or at the end if there is none. */
    method Link(x: Entry, e: Entry, ghost k: nat)
      requires Distinct() && Circle() && x !in nodes && 0 < |nodes| && k <= |nodes|
      requires e == nodes[if k < |nodes| then k else 0]
      modifies `nodes, x`next, x`prev, nodes`next, nodes`prev
      ensures nodes == Inserted(old(nodes), x, k) && Distinct() && Circle()
    {
      hide Inserted;
      ghost var n := |nodes|;
      InsertedAt(nodes, x, k);
      assert e.prev == nodes[if 0 < k then k - 1 else n - 1];
      x.next := e;
      x.prev := e.prev;
      e.prev.next := x;
      e.prev := x;
      nodes := Inserted(nodes, x, k);
    }

    /** The first entry that starts after `x`, if any; else back at the head. */
    method FirstLater(x: Entry) returns (e: Entry, found: bool, ghost k: nat)
      requires Valid() && nodes != []
      ensures k <= |nodes| && (found <==> k < |nodes|)
      ensures e == nodes[if k < |nodes| then k else 0]
      ensures Slot(Ranges(), Range(x.start, x.end), k)
    {
      k := 0;
      e := entries;
      ghost var n := |nodes|;
      while true
        invariant k < n && e == nodes[k]
        invariant forall i :: 0 <= i < k ==> nodes[i].start <= x.start
        decreases n - k
      {
        if x.start < e.start {
          assert Ranges()[k] == Range(e.start, e.end);
          return e, true, k;
        }
        assert e.next == nodes[if k + 1 < n then k + 1 else 0];
        e := e.next;
        k := k + 1;
        if e == entries {
          return e, false, k;
        }
      }
    }

    /** syspage_sortedInsert: before the first entry that starts later. */
    method SortedInsert(x: Entry) returns (ghost k: nat)
      requires Valid() && x !in nodes
      modifies `entries, `nodes, x`next, x`prev, nodes`next, nodes`prev
      ensures Valid()
      ensures Slot(old(Ranges()), Range(x.start, x.end), k)
      ensures nodes == Inserted(old(nodes), x, k)
      ensures Ranges() == Inserted(old(Ranges()), Range(x.start, x.end), k)
    {
      hide Slot, SortedByStart, RangesOf;
      ghost var was, r := Ranges(), Range(x.start, x.end);
      if entries == null {
        k := 0;
        SlotInEmpty(r);
        x.next := x;
        x.prev := x;
        entries := x;
        nodes := [x];
        RangesInserted([], x, 0);
      } else {
        var e, found;
        e, found, k := FirstLater(x);
        SlotBound(was, r, k);
        ghost var s := nodes;
        Link(x, e, k);
        RangesInserted(s, x, k);
        // update the head of the list
        if found && e == entries {
          entries := x;
        }
      }
      assert Ranges() == Inserted(was, r, k);
      InsertSorted(was, r, k);
    }

    /** syspage_bestFit */
    method FindBest(size: Addr, align: Addr) returns (res: int, at: Addr)
      requires Valid()
      ensures match BestFit(start, end, Ranges(), size, align)
              case None => res == EFAULT
              case Some(a) => res == EOK && at == a
    {
      hide Align, SortedByStart, RangesOf, Search;
      SearchNothing(start, Ranges(), size, align);
      var bestStart: Addr, bestSz: Addr := NOADDR, NOADDR;
      var tempStart := Align(start, align);
      var e := entries;
      if e != null {
        ghost var i, n, rs := 0, |nodes|, Ranges();
        var more := true;
        while more
          invariant i <= n && (more <==> i < n) && e == nodes[if i < n then i else 0]
          invariant Best(bestStart, bestSz) == Search(start, rs, size, align, i)
          invariant tempStart == GapStart(start, rs, align, i)
          decreases n - i
        {
          assert rs[i] == Range(e.start, e.end);
          SearchNext(start, rs, size, align, i);
          if !(e.start < Wrap32(tempStart + size) && e.end > tempStart) {
            var tempSz := Wrap32(e.start - tempStart);
            if tempSz < bestSz && tempSz >= size {
              bestSz, bestStart := tempSz, tempStart;
            }
          }
          tempStart := Align(e.end, align);
          assert e.next == nodes[if i + 1 < n then i + 1 else 0];
          e := e.next;
          i := i + 1;
          more := e != entries;
        }
        // after the last entry
        assert rs[n - 1] == Range(entries.prev.start, entries.prev.end);
        tempStart := Align(entries.prev.end, align);
        var tempSz := Wrap32(end - tempStart);
        if tempSz < bestSz && tempSz >= size {
          bestSz, bestStart := tempSz, tempStart;
        }
        if bestSz == NOADDR || bestStart == NOADDR {
          return EFAULT, 0;
        }
        tempStart := bestStart;
      }
      return EOK, tempStart;
    }

    /** The overlap test of syspage_entryAdd. */
    method Overlaps(at: Addr, size: Addr) returns (clash: bool)
      requires Valid()
      ensures clash <==> Clash(Ranges(), at, size)
    {
      hide SortedByStart, RangesOf;
      var e := entries;
      if e == null {
        return false;
      }
      ghost var i, n, rs := 0, |nodes|, Ranges();
      var more := true;
      while more
        invariant i <= n && (more <==> i < n) && e == nodes[if i < n then i else 0]
        invariant !Clash(rs[..i], at, size)
        decreases n - i
      {
        assert rs[i] == Range(e.start, e.end);
        if e.start < Wrap32(at + size) && e.end > at {
          return true;
        }
        ClashOneMore(rs, i, at, size);
        assert e.next == nodes[if i + 1 < n then i + 1 else 0];
        e := e.next;
        i := i + 1;
        more := e != entries;
      }
      assert rs[..n] == rs;
      return false;
    }

    /** Where syspage_entryAdd puts a block. */
    method FindPlace(place: Place, size: Addr, align: Addr) returns (at: Option<Addr>)
      requires Valid()
      ensures at == Placed(start, end, Ranges(), place, size, align)
    {
      if place.Anywhere? {
        var res, a := FindBest(size, align);
        return if res < 0 then None else Some(a);
      }
      var a := Align(Wanted(start, place), align);
      var clash := Overlaps(a, size);
      return if clash then None else Some(a);
    }

    /** syspage_entryAdd once it has its map. */
    method EntryAdd(heap: Heap, place: Place, size: Addr, align: Addr) returns (x: Entry?, ghost k: nat)
      requires Valid()
      requires CanAdd(place, size)
      modifies heap`top, `entries, `nodes, nodes`next, nodes`prev
      ensures Valid()
      ensures x == null <==> Placed(start, end, old(Ranges()), place, size, align).None? || old(heap.Full(ENTRYSZ))
      ensures x == null ==> nodes == old(nodes) && Ranges() == old(Ranges()) && heap.top == old(heap.top)
      ensures x != null ==>
                var p := Placed(start, end, old(Ranges()), place, size, align);
                && fresh(x) && heap.top == Align(Wrap32(old(heap.top) + ENTRYSZ), 8)
                && p.Some? && x.start == p.value && x.end == Wrap32(p.value + size)
                && Slot(old(Ranges()), Range(x.start, x.end), k)
                && nodes == Inserted(old(nodes), x, k)
                && Ranges() == Inserted(old(Ranges()), Range(x.start, x.end), k)
    {
      hide Placed, SortedByStart, Slot, RangesOf;
      k := 0;
      ghost var rs := Ranges();
      var at := FindPlace(place, size, align);
      if at.None? {
        return null, 0;
      }
      var addr := heap.Alloc(ENTRYSZ);
      if addr.None? {
        return null, 0;
      }
      var e := new Entry(at.value, Wrap32(at.value + size));
      assert Ranges() == rs;
      k := SortedInsert(e);
      x := e;
    }

    /**
     Any run of requests at one alignment, in a map up to whose rounded bound `limit` entries may
     lie. Requests that are not admissible, which their caller can tell before, are left out.
     The entries stay a sorted, disjoint list, none is lost, and every request that can be met is:
     `trace` has the state before and after each.
     */
    method Run(heap: Heap, requests: seq<(Place, Addr)>, k: nat, limit: Addr) returns (ghost trace: seq<Snapshot>)
      requires Valid() && Orderly(start, limit, Ranges(), k) && end <= limit
      modifies heap`top, `entries, `nodes, nodes`next, nodes`prev
      ensures Valid() && Orderly(start, limit, Ranges(), k)
      ensures forall e :: e in old(nodes) ==> e in nodes && e.start == old(e.start) && e.end == old(e.end)
      ensures Pow2(k) < W32 && |trace| == |requests| + 1
      ensures trace[0] == Snapshot(old(Ranges()), old(heap.top)) && trace[|requests|] == Snapshot(Ranges(), heap.top)
      ensures forall i :: 0 <= i < |requests| ==>
                var (place, size) := requests[i];
                if CanAdd(place, size) && Admissible(start, end, trace[i].rs, place, size, k, limit)
                then Stepped(start, end, heap.end, place, size, Pow2(k), trace[i], trace[i + 1])
                else trace[i + 1] == trace[i]
    {
      hide Orderly, Placed, Align, SortedByStart, Slot, RangesOf, Pow2, Top, Admissible, Stepped;
      StepOf(limit, k, start, Ranges());
      ghost var was := nodes;
      trace := [Snapshot(Ranges(), heap.top)];
      for i := 0 to |requests|
        invariant Valid() && Orderly(start, limit, Ranges(), k)
        invariant forall i :: 0 <= i < |nodes| ==> nodes[i] in was || fresh(nodes[i])
        invariant forall e :: e in was ==> e in nodes
        invariant |trace| == i + 1 && trace[0] == Snapshot(old(Ranges()), old(heap.top)) && trace[i] == Snapshot(Ranges(), heap.top)
        invariant forall j :: 0 <= j < i ==>
                    var (place, size) := requests[j];
                    if CanAdd(place, size) && Admissible(start, end, trace[j].rs, place, size, k, limit)
                    then Stepped(start, end, heap.end, place, size, Pow2(k), trace[j], trace[j + 1])
                    else trace[j + 1] == trace[j]
      {
        var (place, size) := requests[i];
        var ok := IsAdmissible(place, size, k, limit);
        if ok && CanAdd(place, size) {
          Add(heap, place, size, k, limit);
        }
        trace := trace + [Snapshot(Ranges(), heap.top)];
      }
    }

    /** An address, unlike an offset, is known to lie in the map. */
    predicate CanAdd(place: Place, size: Addr) {
      place.Absolute? ==> start <= place.at && Wrap32(place.at + size) <= end
    }

    /** Looks at the map's bounds and its last entry only. */
    method IsAdmissible(place: Place, size: Addr, k: nat, limit: Addr) returns (ok: bool)
      requires Valid() && Pow2(k) < W32
      ensures ok <==> Admissible(start, end, Ranges(), place, size, k, limit)
    {
      hide Align, Pow2, SortedByStart, RangesOf;
      if size == 0 {
        return false;
      }
      match place
      case Anywhere =>
        if entries == null {
          return start <= limit && Align(start, Pow2(k)) + size <= limit;
        }
        var last := entries.prev;
        assert Ranges()[|nodes| - 1] == Range(last.start, last.end);
        var temp := Align(last.end, Pow2(k));
        return start <= limit && (temp + size <= limit || temp <= end);
      case Offset(offs) => return start + offs <= limit && Align(start + offs, Pow2(k)) + size <= limit;
      case Absolute(at) => return start <= at <= limit && Align(at, Pow2(k)) + size <= limit;
    }

    /** One step of such a run: syspage_entryAdd keeps the map orderly and loses no entry. */
    method Add(heap: Heap, place: Place, size: Addr, k: nat, limit: Addr)
      requires Valid() && Orderly(start, limit, Ranges(), k) && end <= limit && Pow2(k) < W32
      requires Admissible(start, end, Ranges(), place, size, k, limit)
      requires CanAdd(place, size)
      modifies heap`top, `entries, `nodes, nodes`next, nodes`prev
      ensures Stepped(start, end, heap.end, place, size, Pow2(k), Snapshot(old(Ranges()), old(heap.top)), Snapshot(Ranges(), heap.top))
      ensures Valid() && Orderly(start, limit, Ranges(), k)
      ensures forall i :: 0 <= i < |nodes| ==> nodes[i] in old(nodes) || fresh(nodes[i])
      ensures forall e :: e in old(nodes) ==> e in nodes
    {
      hide Orderly, Placed, Align, SortedByStart, Slot, RangesOf, Pow2, Admissible;
      ghost var rs, s := Ranges(), nodes;
      var x, j := EntryAdd(heap, place, size, Pow2(k));
      if x != null {
        SlotBound(rs, Range(x.start, x.end), j);
        assert OneMore(rs, Range(x.start, x.end), Ranges());
        InsertedAt(s, x, j);
        AddKeepsOrder(start, end, rs, place, size, k, limit, j);
      }
    }

    /** The loop of syspage_mapAdd: takes over the memory the loader uses, as far as it lies in the map. */
    method Fill(heap: Heap, hal: seq<Range>) returns (ok: bool)
      requires Valid() && nodes == [] && start <= end
      requires forall i :: 0 <= i < |hal| ==> hal[i].start < hal[i].end
      modifies heap`top, `entries, `nodes
      ensures Valid() && Tidy(Ranges()) && Within(Ranges(), start, end)
      ensures ok ==> forall x :: start <= x < end ==> (Covers(Ranges(), x) <==> Covers(hal, x))
      ensures !ok ==> heap.Full(ENTRYSZ)
    {
      hide SortedByStart, Covers, Tidy, FirstOverlap, RangesOf, Slot;
      var from := start;
      TidyEmpty();
      while from != end
        invariant start <= from <= end && Valid() && fresh(nodes)
        invariant Tidy(Ranges()) && Within(Ranges(), start, from)
        invariant forall x :: start <= x < from ==> (Covers(Ranges(), x) <==> Covers(hal, x))
        decreases end - from
      {
        var next := NextEntry(hal, from, end);
        FirstIsFirst(hal, from, end, |hal|);
        assert hal[..|hal|] == hal;
        if next.None? {
          NothingBeyond(Ranges(), start, from);
          return true;
        }
        var addr := heap.Alloc(ENTRYSZ);
        if addr.None? {
          return false;
        }
        var e := new Entry(next.value.start, next.value.end);
        ghost var rs := Ranges();
        ghost var k := SortedInsert(e);
        FillStep(rs, hal, start, from, next.value, k);
        from := e.end;
      }
      return true;
    }
  }

  lemma RangesInserted(s: seq<Entry>, x: Entry, k: nat)
    requires k <= |s|
    ensures RangesOf(Inserted(s, x, k)) == Inserted(RangesOf(s), Range(x.start, x.end), k)
  {
    hide RangesOf, Inserted;
    var r := Range(x.start, x.end);
    var all, rs := Inserted(s, x, k), RangesOf(s);
    InsertedAt(s, x, k);
    InsertedAt(rs, r, k);
    assert forall i :: 0 <= i < |all| ==> RangesOf(all)[i] == Inserted(rs, r, k)[i];
  }

  lemma InsertedAt<T>(s: seq<T>, x: T, k: nat)
    requires k <= |s|
    ensures |Inserted(s, x, k)| == |s| + 1
    ensures forall i {:trigger Inserted(s, x, k)[i]} :: 0 <= i <= |s| ==>
              Inserted(s, x, k)[i] == if i < k then s[i] else if i == k then x else s[i - 1]
  {
  }

  lemma SlotInEmpty(r: Range)
    ensures Slot([], r, 0) && SortedByStart([])
  {
  }

  lemma SlotBound(rs: seq<Range>, r: Range, k: nat)
    requires Slot(rs, r, k)
    ensures k <= |rs|
  {
  }

  lemma ClashOneMore(rs: seq<Range>, i: nat, a: Addr, size: Addr)
    requires i < |rs|
    ensures Clash(rs[..i + 1], a, size) <==>
            Clash(rs[..i], a, size) || (rs[i].start < Wrap32(a + size) && rs[i].end > a)
  {
    var s, t := rs[..i], rs[..i + 1];
    if Clash(s, a, size) {
      var j :| 0 <= j < |s| && s[j].start < Wrap32(a + size) && s[j].end > a;
      assert t[j] == s[j];
    }
    assert t[i] == rs[i] && forall j :: 0 <= j < i ==> t[j] == s[j];
  }

  lemma NothingBeyond(rs: seq<Range>, start: Addr, from: Addr)
    requires Within(rs, start, from)
    ensures forall x :: from <= x ==> !Covers(rs, x)
  {
  }

  lemma TidyEmpty()
    ensures Tidy([])
  {
  }

  lemma SlotAfterAll(rs: seq<Range>, r: Range, k: nat)
    requires Slot(rs, r, k) && forall i :: 0 <= i < |rs| ==> rs[i].start < r.start
    ensures k == |rs| && Inserted(rs, r, k) == rs + [r]
  {
    if rs != [] {
      assert rs[|rs| - 1].start < r.start;
    }
  }

  lemma FillStep(rs: seq<Range>, hal: seq<Range>, start: Addr, from: Addr, r: Range, k: nat)
    requires Tidy(rs) && Within(rs, start, from) && start <= from <= r.start < r.end && Slot(rs, r, k)
    requires forall x :: start <= x < from ==> (Covers(rs, x) <==> Covers(hal, x))
    requires forall x :: from <= x < r.start ==> !Covers(hal, x)
    requires forall x :: r.start <= x < r.end ==> Covers(hal, x)
    ensures k == |rs| && Inserted(rs, r, k) == rs + [r]
    ensures Tidy(rs + [r]) && Within(rs + [r], start, r.end)
    ensures forall x :: start <= x < r.end ==> (Covers(rs + [r], x) <==> Covers(hal, x))
  {
    InsertTidy(rs, r, k);
    assert forall i :: 0 <= i < |rs| ==> rs[i].start < rs[i].end <= from;
    SlotAfterAll(rs, r, k);
    forall x | start <= x < r.end
      ensures Covers(rs + [r], x) <==> Covers(hal, x)
    {
      CoversOne(rs, r, x);
    }
  }

  lemma StepOf(limit: Addr, k: nat, start: Addr, rs: seq<Range>)
    requires Orderly(start, limit, rs, k)
    ensures k < 32 && Pow2(k) < W32
  {
    TopAligned(k);
  }
}
