/** Areas of a device: disjoint ones are together no larger than it. */
module Areas {
  import opened Bytes

  predicate Disjoint(a: nat, n: nat, b: nat, m: nat) {
    a + n <= b || b + m <= a
  }

  /** The bytes of a range, as many as it is long. */
  function Points(a: nat, n: nat): (p: set<int>)
    ensures |p| == n && forall x :: x in p <==> a <= x < a + n
  {
    if n == 0 then {} else Points(a, n - 1) + {a + n - 1}
  }

  datatype Area = Area(offset: nat, size: nat)

  function SizeSum(rs: seq<Area>): (sum: nat)
  {
    if rs == [] then 0 else SizeSum(rs[..|rs| - 1]) + rs[|rs| - 1].size
  }

  /** The bytes of all areas. */
  function Taken(rs: seq<Area>): (p: set<int>)
  {
    if rs == [] then {} else Taken(rs[..|rs| - 1]) + Points(rs[|rs| - 1].offset, rs[|rs| - 1].size)
  }

  predicate AllDisjoint(rs: seq<Area>) {
    forall i, j :: 0 <= i < j < |rs| ==> Disjoint(rs[i].offset, rs[i].size, rs[j].offset, rs[j].size)
  }

  lemma {:induction false} InTaken(rs: seq<Area>, x: int)
    requires x in Taken(rs)
    ensures exists i :: 0 <= i < |rs| && rs[i].offset <= x < rs[i].offset + rs[i].size
  {
    var n := |rs| - 1;
    if x in Taken(rs[..n]) {
      InTaken(rs[..n], x);
      var i :| 0 <= i < n && rs[..n][i].offset <= x < rs[..n][i].offset + rs[..n][i].size;
      assert rs[i] == rs[..n][i];
    }
  }

  lemma {:induction false} TakenSize(rs: seq<Area>)
    requires AllDisjoint(rs)
    ensures |Taken(rs)| == SizeSum(rs)
  {
    if rs != [] {
      var n := |rs| - 1;
      var s, p := Taken(rs[..n]), Points(rs[n].offset, rs[n].size);
      TakenSize(rs[..n]);
      forall x | x in s
        ensures x !in p
      {
        InTaken(rs[..n], x);
        var i :| 0 <= i < n && rs[..n][i].offset <= x < rs[..n][i].offset + rs[..n][i].size;
        assert Disjoint(rs[i].offset, rs[i].size, rs[n].offset, rs[n].size);
      }
      assert s !! p;
    }
  }

  lemma {:induction false} SumAtLeast(rs: seq<Area>, b: nat)
    requires forall i :: 0 <= i < |rs| ==> b <= rs[i].size
    ensures Off(|rs|, b) <= SizeSum(rs)
  {
    if rs != [] {
      SumAtLeast(rs[..|rs| - 1], b);
    }
  }

  lemma SubsetSize(a: set<int>, b: set<int>)
    requires a <= b
    ensures |a| <= |b|
  {
    assert b == a + (b - a);
  }

  /** Disjoint areas inside a device are no larger than it. */
  lemma DisjointFit(rs: seq<Area>, memsz: nat)
    requires AllDisjoint(rs) && forall i :: 0 <= i < |rs| ==> rs[i].offset + rs[i].size <= memsz
    ensures SizeSum(rs) <= memsz
  {
    TakenSize(rs);
    forall x | x in Taken(rs)
      ensures x in Points(0, memsz)
    {
      InTaken(rs, x);
    }
    SubsetSize(Taken(rs), Points(0, memsz));
  }
}
