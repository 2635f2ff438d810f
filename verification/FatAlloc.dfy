/**
  What the two cluster allocators promise: the next-fit search of FAT12/16 and
  the refill of the FAT32 free-cluster cache.
 */
module FatAlloc {
  import opened FatEntry
  import opened FatChain

  /** No cluster in from..to-1 is free. */
  ghost predicate NoneFree(k: FatType, t: seq<nat>, from: nat, to: nat) {
    forall x :: from <= x < to && x < |t| ==> !IsFree(k, t[x])
  }

  /** c is the first free cluster at or cyclically after start. */
  ghost predicate IsNextFit(k: FatType, t: seq<nat>, start: nat, c: nat) {
    && IsCluster(t, c) && IsFree(k, t[c])
    && if c >= start then NoneFree(k, t, start, c) else NoneFree(k, t, start, |t|) && NoneFree(k, t, 2, c)
  }

  /** As long as some cluster is free the search has a goal. */
  lemma NextFitExists(k: FatType, t: seq<nat>, start: nat) returns (c: nat)
    requires 2 <= start <= |t| && CountFree(k, t, |t|) > 0
    ensures IsNextFit(k, t, start, c)
  {
    c := start;
    while c < |t| && !IsFree(k, t[c])
      invariant start <= c <= |t| && NoneFree(k, t, start, c)
    {
      c := c + 1;
    }
    if c == |t| {
      var w := CountWitness(k, t, |t|);
      c := 2;
      while !IsFree(k, t[c])
        invariant 2 <= c <= w && NoneFree(k, t, 2, c)
        decreases w - c
      {
        c := c + 1;
      }
    }
  }

  /** How many entries the search still has to pass. */
  function Distance(t: seq<nat>, start: nat, c: nat): int {
    if c >= start then c - start else c - start + |t| - 2
  }

  lemma NextFitUnique(k: FatType, t: seq<nat>, start: nat, a: nat, b: nat)
    requires IsNextFit(k, t, start, a) && IsNextFit(k, t, start, b)
    ensures a == b
  {
  }

  /** The free clusters of from..to-1, in order. */
  function Scan(k: FatType, t: seq<nat>, from: nat, to: nat): (r: seq<nat>)
    requires to <= |t|
  {
    if to <= from then []
    else Scan(k, t, from, to - 1) + if IsFree(k, t[to - 1]) then [to - 1] else []
  }

  lemma {:induction false} ScanMembers(k: FatType, t: seq<nat>, from: nat, to: nat)
    requires to <= |t|
    ensures forall x :: x in Scan(k, t, from, to) <==> from <= x < to && IsFree(k, t[x])
    ensures Distinct(Scan(k, t, from, to))
  {
    if from < to {
      ScanMembers(k, t, from, to - 1);
    }
  }

  lemma {:induction false} ScanSplit(k: FatType, t: seq<nat>, from: nat, mid: nat, to: nat)
    requires from <= mid <= to <= |t|
    ensures Scan(k, t, from, to) == Scan(k, t, from, mid) + Scan(k, t, mid, to)
  {
    if mid < to {
      ScanSplit(k, t, from, mid, to - 1);
    }
  }

  lemma {:induction false} ScanCount(k: FatType, t: seq<nat>, to: nat)
    requires to <= |t|
    ensures |Scan(k, t, 2, to)| == CountFree(k, t, to)
  {
    if to > 2 {
      ScanCount(k, t, to - 1);
    }
  }

  function Min(a: nat, b: nat): nat { if a < b then a else b }

  /** The order in which a refill meets the free clusters: to the end, then once more from cluster 2. */
  function Visits(k: FatType, t: seq<nat>, start: nat): seq<nat> {
    Scan(k, t, start, |t|) + Scan(k, t, 2, |t|)
  }

  /** What a refill collects when told there are `wanted` free clusters and the cache holds `room`. */
  function Refill(k: FatType, t: seq<nat>, start: nat, wanted: nat, room: nat): seq<nat> {
    var v := Visits(k, t, start);
    v[..Min(Min(wanted, room), |v|)]
  }

  lemma VisitsShape(k: FatType, t: seq<nat>, start: nat)
    requires 2 <= start <= |t|
    ensures Visits(k, t, start) == Scan(k, t, start, |t|) + Scan(k, t, 2, start) + Scan(k, t, start, |t|)
    ensures |Scan(k, t, start, |t|)| + |Scan(k, t, 2, start)| == CountFree(k, t, |t|)
  {
    ScanSplit(k, t, 2, start, |t|);
    ScanCount(k, t, |t|);
  }

  lemma PrefixDistinct(a: seq<nat>, b: seq<nat>, m: nat)
    requires Distinct(a) && Distinct(b) && Disjoint(a, b) && m <= |a + b + a|
    ensures Distinct((a + b + a)[..m]) <==> m <= |a| + |b|
  {
    var r := (a + b + a)[..m];
    if m <= |a| + |b| {
      forall i, j | 0 <= i < j < m ensures r[i] != r[j] {
        if i < |a| <= j {
          assert a[i] in a && b[j - |a|] in b;
        }
      }
    } else {
      assert r[0] == a[0] && r[|a| + |b|] == a[0];
    }
  }

  /**
    A refill collects no cluster twice exactly when it stops before its second
    pass comes back to a free cluster it has met: when min(wanted, room) is not
    above the number of free clusters, or no cluster from start on is free.
   */
  lemma RefillDistinctIff(k: FatType, t: seq<nat>, start: nat, wanted: nat, room: nat)
    requires 2 <= start <= |t|
    ensures Distinct(Refill(k, t, start, wanted, room)) <==>
            Min(wanted, room) <= CountFree(k, t, |t|) || NoneFree(k, t, start, |t|)
  {
    var a, b := Scan(k, t, start, |t|), Scan(k, t, 2, start);
    VisitsShape(k, t, start);
    ScanMembers(k, t, start, |t|);
    ScanMembers(k, t, 2, start);
    PrefixDistinct(a, b, Min(Min(wanted, room), |a + b + a|));
    assert a == [] <==> NoneFree(k, t, start, |t|) by {
      if a != [] { assert a[0] in a; }
      if x :| start <= x < |t| && IsFree(k, t[x]) { assert x in a; }
    }
  }

  /** With an exact counter a refill yields distinct free clusters, at least one when there is one. */
  lemma RefillExact(k: FatType, t: seq<nat>, start: nat, wanted: nat, room: nat)
    requires 2 <= start <= |t| && wanted == CountFree(k, t, |t|)
    ensures Distinct(Refill(k, t, start, wanted, room))
    ensures forall x :: x in Refill(k, t, start, wanted, room) ==> IsCluster(t, x) && IsFree(k, t[x])
    ensures |Refill(k, t, start, wanted, room)| == Min(wanted, room)
  {
    RefillDistinctIff(k, t, start, wanted, room);
    VisitsShape(k, t, start);
    ScanMembers(k, t, start, |t|);
    ScanMembers(k, t, 2, |t|);
    var v := Visits(k, t, start);
    forall x | x in Refill(k, t, start, wanted, room) ensures IsCluster(t, x) && IsFree(k, t[x]) {
      assert x in v;
    }
  }

  lemma {:induction false} ScanFirst(k: FatType, t: seq<nat>, from: nat, to: nat)
    requires to <= |t|
    ensures Scan(k, t, from, to) == [] ==> NoneFree(k, t, from, to)
    ensures Scan(k, t, from, to) != [] ==>
              var c := Scan(k, t, from, to)[0]; from <= c < to && IsFree(k, t[c]) && NoneFree(k, t, from, c)
  {
    if from < to { ScanFirst(k, t, from, to - 1); }
  }

  /** The first cluster a refill collects is the one that the next-fit search from its start would find. */
  lemma RefillNextFit(k: FatType, t: seq<nat>, start: nat, wanted: nat, room: nat)
    requires 2 <= start <= |t| && Refill(k, t, start, wanted, room) != []
    ensures IsNextFit(k, t, start, Refill(k, t, start, wanted, room)[0])
  {
    hide Scan, IsFree;
    ScanFirst(k, t, start, |t|);
    ScanFirst(k, t, 2, |t|);
  }

  lemma {:induction false} ScanLow(k: FatType, t: seq<nat>, start: nat, to: nat)
    requires start <= 2 <= to <= |t| && NoneFree(k, t, start, 2)
    ensures Scan(k, t, start, to) == Scan(k, t, 2, to)
  {
    if to > 2 {
      ScanLow(k, t, start, to - 1);
    } else {
      ScanNone(k, t, start, 2);
    }
  }

  lemma {:induction false} ScanNone(k: FatType, t: seq<nat>, from: nat, to: nat)
    requires to <= |t| && NoneFree(k, t, from, to)
    ensures Scan(k, t, from, to) == []
  {
    if from < to { ScanNone(k, t, from, to - 1); }
  }

  /** A refill from a reserved entry does as one from cluster 2 when no reserved entry from there on is free. */
  lemma RefillLow(k: FatType, t: seq<nat>, start: nat, wanted: nat, room: nat)
    requires start <= 2 <= |t| && NoneFree(k, t, start, 2)
    ensures Refill(k, t, start, wanted, room) == Refill(k, t, 2, wanted, room)
  {
    ScanLow(k, t, start, |t|);
  }

  /** A refill collects nothing but clusters exactly when it meets no free reserved entry, or collects nothing. */
  lemma RefillClustersIff(k: FatType, t: seq<nat>, start: nat, wanted: nat, room: nat)
    requires start <= |t| && 2 <= |t|
    ensures (forall x :: x in Refill(k, t, start, wanted, room) ==> IsCluster(t, x)) <==>
            NoneFree(k, t, start, 2) || wanted == 0 || room == 0
  {
    var v, r := Visits(k, t, start), Refill(k, t, start, wanted, room);
    ScanMembers(k, t, start, |t|);
    ScanMembers(k, t, 2, |t|);
    if NoneFree(k, t, start, 2) || wanted == 0 || room == 0 {
      forall x | x in r ensures IsCluster(t, x) { assert x in v; }
    } else {
      ScanSplit(k, t, start, 2, |t|);
      ScanMembers(k, t, start, 2);
      var x :| start <= x < 2 && IsFree(k, t[x]);
      assert x in Scan(k, t, start, 2);
      assert v[0] == Scan(k, t, start, 2)[0];
      assert v[0] in Scan(k, t, start, 2);
      assert r[0] == v[0] && r[0] in r;
    }
  }

  /** A refill finds something exactly when a cluster, or a reserved entry on its way, is free. */
  lemma RefillSomeIff(k: FatType, t: seq<nat>, start: nat, wanted: nat, room: nat)
    requires start <= |t| && 2 <= |t| && wanted > 0 && room > 0
    ensures Refill(k, t, start, wanted, room) != [] <==> CountFree(k, t, |t|) > 0 || !NoneFree(k, t, start, 2)
  {
    hide Scan, CountFree, IsFree;
    ScanCount(k, t, |t|);
    ScanMembers(k, t, start, |t|);
    ScanMembers(k, t, 2, |t|);
    var s, all := Scan(k, t, start, |t|), Scan(k, t, 2, |t|);
    assert Refill(k, t, start, wanted, room) != [] <==> s != [] || all != [];
    if s != [] && NoneFree(k, t, start, 2) {
      assert s[0] in s;
      assert s[0] in all;
    }
    if !NoneFree(k, t, start, 2) {
      var x :| start <= x < 2 && x < |t| && IsFree(k, t[x]);
      assert x in s;
    }
  }

  /** An overstated counter does make the cache hold a cluster twice. */
  lemma RefillCanRepeat()
    ensures Refill(FAT32, [0x0FFF_FFF8, 0x0FFF_FFF8, 0], 2, 2, 8192) == [2, 2]
  {
    var t := [0x0FFF_FFF8, 0x0FFF_FFF8, 0];
    assert Scan(FAT32, t, 2, 2) == [];
    assert Scan(FAT32, t, 2, 3) == [2];
  }
}
