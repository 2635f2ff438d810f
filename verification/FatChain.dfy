/**
  Cluster chains over the table as numbers, and what the volume operations do
  to them: the global invariant of a volume, the abstract operations, and the
  theorem that every run of operations keeps the invariant and loses no cluster.
 */
module FatChain {
  import opened FatEntry

  type Files = map<nat, seq<nat>>

  /** Clusters are numbered 2..|t|-1; no cluster number is a bad or an EOC mark. */
  ghost predicate TableOk(k: FatType, t: seq<nat>) {
    && 2 <= |t| <= BadValue(k)
    && forall i :: 0 <= i < |t| ==> t[i] < Limit(k)
  }

  predicate IsCluster(t: seq<nat>, c: nat) {
    2 <= c < |t|
  }

  lemma ClusterIsLegal(k: FatType, t: seq<nat>, c: nat)
    requires TableOk(k, t) && IsCluster(t, c)
    ensures LegalClus(k, c) && c < Limit(k)
  {
  }

  /** c lists the clusters of one chain, linked in order and closed by an EOC mark. */
  ghost predicate IsChain(k: FatType, t: seq<nat>, c: seq<nat>) {
    && |c| > 0
    && (forall i :: 0 <= i < |c| ==> IsCluster(t, c[i]))
    && (forall i :: 0 <= i < |c| - 1 ==> t[c[i]] == c[i + 1])
    && IsEoc(k, t[c[|c| - 1]])
  }

  /** A chain never visits a cluster twice. */
  lemma {:induction false} ChainAcyclic(k: FatType, t: seq<nat>, c: seq<nat>, i: nat, j: nat)
    requires TableOk(k, t) && IsChain(k, t, c)
    requires i < j < |c|
    ensures c[i] != c[j]
    decreases |c| - j
  {
    ClusterIsLegal(k, t, c[i + 1]);
    if c[i] == c[j] && j < |c| - 1 {
      ChainAcyclic(k, t, c, i + 1, j + 1);
    }
  }

  ghost predicate Distinct(c: seq<nat>) {
    forall i, j :: 0 <= i < j < |c| ==> c[i] != c[j]
  }

  lemma ChainDistinct(k: FatType, t: seq<nat>, c: seq<nat>)
    requires TableOk(k, t) && IsChain(k, t, c)
    ensures Distinct(c)
    ensures forall x :: x in c ==> IsCluster(t, x) && !IsFree(k, t[x])
  {
    forall i, j | 0 <= i < j < |c| ensures c[i] != c[j] {
      ChainAcyclic(k, t, c, i, j);
    }
    forall x | x in c ensures IsCluster(t, x) && !IsFree(k, t[x]) {
      var i :| 0 <= i < |c| && c[i] == x;
      if i < |c| - 1 {
        ClusterIsLegal(k, t, c[i + 1]);
      }
    }
  }

  lemma ChainFrame(k: FatType, t: seq<nat>, t': seq<nat>, c: seq<nat>)
    requires IsChain(k, t, c) && |t'| == |t|
    requires forall x :: x in c && x < |t| ==> t'[x] == t[x]
    ensures IsChain(k, t', c)
  {
  }

  ghost predicate Disjoint(a: seq<nat>, b: seq<nat>) {
    forall x :: x in a ==> x !in b
  }

  ghost predicate ChainsOk(k: FatType, t: seq<nat>, files: Files) {
    && (forall f :: f in files && files[f] != [] ==> IsChain(k, t, files[f]))
    && (forall f, g :: f in files && g in files && f != g ==> Disjoint(files[f], files[g]))
  }

  /** The number of free entries among the clusters below n. */
  function CountFree(k: FatType, t: seq<nat>, n: nat): (r: nat)
    requires n <= |t|
  {
    if n <= 2 then 0 else CountFree(k, t, n - 1) + if IsFree(k, t[n - 1]) then 1 else 0
  }

  function FreeBit(k: FatType, v: nat): nat { if IsFree(k, v) then 1 else 0 }

  lemma {:induction false} CountUpdate(k: FatType, t: seq<nat>, i: nat, v: nat, n: nat)
    requires i < |t| && n <= |t|
    ensures CountFree(k, t[i := v], n)
         == CountFree(k, t, n) + (if 2 <= i < n then FreeBit(k, v) - FreeBit(k, t[i]) else 0)
  {
    if n > 2 {
      CountUpdate(k, t, i, v, n - 1);
    }
  }

  lemma {:induction false} CountPositive(k: FatType, t: seq<nat>, n: nat, c: nat)
    requires n <= |t| && 2 <= c < n && IsFree(k, t[c])
    ensures CountFree(k, t, n) > 0
  {
    if c < n - 1 {
      CountPositive(k, t, n - 1, c);
    }
  }

  /** A positive count has a witness. */
  lemma {:induction false} CountWitness(k: FatType, t: seq<nat>, n: nat) returns (c: nat)
    requires n <= |t| && CountFree(k, t, n) > 0
    ensures 2 <= c < n && IsFree(k, t[c])
  {
    if IsFree(k, t[n - 1]) {
      c := n - 1;
    } else {
      c := CountWitness(k, t, n - 1);
    }
  }

  /** The table with the entries of c set to zero. */
  function Zero(t: seq<nat>, c: seq<nat>): (r: seq<nat>)
    requires forall i :: 0 <= i < |c| ==> c[i] < |t|
    ensures |r| == |t|
    decreases |c|
  {
    if c == [] then t else Zero(t[c[0] := 0], c[1..])
  }

  lemma {:induction false} ZeroAt(t: seq<nat>, c: seq<nat>, x: nat)
    requires forall i :: 0 <= i < |c| ==> c[i] < |t|
    requires x < |t|
    ensures Zero(t, c)[x] == if x in c then 0 else t[x]
    decreases |c|
  {
    if c != [] {
      ZeroAt(t[c[0] := 0], c[1..], x);
      assert x in c <==> x == c[0] || x in c[1..];
    }
  }

  lemma {:induction false} ZeroSnoc(t: seq<nat>, c: seq<nat>, x: nat)
    requires (forall i :: 0 <= i < |c| ==> c[i] < |t|) && x < |t|
    ensures Zero(t, c + [x]) == Zero(t, c)[x := 0]
    decreases |c|
  {
    if c != [] {
      ZeroSnoc(t[c[0] := 0], c[1..], x);
      assert (c + [x])[1..] == c[1..] + [x];
    }
  }

  /** One turn of releasing a chain: its next link is still intact, and ends the loop only at the end. */
  lemma ReleaseStep(k: FatType, t: seq<nat>, c: seq<nat>, i: nat)
    requires TableOk(k, t) && IsChain(k, t, c) && i < |c|
    ensures Zero(t, c[..i])[c[i]] == t[c[i]]
    ensures Zero(t, c[..i + 1]) == Zero(t, c[..i])[c[i] := 0]
    ensures if i == |c| - 1 then IsEoc(k, t[c[i]]) else !IsEoc(k, t[c[i]]) && t[c[i]] == c[i + 1]
  {
    ChainDistinct(k, t, c);
    ZeroAt(t, c[..i], c[i]);
    ZeroSnoc(t, c[..i], c[i]);
    assert c[..i + 1] == c[..i] + [c[i]];
    if i < |c| - 1 {
      ClusterIsLegal(k, t, c[i + 1]);
    }
  }

  lemma {:induction false} ZeroCount(k: FatType, t: seq<nat>, c: seq<nat>)
    requires Distinct(c)
    requires forall i :: 0 <= i < |c| ==> 2 <= c[i] < |t| && !IsFree(k, t[c[i]])
    ensures CountFree(k, Zero(t, c), |t|) == CountFree(k, t, |t|) + |c|
    decreases |c|
  {
    if c != [] {
      CountUpdate(k, t, c[0], 0, |t|);
      ZeroCount(k, t[c[0] := 0], c[1..]);
    }
  }

  // ---- the abstract volume and its operations ----

  datatype Vol = Vol(k: FatType, t: seq<nat>, freecnt: nat, files: Files)

  /** Chains are disjoint, acyclic and closed by EOC, and the free counter is exact. */
  ghost predicate Good(v: Vol) {
    && TableOk(v.k, v.t)
    && ChainsOk(v.k, v.t, v.files)
    && v.freecnt == CountFree(v.k, v.t, |v.t|)
  }

  datatype Op =
    | Create(f: nat)             // a new, empty file
    | Start(f: nat, n: nat)      // n becomes the first cluster of f
    | Grow(f: nat, n: nat)       // n is linked after the last cluster of f
    | Cut(f: nat, keep: nat)     // f keeps its first keep clusters
    | Drop(f: nat)               // f is deleted

  ghost predicate FreeCluster(v: Vol, n: nat) {
    IsCluster(v.t, n) && IsFree(v.k, v.t[n])
  }

  ghost predicate Enabled(v: Vol, op: Op) {
    match op
    case Create(f) => f !in v.files
    case Start(f, n) => f in v.files && v.files[f] == [] && FreeCluster(v, n)
    case Grow(f, n) => f in v.files && v.files[f] != [] && FreeCluster(v, n)
    case Cut(f, keep) => f in v.files && keep <= |v.files[f]|
    case Drop(f) => f in v.files
  }

  function Last(c: seq<nat>): nat
    requires c != []
  {
    c[|c| - 1]
  }

  /** The table after the tail of chain c from position keep was released. */
  ghost function CutTable(k: FatType, t: seq<nat>, c: seq<nat>, keep: nat): (r: seq<nat>)
    requires keep <= |c| && forall i :: 0 <= i < |c| ==> c[i] < |t|
    ensures |r| == |t|
  {
    Zero(if keep > 0 then t[c[keep - 1] := EocValue(k)] else t, c[keep..])
  }

  ghost function Apply(v: Vol, op: Op): Vol
    requires Good(v) && Enabled(v, op)
  {
    match op
    case Create(f) => v.(files := v.files[f := []])
    case Start(f, n) =>
      CountPositive(v.k, v.t, |v.t|, n);
      v.(t := v.t[n := EocValue(v.k)], freecnt := v.freecnt - 1, files := v.files[f := [n]])
    case Grow(f, n) =>
      CountPositive(v.k, v.t, |v.t|, n);
      var c := v.files[f];
      v.(t := v.t[Last(c) := n][n := EocValue(v.k)], freecnt := v.freecnt - 1, files := v.files[f := c + [n]])
    case Cut(f, keep) =>
      var c := v.files[f];
      v.(t := CutTable(v.k, v.t, c, keep), freecnt := v.freecnt + |c| - keep, files := v.files[f := c[..keep]])
    case Drop(f) =>
      var c := v.files[f];
      v.(t := Zero(v.t, c), freecnt := v.freecnt + |c|, files := v.files - {f})
  }

  lemma FreeNotOwned(v: Vol, f: nat, n: nat)
    requires Good(v) && f in v.files && FreeCluster(v, n)
    ensures n !in v.files[f]
  {
    if v.files[f] != [] {
      ChainDistinct(v.k, v.t, v.files[f]);
    }
  }

  lemma StartGood(v: Vol, f: nat, n: nat)
    requires Good(v) && Enabled(v, Start(f, n))
    ensures Good(Apply(v, Start(f, n)))
  {
    var v' := Apply(v, Start(f, n));
    CountUpdate(v.k, v.t, n, EocValue(v.k), |v.t|);
    forall g | g in v.files ensures n !in v.files[g] { FreeNotOwned(v, g, n); }
    forall g | g in v'.files && v'.files[g] != [] ensures IsChain(v.k, v'.t, v'.files[g]) {
      if g != f { ChainFrame(v.k, v.t, v'.t, v.files[g]); }
    }
  }

  lemma GrowGood(v: Vol, f: nat, n: nat)
    requires Good(v) && Enabled(v, Grow(f, n))
    ensures Good(Apply(v, Grow(f, n)))
  {
    var v' := Apply(v, Grow(f, n));
    var c := v.files[f];
    ChainDistinct(v.k, v.t, c);
    ClusterIsLegal(v.k, v.t, n);
    CountUpdate(v.k, v.t, Last(c), n, |v.t|);
    CountUpdate(v.k, v.t[Last(c) := n], n, EocValue(v.k), |v.t|);
    forall g | g in v.files ensures n !in v.files[g] { FreeNotOwned(v, g, n); }
    forall g | g in v'.files && v'.files[g] != [] ensures IsChain(v.k, v'.t, v'.files[g]) {
      if g != f {
        assert Last(c) in c;
        assert Disjoint(c, v.files[g]);
        ChainFrame(v.k, v.t, v'.t, v.files[g]);
      } else {
        GrowChain(v.k, v.t, c, n);
      }
    }
  }

  lemma GrowChain(k: FatType, t: seq<nat>, c: seq<nat>, n: nat)
    requires TableOk(k, t) && IsChain(k, t, c) && IsCluster(t, n) && IsFree(k, t[n])
    ensures IsChain(k, t[Last(c) := n][n := EocValue(k)], c + [n])
  {
    ChainDistinct(k, t, c);
  }

  lemma CutTableAt(k: FatType, t: seq<nat>, c: seq<nat>, keep: nat, x: nat)
    requires TableOk(k, t) && IsChain(k, t, c) && keep <= |c| && x < |t|
    ensures CutTable(k, t, c, keep)[x]
         == if x in c[keep..] then 0 else if keep > 0 && x == c[keep - 1] then EocValue(k) else t[x]
  {
    ZeroAt(if keep > 0 then t[c[keep - 1] := EocValue(k)] else t, c[keep..], x);
  }

  lemma CutCount(k: FatType, t: seq<nat>, c: seq<nat>, keep: nat)
    requires TableOk(k, t) && IsChain(k, t, c) && keep <= |c|
    ensures CountFree(k, CutTable(k, t, c, keep), |t|) == CountFree(k, t, |t|) + |c| - keep
  {
    ChainDistinct(k, t, c);
    var t1 := if keep > 0 then t[c[keep - 1] := EocValue(k)] else t;
    if keep > 0 {
      CountUpdate(k, t, c[keep - 1], EocValue(k), |t|);
      assert c[keep - 1] in c;
    }
    forall i | 0 <= i < |c[keep..]| ensures IsCluster(t1, c[keep..][i]) && !IsFree(k, t1[c[keep..][i]]) {
      assert c[keep + i] in c;
    }
    ZeroCount(k, t1, c[keep..]);
  }

  lemma CutChain(k: FatType, t: seq<nat>, c: seq<nat>, keep: nat)
    requires TableOk(k, t) && IsChain(k, t, c) && 0 < keep <= |c|
    ensures IsChain(k, CutTable(k, t, c, keep), c[..keep])
  {
    ChainDistinct(k, t, c);
    var t' := CutTable(k, t, c, keep);
    forall i | 0 <= i < keep
      ensures t'[c[i]] == if i == keep - 1 then EocValue(k) else t[c[i]]
    {
      CutTableAt(k, t, c, keep, c[i]);
      assert c[i] !in c[keep..];
    }
  }

  /** The released tail is itself a chain once its predecessor was closed. */
  lemma TailChain(k: FatType, t: seq<nat>, c: seq<nat>, keep: nat, v: nat)
    requires TableOk(k, t) && IsChain(k, t, c) && 0 < keep < |c|
    ensures IsChain(k, t[c[keep - 1] := v], c[keep..])
  {
    ChainDistinct(k, t, c);
  }

  lemma CutTableOk(k: FatType, t: seq<nat>, c: seq<nat>, keep: nat)
    requires TableOk(k, t) && IsChain(k, t, c) && keep <= |c|
    ensures TableOk(k, CutTable(k, t, c, keep))
  {
    forall x | 0 <= x < |t| ensures CutTable(k, t, c, keep)[x] < Limit(k) {
      CutTableAt(k, t, c, keep, x);
    }
  }

  lemma CutKeepsFree(k: FatType, t: seq<nat>, c: seq<nat>, keep: nat)
    requires TableOk(k, t) && IsChain(k, t, c) && keep <= |c|
    ensures forall x: nat :: IsCluster(t, x) && IsFree(k, t[x]) ==> IsFree(k, CutTable(k, t, c, keep)[x])
  {
    ChainDistinct(k, t, c);
    forall x: nat | IsCluster(t, x) && IsFree(k, t[x]) ensures IsFree(k, CutTable(k, t, c, keep)[x]) {
      CutTableAt(k, t, c, keep, x);
      assert keep > 0 ==> c[keep - 1] in c;
    }
  }

  lemma CutFrame(k: FatType, t: seq<nat>, c: seq<nat>, keep: nat, d: seq<nat>)
    requires TableOk(k, t) && IsChain(k, t, c) && keep <= |c|
    requires IsChain(k, t, d) && Disjoint(c, d)
    ensures IsChain(k, CutTable(k, t, c, keep), d)
  {
    forall x | x in d && x < |t| ensures CutTable(k, t, c, keep)[x] == t[x] {
      CutTableAt(k, t, c, keep, x);
      assert forall y :: y in c[keep..] ==> y in c;
    }
    ChainFrame(k, t, CutTable(k, t, c, keep), d);
  }

  lemma CutGood(v: Vol, f: nat, keep: nat)
    requires Good(v) && Enabled(v, Cut(f, keep))
    ensures Good(Apply(v, Cut(f, keep)))
  {
    var c := v.files[f];
    if c != [] {
      var v' := Apply(v, Cut(f, keep));
      CutTableOk(v.k, v.t, c, keep);
      CutCount(v.k, v.t, c, keep);
      forall g | g in v'.files && v'.files[g] != [] ensures IsChain(v.k, v'.t, v'.files[g]) {
        if g != f {
          CutFrame(v.k, v.t, c, keep, v.files[g]);
        } else {
          CutChain(v.k, v.t, c, keep);
        }
      }
      assert forall x :: x in c[..keep] ==> x in c;
    }
  }

  lemma DropGood(v: Vol, f: nat)
    requires Good(v) && Enabled(v, Drop(f))
    ensures Good(Apply(v, Drop(f)))
    ensures Apply(v, Drop(f)) == Apply(v, Cut(f, 0)).(files := v.files - {f})
  {
    var c := v.files[f];
    assert c[0..] == c;
    CutGood(v, f, 0);
    var v1, v' := Apply(v, Cut(f, 0)), Apply(v, Drop(f));
    forall g | g in v'.files && v'.files[g] != [] ensures IsChain(v.k, v'.t, v'.files[g]) {
      assert g in v1.files && v1.files[g] == v'.files[g];
    }
  }

  /** Every operation keeps the volume invariant. */
  lemma StepGood(v: Vol, op: Op)
    requires Good(v) && Enabled(v, op)
    ensures Good(Apply(v, op))
  {
    match op
    case Create(f) =>
    case Start(f, n) => StartGood(v, f, n);
    case Grow(f, n) => GrowGood(v, f, n);
    case Cut(f, keep) => CutGood(v, f, keep);
    case Drop(f) => DropGood(v, f);
  }

  ghost predicate Owned(files: Files, x: nat) {
    exists f :: f in files && x in files[f]
  }

  /** x is either free or in some file's chain. */
  ghost predicate InPool(v: Vol, x: nat) {
    IsCluster(v.t, x) && (IsFree(v.k, v.t[x]) || Owned(v.files, x))
  }

  lemma OwnedAfter(files: Files, files': Files, f: nat, x: nat)
    requires f in files
    requires forall g :: g != f ==> (g in files <==> g in files')
    requires forall g :: g != f && g in files ==> files'[g] == files[g]
    ensures Owned(files', x) <==> (f in files' && x in files'[f]) || exists g :: g != f && g in files && x in files[g]
  {
    if g :| g in files' && x in files'[g] && g != f { assert g in files && x in files[g]; }
    if g :| g != f && g in files && x in files[g] { assert g in files' && x in files'[g]; }
  }

  lemma OwnedOne(files: Files, f: nat, x: nat)
    requires f in files
    ensures Owned(files, x) <==> x in files[f] || exists g :: g != f && g in files && x in files[g]
  {
  }

  lemma PoolCut(v: Vol, f: nat, keep: nat, x: nat)
    requires Good(v) && Enabled(v, Cut(f, keep)) && IsCluster(v.t, x)
    ensures InPool(Apply(v, Cut(f, keep)), x) <==> InPool(v, x)
  {
    var c := v.files[f];
    var v' := Apply(v, Cut(f, keep));
    OwnedOne(v.files, f, x);
    OwnedAfter(v.files, v'.files, f, x);
    if c != [] {
      CutTableAt(v.k, v.t, c, keep, x);
      assert c == c[..keep] + c[keep..];
    }
  }

  /** No operation loses a cluster or makes one up. */
  lemma StepConserves(v: Vol, op: Op, x: nat)
    requires Good(v) && Enabled(v, op)
    ensures InPool(Apply(v, op), x) <==> InPool(v, x)
  {
    if IsCluster(v.t, x) {
      var v' := Apply(v, op);
      match op
      case Create(f) =>
        if g :| g in v.files && x in v.files[g] { assert g in v'.files && x in v'.files[g]; }
      case Start(f, n) =>
        OwnedOne(v.files, f, x);
        OwnedAfter(v.files, v'.files, f, x);
      case Grow(f, n) =>
        OwnedOne(v.files, f, x);
        OwnedAfter(v.files, v'.files, f, x);
        assert Last(v.files[f]) in v.files[f];
      case Cut(f, keep) => PoolCut(v, f, keep, x);
      case Drop(f) =>
        DropGood(v, f);
        PoolCut(v, f, 0, x);
        var v1 := Apply(v, Cut(f, 0));
        OwnedOne(v1.files, f, x);
        OwnedAfter(v1.files, v'.files, f, x);
    }
  }

  /** v' is reached from v by the operations, each enabled when it is done. */
  ghost predicate Run(v: Vol, ops: seq<Op>, v': Vol)
    decreases |ops|
  {
    Good(v) && if ops == [] then v' == v else Enabled(v, ops[0]) && Run(Apply(v, ops[0]), ops[1..], v')
  }

  /**
    Free-space conservation over whole runs: chains stay disjoint, acyclic and
    EOC-terminated, the counter stays exact, and the clusters that are free or
    owned are the same ones before and after.
   */
  lemma {:induction false} RunConserves(v: Vol, ops: seq<Op>, v': Vol)
    requires Run(v, ops, v')
    ensures Good(v') && |v'.t| == |v.t|
    ensures forall x :: InPool(v', x) <==> InPool(v, x)
    decreases |ops|
  {
    if ops != [] {
      var v1 := Apply(v, ops[0]);
      RunConserves(v1, ops[1..], v');
      forall x ensures InPool(v', x) <==> InPool(v, x) {
        StepConserves(v, ops[0], x);
      }
    }
  }

  lemma {:induction false} RunConcat(v: Vol, a: seq<Op>, v1: Vol, b: seq<Op>, v2: Vol)
    requires Run(v, a, v1) && Run(v1, b, v2)
    ensures Run(v, a + b, v2)
    decreases |a|
  {
    if a == [] {
      assert a + b == b;
    } else {
      RunConcat(Apply(v, a[0]), a[1..], v1, b, v2);
      assert (a + b)[1..] == a[1..] + b;
    }
  }

  // ---- growing one file ----

  function Grows(f: nat, added: seq<nat>): (ops: seq<Op>)
    ensures |ops| == |added|
  {
    seq(|added|, i requires 0 <= i < |added| => Grow(f, added[i]))
  }

  /** v' is v after file f grew by the clusters added, one after the other. */
  ghost predicate Grown(v: Vol, f: nat, added: seq<nat>, v': Vol) {
    && Run(v, Grows(f, added), v')
    && v'.k == v.k && f in v.files
    && v'.files == v.files[f := v.files[f] + added]
    && v'.freecnt + |added| == v.freecnt
    && (forall x :: x in added ==> FreeCluster(v, x))
    && (forall x: nat :: FreeCluster(v', x) ==> FreeCluster(v, x))
  }

  lemma GrownNone(v: Vol, f: nat)
    requires Good(v) && f in v.files
    ensures Grown(v, f, [], v)
  {
    assert v.files[f] + [] == v.files[f];
    assert v.files[f := v.files[f]] == v.files;
    assert Grows(f, []) == [];
  }

  lemma GrownMore(v: Vol, f: nat, added: seq<nat>, v': Vol, n: nat)
    requires Grown(v, f, added, v') && Good(v') && Enabled(v', Grow(f, n))
    ensures Grown(v, f, added + [n], Apply(v', Grow(f, n)))
    ensures Good(Apply(v', Grow(f, n)))
  {
    hide Run, Good, Grows;
    var v2 := Apply(v', Grow(f, n));
    GrowGood(v', f, n);
    RunOne(v', Grow(f, n));
    RunConcat(v, Grows(f, added), v', [Grow(f, n)], v2);
    GrowsMore(f, added, n);
    assert v.files[f] + added + [n] == v.files[f] + (added + [n]);
    FreeAfterGrow(v', f, n);
  }

  lemma FreeAfterGrow(v: Vol, f: nat, n: nat)
    requires Good(v) && Enabled(v, Grow(f, n))
    ensures var v2 := Apply(v, Grow(f, n)); forall x: nat :: FreeCluster(v2, x) ==> FreeCluster(v, x)
  {
    var v2 := Apply(v, Grow(f, n));
    forall x: nat | FreeCluster(v2, x) ensures FreeCluster(v, x) {
      ClusterIsLegal(v.k, v.t, n);
    }
  }

  lemma RunOne(v: Vol, op: Op)
    requires Good(v) && Enabled(v, op)
    ensures Run(v, [op], Apply(v, op))
  {
    StepGood(v, op);
    assert [op][1..] == [];
  }

  lemma GrowsMore(f: nat, added: seq<nat>, n: nat)
    ensures Grows(f, added + [n]) == Grows(f, added) + [Grow(f, n)]
  {}
}
