/**
  The data region: where the bytes of a cluster lie on the device, the content
  of a chain as one byte string, and what one device write does to it.
 */
module FatData {
  import opened FatEntry
  import opened FatChain

  /** First data byte, bytes per cluster, and number of data clusters. */
  datatype Geometry = Geometry(fdb: nat, bpc: nat, clusters: nat)

  ghost predicate GeoOk(g: Geometry, disk: seq<Byte>) {
    g.bpc > 0 && g.fdb + Span(g.clusters, g.bpc) <= |disk|
  }

  predicate OnDisk(g: Geometry, cluster: nat) {
    2 <= cluster < g.clusters + 2
  }

  /** The number of bytes in n clusters. */
  function Span(n: nat, bpc: nat): nat {
    if n == 0 then 0 else Span(n - 1, bpc) + bpc
  }

  lemma {:induction false} SpanIsProduct(n: nat, bpc: nat)
    ensures Span(n, bpc) == n * bpc
  {
    if n > 0 {
      SpanIsProduct(n - 1, bpc);
      assert n * bpc == (n - 1) * bpc + bpc;
    }
  }

  lemma {:induction false} SpanLess(a: nat, b: nat, bpc: nat)
    requires a < b
    ensures Span(a, bpc) + bpc <= Span(b, bpc)
  {
    if a < b - 1 {
      SpanLess(a, b - 1, bpc);
    }
  }

  /** Device offset of a byte of a cluster. */
  function ByteOffset(g: Geometry, cluster: nat, offset: nat): (r: nat)
    requires 2 <= cluster
  {
    Span(cluster - 2, g.bpc) + g.fdb + offset
  }

  lemma ByteOffsetFormula(g: Geometry, cluster: nat, offset: nat)
    requires 2 <= cluster
    ensures ByteOffset(g, cluster, offset) == (cluster - 2) * g.bpc + g.fdb + offset
  {
    SpanIsProduct(cluster - 2, g.bpc);
  }

  /** Positions as the source computes them: cluster 1 stands for the fixed root directory of FAT12/16. */
  function DeviceOffset(k: FatType, g: Geometry, root: nat, cluster: nat, offset: nat): int {
    if cluster == 1 && k != FAT32 then root + offset else (cluster - 2) * g.bpc + g.fdb + offset
  }

  /** Data clusters are where ByteOffset says, behind every byte of a root directory that lies before the data. */
  lemma ByteOffsetCases(k: FatType, g: Geometry, root: nat, size: nat, cluster: nat, offset: nat, o: nat)
    requires 2 <= cluster
    ensures DeviceOffset(k, g, root, cluster, offset) == ByteOffset(g, cluster, offset)
    ensures k != FAT32 && root + size <= g.fdb && o < size ==>
              DeviceOffset(k, g, root, 1, o) == root + o < DeviceOffset(k, g, root, cluster, offset)
  {
    ByteOffsetFormula(g, cluster, offset);
  }

  lemma OffsetOnDisk(g: Geometry, disk: seq<Byte>, cluster: nat)
    requires GeoOk(g, disk) && OnDisk(g, cluster)
    ensures g.fdb <= ByteOffset(g, cluster, 0) && ByteOffset(g, cluster, 0) + g.bpc <= |disk|
  {
    SpanLess(cluster - 2, g.clusters, g.bpc);
  }

  /** Different clusters occupy different bytes of the device. */
  lemma ClustersApart(g: Geometry, a: nat, b: nat)
    requires 2 <= a && 2 <= b && a != b
    ensures ByteOffset(g, a, 0) + g.bpc <= ByteOffset(g, b, 0)
         || ByteOffset(g, b, 0) + g.bpc <= ByteOffset(g, a, 0)
  {
    if a < b { SpanLess(a - 2, b - 2, g.bpc); } else { SpanLess(b - 2, a - 2, g.bpc); }
  }

  /** The bytes of one cluster (zeroes for a number that is no cluster of the device). */
  ghost function Block(g: Geometry, disk: seq<Byte>, cluster: nat): (b: seq<Byte>)
    ensures |b| == g.bpc
  {
    if GeoOk(g, disk) && OnDisk(g, cluster) then
      OffsetOnDisk(g, disk, cluster);
      disk[ByteOffset(g, cluster, 0)..ByteOffset(g, cluster, 0) + g.bpc]
    else
      seq(g.bpc, _ => 0)
  }

  /** The content of the clusters of c, in order. */
  ghost function Content(g: Geometry, disk: seq<Byte>, c: seq<nat>): (s: seq<Byte>)
    ensures |s| == Span(|c|, g.bpc)
    decreases |c|
  {
    if c == [] then [] else Content(g, disk, c[..|c| - 1]) + Block(g, disk, c[|c| - 1])
  }

  /** s with the bytes from p on replaced by b. */
  function WriteAt(s: seq<Byte>, p: nat, b: seq<Byte>): (r: seq<Byte>)
    requires p + |b| <= |s|
    ensures |r| == |s|
  {
    s[..p] + b + s[p + |b|..]
  }

  lemma TakeMore(s: seq<Byte>, a: nat, n: nat)
    requires a + n <= |s|
    ensures s[..a + n] == s[..a] + s[a..a + n] && s[..0] == []
  {
  }

  lemma WriteAtNothing(s: seq<Byte>, p: nat)
    requires p <= |s|
    ensures WriteAt(s, p, []) == s
  {
    assert s[..p] + [] == s[..p];
  }

  lemma WriteAtTwice(s: seq<Byte>, p: nat, a: seq<Byte>, b: seq<Byte>)
    requires p + |a| + |b| <= |s|
    ensures WriteAt(WriteAt(s, p, a), p + |a|, b) == WriteAt(s, p, a + b)
  {
  }

  lemma WriteAtAppend(s: seq<Byte>, p: nat, a: seq<Byte>, e: seq<Byte>)
    requires p + |a| <= |s|
    ensures WriteAt(s, p, a) + e == WriteAt(s + e, p, a)
  {
  }

  lemma WriteAtEnd(s: seq<Byte>, e: seq<Byte>, p: nat, a: seq<Byte>)
    requires p + |a| <= |e|
    ensures s + WriteAt(e, p, a) == WriteAt(s + e, |s| + p, a)
  {
  }

  lemma WriteAtSlice(s: seq<Byte>, lo: nat, hi: nat, p: nat, b: seq<Byte>)
    requires lo <= p && p + |b| <= hi <= |s|
    ensures WriteAt(s, p, b)[lo..hi] == WriteAt(s[lo..hi], p - lo, b)
  {
  }

  /** The device after bytes b were written at an offset of a cluster. */
  ghost function Poke(g: Geometry, disk: seq<Byte>, cluster: nat, offset: nat, b: seq<Byte>): (r: seq<Byte>)
    requires GeoOk(g, disk) && OnDisk(g, cluster) && offset + |b| <= g.bpc
    ensures |r| == |disk|
  {
    OffsetOnDisk(g, disk, cluster);
    WriteAt(disk, ByteOffset(g, cluster, offset), b)
  }

  lemma BlockPoked(g: Geometry, disk: seq<Byte>, cluster: nat, offset: nat, b: seq<Byte>)
    requires GeoOk(g, disk) && OnDisk(g, cluster) && offset + |b| <= g.bpc
    ensures Block(g, Poke(g, disk, cluster, offset, b), cluster) == WriteAt(Block(g, disk, cluster), offset, b)
  {
    OffsetOnDisk(g, disk, cluster);
    var lo := ByteOffset(g, cluster, 0);
    assert ByteOffset(g, cluster, offset) == lo + offset;
    WriteAtSlice(disk, lo, lo + g.bpc, lo + offset, b);
  }

  lemma BlockNotPoked(g: Geometry, disk: seq<Byte>, cluster: nat, offset: nat, b: seq<Byte>, x: nat)
    requires GeoOk(g, disk) && OnDisk(g, cluster) && offset + |b| <= g.bpc
    requires x != cluster
    ensures Block(g, Poke(g, disk, cluster, offset, b), x) == Block(g, disk, x)
  {
    if OnDisk(g, x) {
      OffsetOnDisk(g, disk, cluster);
      OffsetOnDisk(g, disk, x);
      ClustersApart(g, cluster, x);
    }
  }

  lemma {:induction false} ContentFrame(g: Geometry, disk: seq<Byte>, disk': seq<Byte>, c: seq<nat>)
    requires forall x :: x in c ==> Block(g, disk', x) == Block(g, disk, x)
    ensures Content(g, disk', c) == Content(g, disk, c)
    decreases |c|
  {
    if c != [] {
      assert c[|c| - 1] in c;
      ContentFrame(g, disk, disk', c[..|c| - 1]);
    }
  }

  lemma ContentNotPoked(g: Geometry, disk: seq<Byte>, cluster: nat, offset: nat, b: seq<Byte>, c: seq<nat>)
    requires GeoOk(g, disk) && OnDisk(g, cluster) && offset + |b| <= g.bpc
    requires cluster !in c
    ensures Content(g, Poke(g, disk, cluster, offset, b), c) == Content(g, disk, c)
  {
    var disk' := Poke(g, disk, cluster, offset, b);
    forall x | x in c ensures Block(g, disk', x) == Block(g, disk, x) {
      BlockNotPoked(g, disk, cluster, offset, b, x);
    }
    ContentFrame(g, disk, disk', c);
  }

  lemma {:induction false} ContentConcat(g: Geometry, disk: seq<Byte>, a: seq<nat>, b: seq<nat>)
    ensures Content(g, disk, a + b) == Content(g, disk, a) + Content(g, disk, b)
    decreases |b|
  {
    if b == [] {
      assert a + b == a;
    } else {
      var n := |b| - 1;
      var x, y, z := Content(g, disk, a), Content(g, disk, b[..n]), Block(g, disk, b[n]);
      calc {
        Content(g, disk, a + b);
        { assert (a + b)[..|a + b| - 1] == a + b[..n] && (a + b)[|a + b| - 1] == b[n]; }
        Content(g, disk, a + b[..n]) + z;
        { ContentConcat(g, disk, a, b[..n]); }
        x + y + z;
        { Regroup(x, y, z); }
        x + Content(g, disk, b);
      }
    }
  }

  lemma ContentOne(g: Geometry, disk: seq<Byte>, x: nat)
    ensures Content(g, disk, [x]) == Block(g, disk, x)
  {
    assert Content(g, disk, [x][..0]) == [];
  }

  /** Content around one cluster of a chain. */
  lemma ContentParts(g: Geometry, disk: seq<Byte>, head: seq<nat>, x: nat, tail: seq<nat>)
    ensures Content(g, disk, head + [x] + tail)
         == Content(g, disk, head) + Block(g, disk, x) + Content(g, disk, tail)
  {
    ContentConcat(g, disk, head + [x], tail);
    ContentConcat(g, disk, head, [x]);
    ContentOne(g, disk, x);
  }

  lemma WriteMiddle(s: seq<Byte>, m: seq<Byte>, e: seq<Byte>, p: nat, b: seq<Byte>)
    requires p + |b| <= |m|
    ensures s + WriteAt(m, p, b) + e == WriteAt(s + m + e, |s| + p, b)
  {
    WriteAtEnd(s, m, p, b);
    WriteAtAppend(s + m, |s| + p, b, e);
  }

  lemma DistinctSplit(c: seq<nat>, j: nat)
    requires Distinct(c) && j < |c|
    ensures c == c[..j] + [c[j]] + c[j + 1..]
    ensures c[j] !in c[..j] && c[j] !in c[j + 1..]
  {
  }

  /** Cluster j of c sits at position Span(j) of the content. */
  lemma ContentBlock(g: Geometry, disk: seq<Byte>, c: seq<nat>, j: nat)
    requires j < |c|
    ensures Span(j, g.bpc) + g.bpc <= Span(|c|, g.bpc)
    ensures Content(g, disk, c)[Span(j, g.bpc)..Span(j, g.bpc) + g.bpc] == Block(g, disk, c[j])
  {
    hide Content, Block, Span;
    assert c == c[..j] + [c[j]] + c[j + 1..];
    ContentParts(g, disk, c[..j], c[j], c[j + 1..]);
    SpanLess(j, |c|, g.bpc);
    Middle(Content(g, disk, c[..j]), Block(g, disk, c[j]), Content(g, disk, c[j + 1..]));
  }

  lemma Middle(a: seq<Byte>, m: seq<Byte>, b: seq<Byte>)
    ensures (a + m + b)[|a|..|a| + |m|] == m
  {}

  lemma Regroup(x: seq<Byte>, y: seq<Byte>, z: seq<Byte>)
    ensures x + y + z == x + (y + z)
  {}

  lemma PartsPoked(g: Geometry, disk: seq<Byte>, head: seq<nat>, x: nat, tail: seq<nat>, offset: nat, b: seq<Byte>)
    requires GeoOk(g, disk) && OnDisk(g, x) && offset + |b| <= g.bpc && x !in head && x !in tail
    ensures Span(|head|, g.bpc) + offset + |b| <= Span(|head + [x] + tail|, g.bpc)
    ensures Content(g, Poke(g, disk, x, offset, b), head + [x] + tail)
         == WriteAt(Content(g, disk, head + [x] + tail), Span(|head|, g.bpc) + offset, b)
  {
    hide Content, Block, Poke, WriteAt, GeoOk;
    SpanLess(|head|, |head + [x] + tail|, g.bpc);
    ContentParts(g, disk, head, x, tail);
    ContentParts(g, Poke(g, disk, x, offset, b), head, x, tail);
    ContentNotPoked(g, disk, x, offset, b, head);
    ContentNotPoked(g, disk, x, offset, b, tail);
    BlockPoked(g, disk, x, offset, b);
    WriteMiddle(Content(g, disk, head), Block(g, disk, x), Content(g, disk, tail), offset, b);
  }

  /**
    One device write inside cluster j of a chain replaces exactly the bytes of
    the chain's content at that position.
   */
  lemma ContentPoked(g: Geometry, disk: seq<Byte>, c: seq<nat>, j: nat, offset: nat, b: seq<Byte>)
    requires GeoOk(g, disk) && Distinct(c) && j < |c| && OnDisk(g, c[j]) && offset + |b| <= g.bpc
    ensures Span(j, g.bpc) + offset + |b| <= Span(|c|, g.bpc)
    ensures Content(g, Poke(g, disk, c[j], offset, b), c)
         == WriteAt(Content(g, disk, c), Span(j, g.bpc) + offset, b)
  {
    hide Content, Block, Poke, WriteAt, GeoOk, Distinct, Span;
    DistinctSplit(c, j);
    PartsPoked(g, disk, c[..j], c[j], c[j + 1..], offset, b);
  }

  // ---- files ----

  /** s with b put at position p, growing it when b goes past the end. */
  function Splice(s: seq<Byte>, p: nat, b: seq<Byte>): seq<Byte>
    requires p <= |s|
  {
    s[..p] + b + (if p + |b| <= |s| then s[p + |b|..] else [])
  }

  ghost function FileBytes(g: Geometry, disk: seq<Byte>, c: seq<nat>, size: nat): seq<Byte>
    requires size <= Span(|c|, g.bpc)
  {
    Content(g, disk, c)[..size]
  }

  function Max(a: nat, b: nat): nat { if a > b then a else b }

  lemma SplicePrefix(s: seq<Byte>, e: seq<Byte>, size: nat, p: nat, b: seq<Byte>)
    requires p <= size <= |s| && p + |b| <= |s + e|
    ensures WriteAt(s + e, p, b)[..Max(size, p + |b|)] == Splice(s[..size], p, b)
  {
    var w := WriteAt(s + e, p, b);
    assert (s + e)[..p] == s[..size][..p];
    if p + |b| <= size {
      assert w[..size] == s[..p] + b + s[p + |b|..size];
    }
  }

  /**
    Bytes spliced into the content of a grown chain are spliced into the file:
    the stale bytes of the added clusters never show inside the file.
   */
  lemma SpliceFile(g: Geometry, disk: seq<Byte>, disk': seq<Byte>, c: seq<nat>, added: seq<nat>,
                   size: nat, p: nat, b: seq<Byte>)
    requires p <= size <= Span(|c|, g.bpc) && p + |b| <= Span(|c + added|, g.bpc)
    requires Content(g, disk', c + added) == WriteAt(Content(g, disk, c + added), p, b)
    ensures Max(size, p + |b|) <= Span(|c + added|, g.bpc)
    ensures FileBytes(g, disk', c + added, Max(size, p + |b|)) == Splice(FileBytes(g, disk, c, size), p, b)
  {
    ContentConcat(g, disk, c, added);
    SplicePrefix(Content(g, disk, c), Content(g, disk, added), size, p, b);
  }

  /** The number of clusters that len bytes need. */
  function Ceil(len: nat, bpc: nat): nat
    requires bpc > 0
  {
    if len == 0 then 0 else if len <= bpc then 1 else 1 + Ceil(len - bpc, bpc)
  }

  lemma {:induction false} CeilBounds(len: nat, bpc: nat)
    requires bpc > 0
    ensures len <= Span(Ceil(len, bpc), bpc) < len + bpc
  {
    if len > bpc {
      CeilBounds(len - bpc, bpc);
    }
  }

  lemma CeilLeast(len: nat, bpc: nat, n: nat)
    requires bpc > 0 && len <= Span(n, bpc)
    ensures Ceil(len, bpc) <= n
  {
    CeilBounds(len, bpc);
    if n < Ceil(len, bpc) {
      SpanLess(n, Ceil(len, bpc), bpc);
    }
  }

  lemma CeilByDivision(len: nat, bpc: nat)
    requires bpc > 0
    ensures Ceil(len, bpc) == len / bpc + if len % bpc != 0 then 1 else 0
  {
    var q, r := len / bpc, len % bpc;
    assert len == q * bpc + r;
    SpanIsProduct(q, bpc);
    CeilBounds(len, bpc);
    var n := Ceil(len, bpc);
    if n < q { SpanLess(n, q, bpc); }
    if q + 1 < n { SpanLess(q + 1, n, bpc); }
    if r == 0 && q < n { SpanLess(q, n, bpc); }
  }

  /** A file cut to its first clusters shows its first bytes. */
  lemma TruncatedFile(g: Geometry, disk: seq<Byte>, c: seq<nat>, keep: nat, size: nat, len: nat)
    requires keep <= |c| && size <= Span(|c|, g.bpc) && len <= size && len <= Span(keep, g.bpc)
    ensures FileBytes(g, disk, c[..keep], len) == FileBytes(g, disk, c, size)[..len]
  {
    assert c == c[..keep] + c[keep..];
    ContentConcat(g, disk, c[..keep], c[keep..]);
  }

  /**
    Compared with the device contents disk0, exactly the bytes b were written
    at position p of chain c, and no cluster outside c was touched.
   */
  ghost predicate Written(g: Geometry, disk0: seq<Byte>, disk: seq<Byte>, c: seq<nat>, p: nat, b: seq<Byte>) {
    && GeoOk(g, disk)
    && p + |b| <= Span(|c|, g.bpc)
    && Content(g, disk, c) == WriteAt(Content(g, disk0, c), p, b)
    && forall x :: x !in c ==> Block(g, disk, x) == Block(g, disk0, x)
  }

  lemma WrittenNothing(g: Geometry, disk: seq<Byte>, c: seq<nat>, p: nat)
    requires GeoOk(g, disk) && p <= Span(|c|, g.bpc)
    ensures Written(g, disk, disk, c, p, [])
  {
    hide Content, Block, WriteAt, Span;
    WriteAtNothing(Content(g, disk, c), p);
  }

  /** One more device write at the current position. */
  lemma WrittenMore(g: Geometry, disk0: seq<Byte>, disk: seq<Byte>, c: seq<nat>, p: nat, b: seq<Byte>,
                    j: nat, offset: nat, more: seq<Byte>)
    requires Written(g, disk0, disk, c, p, b) && Distinct(c)
    requires j < |c| && OnDisk(g, c[j]) && offset + |more| <= g.bpc && p + |b| == Span(j, g.bpc) + offset
    ensures Written(g, disk0, Poke(g, disk, c[j], offset, more), c, p, b + more)
  {
    hide Content, Block, Poke, WriteAt, Distinct, Span;
    var disk' := Poke(g, disk, c[j], offset, more);
    assert Content(g, disk', c) == WriteAt(Content(g, disk0, c), p, b + more) by {
      ContentPoked(g, disk, c, j, offset, more);
      WriteAtTwice(Content(g, disk0, c), p, b, more);
    }
    SpanLess(j, |c|, g.bpc);
    forall x | x !in c ensures Block(g, disk', x) == Block(g, disk0, x) {
      assert c[j] in c;
      BlockNotPoked(g, disk, c[j], offset, more, x);
    }
  }

  /** One more cluster at the end of the chain. */
  lemma WrittenGrow(g: Geometry, disk0: seq<Byte>, disk: seq<Byte>, c: seq<nat>, p: nat, b: seq<Byte>, n: nat)
    requires Written(g, disk0, disk, c, p, b) && n !in c
    ensures Written(g, disk0, disk, c + [n], p, b)
  {
    assert (c + [n])[..|c|] == c;
    WriteAtAppend(Content(g, disk0, c), p, b, Block(g, disk0, n));
  }

  /** A chain that shares no cluster with c keeps its content. */
  lemma WrittenElsewhere(g: Geometry, disk0: seq<Byte>, disk: seq<Byte>, c: seq<nat>, p: nat, b: seq<Byte>, d: seq<nat>)
    requires Written(g, disk0, disk, c, p, b) && Disjoint(c, d)
    ensures Content(g, disk, d) == Content(g, disk0, d)
  {
    ContentFrame(g, disk0, disk, d);
  }

  // ---- reading ----

  /**
    Where a read entered at (cluster idx, offset) really starts.  Entered just
    behind a cluster, it steps to the next one with no bytes left to read there,
    and so skips it.
   */
  function ReadStart(g: Geometry, idx: nat, offset: nat): nat {
    if offset < g.bpc then Span(idx, g.bpc) + offset else Span(idx + 2, g.bpc)
  }

  ghost predicate Has(s: seq<Byte>, start: nat, b: seq<Byte>) {
    start + |b| <= |s| && s[start..start + |b|] == b
  }

  lemma SliceOfSlice(s: seq<Byte>, lo: nat, m: nat, a: nat, n: nat)
    requires lo + m <= |s| && a + n <= m
    ensures s[lo..lo + m][a..a + n] == s[lo + a..lo + a + n]
  {
    var w, x, y := s[lo..lo + m], s[lo..lo + m][a..a + n], s[lo + a..lo + a + n];
    forall i | 0 <= i < |x| ensures x[i] == y[i] {
      assert x[i] == w[a + i];
    }
  }

  lemma HasMore(s: seq<Byte>, start: nat, a: seq<Byte>, b: seq<Byte>)
    requires Has(s, start, a) && Has(s, start + |a|, b)
    ensures Has(s, start, a + b)
  {
    assert s[start..start + |a + b|] == s[start..start + |a|] + s[start + |a|..start + |a| + |b|];
  }

  /** A slice of cluster j is a slice of the content. */
  lemma HasBlock(g: Geometry, disk: seq<Byte>, c: seq<nat>, j: nat, offset: nat, n: nat)
    requires j < |c| && offset + n <= g.bpc
    ensures Has(Content(g, disk, c), Span(j, g.bpc) + offset, Block(g, disk, c[j])[offset..offset + n])
  {
    hide Content, Block;
    ContentBlock(g, disk, c, j);
    SliceOfSlice(Content(g, disk, c), Span(j, g.bpc), g.bpc, offset, n);
  }

  /** A read that started at byte `start` of content s has got out, and may take left more bytes of cluster j. */
  ghost predicate Reading(g: Geometry, s: seq<Byte>, start: nat, out: seq<Byte>, j: nat, offset: nat, left: nat) {
    && Has(s, start, out)
    && start + |out| + left == Span(j + 1, g.bpc)
    && offset + left <= g.bpc
    && (left > 0 || out != [] ==> offset + left == g.bpc)
  }

  lemma ReadingMore(g: Geometry, s: seq<Byte>, start: nat, out: seq<Byte>, j: nat, offset: nat, left: nat, b: seq<Byte>)
    requires Reading(g, s, start, out, j, offset, left) && |b| <= left && Has(s, Span(j, g.bpc) + offset, b)
    ensures Reading(g, s, start, out + b, j, offset + |b|, left - |b|)
  {
    if b == [] {
      assert out + b == out;
    } else {
      HasMore(s, start, out, b);
    }
  }

  lemma ReadingNext(g: Geometry, s: seq<Byte>, start: nat, out: seq<Byte>, j: nat, offset: nat)
    requires Reading(g, s, start, out, j, offset, 0)
    ensures Reading(g, s, start, out, j + 1, 0, g.bpc)
  {
  }

  lemma ReadingPosition(g: Geometry, s: seq<Byte>, start: nat, out: seq<Byte>, j: nat, offset: nat, left: nat, n: nat)
    requires Reading(g, s, start, out, j, offset, left) && j < n && g.bpc > 0
    ensures Has(s, start, out) && start + |out| <= Span(n, g.bpc)
    ensures out != [] ==> start + |out| == Span(j, g.bpc) + offset
    ensures out != [] ==> offset < g.bpc || start + |out| == Span(j + 1, g.bpc)
    ensures left == 0 ==> start + |out| == Span(j + 1, g.bpc)
    ensures offset < g.bpc && out != [] ==> start + |out| < Span(n, g.bpc)
    ensures j + 1 < n ==> Span(j + 1, g.bpc) < Span(n, g.bpc)
  {
    SpanLess(j, n, g.bpc);
    if j + 1 < n { SpanLess(j + 1, n, g.bpc); }
  }
}
